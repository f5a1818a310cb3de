/** The two aggregate scores computed over the retrieved candidates:
    confidence (mean credibility plus official and recency boosts, clamped
    at 100) and controversy (spread of authority levels plus a claim
    boost). Arithmetic is exact over integers and reals. */
module Scoring {
  import opened Wrappers
  import opened Domain

  /** `Math.round`: the nearest integer, halves rounded up. */
  function Round(x: real): (r: int)
    ensures x - 0.5 < r as real <= x + 0.5
  {
    (x + 0.5).Floor
  }

  lemma RoundMonotone(x: real, y: real)
    requires x <= y
    ensures Round(x) <= Round(y)
  {
  }

  function SumCredibility(docs: seq<Candidate>): int
    decreases |docs|
  {
    if |docs| == 0 then 0 else docs[0].credibility + SumCredibility(docs[1..])
  }

  /** How many candidates carry the given authority level. */
  function CountLevel(docs: seq<Candidate>, level: AuthorityLevel): (n: nat)
    ensures n <= |docs|
    decreases |docs|
  {
    if |docs| == 0 then 0
    else (if docs[0].authority == level then 1 else 0) + CountLevel(docs[1..], level)
  }

  /** A candidate is recent when its year is present and non-zero (the
      source tests it for truthiness) and less than 20 years before the
      current year; a future year therefore counts as recent. */
  predicate IsRecent(d: Candidate, currentYear: int) {
    d.year.Some? && d.year.value != 0 && currentYear - d.year.value < 20
  }

  function CountRecent(docs: seq<Candidate>, currentYear: int): (n: nat)
    ensures n <= |docs|
    decreases |docs|
  {
    if |docs| == 0 then 0
    else (if IsRecent(docs[0], currentYear) then 1 else 0) + CountRecent(docs[1..], currentYear)
  }

  predicate CredibilitiesWithin(docs: seq<Candidate>, lo: int, hi: int) {
    forall i :: 0 <= i < |docs| ==> lo <= docs[i].credibility <= hi
  }

  lemma {:induction false} SumCredibilityBounds(docs: seq<Candidate>, lo: int, hi: int)
    requires CredibilitiesWithin(docs, lo, hi)
    ensures lo * |docs| <= SumCredibility(docs) <= hi * |docs|
    decreases |docs|
  {
    if |docs| > 0 {
      SumCredibilityBounds(docs[1..], lo, hi);
    }
  }

  /** The unclamped score: mean credibility, plus 20 times the official
      fraction, plus 10 times the recent fraction. */
  function RawConfidence(docs: seq<Candidate>, currentYear: int): real
    requires |docs| > 0
  {
    var n := |docs| as real;
    var avgCredibility := SumCredibility(docs) as real / n;
    var officialBoost := (CountLevel(docs, Official) as real / n) * 20.0;
    var recencyBoost := (CountRecent(docs, currentYear) as real / n) * 10.0;
    avgCredibility + officialBoost + recencyBoost
  }

  /** Confidence of an answer drawn from `docs`, with the clock's current
      year passed in. */
  function Confidence(docs: seq<Candidate>, currentYear: int): (r: int)
    ensures |docs| == 0 ==> r == 0
    ensures r <= 100
    ensures CredibilitiesWithin(docs, 0, 100) ==> 0 <= r
  {
    if |docs| == 0 then 0
    else
      var raw := RawConfidence(docs, currentYear);
      assert CredibilitiesWithin(docs, 0, 100) ==> 0.0 <= raw by {
        if CredibilitiesWithin(docs, 0, 100) {
          RawConfidenceBounds(docs, currentYear, 0, 100);
        }
      }
      Min(100, Round(raw))
  }

  /** With every credibility in lo..hi the mean credibility lies in lo..hi
      and the two boosts add at most 30 points between them. */
  lemma RawConfidenceBounds(docs: seq<Candidate>, currentYear: int, lo: int, hi: int)
    requires |docs| > 0 && CredibilitiesWithin(docs, lo, hi)
    ensures lo as real <= RawConfidence(docs, currentYear) <= hi as real + 30.0
  {
    SumCredibilityBounds(docs, lo, hi);
    var n := |docs| as real;
    QuotientBounds(SumCredibility(docs) as real, n, lo as real, hi as real);
    QuotientBounds(CountLevel(docs, Official) as real, n, 0.0, 1.0);
    QuotientBounds(CountRecent(docs, currentYear) as real, n, 0.0, 1.0);
  }

  lemma QuotientBounds(a: real, n: real, lo: real, hi: real)
    requires 0.0 < n && lo * n <= a <= hi * n
    ensures lo <= a / n <= hi
  {
    assert (a / n) * n == a;
  }

  /** Raising one candidate's credibility, with its level and year unchanged,
      never lowers confidence. */
  lemma {:induction false} ConfidenceMonotone(docs: seq<Candidate>, i: nat, c: int, currentYear: int)
    requires i < |docs| && docs[i].credibility <= c
    ensures Confidence(docs, currentYear) <= Confidence(docs[i := docs[i].(credibility := c)], currentYear)
  {
    var docs' := docs[i := docs[i].(credibility := c)];
    SumCredibilityUpdate(docs, i, c);
    CountsUpdate(docs, i, c, currentYear);
    var n := |docs| as real;
    assert SumCredibility(docs) as real / n <= SumCredibility(docs') as real / n;
    RoundMonotone(RawConfidence(docs, currentYear), RawConfidence(docs', currentYear));
  }

  lemma {:induction false} SumCredibilityUpdate(docs: seq<Candidate>, i: nat, c: int)
    requires i < |docs|
    ensures SumCredibility(docs[i := docs[i].(credibility := c)])
         == SumCredibility(docs) - docs[i].credibility + c
    decreases |docs|
  {
    var docs' := docs[i := docs[i].(credibility := c)];
    if i > 0 {
      assert docs'[1..] == docs[1..][i - 1 := docs[i].(credibility := c)];
      SumCredibilityUpdate(docs[1..], i - 1, c);
    } else {
      assert docs'[1..] == docs[1..];
    }
  }

  lemma {:induction false} CountsUpdate(docs: seq<Candidate>, i: nat, c: int, currentYear: int)
    requires i < |docs|
    ensures forall level :: CountLevel(docs[i := docs[i].(credibility := c)], level) == CountLevel(docs, level)
    ensures CountRecent(docs[i := docs[i].(credibility := c)], currentYear) == CountRecent(docs, currentYear)
    decreases |docs|
  {
    var docs' := docs[i := docs[i].(credibility := c)];
    if i > 0 {
      assert docs'[1..] == docs[1..][i - 1 := docs[i].(credibility := c)];
      CountsUpdate(docs[1..], i - 1, c, currentYear);
    } else {
      assert docs'[1..] == docs[1..];
    }
  }

  /** The set of authority levels present among the candidates (the keys of
      the per-level count record). */
  function Levels(docs: seq<Candidate>): set<AuthorityLevel>
    decreases |docs|
  {
    if |docs| == 0 then {} else {docs[0].authority} + Levels(docs[1..])
  }

  lemma {:induction false} LevelsMembership(docs: seq<Candidate>, a: AuthorityLevel)
    ensures a in Levels(docs) <==> exists i :: 0 <= i < |docs| && docs[i].authority == a
    decreases |docs|
  {
    if |docs| > 0 {
      LevelsMembership(docs[1..], a);
      if a in Levels(docs[1..]) {
        var i :| 0 <= i < |docs[1..]| && docs[1..][i].authority == a;
        assert docs[i + 1].authority == a;
      }
      if exists i :: 0 <= i < |docs| && docs[i].authority == a {
        var i :| 0 <= i < |docs| && docs[i].authority == a;
        if i > 0 {
          assert docs[1..][i - 1].authority == a;
        }
      }
    }
  }

  lemma {:induction false} LevelsCardinality(docs: seq<Candidate>)
    ensures |Levels(docs)| <= |docs|
    ensures |docs| > 0 ==> 1 <= |Levels(docs)|
    decreases |docs|
  {
    if |docs| > 0 {
      LevelsCardinality(docs[1..]);
      assert docs[0].authority in Levels(docs);
    }
  }

  /** k/n as an exact fraction, which lies in [0,1] whenever k <= n. */
  function Fraction(k: nat, n: nat): (f: real)
    requires 0 < n && k <= n
    ensures 0.0 <= f <= 1.0
  {
    var f := k as real / n as real;
    assert f * n as real == k as real;
    f
  }

  /** The claim boost: 30 times the fraction of CLAIM-level candidates; it is
      added without rounding. */
  function ClaimBoost(docs: seq<Candidate>): (b: real)
    requires |docs| > 0
    ensures 0.0 <= b <= 30.0
  {
    Fraction(CountLevel(docs, Claim), |docs|) * 30.0
  }

  /** The rounded spread term: round((U - 1) / (N - 1) * 100) for U distinct
      levels among N >= 2 candidates. */
  function SpreadScore(docs: seq<Candidate>): (s: int)
    requires |docs| >= 2
    ensures 0 <= s <= 100
  {
    LevelsCardinality(docs);
    Round(Fraction(|Levels(docs)| - 1, |docs| - 1) * 100.0)
  }

  /** Controversy of an answer drawn from `docs`. */
  function Controversy(docs: seq<Candidate>): (r: real)
    ensures |docs| <= 1 ==> r == 0.0
    ensures 0.0 <= r <= 100.0
  {
    if |docs| <= 1 then 0.0
    else MinReal(100.0, SpreadScore(docs) as real + ClaimBoost(docs))
  }

  predicate AllAtLevel(docs: seq<Candidate>, level: AuthorityLevel) {
    forall i :: 0 <= i < |docs| ==> docs[i].authority == level
  }

  lemma {:induction false} CountLevelUniform(docs: seq<Candidate>, level: AuthorityLevel, other: AuthorityLevel)
    requires AllAtLevel(docs, level)
    ensures CountLevel(docs, other) == if other == level then |docs| else 0
    decreases |docs|
  {
    if |docs| > 0 {
      CountLevelUniform(docs[1..], level, other);
    }
  }

  /** With two or more candidates all at one level, the spread term is zero:
      controversy is 0 for a non-CLAIM level and exactly the full claim boost,
      30, when every candidate is a CLAIM. */
  lemma UniformLevelControversy(docs: seq<Candidate>, level: AuthorityLevel)
    requires |docs| >= 2 && AllAtLevel(docs, level)
    ensures Controversy(docs) == if level == Claim then 30.0 else 0.0
  {
    forall a ensures a in Levels(docs) <==> a == level {
      LevelsMembership(docs, a);
    }
    assert Levels(docs) == {level};
    assert SpreadScore(docs) == 0 by {
      assert |Levels(docs)| == 1;
      assert Fraction(|Levels(docs)| - 1, |docs| - 1) == 0.0;
      assert Round(0.0 * 100.0) == 0;
    }
    CountLevelUniform(docs, level, Claim);
    if level == Claim {
      assert Fraction(CountLevel(docs, Claim), |docs|) == 1.0;
    } else {
      assert Fraction(CountLevel(docs, Claim), |docs|) == 0.0;
    }
  }

  lemma {:induction false} SumCredibilityAppend(a: seq<Candidate>, b: seq<Candidate>)
    ensures SumCredibility(a + b) == SumCredibility(a) + SumCredibility(b)
    decreases |a|
  {
    if |a| > 0 {
      assert (a + b)[1..] == a[1..] + b;
      SumCredibilityAppend(a[1..], b);
    } else {
      assert a + b == b;
    }
  }

  lemma {:induction false} CountsAppend(a: seq<Candidate>, b: seq<Candidate>, currentYear: int)
    ensures forall level :: CountLevel(a + b, level) == CountLevel(a, level) + CountLevel(b, level)
    ensures CountRecent(a + b, currentYear) == CountRecent(a, currentYear) + CountRecent(b, currentYear)
    decreases |a|
  {
    if |a| > 0 {
      assert (a + b)[1..] == a[1..] + b;
      CountsAppend(a[1..], b, currentYear);
    } else {
      assert a + b == b;
    }
  }

  lemma LevelsAppend(a: seq<Candidate>, b: seq<Candidate>)
    ensures Levels(a + b) == Levels(a) + Levels(b)
  {
    forall x ensures x in Levels(a + b) <==> x in Levels(a) + Levels(b) {
      LevelsMembership(a + b, x);
      LevelsMembership(a, x);
      LevelsMembership(b, x);
      if x in Levels(a + b) {
        var i :| 0 <= i < |a + b| && (a + b)[i].authority == x;
        if i >= |a| {
          assert b[i - |a|].authority == x;
        } else {
          assert a[i].authority == x;
        }
      }
      if x in Levels(b) {
        var i :| 0 <= i < |b| && b[i].authority == x;
        assert (a + b)[|a| + i].authority == x;
      }
      if x in Levels(a) {
        var i :| 0 <= i < |a| && a[i].authority == x;
        assert (a + b)[i].authority == x;
      }
    }
  }

  /** Taking out the element at j leaves the rest of the multiset. */
  lemma SplitAt(b: seq<Candidate>, j: nat)
    requires j < |b|
    ensures b == b[..j] + [b[j]] + b[j + 1..]
    ensures multiset(b[..j] + b[j + 1..]) == multiset(b) - multiset{b[j]}
  {
    assert b == b[..j] + [b[j]] + b[j + 1..];
  }

  /** Each aggregate, with the candidate at j taken out, is the aggregate
      of the rest plus that candidate's share. */
  lemma SumRemove(b: seq<Candidate>, j: nat)
    requires j < |b|
    ensures SumCredibility(b) == SumCredibility(b[..j] + b[j + 1..]) + b[j].credibility
  {
    SplitAt(b, j);
    SumCredibilityAppend(b[..j], [b[j]]);
    SumCredibilityAppend(b[..j] + [b[j]], b[j + 1..]);
    SumCredibilityAppend(b[..j], b[j + 1..]);
  }

  lemma CountsRemove(b: seq<Candidate>, j: nat, level: AuthorityLevel, currentYear: int)
    requires j < |b|
    ensures CountLevel(b, level) == CountLevel(b[..j] + b[j + 1..], level) + (if b[j].authority == level then 1 else 0)
    ensures CountRecent(b, currentYear) == CountRecent(b[..j] + b[j + 1..], currentYear)
                                           + (if IsRecent(b[j], currentYear) then 1 else 0)
  {
    SplitAt(b, j);
    CountsAppend(b[..j], [b[j]], currentYear);
    CountsAppend(b[..j] + [b[j]], b[j + 1..], currentYear);
    CountsAppend(b[..j], b[j + 1..], currentYear);
  }

  /** Where the first candidate of `a` sits in `b`, when both hold the same candidates. */
  lemma MatchHead(a: seq<Candidate>, b: seq<Candidate>) returns (j: nat)
    requires multiset(a) == multiset(b) && |a| > 0
    ensures j < |b| && b[j] == a[0]
    ensures multiset(a[1..]) == multiset(b[..j] + b[j + 1..])
  {
    assert a[0] in multiset(a);
    j :| 0 <= j < |b| && b[j] == a[0];
    SplitAt(b, j);
    assert a == [a[0]] + a[1..];
  }

  /** The summed credibility depends only on which candidates there are,
      not on their order. */
  lemma {:induction false} SumByMultiset(a: seq<Candidate>, b: seq<Candidate>)
    requires multiset(a) == multiset(b)
    ensures SumCredibility(a) == SumCredibility(b)
    decreases |a|
  {
    if |a| == 0 {
      assert |b| == |multiset(b)| == 0;
    } else {
      var j := MatchHead(a, b);
      SumByMultiset(a[1..], b[..j] + b[j + 1..]);
      SumRemove(b, j);
    }
  }

  /** So do the level and recency counts. */
  lemma {:induction false} CountsByMultiset(a: seq<Candidate>, b: seq<Candidate>, level: AuthorityLevel, currentYear: int)
    requires multiset(a) == multiset(b)
    ensures CountLevel(a, level) == CountLevel(b, level)
    ensures CountRecent(a, currentYear) == CountRecent(b, currentYear)
    decreases |a|
  {
    if |a| == 0 {
      assert |b| == |multiset(b)| == 0;
    } else {
      var j := MatchHead(a, b);
      CountsByMultiset(a[1..], b[..j] + b[j + 1..], level, currentYear);
      CountsRemove(b, j, level, currentYear);
    }
  }

  lemma LevelsByMultiset(a: seq<Candidate>, b: seq<Candidate>)
    requires multiset(a) == multiset(b)
    ensures Levels(a) == Levels(b)
  {
    forall x ensures x in Levels(a) <==> x in Levels(b) {
      LevelsMembership(a, x);
      LevelsMembership(b, x);
      if x in Levels(a) {
        var i :| 0 <= i < |a| && a[i].authority == x;
        assert a[i] in multiset(b);
      }
      if x in Levels(b) {
        var i :| 0 <= i < |b| && b[i].authority == x;
        assert b[i] in multiset(a);
      }
    }
  }

  /** Confidence ignores the order in which the candidates were retrieved:
      any reordering of them gives the same score. */
  lemma ConfidenceIgnoresOrder(a: seq<Candidate>, b: seq<Candidate>, currentYear: int)
    requires multiset(a) == multiset(b)
    ensures Confidence(a, currentYear) == Confidence(b, currentYear)
  {
    assert |a| == |multiset(a)| == |b|;
    if |a| > 0 {
      SumByMultiset(a, b);
      CountsByMultiset(a, b, Official, currentYear);
      assert RawConfidence(a, currentYear) == RawConfidence(b, currentYear);
    }
  }

  /** Controversy ignores retrieval order in the same sense. */
  lemma ControversyIgnoresOrder(a: seq<Candidate>, b: seq<Candidate>)
    requires multiset(a) == multiset(b)
    ensures Controversy(a) == Controversy(b)
  {
    assert |a| == |multiset(a)| == |b|;
    if |a| > 1 {
      CountsByMultiset(a, b, Claim, 0);
      LevelsByMultiset(a, b);
    }
  }

  function SampleCandidate(authority: AuthorityLevel, year: int, credibility: int): Candidate {
    Candidate("src", "title", authority, Verified, None, Some(year), credibility, "content", None)
  }

  /** The worked example: an OFFICIAL source of credibility 95 and a
      SCHOLARLY one of credibility 92, both recent. Confidence is
      round(93.5 + 10 + 10) = 114 clamped to 100; controversy is
      round(1/1 * 100) = 100 with no claim boost. */
  lemma TwoRecentSourcesExample()
    ensures var docs := [SampleCandidate(Official, 2023, 95), SampleCandidate(Scholarly, 2022, 92)];
            RawConfidence(docs, 2026) == 113.5
            && Confidence(docs, 2026) == 100
            && Controversy(docs) == 100.0
  {
    var docs := [SampleCandidate(Official, 2023, 95), SampleCandidate(Scholarly, 2022, 92)];
    assert docs[1..] == [docs[1]];
    assert Levels(docs) == {Official, Scholarly};
  }

  /** The claim boost is not rounded: three OFFICIAL candidates and one CLAIM
      give round(1/3 * 100) + 1/4 * 30 = 33 + 7.5. */
  lemma FractionalControversyExample()
    ensures var docs := [SampleCandidate(Official, 2000, 50), SampleCandidate(Official, 2000, 50),
                         SampleCandidate(Official, 2000, 50), SampleCandidate(Claim, 2000, 50)];
            Controversy(docs) == 40.5
  {
    var docs := [SampleCandidate(Official, 2000, 50), SampleCandidate(Official, 2000, 50),
                 SampleCandidate(Official, 2000, 50), SampleCandidate(Claim, 2000, 50)];
    assert docs[1..][1..][1..] == [docs[3]];
    assert Levels(docs) == {Official, Claim};
    assert CountLevel(docs, Claim) == 1;
    assert Round(Fraction(1, 3) * 100.0) == 33;
  }
}
