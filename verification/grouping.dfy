/** How the answer card arranges citations: a left-to-right reduce that
    appends each citation to the list of its authority level, then one
    section per non-empty level in the fixed order OFFICIAL, SCHOLARLY,
    PRESS, COMMUNITY, CLAIM. Rendering itself is not modelled. */
module Grouping {
  import opened Domain

  /** The citations of one level, in their original order. */
  function OfLevel(cs: seq<Citation>, level: AuthorityLevel): seq<Citation>
    decreases |cs|
  {
    if |cs| == 0 then []
    else (if cs[0].authority == level then [cs[0]] else []) + OfLevel(cs[1..], level)
  }

  /** The group stored under a level, empty when the key was never created. */
  function Get(groups: map<AuthorityLevel, seq<Citation>>, level: AuthorityLevel): seq<Citation> {
    if level in groups then groups[level] else []
  }

  /** One step of the reduce: create the level's list if missing, then push. */
  function Push(groups: map<AuthorityLevel, seq<Citation>>, c: Citation): map<AuthorityLevel, seq<Citation>> {
    groups[c.authority := Get(groups, c.authority) + [c]]
  }

  function Reduce(groups: map<AuthorityLevel, seq<Citation>>, cs: seq<Citation>): map<AuthorityLevel, seq<Citation>>
    decreases |cs|
  {
    if |cs| == 0 then groups else Reduce(Push(groups, cs[0]), cs[1..])
  }

  /** The grouped citations, as the card's reduce builds them from an empty record. */
  function GroupCitations(cs: seq<Citation>): map<AuthorityLevel, seq<Citation>> {
    Reduce(map[], cs)
  }

  predicate HasLevel(cs: seq<Citation>, level: AuthorityLevel) {
    exists i :: 0 <= i < |cs| && cs[i].authority == level
  }

  lemma OfLevelCons(cs: seq<Citation>, level: AuthorityLevel)
    requires |cs| > 0
    ensures OfLevel(cs, level) == (if cs[0].authority == level then [cs[0]] else []) + OfLevel(cs[1..], level)
  {
  }

  lemma {:induction false} ReduceCollects(groups: map<AuthorityLevel, seq<Citation>>, cs: seq<Citation>, level: AuthorityLevel)
    ensures Get(Reduce(groups, cs), level) == Get(groups, level) + OfLevel(cs, level)
    decreases |cs|
  {
    if |cs| == 0 {
      assert Get(groups, level) + [] == Get(groups, level);
    } else {
      var pushed := Push(groups, cs[0]);
      ReduceCollects(pushed, cs[1..], level);
      var head := if cs[0].authority == level then [cs[0]] else [];
      GetPush(groups, cs[0], level);
      OfLevelCons(cs, level);
      assert Get(groups, level) + head + OfLevel(cs[1..], level) == Get(groups, level) + (head + OfLevel(cs[1..], level));
    }
  }

  /** One push grows the pushed citation's own group and no other. */
  lemma GetPush(groups: map<AuthorityLevel, seq<Citation>>, c: Citation, level: AuthorityLevel)
    ensures Get(Push(groups, c), level) == Get(groups, level) + (if c.authority == level then [c] else [])
  {
    if c.authority != level {
      assert Get(groups, level) + [] == Get(groups, level);
    }
  }

  lemma {:induction false} ReduceKeys(groups: map<AuthorityLevel, seq<Citation>>, cs: seq<Citation>, level: AuthorityLevel)
    ensures level in Reduce(groups, cs) <==> level in groups || HasLevel(cs, level)
    decreases |cs|
  {
    if |cs| > 0 {
      ReduceKeys(Push(groups, cs[0]), cs[1..], level);
      if HasLevel(cs[1..], level) {
        var i :| 0 <= i < |cs[1..]| && cs[1..][i].authority == level;
        assert cs[i + 1].authority == level;
      }
      if HasLevel(cs, level) && cs[0].authority != level {
        var i :| 0 <= i < |cs| && cs[i].authority == level;
        assert cs[1..][i - 1].authority == level;
      }
    }
  }

  /** Every citation lands in the group of its own level: a level has a
      group exactly when some citation carries it, and that group is the
      citations of the level in their original order. */
  lemma GroupsAreLevelFilters(cs: seq<Citation>, level: AuthorityLevel)
    ensures level in GroupCitations(cs) <==> HasLevel(cs, level)
    ensures level in GroupCitations(cs) ==> GroupCitations(cs)[level] == OfLevel(cs, level)
  {
    ReduceCollects(map[], cs, level);
    ReduceKeys(map[], cs, level);
  }

  /** The positions a level's citations occupy in the input, counted from `base`. */
  function PositionsFrom(cs: seq<Citation>, level: AuthorityLevel, base: nat): seq<nat>
    decreases |cs|
  {
    if |cs| == 0 then []
    else (if cs[0].authority == level then [base] else []) + PositionsFrom(cs[1..], level, base + 1)
  }

  function Positions(cs: seq<Citation>, level: AuthorityLevel): seq<nat> {
    PositionsFrom(cs, level, 0)
  }

  /** A level's group is the input read at strictly increasing positions:
      each group is a subsequence that keeps the input order. */
  lemma GroupKeepsOrder(cs: seq<Citation>, level: AuthorityLevel)
    ensures var idx := Positions(cs, level);
            |idx| == |OfLevel(cs, level)|
            && (forall k :: 0 <= k < |idx| ==> idx[k] < |cs| && cs[idx[k]] == OfLevel(cs, level)[k])
            && (forall k, l :: 0 <= k < l < |idx| ==> idx[k] < idx[l])
  {
    PositionsIncrease(cs, level, 0);
    PositionsHit(cs, level, 0);
  }

  /** Positions lie inside the input and strictly increase. */
  lemma {:induction false} PositionsIncrease(cs: seq<Citation>, level: AuthorityLevel, base: nat)
    ensures forall k :: 0 <= k < |PositionsFrom(cs, level, base)| ==>
              base <= PositionsFrom(cs, level, base)[k] < base + |cs|
    ensures forall k, l :: 0 <= k < l < |PositionsFrom(cs, level, base)| ==>
              PositionsFrom(cs, level, base)[k] < PositionsFrom(cs, level, base)[l]
    decreases |cs|
  {
    if |cs| > 0 {
      var tail := PositionsFrom(cs[1..], level, base + 1);
      PositionsIncrease(cs[1..], level, base + 1);
      var idx := PositionsFrom(cs, level, base);
      if cs[0].authority == level {
        assert idx == [base] + tail;
        forall k | 0 <= k < |idx| ensures base <= idx[k] < base + |cs| {
          if k > 0 {
            assert idx[k] == tail[k - 1];
          }
        }
        forall k, l | 0 <= k < l < |idx| ensures idx[k] < idx[l] {
          assert idx[l] == tail[l - 1];
          if k > 0 {
            assert idx[k] == tail[k - 1];
          }
        }
      } else {
        assert idx == tail;
      }
    }
  }

  /** Reading the input at the positions gives the group, element by element. */
  lemma {:induction false} PositionsHit(cs: seq<Citation>, level: AuthorityLevel, base: nat)
    ensures |PositionsFrom(cs, level, base)| == |OfLevel(cs, level)|
    ensures forall k :: 0 <= k < |PositionsFrom(cs, level, base)| ==>
              base <= PositionsFrom(cs, level, base)[k] < base + |cs|
              && cs[PositionsFrom(cs, level, base)[k] - base] == OfLevel(cs, level)[k]
    decreases |cs|
  {
    if |cs| > 0 {
      var tail := PositionsFrom(cs[1..], level, base + 1);
      var group := OfLevel(cs[1..], level);
      PositionsHit(cs[1..], level, base + 1);
      OfLevelCons(cs, level);
      var idx := PositionsFrom(cs, level, base);
      var d := if cs[0].authority == level then 1 else 0;
      assert idx == (if d == 1 then [base] else []) + tail;
      assert |idx| == |tail| + d;
      forall k | d <= k < |idx|
        ensures base <= idx[k] < base + |cs| && cs[idx[k] - base] == OfLevel(cs, level)[k]
      {
        assert idx[k] == tail[k - d];
        assert OfLevel(cs, level)[k] == group[k - d];
        assert cs[idx[k] - base] == cs[1..][tail[k - d] - (base + 1)];
      }
    }
  }

  /** A displayed section: a level, its citations, and the count shown beside it. */
  datatype Section = Section(level: AuthorityLevel, items: seq<Citation>) {
    function Count(): nat { |items| }
  }

  function SectionsFrom(groups: map<AuthorityLevel, seq<Citation>>, order: seq<AuthorityLevel>): seq<Section>
    decreases |order|
  {
    if |order| == 0 then []
    else
      var here := Get(groups, order[0]);
      (if |here| == 0 then [] else [Section(order[0], here)]) + SectionsFrom(groups, order[1..])
  }

  /** The sections the card shows, in authority order, empty groups skipped. */
  function Sections(cs: seq<Citation>): seq<Section> {
    SectionsFrom(GroupCitations(cs), AuthorityOrder)
  }

  /** Whether the sources block is rendered at all. */
  predicate ShowsSources(cs: seq<Citation>) {
    |cs| > 0
  }

  function Flatten(ss: seq<Section>): seq<Citation>
    decreases |ss|
  {
    if |ss| == 0 then [] else ss[0].items + Flatten(ss[1..])
  }

  /** How often a citation occurs in one level's group: as often as in the
      input when it carries that level, never otherwise. */
  lemma {:induction false} OfLevelCount(cs: seq<Citation>, level: AuthorityLevel, x: Citation)
    ensures multiset(OfLevel(cs, level))[x] == if x.authority == level then multiset(cs)[x] else 0
    decreases |cs|
  {
    if |cs| > 0 {
      OfLevelCount(cs[1..], level, x);
      OfLevelCons(cs, level);
      assert cs == [cs[0]] + cs[1..];
    }
  }

  lemma OfLevelPartition(cs: seq<Citation>)
    ensures multiset(OfLevel(cs, Official)) + multiset(OfLevel(cs, Scholarly)) + multiset(OfLevel(cs, Press))
          + multiset(OfLevel(cs, Community)) + multiset(OfLevel(cs, Claim)) == multiset(cs)
  {
    forall x ensures (multiset(OfLevel(cs, Official)) + multiset(OfLevel(cs, Scholarly)) + multiset(OfLevel(cs, Press))
                      + multiset(OfLevel(cs, Community)) + multiset(OfLevel(cs, Claim)))[x] == multiset(cs)[x] {
      OfLevelCount(cs, Official, x);
      OfLevelCount(cs, Scholarly, x);
      OfLevelCount(cs, Press, x);
      OfLevelCount(cs, Community, x);
      OfLevelCount(cs, Claim, x);
    }
  }

  /** Each group of the reduce is its level's filter of the input. */
  lemma GetIsFilter(cs: seq<Citation>, level: AuthorityLevel)
    ensures Get(GroupCitations(cs), level) == OfLevel(cs, level)
  {
    ReduceCollects(map[], cs, level);
    assert Get(map[], level) == [];
  }

  lemma SectionsAreGroupsInOrder(cs: seq<Citation>)
    ensures Flatten(Sections(cs)) == OfLevel(cs, Official) + OfLevel(cs, Scholarly) + OfLevel(cs, Press)
                                   + OfLevel(cs, Community) + OfLevel(cs, Claim)
  {
    var g := GroupCitations(cs);
    FlattenSectionsFrom(g, AuthorityOrder);
    GroupsInAuthorityOrder(g);
    GetIsFilter(cs, Official);
    GetIsFilter(cs, Scholarly);
    GetIsFilter(cs, Press);
    GetIsFilter(cs, Community);
    GetIsFilter(cs, Claim);
  }

  /** The groups concatenated in authority order, written out. */
  lemma GroupsInAuthorityOrder(g: map<AuthorityLevel, seq<Citation>>)
    ensures GroupsConcat(g, AuthorityOrder) == Get(g, Official) + Get(g, Scholarly) + Get(g, Press)
                                             + Get(g, Community) + Get(g, Claim)
  {
    var o := AuthorityOrder;
    assert o[1..] == [Scholarly, Press, Community, Claim];
    assert o[1..][1..] == [Press, Community, Claim];
    assert o[1..][1..][1..] == [Community, Claim];
    assert o[1..][1..][1..][1..] == [Claim];
    assert GroupsConcat(g, [Claim]) == Get(g, Claim) by {
      assert [Claim][1..] == [];
    }
  }

  lemma {:induction false} FlattenSectionsFrom(g: map<AuthorityLevel, seq<Citation>>, order: seq<AuthorityLevel>)
    ensures Flatten(SectionsFrom(g, order)) == GroupsConcat(g, order)
    decreases |order|
  {
    if |order| > 0 {
      FlattenSectionsFrom(g, order[1..]);
      var here := Get(g, order[0]);
      var rest := SectionsFrom(g, order[1..]);
      if |here| == 0 {
        assert SectionsFrom(g, order) == rest;
        assert here + GroupsConcat(g, order[1..]) == GroupsConcat(g, order[1..]);
      } else {
        assert ([Section(order[0], here)] + rest)[1..] == rest;
      }
    }
  }

  function GroupsConcat(g: map<AuthorityLevel, seq<Citation>>, order: seq<AuthorityLevel>): seq<Citation>
    decreases |order|
  {
    if |order| == 0 then [] else Get(g, order[0]) + GroupsConcat(g, order[1..])
  }

  /** Reading the sections in order gives back every citation exactly once:
      the display is a permutation of the answer's citations. */
  lemma SectionsArePermutation(cs: seq<Citation>)
    ensures multiset(Flatten(Sections(cs))) == multiset(cs)
  {
    SectionsAreGroupsInOrder(cs);
    OfLevelPartition(cs);
  }

  /** Shown sections are non-empty, in authority order, and each shows the
      size of its level's group; the sources block appears only when there
      are citations. */
  lemma SectionsShape(cs: seq<Citation>)
    ensures forall k :: 0 <= k < |Sections(cs)| ==>
              Sections(cs)[k].Count() > 0 && Sections(cs)[k].Count() == |OfLevel(cs, Sections(cs)[k].level)|
    ensures |Sections(cs)| > 0 <==> ShowsSources(cs)
  {
    var ss := Sections(cs);
    SectionsFromShape(GroupCitations(cs), AuthorityOrder);
    FlattenNonEmpty(ss);
    forall k | 0 <= k < |ss| ensures ss[k].Count() > 0 && ss[k].Count() == |OfLevel(cs, ss[k].level)| {
      GetIsFilter(cs, ss[k].level);
    }
    SectionsArePermutation(cs);
    assert |Flatten(ss)| == |cs| by {
      assert |multiset(Flatten(ss))| == |multiset(cs)|;
    }
  }

  lemma {:induction false} SectionsFromShape(g: map<AuthorityLevel, seq<Citation>>, order: seq<AuthorityLevel>)
    ensures forall k :: 0 <= k < |SectionsFrom(g, order)| ==>
              SectionsFrom(g, order)[k].items == Get(g, SectionsFrom(g, order)[k].level)
              && |SectionsFrom(g, order)[k].items| > 0
    decreases |order|
  {
    if |order| > 0 {
      SectionsFromShape(g, order[1..]);
      var here := Get(g, order[0]);
      var rest := SectionsFrom(g, order[1..]);
      var ss := SectionsFrom(g, order);
      if |here| > 0 {
        assert ss == [Section(order[0], here)] + rest;
        forall k | 1 <= k < |ss| ensures ss[k] == rest[k - 1] {
        }
      } else {
        assert ss == rest;
      }
    }
  }

  /** Every section is for a level of the order, there are no more sections
      than levels in the order, and every level of the order whose group is
      non-empty gets a section. */
  lemma {:induction false} SectionsFromCovers(g: map<AuthorityLevel, seq<Citation>>, order: seq<AuthorityLevel>)
    ensures forall k :: 0 <= k < |SectionsFrom(g, order)| ==> SectionsFrom(g, order)[k].level in order
    ensures |SectionsFrom(g, order)| <= |order|
    ensures forall l :: l in order && |Get(g, l)| > 0 ==>
              exists k :: 0 <= k < |SectionsFrom(g, order)| && SectionsFrom(g, order)[k].level == l
    decreases |order|
  {
    if |order| > 0 {
      SectionsFromCovers(g, order[1..]);
      var rest := SectionsFrom(g, order[1..]);
      var ss := SectionsFrom(g, order);
      var d := if |Get(g, order[0])| > 0 then 1 else 0;
      assert |ss| == |rest| + d;
      assert forall k :: 0 <= k < |rest| ==> ss[k + d] == rest[k];
      assert d == 1 ==> ss[0].level == order[0];
      forall l | l in order && |Get(g, l)| > 0
        ensures exists k :: 0 <= k < |ss| && ss[k].level == l
      {
        if l == order[0] {
          assert ss[0].level == l;
        } else {
          assert l in order[1..];
          var k :| 0 <= k < |rest| && rest[k].level == l;
          assert ss[k + d].level == l;
        }
      }
      forall k | 0 <= k < |ss| ensures ss[k].level in order {
        if k >= d {
          assert ss[k] == rest[k - d];
          assert rest[k - d].level in order[1..];
        }
      }
    }
  }

  /** Sections that are all non-empty flatten to nothing only when there are none. */
  lemma FlattenNonEmpty(ss: seq<Section>)
    requires forall k :: 0 <= k < |ss| ==> |ss[k].items| > 0
    ensures |ss| > 0 <==> |Flatten(ss)| > 0
  {
    if |ss| > 0 {
      assert |Flatten(ss)| >= |ss[0].items|;
    }
  }
}
