/** Citation markers: the `[k]` labels the prompt puts in front of each
    candidate, and the extraction that scans generated text for `[digits]`
    markers and turns each in-range marker back into a citation. */
module Citations {
  import opened Wrappers
  import opened Domain
  import opened Decimal

  /** A marker found at the head of a string: its number and its length in characters. */
  datatype Marker = Marker(number: nat, length: nat)

  /** The length of the run of ASCII digits that starts the string. */
  function DigitPrefixLength(t: string): (n: nat)
    ensures n <= |t| && AllDigits(t[..n])
    ensures n < |t| ==> !IsDigit(t[n])
    decreases |t|
  {
    if |t| > 0 && IsDigit(t[0]) then
      var n := 1 + DigitPrefixLength(t[1..]);
      assert t[..n] == [t[0]] + t[1..][..n - 1];
      n
    else 0
  }

  /** A digit run followed by a non-digit (or by nothing) is exactly the
      digit prefix. */
  lemma {:induction false} DigitPrefixOf(d: string, x: string)
    requires AllDigits(d)
    requires |x| == 0 || !IsDigit(x[0])
    ensures DigitPrefixLength(d + x) == |d|
    decreases |d|
  {
    if |d| > 0 {
      assert (d + x)[1..] == d[1..] + x;
      DigitPrefixOf(d[1..], x);
    } else {
      assert d + x == x;
    }
  }

  /** The regular expression `\[(\d+)\]` tried at the head of `s`: an opening
      bracket, the maximal run of digits (at least one), and a closing bracket. */
  function MarkerAtStart(s: string): (r: Option<Marker>)
    ensures r.Some? ==> 3 <= r.value.length <= |s|
  {
    if |s| > 0 && s[0] == '[' then
      var n := DigitPrefixLength(s[1..]);
      if n > 0 && n + 1 < |s| && s[n + 1] == ']' then
        Some(Marker(ParseDigits(s[1..][..n]), n + 2))
      else None
    else None
  }

  /** `s[i..j]` is a marker: `[`, one or more digits, `]`. */
  predicate IsMarkerAt(s: string, i: nat, j: nat) {
    i + 3 <= j <= |s| && s[i] == '[' && s[j - 1] == ']' && AllDigits(s[i + 1..j - 1])
  }

  predicate ContainsMarker(s: string) {
    exists i: nat, j: nat | i < j <= |s| :: IsMarkerAt(s, i, j)
  }

  /** The numbers of all marker matches, left to right, non-overlapping: after
      a match the scan resumes just past its closing bracket, otherwise one
      character further on. Every match spans at least three characters. */
  function Markers(s: string): (ks: seq<nat>)
    ensures 3 * |ks| <= |s|
    decreases |s|
  {
    if |s| == 0 then []
    else match MarkerAtStart(s)
      case Some(m) => [m.number] + Markers(s[m.length..])
      case None => Markers(s[1..])
  }

  lemma MarkerAtStartSound(s: string)
    requires MarkerAtStart(s).Some?
    ensures IsMarkerAt(s, 0, MarkerAtStart(s).value.length)
  {
    var n := DigitPrefixLength(s[1..]);
    assert s[1..n + 1] == s[1..][..n];
  }

  /** A marker at the head of the string is always matched by the regular expression. */
  lemma MarkerAtStartComplete(s: string, j: nat)
    requires IsMarkerAt(s, 0, j)
    ensures MarkerAtStart(s) == Some(Marker(ParseDigits(s[1..j - 1]), j))
  {
    assert s[1..] == s[1..j - 1] + s[j - 1..];
    DigitPrefixOf(s[1..j - 1], s[j - 1..]);
    assert s[1..][..j - 2] == s[1..j - 1];
  }

  lemma ShiftMarker(s: string, k: nat, i: nat, j: nat)
    requires k <= |s| && IsMarkerAt(s[k..], i, j)
    ensures IsMarkerAt(s, k + i, k + j)
  {
    assert s[k..][i + 1..j - 1] == s[k + i + 1..k + j - 1];
  }

  /** A marker anywhere in the text makes the scan find at least one. */
  lemma {:induction false} MarkerFound(s: string, i: nat, j: nat)
    requires IsMarkerAt(s, i, j)
    ensures Markers(s) != []
    decreases i
  {
    if i == 0 {
      MarkerAtStartComplete(s, j);
    } else if MarkerAtStart(s).None? {
      assert s[1..][i - 1 + 1..j - 1 - 1] == s[i + 1..j - 1];
      MarkerFound(s[1..], i - 1, j - 1);
    }
  }

  /** Whatever the scan finds is a marker of the text. */
  lemma {:induction false} MarkersWitness(s: string)
    requires Markers(s) != []
    ensures ContainsMarker(s)
    decreases |s|
  {
    if MarkerAtStart(s).Some? {
      MarkerAtStartSound(s);
    } else {
      MarkersWitness(s[1..]);
      var i: nat, j: nat :| i < j <= |s[1..]| && IsMarkerAt(s[1..], i, j);
      ShiftMarker(s, 1, i, j);
    }
  }

  /** The scan finds no marker exactly when the text contains none. */
  lemma NoMarkersIffNone(s: string)
    ensures Markers(s) == [] <==> !ContainsMarker(s)
  {
    if Markers(s) != [] {
      MarkersWitness(s);
    }
    if ContainsMarker(s) {
      var i: nat, j: nat :| i < j <= |s| && IsMarkerAt(s, i, j);
      MarkerFound(s, i, j);
    }
  }

  /** The label the prompt puts before candidate number k (counting from 1). */
  function Label(k: nat): string {
    "[" + NatToString(k) + "]"
  }

  /** A label is an opening bracket, the number's digits and a closing bracket. */
  lemma LabelShape(k: nat)
    ensures var d := NatToString(k);
            |Label(k)| == |d| + 2 && IsMarkerAt(Label(k), 0, |d| + 2) && Label(k)[1..|d| + 1] == d
  {
    var d := NatToString(k);
    assert Label(k)[1..|d| + 1] == d;
  }

  /** A label at the head of any text is read as a marker for its number. */
  lemma LabelAtStart(k: nat, rest: string)
    ensures MarkerAtStart(Label(k) + rest) == Some(Marker(k, |Label(k)|))
  {
    var s := Label(k) + rest;
    var d := NatToString(k);
    LabelShape(k);
    assert s[..|d| + 2] == Label(k);
    assert s[1..|d| + 1] == Label(k)[1..|d| + 1];
    assert IsMarkerAt(s, 0, |d| + 2);
    MarkerAtStartComplete(s, |d| + 2);
    ParseNatToString(k);
  }

  /** Scanning a label followed by any text yields the label's number and
      then whatever the rest of the text yields. */
  lemma MarkersOfLabel(k: nat, rest: string)
    ensures Markers(Label(k) + rest) == [k] + Markers(rest)
  {
    var s := Label(k) + rest;
    LabelAtStart(k, rest);
    assert s[|Label(k)|..] == rest;
  }

  /** Text made of labels only yields exactly their numbers, in order. */
  lemma {:induction false} MarkersOfLabels(ks: seq<nat>)
    ensures Markers(Labels(ks)) == ks
    decreases |ks|
  {
    if |ks| > 0 {
      MarkersOfLabels(ks[1..]);
      MarkersOfLabel(ks[0], Labels(ks[1..]));
    }
  }

  /** Text without an opening bracket contributes no marker and cannot start one. */
  lemma {:induction false} MarkersSkipPlainText(p: string, rest: string)
    requires forall i :: 0 <= i < |p| ==> p[i] != '['
    ensures Markers(p + rest) == Markers(rest)
    decreases |p|
  {
    if |p| > 0 {
      assert (p + rest)[1..] == p[1..] + rest;
      MarkersSkipPlainText(p[1..], rest);
    } else {
      assert p + rest == rest;
    }
  }

  function Labels(ks: seq<nat>): string
    decreases |ks|
  {
    if |ks| == 0 then "" else Label(ks[0]) + Labels(ks[1..])
  }

  /** The first 200 characters of the content followed by an ellipsis. */
  function Snippet(content: string): (r: string)
    ensures |content| <= 200 ==> r == content + "..."
    ensures |content| > 200 ==> |r| == 203 && r == content[..200] + "..."
    ensures r[|r| - 3..] == "..."
  {
    content[..Min(200, |content|)] + "..."
  }

  /** The citation copied out of one candidate. */
  function Cite(d: Candidate): (c: Citation)
    ensures c.sourceId == d.sourceId && c.authority == d.authority && c.status == d.status
    ensures c.snippet == Snippet(d.content)
    ensures c.score == if d.similarity.Some? then d.similarity.value else 0.0
    ensures (d.similarity.Some? ==> 0.0 <= d.similarity.value <= 1.0) ==> ValidCitationInput(c)
  {
    Citation(d.sourceId, Snippet(d.content), d.authority, d.status,
             match d.similarity case Some(x) => x case None => 0.0)
  }

  /** The citation each candidate would give, position by position. */
  function CiteAll(docs: seq<Candidate>): (r: seq<Citation>)
    ensures |r| == |docs| && forall j :: 0 <= j < |docs| ==> r[j] == Cite(docs[j])
  {
    seq(|docs|, j requires 0 <= j < |docs| => Cite(docs[j]))
  }

  /** Every citation was copied out of one of the candidates. */
  predicate CitesOnly(cs: seq<Citation>, docs: seq<Candidate>) {
    forall m :: 0 <= m < |cs| ==> cs[m] in CiteAll(docs)
  }

  lemma CitesOnlyAppend(a: seq<Citation>, b: seq<Citation>, docs: seq<Candidate>)
    requires CitesOnly(a, docs) && CitesOnly(b, docs)
    ensures CitesOnly(a + b, docs)
  {
    forall m | 0 <= m < |a + b| ensures (a + b)[m] in CiteAll(docs) {
      if m < |a| {
        assert (a + b)[m] == a[m];
      } else {
        assert (a + b)[m] == b[m - |a|];
      }
    }
  }

  /** Marker number k names candidate k - 1; 0 and numbers past the end are skipped. */
  function Resolve(ks: seq<nat>, docs: seq<Candidate>): seq<Citation>
    decreases |ks|
  {
    if |ks| == 0 then []
    else (if 1 <= ks[0] <= |docs| then [Cite(docs[ks[0] - 1])] else []) + Resolve(ks[1..], docs)
  }

  /** Resolution yields at most one citation per marker, none without
      candidates, and only citations of the candidates. */
  lemma {:induction false} ResolveCitesOnly(ks: seq<nat>, docs: seq<Candidate>)
    ensures |Resolve(ks, docs)| <= |ks|
    ensures |docs| == 0 ==> Resolve(ks, docs) == []
    ensures CitesOnly(Resolve(ks, docs), docs)
    decreases |ks|
  {
    if |ks| > 0 {
      var head := if 1 <= ks[0] <= |docs| then [Cite(docs[ks[0] - 1])] else [];
      ResolveCitesOnly(ks[1..], docs);
      assert CitesOnly(head, docs) by {
        if 1 <= ks[0] <= |docs| {
          assert head[0] == CiteAll(docs)[ks[0] - 1];
        }
      }
      CitesOnlyAppend(head, Resolve(ks[1..], docs), docs);
    }
  }

  lemma {:induction false} ResolveAppend(a: seq<nat>, b: seq<nat>, docs: seq<Candidate>)
    ensures Resolve(a + b, docs) == Resolve(a, docs) + Resolve(b, docs)
    decreases |a|
  {
    if |a| > 0 {
      assert (a + b)[1..] == a[1..] + b;
      ResolveAppend(a[1..], b, docs);
    } else {
      assert a + b == b;
    }
  }

  /** One citation per in-range marker of the generated text, in scan order,
      duplicates kept. */
  function ExtractCitations(summary: string, docs: seq<Candidate>): (r: seq<Citation>)
    ensures !ContainsMarker(summary) ==> r == []
    ensures |docs| == 0 ==> r == []
    ensures |r| <= |Markers(summary)|
    ensures CitesOnly(r, docs)
  {
    NoMarkersIffNone(summary);
    ResolveCitesOnly(Markers(summary), docs);
    Resolve(Markers(summary), docs)
  }

  /** Similarity scores in [0,1] give extracted citations that pass the
      citation schema the answer and note endpoints check. */
  lemma ExtractedCitationsValid(summary: string, docs: seq<Candidate>)
    requires forall j :: 0 <= j < |docs| ==> docs[j].similarity.Some? ==> 0.0 <= docs[j].similarity.value <= 1.0
    ensures AllCitationsValid(ExtractCitations(summary, docs))
  {
    var cs := ExtractCitations(summary, docs);
    forall i | 0 <= i < |cs| ensures ValidCitationInput(cs[i]) {
      var j :| 0 <= j < |docs| && CiteAll(docs)[j] == cs[i];
      assert cs[i] == Cite(docs[j]);
    }
  }

  /** A lone marker number resolves to the candidate it names, if any. */
  lemma ResolveSingle(k: nat, docs: seq<Candidate>)
    ensures Resolve([k], docs) == if 1 <= k <= |docs| then [Cite(docs[k - 1])] else []
  {
    var ks := [k];
    var head := if 1 <= k <= |docs| then [Cite(docs[k - 1])] else [];
    assert ks[1..] == [];
    assert Resolve(ks[1..], docs) == [];
    assert Resolve(ks, docs) == head + Resolve(ks[1..], docs);
    assert head + [] == head;
  }

  lemma MarkersOfSingleLabel(k: nat)
    ensures Markers(Label(k)) == [k]
  {
    MarkersOfLabel(k, "");
    assert Label(k) + "" == Label(k);
  }

  /** A single marker resolves to the candidate it numbers, or to nothing when
      out of range. */
  lemma ExtractSingleMarker(k: nat, docs: seq<Candidate>)
    ensures ExtractCitations(Label(k), docs)
         == if 1 <= k <= |docs| then [Cite(docs[k - 1])] else []
  {
    MarkersOfSingleLabel(k);
    ResolveSingle(k, docs);
  }

  /** Round trip: the label the prompt gives candidate i, when echoed in the
      generated text, is extracted as the citation of candidate i. */
  lemma LabelRoundTrip(i: nat, docs: seq<Candidate>, rest: string)
    requires i < |docs|
    ensures ExtractCitations(Label(i + 1) + rest, docs)
         == [Cite(docs[i])] + ExtractCitations(rest, docs)
  {
    MarkersOfLabel(i + 1, rest);
    ResolveAppend([i + 1], Markers(rest), docs);
    ResolveSingle(i + 1, docs);
  }

  lemma ExampleMarkers()
    ensures Markers(Label(1) + " and " + Label(3)) == [1, 3]
  {
    var gap := " and " + Label(3);
    MarkersOfSingleLabel(3);
    MarkersSkipPlainText(" and ", Label(3));
    MarkersOfLabel(1, gap);
    assert Label(1) + " and " + Label(3) == Label(1) + gap;
  }

  /** Markers [1] and [3] against three candidates give exactly the first and
      third; a marker [5] gives nothing. */
  lemma ThreeCandidateExample(docs: seq<Candidate>)
    requires |docs| == 3
    ensures ExtractCitations(Label(1) + " and " + Label(3), docs) == [Cite(docs[0]), Cite(docs[2])]
    ensures ExtractCitations(Label(5), docs) == []
  {
    ExampleMarkers();
    ResolveAppend([1], [3], docs);
    ResolveSingle(1, docs);
    ResolveSingle(3, docs);
    assert [1] + [3] == [1, 3];
    ExtractSingleMarker(5, docs);
  }
}
