/**
 The post-pass of the normaliser: pairs of a marker such as `**` are found in
 a line, and the spaces just inside each pair are removed.
 */
module PairedMarkers {

  import opened Wrappers
  import opened Text

  /** `PairMatch`: where the opening and the closing marker of a pair sit
      (the ends are exclusive). */
  datatype PairMatch = PairMatch(marker: string, openStart: nat, openEnd: nat, closeStart: nat, closeEnd: nat)

  /** The markers the post-pass handles, in order. */
  const BoldMarker: string := "**"

  // ---------------------------------------------------------------------------
  // find_pair_markers
  // ---------------------------------------------------------------------------

  /** The search loop of `find_pair_markers`: from `start`, the positions of
      the marker, each search resuming just after the previous find. A marker
      occurrence overlapping a found one is skipped. */
  function Positions(line: string, marker: string, start: nat): seq<nat>
    requires |marker| > 0 && start <= |line|
    decreases |line| - start
  {
    match Find(line, marker, start)
    case None => []
    case Some(pos) => [pos] + Positions(line, marker, pos + |marker|)
  }

  /** Every find is an occurrence at or after `start`, and each find starts
      after the previous one ends. */
  lemma PositionsSound(line: string, marker: string, start: nat)
    requires |marker| > 0 && start <= |line|
    ensures forall j :: 0 <= j < |Positions(line, marker, start)| ==>
              start <= Positions(line, marker, start)[j] && OccursAt(line, marker, Positions(line, marker, start)[j])
    ensures forall j :: 0 < j < |Positions(line, marker, start)| ==>
              Positions(line, marker, start)[j - 1] + |marker| <= Positions(line, marker, start)[j]
  {
    PositionsOccur(line, marker, start);
    PositionsApart(line, marker, start);
  }

  /** Every find is an occurrence at or after `start`. */
  lemma {:induction false} PositionsOccur(line: string, marker: string, start: nat)
    requires |marker| > 0 && start <= |line|
    ensures forall j :: 0 <= j < |Positions(line, marker, start)| ==>
              start <= Positions(line, marker, start)[j] && OccursAt(line, marker, Positions(line, marker, start)[j])
    decreases |line| - start
  {
    var p := Positions(line, marker, start);
    if p != [] {
      PositionsStep(line, marker, start);
      var next := p[0] + |marker|;
      var q := Positions(line, marker, next);
      PositionsOccur(line, marker, next);
      forall j | 0 <= j < |p| ensures start <= p[j] && OccursAt(line, marker, p[j]) {
        if j > 0 {
          OccursInTail(line, marker, start, p, q, j);
        }
      }
    }
  }

  /** A find of the resumed search is a find of the whole one. */
  lemma OccursInTail(line: string, marker: string, start: nat, p: seq<nat>, q: seq<nat>, j: nat)
    requires 0 < j < |p| && q == p[1..] && start <= p[0]
    requires p[0] + |marker| <= q[j - 1] && OccursAt(line, marker, q[j - 1])
    ensures start <= p[j] && OccursAt(line, marker, p[j])
  {
    assert p[j] == q[j - 1];
  }

  /** The first find is an occurrence at or after `start`, and the search
      resumes after it. */
  lemma PositionsStep(line: string, marker: string, start: nat)
    requires |marker| > 0 && start <= |line|
    requires Positions(line, marker, start) != []
    ensures var p := Positions(line, marker, start);
            start <= p[0] && OccursAt(line, marker, p[0]) && p[0] + |marker| <= |line| &&
            p[1..] == Positions(line, marker, p[0] + |marker|)
  {
    PositionsCons(line, marker, start);
  }

  /** Each find starts after the previous one ends. */
  lemma {:induction false} PositionsApart(line: string, marker: string, start: nat)
    requires |marker| > 0 && start <= |line|
    ensures forall j :: 0 < j < |Positions(line, marker, start)| ==>
              Positions(line, marker, start)[j - 1] + |marker| <= Positions(line, marker, start)[j]
    decreases |line| - start
  {
    var ps := Positions(line, marker, start);
    if ps != [] {
      PositionsCons(line, marker, start);
      var pos := Find(line, marker, start).value;
      var rest := Positions(line, marker, pos + |marker|);
      PositionsApart(line, marker, pos + |marker|);
      PositionsOccur(line, marker, pos + |marker|);
      forall j | 0 < j < |ps| ensures ps[j - 1] + |marker| <= ps[j] {
        assert ps[j] == rest[j - 1];
        if j > 1 {
          assert ps[j - 1] == rest[j - 2];
        }
      }
    }
  }

  /** Position `k` lies inside one of the found markers of width `w`. */
  ghost predicate Covered(ps: seq<nat>, w: nat, k: nat) {
    exists j :: 0 <= j < |ps| && ps[j] <= k < ps[j] + w
  }

  /** Every occurrence of the marker at or after `start` is found, or overlaps
      one that is. */
  lemma {:induction false} PositionsComplete(line: string, marker: string, start: nat, k: nat)
    requires |marker| > 0 && start <= |line|
    requires start <= k && OccursAt(line, marker, k)
    ensures Covered(Positions(line, marker, start), |marker|, k)
    decreases |line| - start
  {
    var ps := Positions(line, marker, start);
    match Find(line, marker, start)
    case None =>
      assert false;
    case Some(pos) =>
      assert ps[0] == pos;
      if k >= pos + |marker| {
        var rest := Positions(line, marker, pos + |marker|);
        PositionsComplete(line, marker, pos + |marker|, k);
        assert ps == [pos] + rest;
        CoveredCons(pos, rest, |marker|, k);
      } else {
        assert pos <= k;
        assert 0 < |ps| && ps[0] <= k < ps[0] + |marker|;
      }
  }

  /** A position covered by a list of finds is covered by a longer one. */
  lemma CoveredCons(p: nat, ps: seq<nat>, w: nat, k: nat)
    requires Covered(ps, w, k)
    ensures Covered([p] + ps, w, k)
  {
    var j :| 0 <= j < |ps| && ps[j] <= k < ps[j] + w;
    assert ([p] + ps)[j + 1] == ps[j];
  }

  /** The search is greedy: no occurrence starts between the end of one find
      (or `start`) and the next find. */
  lemma {:induction false} PositionsLeftmost(line: string, marker: string, start: nat, ps: seq<nat>, j: nat, k: nat)
    requires |marker| > 0 && start <= |line|
    requires ps == Positions(line, marker, start)
    requires j < |ps| && k < ps[j]
    requires if j == 0 then start <= k else ps[j - 1] + |marker| <= k
    ensures !OccursAt(line, marker, k)
    decreases |line| - start
  {
    PositionsCons(line, marker, start);
    var pos := Find(line, marker, start).value;
    var rest := Positions(line, marker, pos + |marker|);
    if j == 0 {
      assert start <= k < pos;
    } else {
      assert rest[j - 1] == ps[j];
      if j > 1 {
        assert rest[j - 2] == ps[j - 1];
      }
      PositionsLeftmost(line, marker, pos + |marker|, rest, j - 1, k);
    }
  }

  /** A non-empty list of finds starts with the first find from `start`. */
  lemma PositionsCons(line: string, marker: string, start: nat)
    requires |marker| > 0 && start <= |line|
    requires Positions(line, marker, start) != []
    ensures Find(line, marker, start).Some?
    ensures var pos := Find(line, marker, start).value;
            pos + |marker| <= |line| &&
            Positions(line, marker, start) == [pos] + Positions(line, marker, pos + |marker|)
  {
  }

  /** The pair of markers at `open` and `close`. */
  function MakePair(marker: string, open: nat, close: nat): PairMatch {
    PairMatch(marker, open, open + |marker|, close, close + |marker|)
  }

  /** The pairing loop: the first position with the second, the third with
      the fourth, and so on; an odd last position is dropped. */
  function PairUp(marker: string, ps: seq<nat>): (r: seq<PairMatch>)
    ensures |r| == |ps| / 2
    decreases |ps|
  {
    if |ps| < 2 then [] else [MakePair(marker, ps[0], ps[1])] + PairUp(marker, ps[2..])
  }

  /** Pair `i` is made of positions `2 * i` and `2 * i + 1`. */
  lemma PairUpPairs(marker: string, ps: seq<nat>)
    ensures forall i :: 0 <= i < |PairUp(marker, ps)| ==>
              PairUp(marker, ps)[i] == MakePair(marker, ps[2 * i], ps[2 * i + 1])
  {
    forall i | 0 <= i < |PairUp(marker, ps)|
      ensures PairUp(marker, ps)[i] == MakePair(marker, ps[2 * i], ps[2 * i + 1])
    {
      PairUpAt(marker, ps, i);
    }
  }

  /** One pair at a time, walking two positions down the list per step. */
  lemma {:induction false} PairUpAt(marker: string, ps: seq<nat>, i: nat)
    requires i < |ps| / 2
    ensures PairUp(marker, ps)[i] == MakePair(marker, ps[2 * i], ps[2 * i + 1])
    decreases i
  {
    if i > 0 {
      PairUpAt(marker, ps[2..], i - 1);
      assert ps[2..][2 * (i - 1)] == ps[2 * i] && ps[2..][2 * (i - 1) + 1] == ps[2 * i + 1];
    }
  }

  /** A pair that lies inside the line, with the marker at both ends. */
  predicate WellFormed(line: string, marker: string, m: PairMatch) {
    && m.marker == marker
    && m.openEnd == m.openStart + |marker|
    && m.closeEnd == m.closeStart + |marker|
    && m.openEnd <= m.closeStart
    && OccursAt(line, marker, m.openStart)
    && OccursAt(line, marker, m.closeStart)
  }

  /** Well-formed pairs, in order, none overlapping the next. */
  predicate ValidMatches(line: string, marker: string, ms: seq<PairMatch>) {
    && (forall i :: 0 <= i < |ms| ==> WellFormed(line, marker, ms[i]))
    && (forall i :: 0 < i < |ms| ==> ms[i - 1].closeEnd <= ms[i].openStart)
  }

  /** `find_pair_markers`. An empty marker is never found: the source's
      search would not advance, so the marker must be non-empty. */
  function FindPairMarkers(line: string, marker: string): (r: seq<PairMatch>)
    requires |marker| > 0
    ensures ValidMatches(line, marker, r)
    ensures |r| == |Positions(line, marker, 0)| / 2
  {
    var ps := Positions(line, marker, 0);
    PositionsSound(line, marker, 0);
    PairUpPairs(marker, ps);
    var r := PairUp(marker, ps);
    forall i | 0 <= i < |r| ensures WellFormed(line, marker, r[i]) {
      assert r[i] == MakePair(marker, ps[2 * i], ps[2 * i + 1]);
      assert ps[2 * i] + |marker| <= ps[2 * i + 1];
      assert OccursAt(line, marker, ps[2 * i]) && OccursAt(line, marker, ps[2 * i + 1]);
    }
    forall i | 0 < i < |r| ensures r[i - 1].closeEnd <= r[i].openStart {
      assert r[i - 1].closeEnd == ps[2 * i - 1] + |marker|;
      assert r[i].openStart == ps[2 * i];
    }
    r
  }

  // ---------------------------------------------------------------------------
  // remove_spaces_around_paired_markers
  // ---------------------------------------------------------------------------

  /** The backward loop: how many `' '` stand just before `pos`. */
  function SpacesBefore(s: string, pos: nat): (k: nat)
    requires pos <= |s|
    ensures k <= pos
    ensures forall j :: pos - k <= j < pos ==> s[j] == ' '
    ensures k == pos || s[pos - k - 1] != ' '
    decreases pos
  {
    if pos > 0 && s[pos - 1] == ' ' then SpacesBefore(s, pos - 1) + 1 else 0
  }

  /** The forward loop: how many `' '` stand from `pos` on. */
  function SpacesAfter(s: string, pos: nat): (k: nat)
    requires pos <= |s|
    ensures pos + k <= |s|
    ensures forall j :: pos <= j < pos + k ==> s[j] == ' '
    ensures pos + k == |s| || s[pos + k] != ' '
    decreases |s| - pos
  {
    if pos < |s| && s[pos] == ' ' then SpacesAfter(s, pos + 1) + 1 else 0
  }

  /** A pair whose markers hold no space, inside `s`. */
  predicate Removable(s: string, m: PairMatch) {
    0 < m.openEnd <= m.closeStart < |s| && s[m.openEnd - 1] != ' ' && s[m.closeStart] != ' '
  }

  /** The first half of a round: the spaces just before the closing marker
      go. They stop at the opening marker, which ends in a non-space. */
  function DropBeforeClose(s: string, m: PairMatch): (t: string)
    requires Removable(s, m)
    ensures m.openEnd <= |t| <= |s|
  {
    var k := SpacesBefore(s, m.closeStart);
    assert s[m.openEnd - 1] != ' ';
    s[..m.closeStart - k] + s[m.closeStart..]
  }

  /** One round of the loop body: the spaces before the closing marker go,
      then those after the opening marker. */
  function RemoveInside(s: string, m: PairMatch): (r: string)
    requires Removable(s, m)
    ensures |r| <= |s|
  {
    var t := DropBeforeClose(s, m);
    t[..m.openEnd] + t[m.openEnd + SpacesAfter(t, m.openEnd)..]
  }

  /** The pairs processed from the last to the first: for pairs in ascending
      order, that is the descending sort on `open_start` of the source. */
  function RemoveDescending(s: string, marker: string, ms: seq<PairMatch>): (r: string)
    requires ' ' !in marker && |marker| > 0
    requires ValidMatches(s, marker, ms)
    decreases |ms|
  {
    if |ms| == 0 then s
    else
      var m := ms[|ms| - 1];
      WellFormedRemovable(s, marker, m);
      var s2 := RemoveInside(s, m);
      RemoveInsideKeepsPrefix(s, m);
      var init := ms[..|ms| - 1];
      forall i | 0 <= i < |init| ensures init[i].closeEnd <= m.openStart {
        MatchesBefore(s, marker, ms, i);
      }
      PrefixKeepsMatches(s, s2, marker, init, m.openStart);
      RemoveDescending(s2, marker, ms[..|ms| - 1])
  }

  /** `remove_spaces_around_paired_markers` on the pairs `find_pair_markers`
      returns: no pairs leave the line as it is. */
  function RemoveSpacesAroundPairedMarkers(line: string, marker: string, ms: seq<PairMatch>): (r: string)
    requires ' ' !in marker && |marker| > 0
    requires ValidMatches(line, marker, ms)
  {
    if |ms| == 0 then line else RemoveDescending(line, marker, ms)
  }

  /** A well-formed pair of a marker without spaces is removable. */
  lemma WellFormedRemovable(s: string, marker: string, m: PairMatch)
    requires ' ' !in marker && |marker| > 0
    requires WellFormed(s, marker, m)
    ensures Removable(s, m)
  {
    assert s[m.openStart..m.openEnd][|marker| - 1] == s[m.openEnd - 1];
    assert s[m.closeStart..m.closeEnd][0] == s[m.closeStart];
  }

  /** A round leaves the text up to the end of the opening marker alone. */
  lemma RemoveInsideKeepsPrefix(s: string, m: PairMatch)
    requires Removable(s, m)
    ensures m.openEnd <= |RemoveInside(s, m)|
    ensures RemoveInside(s, m)[..m.openEnd] == s[..m.openEnd]
  {
    var t := DropBeforeClose(s, m);
    assert RemoveInside(s, m)[..m.openEnd] == t[..m.openEnd];
    RemoveTrailingPart(s, m);
  }

  /** Pairs that end before `p` stay valid when the text before `p` is
      unchanged. */
  lemma PrefixKeepsMatches(s: string, s2: string, marker: string, ms: seq<PairMatch>, p: nat)
    requires p <= |s| && p <= |s2| && s[..p] == s2[..p]
    requires ValidMatches(s, marker, ms)
    requires forall i :: 0 <= i < |ms| ==> ms[i].closeEnd <= p
    ensures ValidMatches(s2, marker, ms)
  {
    forall i | 0 <= i < |ms| ensures WellFormed(s2, marker, ms[i]) {
      var m := ms[i];
      assert WellFormed(s, marker, m);
      OccursInPrefix(s, s2, marker, p, m.openStart);
      OccursInPrefix(s, s2, marker, p, m.closeStart);
    }
  }

  /** An occurrence that ends by `p` survives any change after `p`. */
  lemma OccursInPrefix(s: string, s2: string, marker: string, p: nat, k: nat)
    requires p <= |s| && p <= |s2| && s[..p] == s2[..p]
    requires k + |marker| <= p && OccursAt(s, marker, k)
    ensures OccursAt(s2, marker, k)
  {
    SliceOfPrefix(s, p, k, k + |marker|);
    SliceOfPrefix(s2, p, k, k + |marker|);
  }

  /** In valid pairs, each pair ends before the last one starts. */
  lemma {:induction false} MatchesBefore(s: string, marker: string, ms: seq<PairMatch>, i: nat)
    requires ValidMatches(s, marker, ms) && i < |ms| - 1
    ensures ms[i].closeEnd <= ms[|ms| - 1].openStart
    decreases |ms| - i
  {
    if i < |ms| - 2 {
      MatchesBefore(s, marker, ms, i + 1);
      assert WellFormed(s, marker, ms[i + 1]);
    }
  }

  // ---------------------------------------------------------------------------
  // What the removal does, segment by segment
  // ---------------------------------------------------------------------------

  /** `x` without its trailing `' '`. */
  function DropTrailingSpaces(x: string): (r: string)
    ensures |r| <= |x| && r == x[..|r|]
    ensures forall j :: |r| <= j < |x| ==> x[j] == ' '
    ensures r == [] || r[|r| - 1] != ' '
    decreases |x|
  {
    if |x| > 0 && x[|x| - 1] == ' ' then DropTrailingSpaces(x[..|x| - 1]) else x
  }

  /** `x` without its leading `' '`. */
  function DropLeadingSpaces(x: string): (r: string)
    ensures |r| <= |x| && r == x[|x| - |r|..]
    ensures forall j :: 0 <= j < |x| - |r| ==> x[j] == ' '
    ensures r == [] || r[0] != ' '
    decreases |x|
  {
    if |x| > 0 && x[0] == ' ' then DropLeadingSpaces(x[1..]) else x
  }

  /** `x` without the `' '` at either end. */
  function TrimSpaces(x: string): string {
    DropLeadingSpaces(DropTrailingSpaces(x))
  }

  /** The pairs fit one after the other in a text of length `n`, from `from`
      on. */
  predicate Spans(ms: seq<PairMatch>, from: nat, n: nat)
    decreases |ms|
  {
    if |ms| == 0 then from <= n
    else from <= ms[0].openEnd <= ms[0].closeStart && Spans(ms[1..], ms[0].closeStart, n)
  }

  /** What the post-pass should make of a line, read from left to right: the
      text up to and including each opening marker is kept, the text inside
      the pair loses its spaces at both ends, and after the last pair
      everything is kept. */
  function Clean(line: string, ms: seq<PairMatch>, from: nat): string
    requires Spans(ms, from, |line|)
  {
    CleanWith(TrimSpaces, line, ms, from)
  }

  /** Without pairs, the text from `from` on is kept. */
  lemma CleanNil(line: string, ms: seq<PairMatch>, from: nat)
    requires |ms| == 0 && from <= |line|
    ensures Spans(ms, from, |line|) && Clean(line, ms, from) == line[from..]
  {
  }

  /** The first pair: the text up to its opening marker, its trimmed inside,
      then the reading of the other pairs. */
  lemma CleanCons(line: string, ms: seq<PairMatch>, from: nat)
    requires |ms| > 0 && Spans(ms, from, |line|)
    ensures from <= ms[0].openEnd <= ms[0].closeStart <= |line|
    ensures Spans(ms[1..], ms[0].closeStart, |line|)
    ensures Clean(line, ms, from) == line[from..ms[0].openEnd]
              + TrimSpaces(line[ms[0].openEnd..ms[0].closeStart]) + Clean(line, ms[1..], ms[0].closeStart)
  {
    SpansBound(ms[1..], ms[0].closeStart, |line|);
  }

  /** The same reading with any `f` in place of the trimming of the inside:
      the laws below about the order of reading hold whatever `f` does. */
  function CleanWith(f: string -> string, line: string, ms: seq<PairMatch>, from: nat): string
    requires Spans(ms, from, |line|)
    decreases |ms|
  {
    if |ms| == 0 then line[from..]
    else
      var m := ms[0];
      SpansBound(ms[1..], m.closeStart, |line|);
      line[from..m.openEnd] + f(line[m.openEnd..m.closeStart]) + CleanWith(f, line, ms[1..], m.closeStart)
  }

  /** The pairs start at or before the end of the text. */
  lemma {:induction false} SpansBound(ms: seq<PairMatch>, from: nat, n: nat)
    requires Spans(ms, from, n)
    ensures from <= n
    decreases |ms|
  {
    if |ms| > 0 {
      SpansBound(ms[1..], ms[0].closeStart, n);
    }
  }

  /** Valid pairs fit the line. */
  lemma {:induction false} ValidSpans(line: string, marker: string, ms: seq<PairMatch>, from: nat)
    requires ValidMatches(line, marker, ms)
    requires if |ms| == 0 then from <= |line| else from <= ms[0].openStart
    ensures Spans(ms, from, |line|)
    decreases |ms|
  {
    if |ms| > 0 {
      assert WellFormed(line, marker, ms[0]);
      var rest := ms[1..];
      assert ValidMatches(line, marker, rest) by {
        forall i | 0 <= i < |rest| ensures WellFormed(line, marker, rest[i]) {
          assert rest[i] == ms[i + 1];
        }
        forall i | 0 < i < |rest| ensures rest[i - 1].closeEnd <= rest[i].openStart {
          assert rest[i] == ms[i + 1] && rest[i - 1] == ms[i];
        }
      }
      if |rest| > 0 {
        assert rest[0] == ms[1];
      }
      ValidSpans(line, marker, rest, ms[0].closeStart);
    }
  }

  /** The backward scan from `pos` stops at a non-space at `lo - 1`, and what
      it keeps is the text without its trailing spaces. */
  lemma {:induction false} SpacesBeforeTrim(s: string, lo: nat, pos: nat)
    requires 0 < lo <= pos <= |s| && s[lo - 1] != ' '
    ensures SpacesBefore(s, pos) <= pos - lo
    ensures s[lo..pos - SpacesBefore(s, pos)] == DropTrailingSpaces(s[lo..pos])
    decreases pos
  {
    if pos > lo && s[pos - 1] == ' ' {
      SpacesBeforeTrim(s, lo, pos - 1);
      assert s[lo..pos][..pos - lo - 1] == s[lo..pos - 1];
    }
  }

  /** The forward scan from `pos` over `d + rest`, where `d` ends in a
      non-space and `rest` starts with one, skips the leading spaces of `d`. */
  lemma {:induction false} SpacesAfterTrim(t: string, pos: nat, d: string, rest: string)
    requires pos <= |t| && t[pos..] == d + rest
    requires d == [] || d[|d| - 1] != ' '
    requires rest != [] && rest[0] != ' '
    ensures SpacesAfter(t, pos) <= |d|
    ensures t[pos + SpacesAfter(t, pos)..] == DropLeadingSpaces(d) + rest
    decreases |d|
  {
    if |d| > 0 && d[0] == ' ' {
      assert t[pos] == ' ';
      assert t[pos + 1..] == d[1..] + rest;
      SpacesAfterTrim(t, pos + 1, d[1..], rest);
      assert SpacesAfter(t, pos) == SpacesAfter(t, pos + 1) + 1;
      assert DropLeadingSpaces(d) == DropLeadingSpaces(d[1..]);
    } else if |d| > 0 {
      assert t[pos] == d[0];
      assert SpacesAfter(t, pos) == 0;
      assert DropLeadingSpaces(d) == d;
    } else {
      assert t[pos] == rest[0];
      assert SpacesAfter(t, pos) == 0;
      assert DropLeadingSpaces(d) + rest == rest;
    }
  }

  /** One round of the loop, stated on the segments of the text. */
  lemma RemoveInsideSegments(s: string, m: PairMatch)
    requires Removable(s, m)
    ensures RemoveInside(s, m) == s[..m.openEnd] + TrimSpaces(s[m.openEnd..m.closeStart]) + s[m.closeStart..]
  {
    var t := DropBeforeClose(s, m);
    var k := SpacesAfter(t, m.openEnd);
    var inside := TrimSpaces(s[m.openEnd..m.closeStart]);
    var tail := s[m.closeStart..];
    RemoveTrailingPart(s, m);
    RemoveLeadingPart(s, m);
    assert RemoveInside(s, m) == t[..m.openEnd] + t[m.openEnd + k..];
    assert RemoveInside(s, m) == s[..m.openEnd] + (inside + tail);
    ConcatAssoc(s[..m.openEnd], inside, tail);
  }

  /** The second half of a round: skipping the spaces after the opening
      marker trims the inside on the left as well. */
  lemma RemoveLeadingPart(s: string, m: PairMatch)
    requires Removable(s, m)
    ensures DropBeforeClose(s, m)[m.openEnd + SpacesAfter(DropBeforeClose(s, m), m.openEnd)..] ==
              TrimSpaces(s[m.openEnd..m.closeStart]) + s[m.closeStart..]
  {
    RemoveTrailingPart(s, m);
    TailStartsAtClose(s, m);
    SkipSpacesTrims(DropBeforeClose(s, m), m.openEnd, s[m.openEnd..m.closeStart], s[m.closeStart..]);
  }

  /** Skipping the spaces at `pos`, where the text reads `x` less its
      trailing spaces followed by a part that starts with a non-space, leaves
      `x` trimmed on both sides, followed by that part. */
  lemma SkipSpacesTrims(t: string, pos: nat, x: string, rest: string)
    requires pos <= |t| && t[pos..] == DropTrailingSpaces(x) + rest
    requires rest != [] && rest[0] != ' '
    ensures t[pos + SpacesAfter(t, pos)..] == TrimSpaces(x) + rest
  {
    SpacesAfterTrim(t, pos, DropTrailingSpaces(x), rest);
  }

  /** The text from the closing marker on starts with a non-space. */
  lemma TailStartsAtClose(s: string, m: PairMatch)
    requires Removable(s, m)
    ensures s[m.closeStart..] != [] && s[m.closeStart..][0] != ' '
  {
    assert s[m.closeStart..][0] == s[m.closeStart];
  }

  /** The first half of a round: dropping the spaces before the closing
      marker trims the inside on the right. */
  lemma RemoveTrailingPart(s: string, m: PairMatch)
    requires Removable(s, m)
    ensures var t := DropBeforeClose(s, m);
            t[..m.openEnd] == s[..m.openEnd] &&
            t[m.openEnd..] == DropTrailingSpaces(s[m.openEnd..m.closeStart]) + s[m.closeStart..]
  {
    var k := SpacesBefore(s, m.closeStart);
    SpacesBeforeTrim(s, m.openEnd, m.closeStart);
    var d := DropTrailingSpaces(s[m.openEnd..m.closeStart]);
    var head := s[..m.openEnd];
    var tail := s[m.closeStart..];
    assert s[..m.closeStart - k] == head + d;
    assert DropBeforeClose(s, m) == (head + d) + tail;
    ConcatAssoc(head, d, tail);
    SplitAtJoint(head, d + tail);
  }

  lemma ConcatAssoc<T>(a: seq<T>, b: seq<T>, c: seq<T>)
    ensures a + (b + c) == a + b + c
  {
  }

  /** Reading the pairs left to right, the last pair comes after the text the
      others are read from. */
  lemma {:induction false} CleanSnoc(f: string -> string, line: string, ms: seq<PairMatch>, m: PairMatch, from: nat)
    requires Spans(ms + [m], from, |line|)
    ensures m.openEnd <= m.closeStart <= |line|
    ensures Spans(ms, from, m.openEnd)
    ensures CleanWith(f, line, ms + [m], from)
            == CleanWith(f, line[..m.openEnd], ms, from) + f(line[m.openEnd..m.closeStart]) + line[m.closeStart..]
    decreases |ms|
  {
    SpansSnoc(ms, m, from, |line|);
    var T := f(line[m.openEnd..m.closeStart]);
    if |ms| == 0 {
      CleanSingle(f, line, m, from);
    } else {
      var m0 := ms[0];
      var rest := ms[1..];
      CleanSnocHead(f, line, ms, m, from);
      CleanSnoc(f, line, rest, m, m0.closeStart);
      var pre := line[..m.openEnd];
      var a := line[from..m0.openEnd] + f(line[m0.openEnd..m0.closeStart]);
      Regroup(CleanWith(f, line, ms + [m], from), CleanWith(f, line, rest + [m], m0.closeStart),
              CleanWith(f, pre, ms, from), a, CleanWith(f, pre, rest, m0.closeStart), T, line[m.closeStart..]);
    }
  }

  /** Putting a common front back in front of a three-part split. */
  lemma Regroup<T>(x: seq<T>, y: seq<T>, z: seq<T>, a: seq<T>, c: seq<T>, t: seq<T>, tail: seq<T>)
    requires x == a + y && y == c + t + tail && z == a + c
    ensures x == z + t + tail
  {
    ConcatAssoc(a, c + t, tail);
    ConcatAssoc(a, c, t);
  }

  /** A single pair: the text up to its opening marker, `f` of the inside,
      then the rest. */
  lemma CleanSingle(f: string -> string, line: string, m: PairMatch, from: nat)
    requires Spans([m], from, |line|)
    ensures from <= m.openEnd <= m.closeStart <= |line|
    ensures CleanWith(f, line, [] + [m], from)
            == CleanWith(f, line[..m.openEnd], [], from) + f(line[m.openEnd..m.closeStart]) + line[m.closeStart..]
  {
    assert [] + [m] == [m];
    assert [m][1..] == [];
    SpansBound([m][1..], m.closeStart, |line|);
  }

  /** The first pair is read alike from the whole line and from the text up
      to the last pair's opening marker. */
  lemma CleanSnocHead(f: string -> string, line: string, ms: seq<PairMatch>, m: PairMatch, from: nat)
    requires |ms| > 0 && Spans(ms + [m], from, |line|)
    ensures m.openEnd <= |line| && Spans(ms, from, m.openEnd)
    ensures from <= ms[0].openEnd <= ms[0].closeStart <= m.openEnd
    ensures var m0 := ms[0];
            var a := line[from..m0.openEnd] + f(line[m0.openEnd..m0.closeStart]);
            Spans(ms[1..], m0.closeStart, m.openEnd) &&
            Spans(ms[1..] + [m], m0.closeStart, |line|) &&
            CleanWith(f, line[..m.openEnd], ms, from) == a + CleanWith(f, line[..m.openEnd], ms[1..], m0.closeStart) &&
            CleanWith(f, line, ms + [m], from) == a + CleanWith(f, line, ms[1..] + [m], m0.closeStart)
  {
    SpansSnoc(ms, m, from, |line|);
    var m0 := ms[0];
    var rest := ms[1..];
    assert (ms + [m])[0] == m0;
    assert (ms + [m])[1..] == rest + [m];
    SpansBound(rest, m0.closeStart, m.openEnd);
    SliceOfPrefix(line, m.openEnd, from, m0.openEnd);
    SliceOfPrefix(line, m.openEnd, m0.openEnd, m0.closeStart);
  }

  /** Where the last pair sits. */
  lemma {:induction false} SpansSnoc(ms: seq<PairMatch>, m: PairMatch, from: nat, n: nat)
    requires Spans(ms + [m], from, n)
    ensures from <= m.openEnd <= m.closeStart <= n
    ensures Spans(ms, from, m.openEnd)
    decreases |ms|
  {
    if |ms| == 0 {
      assert [] + [m] == [m];
      SpansBound([m][1..], m.closeStart, n);
    } else {
      assert (ms + [m])[1..] == ms[1..] + [m];
      SpansSnoc(ms[1..], m, ms[0].closeStart, n);
    }
  }

  /** The pairs read from a prefix, then the rest of the text kept as is. */
  lemma {:induction false} CleanSplit(f: string -> string, x: string, ms: seq<PairMatch>, from: nat, p: nat)
    requires Spans(ms, from, p) && p <= |x|
    ensures Spans(ms, from, |x|)
    ensures CleanWith(f, x, ms, from) == CleanWith(f, x[..p], ms, from) + x[p..]
    decreases |ms|
  {
    SpansBound(ms, from, p);
    if |ms| > 0 {
      var m0 := ms[0];
      CleanSplit(f, x, ms[1..], m0.closeStart, p);
      SpansBound(ms[1..], m0.closeStart, p);
      var pre := x[..p];
      SliceOfPrefix(x, p, from, m0.openEnd);
      SliceOfPrefix(x, p, m0.openEnd, m0.closeStart);
      var a := x[from..m0.openEnd] + f(x[m0.openEnd..m0.closeStart]);
      ConcatAssoc(a, CleanWith(f, pre, ms[1..], m0.closeStart), x[p..]);
    } else {
      assert x[from..] == x[..p][from..] + x[p..];
    }
  }

  /** One step of the removal: the last pair is handled first, and the other
      pairs stay valid in the result. */
  lemma RemoveDescendingStep(s: string, marker: string, ms: seq<PairMatch>)
    requires ' ' !in marker && |marker| > 0
    requires ValidMatches(s, marker, ms) && |ms| > 0
    ensures Removable(s, ms[|ms| - 1])
    ensures ValidMatches(RemoveInside(s, ms[|ms| - 1]), marker, ms[..|ms| - 1])
    ensures RemoveDescending(s, marker, ms)
            == RemoveDescending(RemoveInside(s, ms[|ms| - 1]), marker, ms[..|ms| - 1])
  {
    var m := ms[|ms| - 1];
    var init := ms[..|ms| - 1];
    WellFormedRemovable(s, marker, m);
    RemoveInsideKeepsPrefix(s, m);
    forall i | 0 <= i < |init| ensures init[i].closeEnd <= m.openStart {
      MatchesBefore(s, marker, ms, i);
    }
    PrefixKeepsMatches(s, RemoveInside(s, m), marker, init, m.openStart);
  }

  /** Reading the pairs after the last one has been handled gives the reading
      of all of them. */
  lemma CleanAfterRemoveInside(s: string, ms: seq<PairMatch>, m: PairMatch)
    requires Removable(s, m)
    requires Spans(ms + [m], 0, |s|)
    ensures Spans(ms, 0, |RemoveInside(s, m)|)
    ensures Clean(RemoveInside(s, m), ms, 0) == Clean(s, ms + [m], 0)
  {
    var s2 := RemoveInside(s, m);
    var T := TrimSpaces(s[m.openEnd..m.closeStart]);
    RemoveInsideSegments(s, m);
    CleanSnoc(TrimSpaces, s, ms, m, 0);
    CleanSplit(TrimSpaces, s2, ms, 0, m.openEnd);
    ConcatAssoc(s[..m.openEnd], T, s[m.closeStart..]);
    SplitAtJoint(s[..m.openEnd], T + s[m.closeStart..]);
    ConcatAssoc(Clean(s[..m.openEnd], ms, 0), T, s[m.closeStart..]);
  }

  /** The source's right-to-left removal gives the left-to-right reading of
      the pairs. */
  lemma {:induction false} RemoveDescendingClean(s: string, marker: string, ms: seq<PairMatch>)
    requires ' ' !in marker && |marker| > 0
    requires ValidMatches(s, marker, ms)
    ensures Spans(ms, 0, |s|)
    ensures RemoveDescending(s, marker, ms) == Clean(s, ms, 0)
    decreases |ms|
  {
    ValidSpans(s, marker, ms, 0);
    if |ms| > 0 {
      var m := ms[|ms| - 1];
      var init := ms[..|ms| - 1];
      assert ms == init + [m];
      RemoveDescendingStep(s, marker, ms);
      RemoveDescendingClean(RemoveInside(s, m), marker, init);
      CleanAfterRemoveInside(s, init, m);
    }
  }

  // ---------------------------------------------------------------------------
  // post_process_paired_markers
  // ---------------------------------------------------------------------------

  /** A marker the removal can work with. */
  predicate UsableMarker(marker: string) {
    |marker| > 0 && ' ' !in marker
  }

  /** The loop over the markers: each is found and handled on the line the
      previous one left. */
  function PostProcessWith(line: string, markers: seq<string>): string
    requires forall i :: 0 <= i < |markers| ==> UsableMarker(markers[i])
    decreases |markers|
  {
    if |markers| == 0 then line
    else
      assert UsableMarker(markers[0]);
      var ms := FindPairMarkers(line, markers[0]);
      PostProcessWith(RemoveSpacesAroundPairedMarkers(line, markers[0], ms), markers[1..])
  }

  /** `post_process_paired_markers`, whose only marker is `**`. */
  function PostProcessPairedMarkers(line: string): string {
    PostProcessWith(line, [BoldMarker])
  }

  /** With one marker, the loop is one search and one removal. */
  lemma PostProcessOne(line: string, marker: string)
    requires UsableMarker(marker)
    ensures PostProcessWith(line, [marker])
            == RemoveSpacesAroundPairedMarkers(line, marker, FindPairMarkers(line, marker))
  {
    assert [marker][1..] == [];
  }

  /** The post-pass reads the `**` pairs of the line from left to right and
      trims the inside of each. */
  lemma PostProcessClean(line: string)
    ensures Spans(FindPairMarkers(line, BoldMarker), 0, |line|)
    ensures PostProcessPairedMarkers(line) == Clean(line, FindPairMarkers(line, BoldMarker), 0)
  {
    var M := BoldMarker;
    assert UsableMarker(M) by {
      assert M == ['*', '*'];
    }
    var ms := FindPairMarkers(line, M);
    PostProcessOne(line, M);
    RemoveDescendingClean(line, M, ms);
    if |ms| == 0 {
      CleanNil(line, ms, 0);
      assert line[0..] == line;
    }
  }

  /** The line without its `' '` characters. */
  function NonSpaces(s: string): (r: string)
    ensures |r| <= |s|
  {
    if |s| == 0 then []
    else (if s[0] == ' ' then [] else [s[0]]) + NonSpaces(s[1..])
  }

  lemma {:induction false} NonSpacesConcat(a: string, b: string)
    ensures NonSpaces(a + b) == NonSpaces(a) + NonSpaces(b)
    decreases |a|
  {
    if |a| > 0 {
      assert (a + b)[1..] == a[1..] + b;
      NonSpacesConcat(a[1..], b);
    } else {
      assert a + b == b;
    }
  }

  /** Trimming removes nothing but spaces. */
  lemma {:induction false} NonSpacesTrim(x: string)
    ensures NonSpaces(TrimSpaces(x)) == NonSpaces(x)
  {
    NonSpacesDropTrailing(x);
    NonSpacesDropLeading(DropTrailingSpaces(x));
  }

  /** Dropping the trailing spaces removes nothing but spaces. */
  lemma NonSpacesDropTrailing(x: string)
    ensures NonSpaces(DropTrailingSpaces(x)) == NonSpaces(x)
  {
    var d := DropTrailingSpaces(x);
    var w := x[|d|..];
    assert forall j :: 0 <= j < |w| ==> w[j] == x[|d| + j];
    NonSpacesBlank(w);
    assert x == d + w;
    NonSpacesConcat(d, w);
  }

  /** Dropping the leading spaces removes nothing but spaces. */
  lemma NonSpacesDropLeading(d: string)
    ensures NonSpaces(DropLeadingSpaces(d)) == NonSpaces(d)
  {
    var e := DropLeadingSpaces(d);
    var w := d[..|d| - |e|];
    assert forall j :: 0 <= j < |w| ==> w[j] == d[j];
    NonSpacesBlank(w);
    assert d == w + e;
    NonSpacesConcat(w, e);
  }

  /** Only spaces: nothing is left. */
  lemma {:induction false} NonSpacesBlank(w: string)
    requires forall j :: 0 <= j < |w| ==> w[j] == ' '
    ensures NonSpaces(w) == []
    decreases |w|
  {
    if |w| > 0 {
      NonSpacesBlank(w[1..]);
    }
  }

  /** The reading of the pairs deletes spaces and nothing else. */
  lemma {:induction false} NonSpacesClean(line: string, ms: seq<PairMatch>, from: nat)
    requires Spans(ms, from, |line|) && from <= |line|
    ensures NonSpaces(Clean(line, ms, from)) == NonSpaces(line[from..])
    decreases |ms|
  {
    if |ms| > 0 {
      var m := ms[0];
      SpansBound(ms[1..], m.closeStart, |line|);
      NonSpacesClean(line, ms[1..], m.closeStart);
      var a := line[from..m.openEnd];
      var b := line[m.openEnd..m.closeStart];
      var c := line[m.closeStart..];
      var rest := Clean(line, ms[1..], m.closeStart);
      NonSpacesConcat(a + TrimSpaces(b), rest);
      NonSpacesConcat(a, TrimSpaces(b));
      NonSpacesTrim(b);
      SliceThree(line, from, m.openEnd, m.closeStart);
      NonSpacesConcat(a + b, c);
      NonSpacesConcat(a, b);
    }
  }

  /** The post-pass deletes spaces and nothing else. */
  lemma PostProcessOnlySpaces(line: string)
    ensures NonSpaces(PostProcessPairedMarkers(line)) == NonSpaces(line)
    ensures |PostProcessPairedMarkers(line)| <= |line|
  {
    var ms := FindPairMarkers(line, BoldMarker);
    PostProcessClean(line);
    NonSpacesClean(line, ms, 0);
    assert line[0..] == line;
    PostProcessOne(line, BoldMarker);
    if |ms| > 0 {
      RemoveDescendingShorter(line, BoldMarker, ms);
    }
  }

  /** The removal never lengthens the text. */
  lemma {:induction false} RemoveDescendingShorter(s: string, marker: string, ms: seq<PairMatch>)
    requires UsableMarker(marker)
    requires ValidMatches(s, marker, ms)
    ensures |RemoveDescending(s, marker, ms)| <= |s|
    decreases |ms|
  {
    if |ms| > 0 {
      RemoveDescendingStep(s, marker, ms);
      RemoveDescendingShorter(RemoveInside(s, ms[|ms| - 1]), marker, ms[..|ms| - 1]);
    }
  }

  /** A line with fewer than two `**` is left as it is. */
  lemma PostProcessNoPair(line: string)
    requires |Positions(line, BoldMarker, 0)| < 2
    ensures PostProcessPairedMarkers(line) == line
  {
    PostProcessOne(line, BoldMarker);
  }

  /** An example: the spaces inside a bold span go, the others stay. */
  lemma PostProcessExample()
    ensures PostProcessPairedMarkers("a ** b ** c") == "a **b** c"
  {
    var line := "a ** b ** c";
    var ms := [MakePair(BoldMarker, 2, 7)];
    ExampleMatches();
    PostProcessClean(line);
    ExampleClean(line, ms);
  }

  /** The example line has one pair of `**`. */
  lemma ExampleMatches()
    ensures FindPairMarkers("a ** b ** c", BoldMarker) == [MakePair(BoldMarker, 2, 7)]
  {
    ExamplePositions();
  }

  /** Reading the example line with its one pair. */
  lemma ExampleClean(line: string, ms: seq<PairMatch>)
    requires line == "a ** b ** c" && ms == [MakePair(BoldMarker, 2, 7)]
    ensures Spans(ms, 0, |line|)
    ensures Clean(line, ms, 0) == "a **b** c"
  {
    ExamplePieces();
    ExampleTrim();
    var m := ms[0];
    assert m.openEnd == 4 && m.closeStart == 7;
    assert |ms[1..]| == 0;
    assert Spans(ms[1..], 7, |line|);
    CleanNil(line, ms[1..], 7);
    CleanCons(line, ms, 0);
  }

  /** The inside of the example pair loses its spaces. */
  lemma ExampleTrim()
    ensures TrimSpaces(" b ") == "b"
  {
    TrimOneChar('b');
  }

  /** One non-space character between two spaces is what remains. */
  lemma TrimOneChar(c: char)
    requires c != ' '
    ensures TrimSpaces([' ', c, ' ']) == [c]
  {
    var x := [' ', c, ' '];
    assert x[..2] == [' ', c];
    assert DropTrailingSpaces(x) == DropTrailingSpaces([' ', c]) == [' ', c];
    assert [' ', c][1..] == [c];
    assert DropLeadingSpaces([' ', c]) == DropLeadingSpaces([c]) == [c];
  }

  /** Text without spaces at its ends, followed by one space, trims back to
      itself. */
  lemma TrimOneTrailingSpace(w: string)
    requires w != [] && w[0] != ' ' && w[|w| - 1] != ' '
    ensures TrimSpaces(w + " ") == w
  {
    assert (w + " ")[..|w|] == w;
    assert DropTrailingSpaces(w + " ") == DropTrailingSpaces(w) == w;
    assert DropLeadingSpaces(w) == w;
  }

  /** The pieces of the example line. */
  lemma ExamplePieces()
    ensures var line := "a ** b ** c";
            line[0..4] == "a **" && line[4..7] == " b " && line[7..] == "** c"
    ensures "a **" + "b" + "** c" == "a **b** c"
  {
  }

  /** The two `**` of the example are found at 2 and 7. */
  lemma ExamplePositions()
    ensures Positions("a ** b ** c", BoldMarker, 0) == [2, 7]
  {
    var line := "a ** b ** c";
    var M := BoldMarker;
    ExampleFindFirst();
    ExampleFindSecond();
    ExampleFindNone();
    assert Positions(line, M, 9) == [];
    assert Positions(line, M, 4) == [7] + Positions(line, M, 9);
    assert Positions(line, M, 0) == [2] + Positions(line, M, 4);
  }

  /** The first `**` of the example line starts at 2. */
  lemma ExampleFindFirst()
    ensures Find("a ** b ** c", BoldMarker, 0) == Some(2)
  {
    var line := "a ** b ** c";
    var M := BoldMarker;
    assert line[0] == 'a' && line[1] == ' ' && line[2] == '*' && line[3] == '*';
    NotAt(line, M, 0, 0);
    NotAt(line, M, 1, 0);
    assert line[2..4] == M;
    assert OccursAt(line, M, 2);
  }

  /** After the first `**`, the next one starts at 7. */
  lemma ExampleFindSecond()
    ensures Find("a ** b ** c", BoldMarker, 4) == Some(7)
  {
    var line := "a ** b ** c";
    var M := BoldMarker;
    assert line[4] == ' ' && line[5] == 'b' && line[6] == ' ' && line[7] == '*' && line[8] == '*';
    NotAt(line, M, 4, 0);
    NotAt(line, M, 5, 0);
    NotAt(line, M, 6, 0);
    assert line[7..9] == M;
    assert OccursAt(line, M, 7);
  }

  /** After the second `**`, there is none. */
  lemma ExampleFindNone()
    ensures Find("a ** b ** c", BoldMarker, 9) == None
  {
    var line := "a ** b ** c";
    var M := BoldMarker;
    assert |line| == 11 && line[9] == ' ';
    NotAt(line, M, 9, 0);
    assert Find(line, M, 11) == None;
    assert Find(line, M, 10) == None;
  }

  /** The search stops at the first `**` when no `*` comes before it. */
  lemma FindStarAt(line: string, start: nat, p: nat)
    requires start <= p && OccursAt(line, BoldMarker, p)
    requires forall k :: start <= k < p ==> line[k] != '*'
    ensures Find(line, BoldMarker, start) == Some(p)
  {
    forall j | start <= j < p ensures !OccursAt(line, BoldMarker, j) {
      NotAt(line, BoldMarker, j, 0);
    }
  }

  /** Without a `*` from `start` on, the search finds nothing. */
  lemma FindNoStar(line: string, start: nat)
    requires start <= |line|
    requires forall k :: start <= k < |line| ==> line[k] != '*'
    ensures Find(line, BoldMarker, start) == None
  {
    forall j | start <= j ensures !OccursAt(line, BoldMarker, j) {
      if j < |line| {
        NotAt(line, BoldMarker, j, 0);
      }
    }
  }

  /** The `*` characters of a line whose only two `**` are at `p1` and `p2`. */
  predicate TwoStarsAt(line: string, p1: nat, p2: nat) {
    && p1 + 2 <= p2
    && OccursAt(line, BoldMarker, p1) && OccursAt(line, BoldMarker, p2)
    && (forall k :: 0 <= k < p1 ==> line[k] != '*')
    && (forall k :: p1 + 2 <= k < p2 ==> line[k] != '*')
    && (forall k :: p2 + 2 <= k < |line| ==> line[k] != '*')
  }

  /** The search finds exactly the two `**`. */
  lemma TwoStarsPositions(line: string, p1: nat, p2: nat)
    requires TwoStarsAt(line, p1, p2)
    ensures Positions(line, BoldMarker, 0) == [p1, p2]
  {
    FindStarAt(line, 0, p1);
    FindStarAt(line, p1 + 2, p2);
    FindNoStar(line, p2 + 2);
    assert Positions(line, BoldMarker, p2 + 2) == [];
    assert Positions(line, BoldMarker, p1 + 2) == [p2] + Positions(line, BoldMarker, p2 + 2);
  }

  /** The two `**` make one pair. */
  lemma TwoStarsMatches(line: string, p1: nat, p2: nat)
    requires TwoStarsAt(line, p1, p2)
    ensures FindPairMarkers(line, BoldMarker) == [MakePair(BoldMarker, p1, p2)]
  {
    TwoStarsPositions(line, p1, p2);
    PairUpPairs(BoldMarker, [p1, p2]);
  }

  /** The post-pass on such a line trims the inside of the one pair. */
  lemma TwoStarsClean(line: string, p1: nat, p2: nat)
    requires TwoStarsAt(line, p1, p2)
    ensures PostProcessPairedMarkers(line)
            == line[..p1 + 2] + TrimSpaces(line[p1 + 2..p2]) + line[p2..]
  {
    TwoStarsMatches(line, p1, p2);
    var ms := FindPairMarkers(line, BoldMarker);
    PostProcessClean(line);
    CleanCons(line, ms, 0);
    CleanNil(line, ms[1..], p2);
    assert line[0..p1 + 2] == line[..p1 + 2];
  }

  /** `x + "**" + y + "**" + z` without other `*` has its two `**` at the ends
      of `x` and of `x + "**" + y`. */
  lemma TwoStarsLayout(x: string, y: string, z: string)
    requires '*' !in x && '*' !in y && '*' !in z
    ensures TwoStarsAt(x + "**" + y + "**" + z, |x|, |x| + 2 + |y|)
    ensures (x + "**" + y + "**" + z)[..|x| + 2] == x + "**"
    ensures (x + "**" + y + "**" + z)[|x| + 2..|x| + 2 + |y|] == y
    ensures (x + "**" + y + "**" + z)[|x| + 2 + |y|..] == "**" + z
  {
    var line := x + "**" + y + "**" + z;
    var p1 := |x|;
    var p2 := |x| + 2 + |y|;
    assert line[p1..p1 + 2] == BoldMarker && line[p2..p2 + 2] == BoldMarker;
    forall k | 0 <= k < p1 ensures line[k] != '*' {
      assert line[k] == x[k];
    }
    forall k | p1 + 2 <= k < p2 ensures line[k] != '*' {
      assert line[k] == y[k - p1 - 2];
    }
    forall k | p2 + 2 <= k < |line| ensures line[k] != '*' {
      assert line[k] == z[k - p2 - 2];
    }
  }

  /** A line with exactly one `**` pair keeps everything but the spaces at
      the ends of the inside of the pair. */
  lemma PostProcessOnePair(x: string, y: string, z: string)
    requires '*' !in x && '*' !in y && '*' !in z
    ensures PostProcessPairedMarkers(x + "**" + y + "**" + z) == x + "**" + TrimSpaces(y) + "**" + z
  {
    var line := x + "**" + y + "**" + z;
    TwoStarsLayout(x, y, z);
    TwoStarsPieces(line, |x|, |x| + 2 + |y|, x + "**", y, "**" + z);
    Regroup3(x + "**", TrimSpaces(y), "**", z);
  }

  /** The post-pass result in terms of the three parts of the line. */
  lemma TwoStarsPieces(line: string, p1: nat, p2: nat, a: string, y: string, b: string)
    requires TwoStarsAt(line, p1, p2)
    requires line[..p1 + 2] == a && line[p1 + 2..p2] == y && line[p2..] == b
    ensures PostProcessPairedMarkers(line) == a + TrimSpaces(y) + b
  {
    TwoStarsClean(line, p1, p2);
  }

  lemma Regroup3<T>(a: seq<T>, b: seq<T>, c: seq<T>, d: seq<T>)
    ensures a + b + (c + d) == a + b + c + d
  {
  }

  /** A non-space character survives the filter exactly when it is there. */
  lemma {:induction false} NonSpacesHas(s: string, c: char)
    requires c != ' '
    ensures c in NonSpaces(s) <==> c in s
    decreases |s|
  {
    if |s| > 0 {
      NonSpacesHas(s[1..], c);
      assert s == [s[0]] + s[1..];
    }
  }

  /** The post-pass brings no new characters. */
  lemma PostProcessChars(line: string)
    ensures CharsFrom(PostProcessPairedMarkers(line), line, " ")
  {
    var r := PostProcessPairedMarkers(line);
    PostProcessOnlySpaces(line);
    forall c | c in r ensures c in line || c in " " {
      if c != ' ' {
        NonSpacesHas(r, c);
        NonSpacesHas(line, c);
      }
    }
  }

  /** Reading the pairs keeps the first character of the text. */
  lemma CleanFirst(line: string, ms: seq<PairMatch>, from: nat)
    requires Spans(ms, from, |line|) && from < |line|
    requires |ms| > 0 ==> from < ms[0].openEnd
    ensures Clean(line, ms, from) != [] && Clean(line, ms, from)[0] == line[from]
  {
    if |ms| > 0 {
      var m := ms[0];
      SpansBound(ms[1..], m.closeStart, |line|);
      var a := line[from..m.openEnd];
      var t := TrimSpaces(line[m.openEnd..m.closeStart]);
      var c := Clean(line, ms[1..], m.closeStart);
      assert Clean(line, ms, from) == a + t + c;
      ConcatAssoc(a, t, c);
      assert (a + (t + c))[0] == a[0] == line[from];
    }
  }

  /** Reading the pairs keeps the last character of the text when every
      closing marker lies inside it. */
  lemma {:induction false} CleanLast(line: string, ms: seq<PairMatch>, from: nat)
    requires Spans(ms, from, |line|) && from < |line|
    requires forall i :: 0 <= i < |ms| ==> ms[i].closeStart < |line|
    ensures var c := Clean(line, ms, from); c != [] && c[|c| - 1] == line[|line| - 1]
    decreases |ms|
  {
    if |ms| > 0 {
      var m := ms[0];
      assert forall i :: 0 <= i < |ms[1..]| ==> ms[1..][i].closeStart < |line| by {
        forall i | 0 <= i < |ms[1..]| ensures ms[1..][i].closeStart < |line| {
          assert ms[1..][i] == ms[i + 1];
        }
      }
      CleanLast(line, ms[1..], m.closeStart);
    }
  }

  /** The post-pass keeps the first and the last character of a line. */
  lemma PostProcessEnds(line: string)
    requires line != []
    ensures var r := PostProcessPairedMarkers(line);
            r != [] && r[0] == line[0] && r[|r| - 1] == line[|line| - 1]
  {
    var ms := FindPairMarkers(line, BoldMarker);
    PostProcessClean(line);
    if |ms| > 0 {
      assert WellFormed(line, BoldMarker, ms[0]);
    }
    CleanFirst(line, ms, 0);
    forall i | 0 <= i < |ms| ensures ms[i].closeStart < |line| {
      assert WellFormed(line, BoldMarker, ms[i]);
    }
    CleanLast(line, ms, 0);
  }

  /** A stripped line stays stripped. */
  lemma PostProcessStripped(line: string)
    requires Stripped(line)
    ensures Stripped(PostProcessPairedMarkers(line))
  {
    if line != [] {
      PostProcessEnds(line);
    } else {
      PostProcessOnlySpaces(line);
    }
  }

  lemma SliceOfPrefix<T>(x: seq<T>, p: nat, i: nat, j: nat)
    requires i <= j <= p <= |x|
    ensures x[..p][i..j] == x[i..j]
  {
  }

  lemma SplitAtJoint<T>(a: seq<T>, b: seq<T>)
    ensures (a + b)[..|a|] == a && (a + b)[|a|..] == b
  {
  }

  lemma SliceThree<T>(x: seq<T>, i: nat, j: nat, k: nat)
    requires i <= j <= k <= |x|
    ensures x[i..] == x[i..j] + x[j..k] + x[k..]
  {
  }

  /** A mismatch at offset `j` rules out an occurrence at `i`. */
  lemma NotAt(s: string, t: string, i: nat, j: nat)
    requires j < |t| && i + j < |s| && s[i + j] != t[j]
    ensures !OccursAt(s, t, i)
  {
  }
}
