/**
 * The segment-grouping loop of text/segment/word_test.go: a WordBreaker is fed
 * the runes of the input one at a time, and the current segment is closed
 * whenever the breaker reports a boundary and the segment is not empty.
 */
module Segmentation {
  import opened WordBreak

  /** The concatenation of a list of segments. */
  function Flatten(segs: seq<seq<char>>): seq<char> {
    if segs == [] then [] else Flatten(segs[..|segs| - 1]) + segs[|segs| - 1]
  }

  /** The offset at which each segment starts within Flatten(segs). */
  function Starts(segs: seq<seq<char>>): seq<nat> {
    if segs == [] then [] else Starts(segs[..|segs| - 1]) + [|Flatten(segs[..|segs| - 1])|]
  }

  /** The property the breaker holds before the rune at position m. */
  function PrevProp(classify: char -> WbProp, input: seq<char>, m: nat): WbProp
    requires m <= |input|
  {
    if m == 0 then Other else classify(input[m - 1])
  }

  /** What ProcessRune answers for the rune at position m when the breaker has
      been fed input[..m] before. It depends on the two neighbouring runes only. */
  function Decision(classify: char -> WbProp, input: seq<char>, m: nat): bool
    requires m < |input|
  {
    BreakBefore(PrevProp(classify, input, m), classify(input[m]))
  }

  /** The number of positions 1 <= m < k at which a boundary is reported. */
  function NumBreaks(classify: char -> WbProp, input: seq<char>, k: nat): nat
    requires k <= |input|
  {
    if k <= 1 then 0
    else NumBreaks(classify, input, k - 1) + (if Decision(classify, input, k - 1) then 1 else 0)
  }

  /** The first segment starts at offset zero. */
  lemma {:induction false} FirstStartIsZero(segs: seq<seq<char>>)
    requires segs != []
    ensures |Starts(segs)| == |segs| && Starts(segs)[0] == 0
  {
    if |segs| == 1 {
      assert segs[..0] == [];
    } else {
      FirstStartIsZero(segs[..|segs| - 1]);
    }
  }

  /** Appending a segment extends the concatenation by it and adds the old
      length as its start offset. */
  lemma SnocFacts(segs: seq<seq<char>>, x: seq<char>)
    ensures Flatten(segs + [x]) == Flatten(segs) + x
    ensures Starts(segs + [x]) == Starts(segs) + [|Flatten(segs)|]
  {
    assert (segs + [x])[..|segs|] == segs;
  }

  /** What the grouping loop knows after feeding input[..k]: the closed
      segments followed by the open one spell input[..k]; no segment is empty;
      and the segments start exactly at offset 0 and at the positions where a
      boundary was reported. */
  ghost predicate GroupInv(classify: char -> WbProp, input: seq<char>, k: nat,
                           segments: seq<seq<char>>, seg: seq<char>)
  {
    && k <= |input|
    && Flatten(segments) + seg == input[..k]
    && (forall s :: s in segments ==> s != [])
    && (k == 0 ==> segments == [] && seg == [])
    && (k > 0 ==> seg != [] && |segments| == NumBreaks(classify, input, k))
    && (k > 0 ==> Starts(segments + [seg])[0] == 0)
    && (k > 0 ==> forall x :: x in Starts(segments + [seg]) ==> x < k)
    && (forall m :: 0 < m < k ==> (Decision(classify, input, m) <==> m in Starts(segments + [seg])))
  }

  /** The closed segments and the open segment of the grouping loop after it
      has been fed input[..k]. */
  ghost function Grouped(classify: char -> WbProp, input: seq<char>, k: nat): (seq<seq<char>>, seq<char>)
    requires k <= |input|
  {
    if k == 0 then ([], [])
    else
      var g := Grouped(classify, input, k - 1);
      if |g.1| > 0 && Decision(classify, input, k - 1) then (g.0 + [g.1], [input[k - 1]])
      else (g.0, g.1 + [input[k - 1]])
  }

  /** The answers of the first k ProcessRune calls, in order. */
  ghost function Reported(classify: char -> WbProp, input: seq<char>, k: nat): (r: seq<bool>)
    requires k <= |input|
    ensures |r| == k && forall m :: 0 <= m < k ==> r[m] == Decision(classify, input, m)
  {
    if k == 0 then [] else Reported(classify, input, k - 1) + [Decision(classify, input, k - 1)]
  }

  /** The first rune opens the first segment. */
  lemma StepFirst(classify: char -> WbProp, input: seq<char>)
    requires 0 < |input|
    ensures GroupInv(classify, input, 1, [], [input[0]])
  {
    var segs: seq<seq<char>> := [[input[0]]];
    assert segs[..0] == [];
    assert Flatten(segs[..0]) == [];
    assert Starts(segs) == [0];
    assert Flatten([]) + [input[0]] == input[..1];
  }

  /** A reported boundary closes the open segment and opens a new one. */
  lemma StepBreak(classify: char -> WbProp, input: seq<char>, k: nat,
                  segments: seq<seq<char>>, seg: seq<char>)
    requires 0 < k < |input| && GroupInv(classify, input, k, segments, seg)
    requires Decision(classify, input, k)
    ensures GroupInv(classify, input, k + 1, segments + [seg], [input[k]])
  {
    var r := input[k];
    var closed := segments + [seg];
    assert input[..k + 1] == input[..k] + [r];
    SnocFacts(segments, seg);
    SnocFacts(closed, [r]);
    assert Flatten(closed) + [r] == input[..k + 1];
    assert |Flatten(closed)| == k;
    assert Starts(closed + [[r]]) == Starts(closed) + [k];
    assert forall s :: s in closed ==> s in segments || s == seg;
  }

  /** Without a boundary the rune joins the open segment. */
  lemma StepExtend(classify: char -> WbProp, input: seq<char>, k: nat,
                   segments: seq<seq<char>>, seg: seq<char>)
    requires 0 < k < |input| && GroupInv(classify, input, k, segments, seg)
    requires !Decision(classify, input, k)
    ensures GroupInv(classify, input, k + 1, segments, seg + [input[k]])
  {
    var r := input[k];
    assert input[..k + 1] == input[..k] + [r];
    SnocFacts(segments, seg);
    SnocFacts(segments, seg + [r]);
    assert Starts(segments + [seg + [r]]) == Starts(segments + [seg]);
  }

  /** GroupInv depends on the values of its arguments only. Stating this as a
      lemma of its own keeps the case lemmas below cheap for the verifier. */
  lemma Transfer(classify: char -> WbProp, input: seq<char>, k: nat,
                 segments: seq<seq<char>>, seg: seq<char>, segments': seq<seq<char>>, seg': seq<char>)
    requires GroupInv(classify, input, k, segments, seg) && segments == segments' && seg == seg'
    ensures GroupInv(classify, input, k, segments', seg')
  {
  }

  /** GroupInv holds of the loop state after the first rune. */
  lemma GroupedFirst(classify: char -> WbProp, input: seq<char>)
    requires 0 < |input|
    ensures GroupInv(classify, input, 1, Grouped(classify, input, 1).0, Grouped(classify, input, 1).1)
  {
    var g, h := Grouped(classify, input, 0), Grouped(classify, input, 1);
    assert g == ([], []);
    assert h == (g.0, g.1 + [input[0]]);
    assert g.1 + [input[0]] == [input[0]];
    StepFirst(classify, input);
    Transfer(classify, input, 1, [], [input[0]], h.0, h.1);
  }

  /** GroupInv is kept by the loop step for rune k - 1 when it reports a
      boundary. */
  lemma GroupedBreak(classify: char -> WbProp, input: seq<char>, k: nat)
    requires 1 < k <= |input| && Decision(classify, input, k - 1)
    requires GroupInv(classify, input, k - 1, Grouped(classify, input, k - 1).0, Grouped(classify, input, k - 1).1)
    ensures GroupInv(classify, input, k, Grouped(classify, input, k).0, Grouped(classify, input, k).1)
  {
    var g, h := Grouped(classify, input, k - 1), Grouped(classify, input, k);
    assert h.0 == g.0 + [g.1] && h.1 == [input[k - 1]];
    StepBreak(classify, input, k - 1, g.0, g.1);
    Transfer(classify, input, k, g.0 + [g.1], [input[k - 1]], h.0, h.1);
  }

  /** GroupInv is kept by the loop step for rune k - 1 when it reports no
      boundary. */
  lemma GroupedExtend(classify: char -> WbProp, input: seq<char>, k: nat)
    requires 1 < k <= |input| && !Decision(classify, input, k - 1)
    requires GroupInv(classify, input, k - 1, Grouped(classify, input, k - 1).0, Grouped(classify, input, k - 1).1)
    ensures GroupInv(classify, input, k, Grouped(classify, input, k).0, Grouped(classify, input, k).1)
  {
    var g, h := Grouped(classify, input, k - 1), Grouped(classify, input, k);
    assert h.0 == g.0 && h.1 == g.1 + [input[k - 1]];
    StepExtend(classify, input, k - 1, g.0, g.1);
    Transfer(classify, input, k, g.0, g.1 + [input[k - 1]], h.0, h.1);
  }

  /** The loop state after k runes satisfies GroupInv. */
  lemma {:induction false} GroupedInv(classify: char -> WbProp, input: seq<char>, k: nat)
    requires k <= |input|
    ensures GroupInv(classify, input, k, Grouped(classify, input, k).0, Grouped(classify, input, k).1)
  {
    if k == 1 {
      GroupedFirst(classify, input);
    } else if k > 1 {
      GroupedInv(classify, input, k - 1);
      if Decision(classify, input, k - 1) {
        GroupedBreak(classify, input, k);
      } else {
        GroupedExtend(classify, input, k);
      }
    }
  }

  /** Closing the open segment at the end of the input gives the promised
      segmentation. */
  lemma GroupDone(classify: char -> WbProp, input: seq<char>,
                  segments: seq<seq<char>>, seg: seq<char>, result: seq<seq<char>>)
    requires GroupInv(classify, input, |input|, segments, seg)
    requires result == if |seg| > 0 then segments + [seg] else segments
    ensures Flatten(result) == input
    ensures forall s :: s in result ==> s != []
    ensures result == [] <==> input == []
    ensures input != [] ==> |result| == 1 + NumBreaks(classify, input, |input|)
    ensures input != [] ==> Starts(result)[0] == 0
    ensures forall m :: 0 < m < |input| ==> (Decision(classify, input, m) <==> m in Starts(result))
  {
    assert input[..|input|] == input;
    SnocFacts(segments, seg);
    if input != [] {
      FirstStartIsZero(result);
    }
  }

  /** The segments the loop returns: the closed ones and, if not empty, the
      open one. */
  lemma GroupedResult(classify: char -> WbProp, input: seq<char>, result: seq<seq<char>>)
    requires var (segments, seg) := Grouped(classify, input, |input|);
             result == if |seg| > 0 then segments + [seg] else segments
    ensures Flatten(result) == input
    ensures forall s :: s in result ==> s != []
    ensures result == [] <==> input == []
    ensures input != [] ==> |result| == 1 + NumBreaks(classify, input, |input|)
    ensures input != [] ==> Starts(result)[0] == 0
    ensures forall m :: 0 < m < |input| ==> (Decision(classify, input, m) <==> m in Starts(result))
  {
    GroupedInv(classify, input, |input|);
    var (segments, seg) := Grouped(classify, input, |input|);
    GroupDone(classify, input, segments, seg, result);
  }

  /** Groups `input` into word segments the way TestWordBreaker does: one
      ProcessRune call per rune, in order; a segment is closed only when it is
      non-empty and a boundary is reported, so the first decision is ignored;
      the last segment is closed at the end of the input. `reported` records
      the answer of each ProcessRune call. */
  method SegmentWords(classify: char -> WbProp, input: seq<char>)
      returns (segments: seq<seq<char>>, ghost reported: seq<bool>)
    ensures Flatten(segments) == input
    ensures forall s :: s in segments ==> s != []
    ensures segments == [] <==> input == []
    ensures input != [] ==> |segments| == 1 + NumBreaks(classify, input, |input|)
    ensures input != [] ==> Starts(segments)[0] == 0
    ensures forall m :: 0 < m < |input| ==> (Decision(classify, input, m) <==> m in Starts(segments))
    ensures |reported| == |input|
    ensures forall m :: 0 <= m < |input| ==> reported[m] == Decision(classify, input, m)
  {
    var wb := new WordBreaker(classify);
    segments := [];
    var seg: seq<char> := [];
    reported := [];
    var k := 0;
    while k < |input|
      invariant 0 <= k <= |input|
      invariant wb.classify == classify && wb.lastProp == PrevProp(classify, input, k)
      invariant (segments, seg) == Grouped(classify, input, k)
      invariant reported == Reported(classify, input, k)
    {
      var r := input[k];
      var canBreakBefore := wb.ProcessRune(r);
      assert canBreakBefore == Decision(classify, input, k);
      reported := reported + [canBreakBefore];
      if |seg| > 0 && canBreakBefore {
        segments := segments + [seg];
        seg := [];
      }
      seg := seg + [r];
      assert segments == Grouped(classify, input, k + 1).0 && seg == Grouped(classify, input, k + 1).1;
      k := k + 1;
    }
    if |seg| > 0 {
      segments := segments + [seg];
    }
    GroupedResult(classify, input, segments);
  }
}
