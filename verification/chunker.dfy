/** The text chunker `chunk_text`: a window of `size` characters slides over the text in
    steps of `size - overlap`; a window that stops short of the end of the text is cut just
    after its rightmost '.', '\n' or ' ' when that break lies past the window's midpoint;
    every piece is stripped, a short tail is added once, and empty pieces are dropped.

    The specification is given as the list of cuts (character ranges) the loop takes,
    `CutsFrom`; `ChunkText` is the loop itself, proved to produce `Chunks`. */
module Chunker {
  import opened Text

  const DefaultChunkSize: nat := 500
  const DefaultOverlap: int := 50

  /** The characters a window may be cut after. */
  predicate IsBreak(c: char)
  {
    c == '.' || c == '\n' || c == ' '
  }

  function Min(a: int, b: int): int
  {
    if a <= b then a else b
  }

  function Max(a: int, b: int): int
  {
    if a >= b then a else b
  }

  /** `text.rfind(c, lo, hi)`: the largest index in `[lo, hi)` holding `c`, or -1. */
  function RFind(text: string, c: char, lo: nat, hi: nat): (r: int)
    requires lo <= hi <= |text|
    ensures r == -1 || (lo <= r < hi && text[r] == c)
    ensures forall k :: lo <= k < hi && r < k ==> text[k] != c
    decreases hi - lo
  {
    if lo == hi then -1
    else if text[hi - 1] == c then hi - 1
    else RFind(text, c, lo, hi - 1)
  }

  /** The rightmost break character in `[lo, hi)`, or -1 when there is none. */
  function LastBreak(text: string, lo: nat, hi: nat): (r: int)
    requires lo <= hi <= |text|
    ensures r == -1 || (lo <= r < hi && IsBreak(text[r]))
    decreases hi - lo
  {
    if lo == hi then -1
    else if IsBreak(text[hi - 1]) then hi - 1
    else LastBreak(text, lo, hi - 1)
  }

  /** No break character lies after `LastBreak` in the range. */
  lemma {:induction false} LastBreakIsLast(text: string, lo: nat, hi: nat)
    requires lo <= hi <= |text|
    ensures forall k :: lo <= k < hi && LastBreak(text, lo, hi) < k ==> !IsBreak(text[k])
    decreases hi - lo
  {
    if lo < hi && !IsBreak(text[hi - 1]) {
      LastBreakIsLast(text, lo, hi - 1);
    }
  }

  /** The source takes `max(rfind('.'), rfind('\n'), rfind(' '))`; that is the rightmost
      break character of the range. */
  lemma BestBreakIsLastBreak(text: string, lo: nat, hi: nat)
    requires lo <= hi <= |text|
    ensures Max(Max(RFind(text, '.', lo, hi), RFind(text, '\n', lo, hi)), RFind(text, ' ', lo, hi))
      == LastBreak(text, lo, hi)
  {
    var best := Max(Max(RFind(text, '.', lo, hi), RFind(text, '\n', lo, hi)), RFind(text, ' ', lo, hi));
    var last := LastBreak(text, lo, hi);
    LastBreakIsLast(text, lo, hi);
    if last != -1 {
      assert best >= last by {
        if text[last] == '.' { assert RFind(text, '.', lo, hi) >= last; }
        else if text[last] == '\n' { assert RFind(text, '\n', lo, hi) >= last; }
        else { assert RFind(text, ' ', lo, hi) >= last; }
      }
    }
  }

  /** Where the window starting at `i` ends. The source's test `best > i + size / 2` is
      done on floats; it is written here as the equivalent `2 * best > 2 * i + size`. */
  function WindowEnd(text: string, i: nat, size: nat): (end: nat)
    requires i < |text| && 0 < size
    ensures i < end <= |text| && end - i <= size
  {
    var end := Min(i + size, |text|);
    if end < |text| then
      var best := LastBreak(text, i, end);
      if 2 * best > 2 * i + size then best + 1 else end
    else end
  }

  /** The snapping rule. A window that reaches the end of the text is never cut short.
      One that does not is cut just after its rightmost break when that break lies past
      the midpoint, and otherwise keeps its full `size`; these cases determine the end. */
  lemma SnapRule(text: string, i: nat, size: nat)
    requires i < |text| && 0 < size
    ensures var end := WindowEnd(text, i, size);
      && (i + size >= |text| ==> end == |text|)
      && (i + size < |text| && end < i + size ==>
            IsBreak(text[end - 1]) && 2 * (end - 1) > 2 * i + size
            && forall k :: end <= k < i + size ==> !IsBreak(text[k]))
      && (i + size < |text| && end == i + size ==>
            IsBreak(text[end - 1])
            || forall k :: i <= k < i + size && 2 * k > 2 * i + size ==> !IsBreak(text[k]))
  {
    if i + size < |text| {
      LastBreakIsLast(text, i, i + size);
    }
  }

  /** Where every window ends, indexed by the window's start. */
  function WindowEnds(text: string, size: nat): (ends: seq<nat>)
    requires 0 < size
    ensures EndsFit(text, size, ends)
  {
    seq(|text|, k requires 0 <= k < |text| => WindowEnd(text, k, size))
  }

  /** What the cut lists below rely on about the window ends: each window is non-empty,
      lies in the text, is at most `size` long, and is kept whole when it reaches the end
      of the text. */
  predicate EndsFit(text: string, size: nat, ends: seq<nat>)
  {
    && |ends| == |text|
    && forall k :: 0 <= k < |ends| ==>
         k < ends[k] <= |text| && ends[k] - k <= size && (k + size >= |text| ==> ends[k] == |text|)
  }

  /** A range of the text the loop cuts out; `tail` marks the remainder added at the end. */
  datatype Cut = Cut(start: nat, stop: nat, tail: bool)

  predicate InText(text: string, c: Cut)
  {
    c.start <= c.stop <= |text|
  }

  /** The chunk a cut yields before empty chunks are dropped. */
  function Piece(text: string, c: Cut): string
    requires InText(text, c)
  {
    Strip(text[c.start..c.stop])
  }

  /** Cut starts strictly increase along the list. */
  predicate Ordered(cuts: seq<Cut>)
  {
    forall j, k :: 0 <= j < k < |cuts| ==> cuts[j].start < cuts[k].start
  }

  /** The cuts the loop takes from the window starting at `i` onwards, given where each
      window ends. When the loop stops because the next start falls within `overlap` of
      the end, the rest of the text is a tail cut; whether its chunk is kept is decided by
      `DropRepeatedTail`. */
  function CutsFrom(text: string, size: nat, overlap: int, ends: seq<nat>, i: nat): (cuts: seq<Cut>)
    requires 0 < size && overlap < size && EndsFit(text, size, ends) && i < |text|
    ensures |cuts| > 0 && cuts[0] == Cut(i, ends[i], false)
    ensures forall k :: 0 <= k < |cuts| ==>
      i <= cuts[k].start < cuts[k].stop <= |text| && cuts[k].stop - cuts[k].start <= size
    decreases |text| - i
  {
    var window := Cut(i, ends[i], false);
    var next := i + (size - overlap);
    if next >= |text| - overlap && next < |text| then
      [window, Cut(next, |text|, true)]
    else if next < |text| then
      [window] + CutsFrom(text, size, overlap, ends, next)
    else
      [window]
  }

  /** `if chunks[-1] != text[i:].strip()`: a final tail cut whose chunk equals the chunk
      of the cut before it is dropped. */
  function DropRepeatedTail(text: string, cuts: seq<Cut>): (kept: seq<Cut>)
    requires forall k :: 0 <= k < |cuts| ==> InText(text, cuts[k])
    ensures kept <= cuts && |cuts| - 1 <= |kept|
    ensures |kept| < |cuts| <==>
      |cuts| >= 2 && cuts[|cuts| - 1].tail && Piece(text, cuts[|cuts| - 2]) == Piece(text, cuts[|cuts| - 1])
  {
    if |cuts| >= 2 && cuts[|cuts| - 1].tail && Piece(text, cuts[|cuts| - 2]) == Piece(text, cuts[|cuts| - 1])
    then cuts[..|cuts| - 1]
    else cuts
  }

  /** Every cut `chunk_text` takes from `text`; an empty text gives none. */
  function AllCuts(text: string, size: nat, overlap: int): (cuts: seq<Cut>)
    requires 0 < size && overlap < size
    ensures forall k :: 0 <= k < |cuts| ==> InText(text, cuts[k])
    ensures |text| == 0 ==> cuts == []
  {
    if |text| == 0 then [] else DropRepeatedTail(text, CutsFrom(text, size, overlap, WindowEnds(text, size), 0))
  }

  /** The chunk of every cut, in order. */
  function Pieces(text: string, cuts: seq<Cut>): (ps: seq<string>)
    requires forall k :: 0 <= k < |cuts| ==> InText(text, cuts[k])
    ensures |ps| == |cuts|
  {
    if |cuts| == 0 then [] else [Piece(text, cuts[0])] + Pieces(text, cuts[1..])
  }

  /** Chunk `k` is the stripped slice of cut `k`. */
  lemma {:induction false} PiecesAt(text: string, cuts: seq<Cut>)
    requires forall k :: 0 <= k < |cuts| ==> InText(text, cuts[k])
    ensures forall k :: 0 <= k < |cuts| ==> Pieces(text, cuts)[k] == Piece(text, cuts[k])
  {
    if |cuts| > 0 {
      PiecesAt(text, cuts[1..]);
      forall k | 0 < k < |cuts| ensures Pieces(text, cuts)[k] == Piece(text, cuts[k]) {
        assert cuts[k] == cuts[1..][k - 1];
      }
    }
  }

  /** Putting one more cut in front puts its chunk in front. */
  lemma PiecesCons(text: string, c: Cut, cuts: seq<Cut>)
    requires InText(text, c) && forall k :: 0 <= k < |cuts| ==> InText(text, cuts[k])
    ensures Pieces(text, [c] + cuts) == [Piece(text, c)] + Pieces(text, cuts)
  {
    assert ([c] + cuts)[1..] == cuts;
  }

  /** `[chunk for chunk in chunks if chunk]`. */
  function RemoveEmpty(xs: seq<string>): (r: seq<string>)
    ensures forall k :: 0 <= k < |r| ==> r[k] != []
    ensures forall x <- xs :: x != [] ==> x in r
    ensures forall x <- r :: x in xs
  {
    if |xs| == 0 then []
    else (if xs[0] == [] then [] else [xs[0]]) + RemoveEmpty(xs[1..])
  }

  /** The filter keeps every non-empty string as many times as it occurs, and nothing else. */
  lemma {:induction false} RemoveEmptyCounts(xs: seq<string>)
    ensures multiset(RemoveEmpty(xs)) == multiset(xs)[[] := 0]
  {
    if |xs| > 0 {
      RemoveEmptyCounts(xs[1..]);
      assert xs == [xs[0]] + xs[1..];
    }
  }

  /** The filter works element by element, so it keeps the order: filtering a
      concatenation concatenates the filtered parts. */
  lemma {:induction false} RemoveEmptyConcat(a: seq<string>, b: seq<string>)
    ensures RemoveEmpty(a + b) == RemoveEmpty(a) + RemoveEmpty(b)
  {
    if |a| > 0 {
      assert (a + b)[1..] == a[1..] + b;
      RemoveEmptyConcat(a[1..], b);
    } else {
      assert a + b == b;
    }
  }

  /** The list the loop builds before empty chunks are dropped. */
  function RawChunks(text: string, size: nat, overlap: int): seq<string>
    requires 0 < size && overlap < size
  {
    Pieces(text, AllCuts(text, size, overlap))
  }

  /** `chunk_text(text, size, overlap)`. */
  function Chunks(text: string, size: nat, overlap: int): (r: seq<string>)
    requires 0 < size && overlap < size
    ensures |text| == 0 ==> r == []
    ensures forall k :: 0 <= k < |r| ==> r[k] != []
  {
    RemoveEmpty(RawChunks(text, size, overlap))
  }

  /** The cuts whose chunk is not empty, in order. */
  function KeptCuts(text: string, cuts: seq<Cut>): (kept: seq<Cut>)
    requires forall k :: 0 <= k < |cuts| ==> InText(text, cuts[k])
    ensures forall k :: 0 <= k < |kept| ==> InText(text, kept[k]) && kept[k] in cuts && Piece(text, kept[k]) != []
  {
    if |cuts| == 0 then []
    else if Piece(text, cuts[0]) == [] then KeptCuts(text, cuts[1..])
    else [cuts[0]] + KeptCuts(text, cuts[1..])
  }

  /** Every cut with a non-empty chunk is kept. */
  lemma {:induction false} KeptCutsKeepsNonEmpty(text: string, cuts: seq<Cut>)
    requires forall k :: 0 <= k < |cuts| ==> InText(text, cuts[k])
    ensures forall c <- cuts :: Piece(text, c) != [] ==> c in KeptCuts(text, cuts)
  {
    if |cuts| > 0 {
      KeptCutsKeepsNonEmpty(text, cuts[1..]);
      assert forall c <- cuts :: c == cuts[0] || c in cuts[1..];
    }
  }

  /** Keeping the cuts with a non-empty chunk and dropping the empty chunks agree. */
  lemma {:induction false} KeptCutsPieces(text: string, cuts: seq<Cut>)
    requires forall k :: 0 <= k < |cuts| ==> InText(text, cuts[k])
    ensures Pieces(text, KeptCuts(text, cuts)) == RemoveEmpty(Pieces(text, cuts))
  {
    if |cuts| > 0 {
      KeptCutsPieces(text, cuts[1..]);
      var ps := Pieces(text, cuts);
      assert ps[1..] == Pieces(text, cuts[1..]);
      assert ps[0] == Piece(text, cuts[0]);
      if Piece(text, cuts[0]) != [] {
        var rest := KeptCuts(text, cuts[1..]);
        assert Pieces(text, [cuts[0]] + rest)[1..] == Pieces(text, rest) by {
          assert ([cuts[0]] + rest)[1..] == rest;
        }
      }
    }
  }

  /** Dropping cuts keeps the starts in increasing order. */
  lemma {:induction false} KeptCutsOrdered(text: string, cuts: seq<Cut>)
    requires forall k :: 0 <= k < |cuts| ==> InText(text, cuts[k])
    requires Ordered(cuts)
    ensures Ordered(KeptCuts(text, cuts))
  {
    if |cuts| > 0 {
      var rest := cuts[1..];
      assert Ordered(rest) by {
        forall j, k | 0 <= j < k < |rest| ensures rest[j].start < rest[k].start {
          assert rest[j] == cuts[j + 1] && rest[k] == cuts[k + 1];
        }
      }
      KeptCutsOrdered(text, rest);
      var kept := KeptCuts(text, rest);
      forall j | 0 <= j < |kept| ensures cuts[0].start < kept[j].start {
        var k :| 0 <= k < |rest| && rest[k] == kept[j];
        assert kept[j] == cuts[k + 1];
      }
    }
  }

  /** The three ways a cut list goes on from the window at `i`. When the next start falls
      within `overlap` of the end, the window is the last one and the tail follows it. */
  lemma CutsFromLast(text: string, size: nat, overlap: int, ends: seq<nat>, i: nat)
    requires 0 < size && overlap < size && EndsFit(text, size, ends) && i < |text|
    requires |text| - overlap <= i + (size - overlap) < |text|
    ensures CutsFrom(text, size, overlap, ends, i)
      == [Cut(i, ends[i], false), Cut(i + (size - overlap), |text|, true)]
  {
  }

  /** A window whose next start still leaves more than `overlap` characters is followed by
      the cuts from that start. */
  lemma CutsFromNext(text: string, size: nat, overlap: int, ends: seq<nat>, i: nat)
    requires 0 < size && overlap < size && EndsFit(text, size, ends) && i < |text|
    requires i + (size - overlap) < |text| && i + (size - overlap) < |text| - overlap
    ensures CutsFrom(text, size, overlap, ends, i)
      == [Cut(i, ends[i], false)] + CutsFrom(text, size, overlap, ends, i + (size - overlap))
  {
  }

  /** A window whose next start lies past the text is the last cut. */
  lemma CutsFromFinal(text: string, size: nat, overlap: int, ends: seq<nat>, i: nat)
    requires 0 < size && overlap < size && EndsFit(text, size, ends) && i < |text|
    requires i + (size - overlap) >= |text|
    ensures CutsFrom(text, size, overlap, ends, i) == [Cut(i, ends[i], false)]
  {
  }

  /** Putting a window in front of a list that starts with a window leaves the decision
      about the tail unchanged. */
  lemma DropCons(text: string, window: Cut, rest: seq<Cut>)
    requires InText(text, window) && forall k :: 0 <= k < |rest| ==> InText(text, rest[k])
    requires |rest| > 0 && !rest[0].tail
    ensures DropRepeatedTail(text, [window] + rest) == [window] + DropRepeatedTail(text, rest)
  {
    var cuts := [window] + rest;
    assert cuts[|cuts| - 1] == rest[|rest| - 1];
    if |rest| >= 2 {
      assert cuts[|cuts| - 2] == rest[|rest| - 2];
      assert cuts[..|cuts| - 1] == [window] + rest[..|rest| - 1];
    }
  }

  /** Every cut that is not the tail is a window ending where `ends` says. */
  predicate WindowsAtEnds(ends: seq<nat>, cuts: seq<Cut>)
  {
    forall k :: 0 <= k < |cuts| && !cuts[k].tail ==> cuts[k].start < |ends| && cuts[k].stop == ends[cuts[k].start]
  }

  /** The cuts start at `i` and each starts `step` after the one before. */
  predicate Strides(cuts: seq<Cut>, i: nat, step: int)
  {
    && (|cuts| > 0 ==> cuts[0].start == i)
    && forall k :: 0 < k < |cuts| ==> cuts[k].start == cuts[k - 1].start + step
  }

  /** A tail cut comes last, right after a window that was kept whole up to the end of
      the text, and starts inside that window. */
  predicate TailAfterFinalWindow(text: string, cuts: seq<Cut>)
  {
    forall k :: 0 <= k < |cuts| && cuts[k].tail ==>
      && 0 < k == |cuts| - 1 && !cuts[k - 1].tail
      && cuts[k - 1].start < cuts[k].start && cuts[k - 1].stop == cuts[k].stop == |text|
  }

  /** The last window and the tail after it have the shape of a cut list. */
  lemma LastPairShape(text: string, size: nat, overlap: int, ends: seq<nat>, i: nat)
    requires 0 < size && overlap < size && EndsFit(text, size, ends) && i < |text|
    requires |text| - overlap <= i + (size - overlap) < |text|
    ensures var pair := [Cut(i, ends[i], false), Cut(i + (size - overlap), |text|, true)];
      && Ordered(pair) && Strides(pair, i, size - overlap)
      && WindowsAtEnds(ends, pair) && TailAfterFinalWindow(text, pair)
  {
    assert i + size >= |text|;
  }

  /** A single window has the shape of a cut list. */
  lemma SingleShape(text: string, ends: seq<nat>, i: nat, step: int)
    requires i < |ends|
    ensures var one := [Cut(i, ends[i], false)];
      && Ordered(one) && Strides(one, i, step) && WindowsAtEnds(ends, one) && TailAfterFinalWindow(text, one)
  {
  }

  /** A window in front of an ordered list whose first start lies after the window's
      keeps the list ordered. */
  lemma OrderedCons(window: Cut, rest: seq<Cut>)
    requires Ordered(rest) && (|rest| > 0 ==> window.start < rest[0].start)
    ensures Ordered([window] + rest)
  {
    var cuts := [window] + rest;
    forall j, k | 0 <= j < k < |cuts| ensures cuts[j].start < cuts[k].start {
      assert cuts[k] == rest[k - 1];
      if j > 0 {
        assert cuts[j] == rest[j - 1];
      }
    }
  }

  /** A window in front of a list whose windows end where `ends` says, and which itself
      ends there, keeps that property. */
  lemma WindowsAtEndsCons(ends: seq<nat>, window: Cut, rest: seq<Cut>)
    requires window.start < |ends| && window.stop == ends[window.start]
    requires WindowsAtEnds(ends, rest)
    ensures WindowsAtEnds(ends, [window] + rest)
  {
    var cuts := [window] + rest;
    forall k | 0 < k < |cuts| && !cuts[k].tail
      ensures cuts[k].start < |ends| && cuts[k].stop == ends[cuts[k].start]
    {
      assert cuts[k] == rest[k - 1];
    }
  }

  /** A window `step` before a list striding by `step` keeps the stride. */
  lemma StridesCons(window: Cut, rest: seq<Cut>, step: int)
    requires window.start + step >= 0 && Strides(rest, window.start + step, step)
    ensures Strides([window] + rest, window.start, step)
  {
    var cuts := [window] + rest;
    forall k | 0 < k < |cuts| ensures cuts[k].start == cuts[k - 1].start + step {
      assert cuts[k] == rest[k - 1];
      if k > 1 {
        assert cuts[k - 1] == rest[k - 2];
      }
    }
  }

  /** A window in front of a list that starts with a window keeps the tail in place. */
  lemma TailAfterCons(text: string, window: Cut, rest: seq<Cut>)
    requires !window.tail && |rest| > 0 && !rest[0].tail
    requires TailAfterFinalWindow(text, rest)
    ensures TailAfterFinalWindow(text, [window] + rest)
  {
    var cuts := [window] + rest;
    forall k | 0 <= k < |cuts| && cuts[k].tail
      ensures 0 < k == |cuts| - 1 && !cuts[k - 1].tail
        && cuts[k - 1].start < cuts[k].start && cuts[k - 1].stop == cuts[k].stop == |text|
    {
      assert cuts[k] == rest[k - 1];
      assert cuts[k - 1] == rest[k - 2];
    }
  }

  /** What every cut list from `i` satisfies: starts strictly increase from `i` in steps
      of `size - overlap`, windows end where `ends` says, and a tail comes only last,
      after a window reaching the end of the text. */
  predicate Shaped(text: string, ends: seq<nat>, i: nat, step: int, cuts: seq<Cut>)
  {
    Ordered(cuts) && Strides(cuts, i, step) && WindowsAtEnds(ends, cuts) && TailAfterFinalWindow(text, cuts)
  }

  /** The cut list from the last window is shaped. */
  lemma ShapedLast(text: string, size: nat, overlap: int, ends: seq<nat>, i: nat)
    requires 0 < size && overlap < size && EndsFit(text, size, ends) && i < |text|
    requires |text| - overlap <= i + (size - overlap) < |text|
    ensures Shaped(text, ends, i, size - overlap, CutsFrom(text, size, overlap, ends, i))
  {
    CutsFromLast(text, size, overlap, ends, i);
    LastPairShape(text, size, overlap, ends, i);
  }

  /** The cut list from a window after which the next start lies past the text is shaped. */
  lemma ShapedFinal(text: string, size: nat, overlap: int, ends: seq<nat>, i: nat)
    requires 0 < size && overlap < size && EndsFit(text, size, ends) && i < |text|
    requires i + (size - overlap) >= |text|
    ensures Shaped(text, ends, i, size - overlap, CutsFrom(text, size, overlap, ends, i))
  {
    CutsFromFinal(text, size, overlap, ends, i);
    SingleShape(text, ends, i, size - overlap);
  }

  /** A window in front of a shaped cut list from the next start gives a shaped list. */
  lemma ShapedNext(text: string, size: nat, overlap: int, ends: seq<nat>, i: nat)
    requires 0 < size && overlap < size && EndsFit(text, size, ends) && i < |text|
    requires i + (size - overlap) < |text| && i + (size - overlap) < |text| - overlap
    requires Shaped(text, ends, i + (size - overlap), size - overlap,
                    CutsFrom(text, size, overlap, ends, i + (size - overlap)))
    ensures Shaped(text, ends, i, size - overlap, CutsFrom(text, size, overlap, ends, i))
  {
    var window := Cut(i, ends[i], false);
    var rest := CutsFrom(text, size, overlap, ends, i + (size - overlap));
    CutsFromNext(text, size, overlap, ends, i);
    OrderedCons(window, rest);
    StridesCons(window, rest, size - overlap);
    WindowsAtEndsCons(ends, window, rest);
    TailAfterCons(text, window, rest);
  }

  /** Every cut list is shaped. */
  lemma {:induction false} CutsShaped(text: string, size: nat, overlap: int, ends: seq<nat>, i: nat)
    requires 0 < size && overlap < size && EndsFit(text, size, ends) && i < |text|
    ensures Shaped(text, ends, i, size - overlap, CutsFrom(text, size, overlap, ends, i))
    decreases |text| - i
  {
    var next := i + (size - overlap);
    if next >= |text| - overlap && next < |text| {
      ShapedLast(text, size, overlap, ends, i);
    } else if next < |text| {
      CutsShaped(text, size, overlap, ends, next);
      ShapedNext(text, size, overlap, ends, i);
    } else {
      ShapedFinal(text, size, overlap, ends, i);
    }
  }

  /** The cuts of a whole text are shaped: they start at 0 in steps of `size - overlap`,
      every window ends where `WindowEnds` says, and a tail comes only last, after a
      window reaching the end of the text. */
  lemma AllCutsShaped(text: string, size: nat, overlap: int)
    requires 0 < size && overlap < size
    ensures Shaped(text, WindowEnds(text, size), 0, size - overlap, AllCuts(text, size, overlap))
  {
    if |text| > 0 {
      var ends := WindowEnds(text, size);
      var cuts := CutsFrom(text, size, overlap, ends, 0);
      CutsShaped(text, size, overlap, ends, 0);
      DropRepeatedTailShaped(text, ends, size - overlap, cuts);
    }
  }

  /** Dropping a repeated tail keeps a cut list shaped. */
  lemma DropRepeatedTailShaped(text: string, ends: seq<nat>, step: int, cuts: seq<Cut>)
    requires forall k :: 0 <= k < |cuts| ==> InText(text, cuts[k])
    requires Shaped(text, ends, 0, step, cuts)
    ensures Shaped(text, ends, 0, step, DropRepeatedTail(text, cuts))
  {
    var kept := DropRepeatedTail(text, cuts);
    var n := |kept|;
    assert kept == cuts[..n];
    assert forall k :: 0 <= k < n ==> kept[k] == cuts[k];
    if n < |cuts| {
      assert forall k :: 0 <= k < n ==> !kept[k].tail;
    }
  }

  /** The cuts of a whole text start in strictly increasing order. */
  lemma AllCutsOrdered(text: string, size: nat, overlap: int)
    requires 0 < size && overlap < size
    ensures Ordered(AllCuts(text, size, overlap))
  {
    AllCutsShaped(text, size, overlap);
  }

  /** The ranges of the text the chunks come from: chunk `k` is the stripped slice of
      range `k`, every range lies in the text, is no longer than `size`, and the ranges
      start in strictly increasing order. */
  ghost function ChunkCuts(text: string, size: nat, overlap: int): (cuts: seq<Cut>)
    requires 0 < size && overlap < size
    ensures |cuts| == |Chunks(text, size, overlap)|
    ensures forall k :: 0 <= k < |cuts| ==>
      cuts[k].start < cuts[k].stop <= |text| && cuts[k].stop - cuts[k].start <= size
      && Chunks(text, size, overlap)[k] == Strip(text[cuts[k].start..cuts[k].stop])
    ensures Ordered(cuts)
  {
    var all := AllCuts(text, size, overlap);
    AllCutsOrdered(text, size, overlap);
    KeptCutsPieces(text, all);
    KeptCutsOrdered(text, all);
    PiecesAt(text, KeptCuts(text, all));
    KeptCuts(text, all)
  }

  /** Every window `chunk_text` cuts ends where `WindowEnd` says, so it follows the
      snapping rule of `SnapRule`. */
  lemma WindowsFollowSnapRule(text: string, size: nat, overlap: int)
    requires 0 < size && overlap < size
    ensures var cuts := AllCuts(text, size, overlap);
      forall k :: 0 <= k < |cuts| && !cuts[k].tail ==>
        cuts[k].start < |text| && cuts[k].stop == WindowEnd(text, cuts[k].start, size)
  {
    AllCutsShaped(text, size, overlap);
  }

  /** The tail rule of `chunk_text`: the tail is added at most once, at the end, after a
      window that reaches the end of the text, and only when its chunk differs from that
      window's chunk; it then repeats part of that window. */
  lemma TailRule(text: string, size: nat, overlap: int)
    requires 0 < size && overlap < size
    ensures var cuts := AllCuts(text, size, overlap);
      && TailAfterFinalWindow(text, cuts)
      && forall k :: 0 < k < |cuts| && cuts[k].tail ==> Piece(text, cuts[k - 1]) != Piece(text, cuts[k])
  {
    AllCutsShaped(text, size, overlap);
    if |text| > 0 {
      var ends := WindowEnds(text, size);
      CutsShaped(text, size, overlap, ends, 0);
      KeptTailDiffers(text, CutsFrom(text, size, overlap, ends, 0));
    }
  }

  /** When only the last cut may be a tail, a tail that `DropRepeatedTail` keeps has a
      chunk different from the cut before it. */
  lemma KeptTailDiffers(text: string, cuts: seq<Cut>)
    requires forall k :: 0 <= k < |cuts| ==> InText(text, cuts[k])
    requires TailAfterFinalWindow(text, cuts)
    ensures var kept := DropRepeatedTail(text, cuts);
      forall k :: 0 < k < |kept| && kept[k].tail ==> Piece(text, kept[k - 1]) != Piece(text, kept[k])
  {
    var kept := DropRepeatedTail(text, cuts);
    forall k | 0 < k < |kept| && kept[k].tail ensures Piece(text, kept[k - 1]) != Piece(text, kept[k]) {
      assert kept[k] == cuts[k] && kept[k - 1] == cuts[k - 1];
      assert k == |cuts| - 1;
    }
  }

  /** The chunks from the last window on, when the next start falls within `overlap` of
      the end: the window's chunk, then the tail's unless it is the same. */
  lemma LastTurnPieces(text: string, size: nat, overlap: int, ends: seq<nat>, i: nat, end: nat, chunk: string,
                        next: nat, rest: string)
    requires 0 < size && overlap < size && EndsFit(text, size, ends) && i < |text|
    requires next == i + (size - overlap) && |text| - overlap <= next < |text|
    requires end == ends[i] && chunk == Strip(text[i..end]) && rest == Strip(text[next..])
    ensures Pieces(text, DropRepeatedTail(text, CutsFrom(text, size, overlap, ends, i)))
      == [chunk] + (if chunk != rest then [rest] else [])
  {
    var window := Cut(i, ends[i], false);
    var tail := Cut(next, |text|, true);
    CutsFromLast(text, size, overlap, ends, i);
    assert text[next..] == text[next..|text|];
    if Piece(text, window) != Piece(text, tail) {
      assert DropRepeatedTail(text, [window, tail]) == [window, tail];
      assert Pieces(text, [window, tail]) == [Piece(text, window)] + [Piece(text, tail)];
    } else {
      assert DropRepeatedTail(text, [window, tail]) == [window];
      assert Pieces(text, [window]) == [Piece(text, window)] + [];
    }
  }

  /** The chunks from a window after which the next start lies past the text: that
      window's chunk alone. */
  lemma FinalTurnPieces(text: string, size: nat, overlap: int, ends: seq<nat>, i: nat, end: nat, chunk: string)
    requires 0 < size && overlap < size && EndsFit(text, size, ends) && i < |text|
    requires i + (size - overlap) >= |text|
    requires end == ends[i] && chunk == Strip(text[i..end])
    ensures Pieces(text, DropRepeatedTail(text, CutsFrom(text, size, overlap, ends, i))) == [chunk] + []
  {
    var window := Cut(i, ends[i], false);
    CutsFromFinal(text, size, overlap, ends, i);
    assert DropRepeatedTail(text, [window]) == [window];
    assert Pieces(text, [window]) == [Piece(text, window)] + [];
  }

  /** The chunks from a window that is not the last one: the window's chunk, then the
      chunks from the next start. */
  lemma NextTurnPieces(text: string, size: nat, overlap: int, ends: seq<nat>, i: nat, end: nat, chunk: string)
    requires 0 < size && overlap < size && EndsFit(text, size, ends) && i < |text|
    requires i + (size - overlap) < |text| && i + (size - overlap) < |text| - overlap
    requires end == ends[i] && chunk == Strip(text[i..end])
    ensures Pieces(text, DropRepeatedTail(text, CutsFrom(text, size, overlap, ends, i)))
      == [chunk]
         + Pieces(text, DropRepeatedTail(text, CutsFrom(text, size, overlap, ends, i + (size - overlap))))
  {
    var window := Cut(i, ends[i], false);
    var rest := CutsFrom(text, size, overlap, ends, i + (size - overlap));
    var kept := DropRepeatedTail(text, rest);
    CutsFromNext(text, size, overlap, ends, i);
    DropCons(text, window, rest);
    PiecesCons(text, window, kept);
  }

  /** A non-empty text no longer than one step is cut as one window. */
  lemma ShortTextIsOneWindow(text: string, size: nat, overlap: int)
    requires 0 <= overlap < size && 0 < |text| <= size - overlap
    ensures AllCuts(text, size, overlap) == [Cut(0, |text|, false)]
  {
    var ends := WindowEnds(text, size);
    var window := Cut(0, |text|, false);
    assert ends[0] == |text|;
    CutsFromFinal(text, size, overlap, ends, 0);
    assert DropRepeatedTail(text, [window]) == [window];
  }

  /** A text no longer than one step yields its stripped self, or nothing when blank. */
  lemma ShortTextIsOneChunk(text: string, size: nat, overlap: int)
    requires 0 <= overlap < size && |text| <= size - overlap
    ensures Chunks(text, size, overlap) == if Blank(text) then [] else [Strip(text)]
  {
    if |text| > 0 {
      ShortTextIsOneWindow(text, size, overlap);
      assert text[0..|text|] == text;
      var raw := [Strip(text)];
      assert RawChunks(text, size, overlap) == raw;
      StripBlank(text);
      assert RemoveEmpty(raw) == if Strip(text) == [] then [] else raw by {
        assert raw[1..] == [];
      }
    }
  }

  /** The chunks do not always cover the text: with the default parameters, a window cut
      short at a '.' in position 251 ends at 252 while the next window starts at 450, so
      position 300 lies in no chunk's range. */
  lemma CoverageGap()
    ensures var text := seq(552, k => if k < 251 then 'a' else if k == 251 then '.' else 'b');
      var cuts := ChunkCuts(text, DefaultChunkSize, DefaultOverlap);
      |cuts| == 2 && forall c <- cuts :: !(c.start <= 300 < c.stop)
  {
    var text := seq(552, k => if k < 251 then 'a' else if k == 251 then '.' else 'b');
    LastBreakIsLast(text, 0, 500);
    assert IsBreak(text[251]);
    assert LastBreak(text, 0, 500) == 251;
    assert WindowEnd(text, 0, 500) == 252;
    var ends := WindowEnds(text, 500);
    assert ends[0] == 252 && ends[450] == 552;
    CutsFromFinal(text, 500, 50, ends, 450);
    CutsFromNext(text, 500, 50, ends, 0);
    var all := AllCuts(text, 500, 50);
    assert all == [Cut(0, 252, false), Cut(450, 552, false)];
    assert Piece(text, all[0]) != [] by { assert !IsSpace(text[0]); }
    assert Piece(text, all[1]) != [] by { assert !IsSpace(text[450]); }
    assert KeptCuts(text, all[1..]) == [all[1]];
  }

  /** The tail is added even when it only repeats the end of the previous chunk: with the
      default parameters, a 480-character text yields itself and then its last 30
      characters. */
  lemma TailRepeatsEnd()
    ensures var text := seq(480, k => 'a');
      Chunks(text, DefaultChunkSize, DefaultOverlap) == [text, text[450..]]
  {
    var text := seq(480, k => 'a');
    var ends := WindowEnds(text, 500);
    var window, tail := Cut(0, 480, false), Cut(450, 480, true);
    assert ends[0] == 480;
    CutsFromLast(text, 500, 50, ends, 0);
    assert text[0..480] == text;
    assert text[450..480] == text[450..];
    assert Piece(text, window) == text by { StripTrimmed(text); }
    assert Piece(text, tail) == text[450..] by { StripTrimmed(text[450..]); }
    assert DropRepeatedTail(text, [window, tail]) == [window, tail];
    assert RawChunks(text, 500, 50) == [text, text[450..]] by {
      assert Pieces(text, [window, tail]) == [Piece(text, window), Piece(text, tail)];
    }
    var last := text[450..];
    assert |last| == 30;
    var one: seq<string> := [last];
    assert RemoveEmpty(one) == one by {
      assert one[1..] == [];
    }
    assert RemoveEmpty([text, last]) == [text, last] by {
      assert [text, last][1..] == [last];
    }
  }

  /** The end of the window that starts at `i`, computed as `chunk_text` does: the last
      period, newline or space of the window, when it lies past the window's midpoint. */
  method FindWindowEnd(text: string, i: nat, size: nat) returns (end: nat)
    requires i < |text| && 0 < size
    ensures end == WindowEnd(text, i, size)
  {
    end := Min(i + size, |text|);
    if end < |text| {
      var lastPeriod := RFind(text, '.', i, end);
      var lastNewline := RFind(text, '\n', i, end);
      var lastSpace := RFind(text, ' ', i, end);
      var bestBreak := Max(Max(lastPeriod, lastNewline), lastSpace);
      BestBreakIsLastBreak(text, i, end);
      if 2 * bestBreak > 2 * i + size {
        end := bestBreak + 1;
      }
    }
  }

  /** Appending one chunk moves it from the chunks still to come to the chunks built. */
  lemma MoveChunk(built: seq<string>, chunk: string, rest: seq<string>, later: seq<string>, raw: seq<string>)
    requires built + rest == raw && rest == [chunk] + later
    ensures (built + [chunk]) + later == raw
  {
    assert (built + [chunk]) + later == built + ([chunk] + later);
  }

  /** The chunks the loop appends from the window starting at `i` on, turn by turn:
      the window's chunk, then either the tail's chunk (unless it repeats the window's),
      the chunks from the next start, or nothing. */
  ghost function TurnPieces(text: string, size: nat, overlap: int, ends: seq<nat>, i: nat): seq<string>
    requires 0 < size && overlap < size && EndsFit(text, size, ends)
    decreases |text| - i
  {
    if i >= |text| then []
    else
      var chunk := Strip(text[i..ends[i]]);
      var next := i + (size - overlap);
      if next >= |text| - overlap && next < |text| then
        [chunk] + (if chunk != Strip(text[next..]) then [Strip(text[next..])] else [])
      else if next < |text| then [chunk] + TurnPieces(text, size, overlap, ends, next)
      else [chunk]
  }

  /** Taken turn by turn, the loop yields the chunks of the kept cuts. */
  lemma {:induction false} TurnPiecesAreCutPieces(text: string, size: nat, overlap: int, ends: seq<nat>, i: nat)
    requires 0 < size && overlap < size && EndsFit(text, size, ends) && i < |text|
    ensures TurnPieces(text, size, overlap, ends, i)
      == Pieces(text, DropRepeatedTail(text, CutsFrom(text, size, overlap, ends, i)))
    decreases |text| - i
  {
    var chunk := Strip(text[i..ends[i]]);
    var next := i + (size - overlap);
    if next >= |text| - overlap && next < |text| {
      LastTurnPieces(text, size, overlap, ends, i, ends[i], chunk, next, Strip(text[next..]));
    } else if next < |text| {
      TurnPiecesAreCutPieces(text, size, overlap, ends, next);
      NextTurnPieces(text, size, overlap, ends, i, ends[i], chunk);
    } else {
      FinalTurnPieces(text, size, overlap, ends, i, ends[i], chunk);
    }
  }

  /** The loop of `chunk_text`, given the table of window ends (ghost) it computes
      window by window: it builds the chunks of the kept cuts, empty ones included. */
  method CutAndStrip(text: string, size: nat, overlap: int, ghost ends: seq<nat>) returns (pieces: seq<string>)
    requires 0 < size && overlap < size && EndsFit(text, size, ends)
    requires forall k :: 0 <= k < |text| ==> ends[k] == WindowEnd(text, k, size)
    ensures |text| == 0 ==> pieces == []
    ensures |text| > 0 ==> pieces == Pieces(text, DropRepeatedTail(text, CutsFrom(text, size, overlap, ends, 0)))
  {
    ghost var all := TurnPieces(text, size, overlap, ends, 0);
    pieces := [];
    var i: nat := 0;
    while i < |text|
      invariant pieces + TurnPieces(text, size, overlap, ends, i) == all
      decreases |text| - i
    {
      var end := FindWindowEnd(text, i, size);
      ghost var before, at := pieces, i;
      var window := Strip(text[i..end]);
      pieces := pieces + [window];
      i := i + (size - overlap);
      if i >= |text| - overlap && i < |text| {
        var tail := Strip(text[i..]);
        if pieces[|pieces| - 1] != tail {
          pieces := pieces + [tail];
          MoveChunk(before, window, TurnPieces(text, size, overlap, ends, at), [tail], all);
        } else {
          MoveChunk(before, window, TurnPieces(text, size, overlap, ends, at), [], all);
        }
        break;
      }
      MoveChunk(before, window, TurnPieces(text, size, overlap, ends, at), TurnPieces(text, size, overlap, ends, i), all);
    }
    if |text| > 0 {
      TurnPiecesAreCutPieces(text, size, overlap, ends, 0);
    }
  }

  /** `chunk_text(text, size, overlap)`: the loop, then the empty chunks dropped. */
  method ChunkText(text: string, size: nat, overlap: int) returns (chunks: seq<string>)
    requires 0 < size && overlap < size
    ensures chunks == Chunks(text, size, overlap)
  {
    var pieces := CutAndStrip(text, size, overlap, WindowEnds(text, size));
    chunks := RemoveEmpty(pieces);
  }
}
