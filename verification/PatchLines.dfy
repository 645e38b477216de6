/** Which lines a patch makes commentable, without walking it (backend/integrations/diff_mapping.py). */
module PatchLines {
  import opened LineSplitting
  import opened HunkHeader
  import opened DiffMapping

  /**
   What a line of patch text is, by the header pattern and by its first character: a header is a line of the pattern
   with its two start numbers, and any other line is what `+`, `-` or a blank at its front says, or nothing.
   */
  lemma {:induction false} KindByMark(raw: string)
    ensures forall o, n :: Classify(raw) == Header(o, n) <==>
              exists a, x, b, y, rest :: Matches(raw, a, x, b, y, rest) && Value(a) == o && Value(b) == n
    ensures forall t :: Classify(raw) == Plus(t) <==> raw == "+" + t
    ensures forall t :: Classify(raw) == Minus(t) <==> raw == "-" + t
    ensures forall t :: Classify(raw) == Both(t) <==> raw == " " + t
  {
    if raw == "" || raw[0] != '@' {
      OtherStart(raw);
      NotAHeader(raw);
    }
    forall o, n ensures Classify(raw) == Header(o, n) <==>
                        exists a, x, b, y, rest :: Matches(raw, a, x, b, y, rest) && Value(a) == o && Value(b) == n
    {
      HeaderExactlyWhen(raw, o, n);
    }
    if raw != "" {
      assert raw == [raw[0]] + raw[1..];
    }
  }

  /** The line counts on this side. */
  predicate IsOn(side: Side, line: PatchLine)
  {
    line.Both? || (side == Right && line.Plus?) || (side == Left && line.Minus?)
  }

  /** Line `h` is the last hunk header before line `k`. */
  predicate LastHeaderBefore(lines: seq<PatchLine>, h: int, k: int)
  {
    0 <= h < k <= |lines| && lines[h].Header? && forall i :: h < i < k ==> !lines[i].Header?
  }

  function LinesBetween(side: Side, lines: seq<PatchLine>, h: int, k: int): set<int>
    requires 0 <= h < k <= |lines|
  {
    set i | h < i < k && IsOn(side, lines[i])
  }

  /** The start number in header `h`, and one more for each line on that side between it and line `k`. */
  function NumberAt(side: Side, lines: seq<PatchLine>, h: int, k: int): int
    requires LastHeaderBefore(lines, h, k)
  {
    (if side == Right then lines[h].newStart else lines[h].oldStart) + |LinesBetween(side, lines, h, k)|
  }

  /** Line `k` of the patch, in the hunk of header `h`, is number `x` of its file. */
  predicate IsLine(side: Side, lines: seq<PatchLine>, h: int, k: int, x: int)
  {
    k < |lines| && LastHeaderBefore(lines, h, k) && IsOn(side, lines[k]) && x == NumberAt(side, lines, h, k)
  }

  function CounterOf(w: Walk, side: Side): int
  {
    if side == Right then w.newLine else w.oldLine
  }

  lemma NextNumber(side: Side, lines: seq<PatchLine>, h: int, k: int)
    requires LastHeaderBefore(lines, h, k) && k < |lines| && !lines[k].Header?
    ensures LastHeaderBefore(lines, h, k + 1)
    ensures NumberAt(side, lines, h, k + 1) == NumberAt(side, lines, h, k) + if IsOn(side, lines[k]) then 1 else 0
  {
    var before, after := LinesBetween(side, lines, h, k), LinesBetween(side, lines, h, k + 1);
    assert after == before + if IsOn(side, lines[k]) then {k} else {};
  }

  lemma FirstNumber(side: Side, lines: seq<PatchLine>, h: int)
    requires 0 <= h < |lines| && lines[h].Header?
    ensures LastHeaderBefore(lines, h, h + 1) && LinesBetween(side, lines, h, h + 1) == {}
  {
  }

  lemma WalkOn(lines: seq<PatchLine>, k: nat)
    requires k < |lines|
    ensures WalkLines(START, lines[..k + 1]) == Step(WalkLines(START, lines[..k]), lines[k])
  {
    assert lines[..k + 1] == lines[..k] + [lines[k]];
    WalkConcat(START, lines[..k], [lines[k]]);
  }

  /** The walk is in a hunk exactly if some header came, and then its counter is the number of the next line. */
  lemma {:induction false} CountersAreNumbers(lines: seq<PatchLine>, n: nat, side: Side)
    requires n <= |lines|
    ensures WalkLines(START, lines[..n]).inHunk <==> exists h :: LastHeaderBefore(lines, h, n)
    ensures forall h :: LastHeaderBefore(lines, h, n) ==>
              CounterOf(WalkLines(START, lines[..n]), side) == NumberAt(side, lines, h, n)
  {
    if n > 0 {
      var k := n - 1;
      CountersAreNumbers(lines, k, side);
      WalkOn(lines, k);
      if lines[k].Header? {
        FirstNumber(side, lines, k);
        assert forall h :: LastHeaderBefore(lines, h, n) ==> h == k;
      } else {
        forall h ensures LastHeaderBefore(lines, h, n) <==> LastHeaderBefore(lines, h, k) {}
        forall h | LastHeaderBefore(lines, h, n)
          ensures CounterOf(WalkLines(START, lines[..n]), side) == NumberAt(side, lines, h, n)
        {
          NextNumber(side, lines, h, k);
        }
      }
    }
  }

  /** What one line adds to a side. */
  lemma SideGrows(w: Walk, line: PatchLine, side: Side)
    ensures LinesOn(side, Step(w, line).anchors) ==
            LinesOn(side, w.anchors) + if w.inHunk && IsOn(side, line) then {CounterOf(w, side)} else {}
  {
    LinesGrow(w, line);
  }

  lemma {:induction false} RecordedExactly(lines: seq<PatchLine>, n: nat, side: Side, x: int)
    requires n <= |lines|
    ensures x in LinesOn(side, WalkLines(START, lines[..n]).anchors) <==>
            exists h, k :: k < n && IsLine(side, lines, h, k, x)
  {
    if n > 0 {
      var k := n - 1;
      var w := WalkLines(START, lines[..k]);
      RecordedExactly(lines, k, side, x);
      CountersAreNumbers(lines, k, side);
      WalkOn(lines, k);
      SideGrows(w, lines[k], side);
      if w.inHunk && IsOn(side, lines[k]) && x == CounterOf(w, side) {
        var h :| LastHeaderBefore(lines, h, k);
        assert IsLine(side, lines, h, k, x);
      }
    }
  }

  lemma AllRecorded(lines: seq<PatchLine>, side: Side, x: int)
    ensures x in LinesOn(side, WalkLines(START, lines).anchors) <==> exists h, k :: IsLine(side, lines, h, k, x)
  {
    RecordedExactly(lines, |lines|, side, x);
    assert lines[..|lines|] == lines;
  }

  /**
   For every text at all: the RIGHT (LEFT) lines of a patch are the numbers of its lines on that side, each counted on
   from the last hunk header before it; lines before the first header have none.
   */
  lemma {:induction false} PatchLinesExactly(patch: string, lines: seq<PatchLine>, side: Side, x: int)
    requires lines == Lex(SplitLines(patch))
    ensures x in LinesOn(side, AnchorsOf(patch)) <==> exists h, k :: IsLine(side, lines, h, k, x)
  {
    AllRecorded(lines, side, x);
  }
}
