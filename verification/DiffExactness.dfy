/**
 Exactly which printed diffs the hunk walker reads correctly (backend/integrations/diff_mapping.py, `_parse_patch`).
 */
module DiffExactness {
  import opened LineSplitting
  import opened DiffMapping
  import opened UnifiedDiff

  // --------------------------------------------- the whole text, lexed

  /** What the phantoms of a printed line are to the walker. */
  function Extra(printed: string): seq<PatchLine>
  {
    Lex(Phantoms(printed))
  }

  function LineKinds(lines: seq<string>): seq<PatchLine>
  {
    if lines == [] then [] else [Classify(FirstLine(lines[0]))] + (Extra(lines[0]) + LineKinds(lines[1..]))
  }

  lemma {:induction false} TextIsItsLines(lines: seq<string>)
    ensures Lex(SplitLines(Unlines(lines))) == LineKinds(lines)
  {
    if lines != [] {
      SplitPrinted(lines);
      TextIsItsLines(lines[1..]);
    }
  }

  lemma {:induction false} LineKindsConcat(a: seq<string>, b: seq<string>)
    ensures LineKinds(a + b) == LineKinds(a) + LineKinds(b)
  {
    if a == [] {
      assert a + b == b;
    } else {
      var first, extra, rest := [Classify(FirstLine(a[0]))], Extra(a[0]), LineKinds(a[1..]);
      assert (a + b)[1..] == a[1..] + b;
      LineKindsConcat(a[1..], b);
      Assoc(extra, rest, LineKinds(b));
      Assoc(first, extra + rest, LineKinds(b));
    }
  }

  /** A printed body line as the walker meets it: what it is, and what its phantoms are. */
  datatype Item = Item(kind: PatchLine, extra: seq<PatchLine>)

  function Items(lines: seq<HunkLine>): seq<Item>
  {
    if lines == [] then [] else [Item(KindOf(lines[0]), Extra(BodyLine(lines[0])))] + Items(lines[1..])
  }

  function FullBody(items: seq<Item>): seq<PatchLine>
  {
    if items == [] then [] else [items[0].kind] + (items[0].extra + FullBody(items[1..]))
  }

  /** A printed hunk as the walker meets it, and the lines of both files it should stand after. */
  datatype Block = Block(header: PatchLine, extra: seq<PatchLine>, items: seq<Item>, oldPos: int, newPos: int)

  function BlockOf(h: Hunk): Block
  {
    Block(HeaderKind(h), Extra(HeaderLine(h)), Items(h.lines), h.oldPos, h.newPos)
  }

  function Blocks(hunks: seq<Hunk>): seq<Block>
  {
    if hunks == [] then [] else [BlockOf(hunks[0])] + Blocks(hunks[1..])
  }

  /** A hunk's text after its header. */
  function Rest(x: Block): seq<PatchLine>
  {
    x.extra + FullBody(x.items)
  }

  function FullKinds(blocks: seq<Block>): seq<PatchLine>
  {
    if blocks == [] then [] else ([blocks[0].header] + Rest(blocks[0])) + FullKinds(blocks[1..])
  }

  lemma {:induction false} BodyKindsFull(lines: seq<HunkLine>)
    ensures LineKinds(BodyLines(lines)) == FullBody(Items(lines))
  {
    if lines != [] {
      BodyLineKind(lines[0]);
      BodyKindsFull(lines[1..]);
      assert BodyLines(lines)[1..] == BodyLines(lines[1..]);
      assert Items(lines)[1..] == Items(lines[1..]);
    }
  }

  lemma {:induction false} PrintedKindsFull(hunks: seq<Hunk>)
    ensures LineKinds(PrintedLines(hunks)) == FullKinds(Blocks(hunks))
  {
    if hunks != [] {
      var header, body, rest := HeaderLine(hunks[0]), BodyLines(hunks[0].lines), PrintedLines(hunks[1..]);
      LineKindsConcat([header] + body, rest);
      HeaderLineKind(hunks[0]);
      BodyKindsFull(hunks[0].lines);
      assert ([header] + body)[1..] == body;
      PrintedKindsFull(hunks[1..]);
      assert Blocks(hunks)[1..] == Blocks(hunks[1..]);
    }
  }

  lemma PrintIsFull(hunks: seq<Hunk>)
    ensures Lex(SplitLines(Print(hunks))) == FullKinds(Blocks(hunks))
    ensures AnchorsOf(Print(hunks)) == WalkLines(START, FullKinds(Blocks(hunks))).anchors
  {
    TextIsItsLines(PrintedLines(hunks));
    PrintedKindsFull(hunks);
  }

  // ------------------------------------------- phantoms that record nothing

  /** No phantom begins like a diff line; hunk headers may be among them. */
  ghost predicate Mute(printed: string)
  {
    forall q :: q in Phantoms(printed) ==> Weight(Classify(q)) == 0
  }

  lemma {:induction false} MuteWeighsNothing(pieces: seq<string>)
    requires forall q :: q in pieces ==> Weight(Classify(q)) == 0
    ensures TotalWeight(Lex(pieces)) == 0
    decreases |pieces|
  {
    if pieces != [] {
      assert Weight(Classify(pieces[0])) == 0;
      MuteWeighsNothing(pieces[1..]);
      assert Lex(pieces)[1..] == Lex(pieces[1..]);
    }
  }

  /** Where the counters stand after pieces that record nothing: at the last header among them, if there is one. */
  function Reset(extra: seq<PatchLine>, o: int, n: int): (int, int)
    decreases |extra|
  {
    if extra == [] then (o, n)
    else if extra[0].Header? then Reset(extra[1..], extra[0].oldStart, extra[0].newStart)
    else Reset(extra[1..], o, n)
  }

  predicate HasHeader(extra: seq<PatchLine>)
  {
    extra != [] && (extra[0].Header? || HasHeader(extra[1..]))
  }

  lemma {:induction false} HeadersAlone(extra: seq<PatchLine>, o: int, n: int, o': int, n': int)
    ensures HasHeader(extra) ==> Reset(extra, o, n) == Reset(extra, o', n')
    ensures !HasHeader(extra) ==> Reset(extra, o, n) == (o, n) && Reset(extra, o', n') == (o', n')
    decreases |extra|
  {
    if extra != [] {
      if extra[0].Header? {
        HeadersAlone(extra[1..], extra[0].oldStart, extra[0].newStart, extra[0].oldStart, extra[0].newStart);
      } else {
        HeadersAlone(extra[1..], o, n, o', n');
      }
    }
  }

  lemma {:induction false} MuteWalk(w: Walk, extra: seq<PatchLine>)
    requires w.inHunk && TotalWeight(extra) == 0
    ensures var (o, n) := Reset(extra, w.oldLine, w.newLine); WalkLines(w, extra) == Walk(o, n, true, w.anchors)
    decreases |extra|
  {
    if extra != [] {
      assert w.anchors + [] == w.anchors;
      MuteWalk(Step(w, extra[0]), extra[1..]);
    }
  }

  function OldCount(kind: PatchLine): int
  {
    if kind.Minus? || kind.Both? then 1 else 0
  }

  function NewCount(kind: PatchLine): int
  {
    if kind.Plus? || kind.Both? then 1 else 0
  }

  /** The anchors of one line at counters `o` and `n`. */
  function AnchorsAt(kind: PatchLine, o: int, n: int): seq<Anchor>
  {
    match kind
    case Plus(t) => [Anchor(Right, n, t)]
    case Minus(t) => [Anchor(Left, o, t)]
    case Both(t) => [Anchor(Right, n, t), Anchor(Left, o, t)]
    case _ => []
  }

  /** What should be recorded of a body whose next lines are number `o` of the old and `n` of the new file. */
  function Wanted(items: seq<Item>, o: int, n: int): seq<Anchor>
  {
    if items == [] then [] else
      AnchorsAt(items[0].kind, o, n) + Wanted(items[1..], o + OldCount(items[0].kind), n + NewCount(items[0].kind))
  }

  lemma OneLineIsShown(l: HunkLine, o: int, n: int)
    ensures AnchorsAt(KindOf(l), o, n) == ShownLine(l, o, n)
    ensures OldCount(KindOf(l)) == OldStep(l) && NewCount(KindOf(l)) == NewStep(l)
  {
  }

  /** The items stand for these lines. */
  ghost predicate SameKinds(items: seq<Item>, lines: seq<HunkLine>)
  {
    |items| == |lines| && forall k :: 0 <= k < |lines| ==> items[k].kind == KindOf(lines[k])
  }

  lemma {:induction false} ItemsAreSameKinds(lines: seq<HunkLine>)
    ensures SameKinds(Items(lines), lines)
  {
    if lines != [] {
      ItemsAreSameKinds(lines[1..]);
      assert Items(lines) == [Item(KindOf(lines[0]), Extra(BodyLine(lines[0])))] + Items(lines[1..]);
    }
  }

  lemma Glue<T>(a: seq<T>, b: seq<T>, c: seq<T>, d: seq<T>, x: seq<T>, y: seq<T>)
    requires a == c + x && b == d + y && c == d && x == y
    ensures a == b
  {
  }

  lemma {:induction false} WantedIsShown(items: seq<Item>, lines: seq<HunkLine>, o: int, n: int)
    requires SameKinds(items, lines)
    ensures Wanted(items, o, n) == ShownBy(lines, o, n)
    decreases |lines|
  {
    if lines != [] {
      var l, x := lines[0], items[0];
      var o', n' := o + OldStep(l), n + NewStep(l);
      assert x.kind == KindOf(l);
      OneLineIsShown(l, o, n);
      WantedIsShown(items[1..], lines[1..], o', n');
      Glue(Wanted(items, o, n), ShownBy(lines, o, n), AnchorsAt(x.kind, o, n), ShownLine(l, o, n),
        Wanted(items[1..], o', n'), ShownBy(lines[1..], o', n'));
    }
  }

  /** What the walker records of a body whose phantoms are mute, with its counters at `a` and `b`. */
  function Recorded(items: seq<Item>, a: int, b: int): seq<Anchor>
  {
    if items == [] then [] else
      var (o, n) := Reset(items[0].extra, a + OldCount(items[0].kind), b + NewCount(items[0].kind));
      AnchorsAt(items[0].kind, a, b) + Recorded(items[1..], o, n)
  }

  ghost predicate BodyIsMute(items: seq<Item>)
  {
    forall x :: x in items ==> !x.kind.Header? && TotalWeight(x.extra) == 0
  }

  lemma {:induction false} OneLineIsRecorded(w: Walk, x: Item, rest: seq<PatchLine>)
    requires w.inHunk && !x.kind.Header? && TotalWeight(x.extra) == 0
    ensures var (o, n) := Reset(x.extra, w.oldLine + OldCount(x.kind), w.newLine + NewCount(x.kind));
            WalkLines(w, [x.kind] + (x.extra + rest)) ==
              WalkLines(Walk(o, n, true, w.anchors + AnchorsAt(x.kind, w.oldLine, w.newLine)), rest)
  {
    var next := Step(w, x.kind);
    WalkHead(w, x.kind, x.extra + rest);
    WalkConcat(next, x.extra, rest);
    MuteWalk(next, x.extra);
  }

  lemma {:induction false} BodyIsRecorded(w: Walk, items: seq<Item>)
    requires w.inHunk && BodyIsMute(items)
    ensures WalkLines(w, FullBody(items)).anchors == w.anchors + Recorded(items, w.oldLine, w.newLine)
    decreases |items|
  {
    if items != [] {
      var x := items[0];
      assert x in items;
      OneLineIsRecorded(w, x, FullBody(items[1..]));
      var (o, n) := Reset(x.extra, w.oldLine + OldCount(x.kind), w.newLine + NewCount(x.kind));
      var shown := AnchorsAt(x.kind, w.oldLine, w.newLine);
      BodyIsRecorded(Walk(o, n, true, w.anchors + shown), items[1..]);
      Assoc(w.anchors, shown, Recorded(items[1..], o, n));
    }
  }

  // ------------------------------------------- phantom headers that do no harm

  /** A line counted in the old file is printed before the next header. */
  predicate OldUse(items: seq<Item>)
  {
    items != [] && (OldCount(items[0].kind) == 1 || (!HasHeader(items[0].extra) && OldUse(items[1..])))
  }

  predicate NewUse(items: seq<Item>)
  {
    items != [] && (NewCount(items[0].kind) == 1 || (!HasHeader(items[0].extra) && NewUse(items[1..])))
  }

  /** Counters at `a` and `b` do for the lines ahead if each is right or not used before the next header. */
  predicate Aligned(a: int, b: int, o: int, n: int, items: seq<Item>)
  {
    (a == o || !OldUse(items)) && (b == n || !NewUse(items))
  }

  /**
   The last phantom header, if there is one, restates the running numbers, as far as they are used before the next
   header.
   */
  predicate Restates(extra: seq<PatchLine>, o: int, n: int, items: seq<Item>)
  {
    var (a, b) := Reset(extra, o, n);
    Aligned(a, b, o, n, items)
  }

  predicate Harmless(items: seq<Item>, o: int, n: int)
  {
    items == [] ||
    var o', n' := o + OldCount(items[0].kind), n + NewCount(items[0].kind);
    Restates(items[0].extra, o', n', items[1..]) && Harmless(items[1..], o', n')
  }

  lemma SplitEqual<T>(a: seq<T>, b: seq<T>, c: seq<T>, d: seq<T>)
    requires |a| == |c|
    ensures a + b == c + d <==> a == c && b == d
  {
    if a + b == c + d {
      assert a == (a + b)[..|a|] && c == (c + d)[..|a|];
      assert b == (a + b)[|a|..] && d == (c + d)[|a|..];
    }
  }

  lemma SameLineExactlyWhen(kind: PatchLine, a: int, b: int, o: int, n: int)
    ensures AnchorsAt(kind, a, b) == AnchorsAt(kind, o, n) <==>
            (OldCount(kind) == 1 ==> a == o) && (NewCount(kind) == 1 ==> b == n)
    ensures |AnchorsAt(kind, a, b)| == |AnchorsAt(kind, o, n)|
  {
    var x, y := AnchorsAt(kind, a, b), AnchorsAt(kind, o, n);
    assert |x| == |y|;
    if x == y && x != [] {
      assert x[0] == y[0] && x[|x| - 1] == y[|y| - 1];
    }
  }

  /** One line: right if it is recorded right and what follows it is aligned again. */
  lemma AlignedStep(items: seq<Item>, a: int, b: int, o: int, n: int)
    requires items != []
    ensures var x, rest := items[0], items[1..];
            var (a', b') := Reset(x.extra, a + OldCount(x.kind), b + NewCount(x.kind));
            var (o', n') := (o + OldCount(x.kind), n + NewCount(x.kind));
            AnchorsAt(x.kind, a, b) == AnchorsAt(x.kind, o, n) && Aligned(a', b', o', n', rest)
            <==> Aligned(a, b, o, n, items) && Restates(x.extra, o', n', rest)
  {
    var x := items[0];
    SameLineExactlyWhen(x.kind, a, b, o, n);
    HeadersAlone(x.extra, a + OldCount(x.kind), b + NewCount(x.kind), o + OldCount(x.kind), n + NewCount(x.kind));
  }

  /** Heads of equal length: the whole is right exactly if both parts are, however the parts' conditions are spread. */
  lemma HeadAndTail(a: seq<Anchor>, b: seq<Anchor>, c: seq<Anchor>, d: seq<Anchor>, tail: bool, later: bool,
      head: bool, restates: bool)
    requires |a| == |c| && (b == d <==> tail && later) && (a == c && tail <==> head && restates)
    ensures a + b == c + d <==> head && restates && later
    ensures |a + b| == |c + d| <==> |b| == |d|
  {
    SplitEqual(a, b, c, d);
  }

  lemma {:induction false} SameLength(items: seq<Item>, a: int, b: int, o: int, n: int)
    ensures |Recorded(items, a, b)| == |Wanted(items, o, n)|
    decreases |items|
  {
    if items != [] {
      var x := items[0];
      var (a', b') := Reset(x.extra, a + OldCount(x.kind), b + NewCount(x.kind));
      SameLineExactlyWhen(x.kind, a, b, o, n);
      SameLength(items[1..], a', b', o + OldCount(x.kind), n + NewCount(x.kind));
    }
  }

  lemma {:induction false} RecordedUnfold(items: seq<Item>, a: int, b: int, a': int, b': int)
    requires items != [] && (a', b') == Reset(items[0].extra, a + OldCount(items[0].kind), b + NewCount(items[0].kind))
    ensures Recorded(items, a, b) == AnchorsAt(items[0].kind, a, b) + Recorded(items[1..], a', b')
  {
  }

  lemma {:induction false} WantedUnfold(items: seq<Item>, o: int, n: int, o': int, n': int)
    requires items != [] && o' == o + OldCount(items[0].kind) && n' == n + NewCount(items[0].kind)
    ensures Wanted(items, o, n) == AnchorsAt(items[0].kind, o, n) + Wanted(items[1..], o', n')
  {
    assert Wanted(items, o, n) ==
           AnchorsAt(items[0].kind, o, n) +
             Wanted(items[1..], o + OldCount(items[0].kind), n + NewCount(items[0].kind));
  }

  lemma {:induction false} HarmlessStep(items: seq<Item>, o: int, n: int, o': int, n': int)
    requires items != [] && o' == o + OldCount(items[0].kind) && n' == n + NewCount(items[0].kind)
    ensures Harmless(items, o, n) <==> Restates(items[0].extra, o', n', items[1..]) && Harmless(items[1..], o', n')
  {
  }

  lemma Combine(got: seq<Anchor>, wanted: seq<Anchor>, a: seq<Anchor>, b: seq<Anchor>, c: seq<Anchor>, d: seq<Anchor>,
                tail: bool, later: bool, head: bool, restates: bool, harmless: bool)
    requires got == a + b && wanted == c + d && |a| == |c| && (b == d <==> tail && later) &&
             (a == c && tail <==> head && restates)
    requires harmless <==> restates && later
    ensures got == wanted <==> head && harmless
  {
    HeadAndTail(a, b, c, d, tail, later, head, restates);
  }

  lemma {:induction false} BodyIsRightExactlyWhen(items: seq<Item>, a: int, b: int, o: int, n: int)
    ensures Recorded(items, a, b) == Wanted(items, o, n) <==> Aligned(a, b, o, n, items) && Harmless(items, o, n)
    decreases |items|
  {
    if items != [] {
      var x, rest := items[0], items[1..];
      var (a', b') := Reset(x.extra, a + OldCount(x.kind), b + NewCount(x.kind));
      var o', n' := o + OldCount(x.kind), n + NewCount(x.kind);
      BodyIsRightExactlyWhen(rest, a', b', o', n');
      SameLineExactlyWhen(x.kind, a, b, o, n);
      AlignedStep(items, a, b, o, n);
      RecordedUnfold(items, a, b, a', b');
      WantedUnfold(items, o, n, o', n');
      HarmlessStep(items, o, n, o', n');
      Combine(Recorded(items, a, b), Wanted(items, o, n),
              AnchorsAt(x.kind, a, b), Recorded(rest, a', b'), AnchorsAt(x.kind, o, n), Wanted(rest, o', n'),
              Aligned(a', b', o', n', rest), Harmless(rest, o', n'), Aligned(a, b, o, n, items),
                Restates(x.extra, o', n', rest),
              Harmless(items, o, n));
    }
  }

  // ------------------------------------------------------- whole hunk lists

  ghost predicate BlockIsMute(x: Block)
  {
    x.header.Header? && TotalWeight(x.extra) == 0 && BodyIsMute(x.items)
  }

  predicate BlockIsHarmless(x: Block)
  {
    Restates(x.extra, x.oldPos + 1, x.newPos + 1, x.items) && Harmless(x.items, x.oldPos + 1, x.newPos + 1)
  }

  /** The start numbers printed for an empty range do not matter. */
  predicate BlockIsAligned(x: Block)
  {
    x.header.Header? && Aligned(x.header.oldStart, x.header.newStart, x.oldPos + 1, x.newPos + 1, x.items)
  }

  function BlockRecorded(x: Block): seq<Anchor>
    requires x.header.Header?
  {
    var (a, b) := Reset(x.extra, x.header.oldStart, x.header.newStart);
    Recorded(x.items, a, b)
  }

  function BlockWanted(x: Block): seq<Anchor>
  {
    Wanted(x.items, x.oldPos + 1, x.newPos + 1)
  }

  lemma BlockIsRecorded(w: Walk, x: Block)
    requires BlockIsMute(x)
    ensures WalkLines(w, [x.header] + Rest(x)).anchors == w.anchors + BlockRecorded(x)
  {
    var next := Step(w, x.header);
    WalkHead(w, x.header, Rest(x));
    WalkConcat(next, x.extra, FullBody(x.items));
    MuteWalk(next, x.extra);
    BodyIsRecorded(WalkLines(next, x.extra), x.items);
  }

  lemma BlockIsRightExactlyWhen(x: Block)
    requires BlockIsAligned(x)
    ensures BlockRecorded(x) == BlockWanted(x) <==> BlockIsHarmless(x)
    ensures |BlockRecorded(x)| == |BlockWanted(x)|
  {
    var (a, b) := Reset(x.extra, x.header.oldStart, x.header.newStart);
    HeadersAlone(x.extra, x.header.oldStart, x.header.newStart, x.oldPos + 1, x.newPos + 1);
    BodyIsRightExactlyWhen(x.items, a, b, x.oldPos + 1, x.newPos + 1);
    SameLength(x.items, a, b, x.oldPos + 1, x.newPos + 1);
  }

  ghost predicate AllMute(blocks: seq<Block>)
  {
    forall x :: x in blocks ==> BlockIsMute(x)
  }

  ghost predicate AllAligned(blocks: seq<Block>)
  {
    forall x :: x in blocks ==> BlockIsAligned(x)
  }

  ghost predicate AllHarmless(blocks: seq<Block>)
  {
    forall x :: x in blocks ==> BlockIsHarmless(x)
  }

  function AllWanted(blocks: seq<Block>): seq<Anchor>
  {
    if blocks == [] then [] else BlockWanted(blocks[0]) + AllWanted(blocks[1..])
  }

  lemma HarmlessUnfold(blocks: seq<Block>)
    requires blocks != []
    ensures AllHarmless(blocks) <==> BlockIsHarmless(blocks[0]) && AllHarmless(blocks[1..])
    ensures AllMute(blocks) <==> BlockIsMute(blocks[0]) && AllMute(blocks[1..])
    ensures AllAligned(blocks) <==> BlockIsAligned(blocks[0]) && AllAligned(blocks[1..])
  {
    assert forall k :: k in blocks <==> k == blocks[0] || k in blocks[1..];
  }

  lemma WalkSplits(w: Walk, got: seq<Anchor>, wanted: seq<Anchor>, tail: seq<Anchor>, wantedTail: seq<Anchor>,
      all: seq<Anchor>, here: bool, later: bool)
    requires |got| == |wanted| && (got == wanted <==> here)
    requires all == (w.anchors + got) + tail && (tail == wantedTail <==> later)
    ensures all == w.anchors + (wanted + wantedTail) <==> here && later
  {
    SplitEqual(got, tail, wanted, wantedTail);
    Assoc(w.anchors, got, tail);
    SplitEqual(w.anchors, got + tail, w.anchors, wanted + wantedTail);
  }

  lemma {:induction false} BlocksAreRightExactlyWhen(w: Walk, blocks: seq<Block>)
    requires AllMute(blocks) && AllAligned(blocks)
    ensures WalkLines(w, FullKinds(blocks)).anchors == w.anchors + AllWanted(blocks) <==> AllHarmless(blocks)
    ensures w.anchors <= WalkLines(w, FullKinds(blocks)).anchors
    decreases |blocks|
  {
    if blocks != [] {
      var x, rest := blocks[0], blocks[1..];
      HarmlessUnfold(blocks);
      WalkConcat(w, [x.header] + Rest(x), FullKinds(rest));
      BlockIsRecorded(w, x);
      BlockIsRightExactlyWhen(x);
      var next := WalkLines(w, [x.header] + Rest(x));
      BlocksAreRightExactlyWhen(next, rest);
      var tail := WalkLines(next, FullKinds(rest)).anchors[|next.anchors|..];
      SplitEqual(next.anchors, tail, next.anchors, AllWanted(rest));
      WalkSplits(w, BlockRecorded(x), BlockWanted(x), tail, AllWanted(rest), WalkLines(next, FullKinds(rest)).anchors,
                 BlockIsHarmless(x), AllHarmless(rest));
    }
  }

  // ------------------------------------------------ the recorded anchors

  lemma {:induction false} BodyMute(lines: seq<HunkLine>)
    requires forall p :: p in BodyLines(lines) ==> Mute(p)
    ensures BodyIsMute(Items(lines))
    decreases |lines|
  {
    if lines != [] {
      var p := BodyLine(lines[0]);
      assert BodyLines(lines) == [p] + BodyLines(lines[1..]);
      assert p in BodyLines(lines);
      MuteWeighsNothing(Phantoms(p));
      BodyMute(lines[1..]);
    }
  }

  lemma {:induction false} UnusedSide(lines: seq<HunkLine>)
    ensures OldText(lines) == [] ==> !OldUse(Items(lines))
    ensures NewText(lines) == [] ==> !NewUse(Items(lines))
    decreases |lines|
  {
    if lines != [] {
      assert Items(lines)[1..] == Items(lines[1..]);
      UnusedSide(lines[1..]);
    }
  }

  lemma HunkIsAligned(h: Hunk)
    ensures BlockIsAligned(BlockOf(h))
  {
    UnusedSide(h.lines);
  }

  lemma HunkIsMute(h: Hunk)
    requires Mute(HeaderLine(h)) && forall p :: p in BodyLines(h.lines) ==> Mute(p)
    ensures BlockIsMute(BlockOf(h))
  {
    MuteWeighsNothing(Phantoms(HeaderLine(h)));
    BodyMute(h.lines);
  }

  lemma BlocksUnfold(hunks: seq<Hunk>)
    requires hunks != []
    ensures Blocks(hunks) != [] && Blocks(hunks)[0] == BlockOf(hunks[0]) && Blocks(hunks)[1..] == Blocks(hunks[1..])
    ensures forall k :: k in hunks <==> k == hunks[0] || k in hunks[1..]
  {
  }

  lemma PrintedUnfold(hunks: seq<Hunk>)
    requires hunks != []
    ensures forall p :: p in PrintedLines(hunks) <==>
              p == HeaderLine(hunks[0]) || p in BodyLines(hunks[0].lines) || p in PrintedLines(hunks[1..])
  {
  }

  lemma {:induction false} HunksAreAligned(hunks: seq<Hunk>)
    ensures AllAligned(Blocks(hunks))
    decreases |hunks|
  {
    if hunks != [] {
      BlocksUnfold(hunks);
      HunkIsAligned(hunks[0]);
      HunksAreAligned(hunks[1..]);
      HarmlessUnfold(Blocks(hunks));
    }
  }

  lemma {:induction false} HunksAreMute(hunks: seq<Hunk>)
    requires forall p :: p in PrintedLines(hunks) ==> Mute(p)
    ensures AllMute(Blocks(hunks))
    decreases |hunks|
  {
    if hunks != [] {
      PrintedUnfold(hunks);
      HunkIsMute(hunks[0]);
      HunksAreMute(hunks[1..]);
      BlocksUnfold(hunks);
      HarmlessUnfold(Blocks(hunks));
    }
  }

  /** The block has the hunk's lines and places. */
  ghost predicate Fits(b: Block, h: Hunk)
  {
    SameKinds(b.items, h.lines) && b.oldPos == h.oldPos && b.newPos == h.newPos
  }

  lemma BlockFits(h: Hunk)
    ensures Fits(BlockOf(h), h)
  {
    ItemsAreSameKinds(h.lines);
  }

  ghost predicate AllFit(blocks: seq<Block>, hunks: seq<Hunk>)
  {
    |blocks| == |hunks| && forall k :: 0 <= k < |hunks| ==> Fits(blocks[k], hunks[k])
  }

  lemma {:induction false} BlocksFit(hunks: seq<Hunk>)
    ensures AllFit(Blocks(hunks), hunks)
    decreases |hunks|
  {
    if hunks != [] {
      BlocksUnfold(hunks);
      BlockFits(hunks[0]);
      BlocksFit(hunks[1..]);
      FitsCons(Blocks(hunks), hunks);
    }
  }

  lemma FitsCons(blocks: seq<Block>, hunks: seq<Hunk>)
    requires blocks != [] && hunks != [] && Fits(blocks[0], hunks[0]) && AllFit(blocks[1..], hunks[1..])
    ensures AllFit(blocks, hunks)
  {
    forall k | 0 <= k < |hunks| ensures Fits(blocks[k], hunks[k]) {
      if k > 0 {
        assert Fits(blocks[1..][k - 1], hunks[1..][k - 1]);
      }
    }
  }

  function Join(parts: seq<seq<Anchor>>): seq<Anchor>
  {
    if parts == [] then [] else parts[0] + Join(parts[1..])
  }

  lemma {:induction false} WantedJoins(blocks: seq<Block>, parts: seq<seq<Anchor>>)
    requires |parts| == |blocks| && forall k :: 0 <= k < |blocks| ==> parts[k] == BlockWanted(blocks[k])
    ensures AllWanted(blocks) == Join(parts)
    decreases |blocks|
  {
    if blocks != [] {
      WantedJoins(blocks[1..], parts[1..]);
    }
  }

  lemma {:induction false} ShownJoins(hunks: seq<Hunk>, parts: seq<seq<Anchor>>)
    requires |parts| == |hunks|
    requires forall k :: 0 <= k < |hunks| ==>
             parts[k] == ShownBy(hunks[k].lines, hunks[k].oldPos + 1, hunks[k].newPos + 1)
    ensures Shown(hunks) == Join(parts)
    decreases |hunks|
  {
    if hunks != [] {
      ShownJoins(hunks[1..], parts[1..]);
    }
  }

  lemma FittingIsWanted(blocks: seq<Block>, hunks: seq<Hunk>)
    requires AllFit(blocks, hunks)
    ensures AllWanted(blocks) == Shown(hunks)
  {
    var parts := seq(|blocks|, k requires 0 <= k < |blocks| => BlockWanted(blocks[k]));
    forall k | 0 <= k < |hunks| ensures parts[k] == ShownBy(hunks[k].lines, hunks[k].oldPos + 1, hunks[k].newPos + 1) {
      assert Fits(blocks[k], hunks[k]);
      WantedIsShown(blocks[k].items, hunks[k].lines, hunks[k].oldPos + 1, hunks[k].newPos + 1);
    }
    WantedJoins(blocks, parts);
    ShownJoins(hunks, parts);
  }

  /** A phantom that begins like a diff line always spoils the list of anchors. */
  lemma {:induction false} LivePhantomSpoils(hunks: seq<Hunk>, p: string)
    requires p in PrintedLines(hunks) && !Mute(p)
    ensures AnchorsOf(Print(hunks)) != Shown(hunks)
  {
    var lines := PrintedLines(hunks);
    var q :| q in Phantoms(p) && Weight(Classify(q)) != 0;
    LiveWeighs(Phantoms(p), q);
    PhantomsAddWeight(lines);
    HeaderLineKind(hunks[0]);
    assert lines[0] == HeaderLine(hunks[0]);
    SplitPrinted(lines);
    AnchorCount(START, Lex(SplitLines(Unlines(lines))));
    PrintedLex(hunks);
    AnchorCount(START, PrintedKinds(hunks));
    PrintedWalk(START, hunks);
  }

  /**
   Exactly which diffs are read with every line at its place, for all source text: those in which no phantom begins like
   a diff line, and every phantom hunk header restates the running numbers as far as they are used before the next
   header.
   */
  lemma {:induction false} AnchorsAreExactlyRightWhen(hunks: seq<Hunk>)
    ensures AnchorsOf(Print(hunks)) == Shown(hunks) <==>
            (forall p :: p in PrintedLines(hunks) ==> Mute(p)) && AllHarmless(Blocks(hunks))
  {
    if forall p :: p in PrintedLines(hunks) ==> Mute(p) {
      HunksAreAligned(hunks);
      HunksAreMute(hunks);
      BlocksFit(hunks);
      FittingIsWanted(Blocks(hunks), hunks);
      PrintIsFull(hunks);
      BlocksAreRightExactlyWhen(START, Blocks(hunks));
      assert START.anchors + AllWanted(Blocks(hunks)) == AllWanted(Blocks(hunks));
    } else {
      var p :| p in PrintedLines(hunks) && !Mute(p);
      LivePhantomSpoils(hunks, p);
    }
  }

  /** Then the two line sets are right as well. */
  lemma {:induction false} RightAnchorsIndexRight(hunks: seq<Hunk>)
    requires (forall p :: p in PrintedLines(hunks) ==> Mute(p)) && AllHarmless(Blocks(hunks))
    ensures IndexIsRight(hunks)
  {
    AnchorsAreExactlyRightWhen(hunks);
    ShownLines(hunks);
  }

  // --------------------------------------------------- the two line sets

  function RightCount(pieces: seq<PatchLine>): nat
  {
    if pieces == [] then 0 else NewCount(pieces[0]) + RightCount(pieces[1..])
  }

  function LeftCount(pieces: seq<PatchLine>): nat
  {
    if pieces == [] then 0 else OldCount(pieces[0]) + LeftCount(pieces[1..])
  }

  lemma {:induction false} CountsConcat(a: seq<PatchLine>, b: seq<PatchLine>)
    ensures RightCount(a + b) == RightCount(a) + RightCount(b) && LeftCount(a + b) == LeftCount(a) + LeftCount(b)
  {
    if a == [] {
      assert a + b == b;
    } else {
      assert (a + b)[1..] == a[1..] + b;
      CountsConcat(a[1..], b);
    }
  }

  ghost predicate NoHeader(pieces: seq<PatchLine>)
  {
    forall k :: 0 <= k < |pieces| ==> !pieces[k].Header?
  }

  /** Between headers the walker records one unbroken stretch of lines on each side. */
  lemma {:induction false} StretchIsRecorded(w: Walk, pieces: seq<PatchLine>, x: int)
    requires w.inHunk && NoHeader(pieces)
    ensures var after := WalkLines(w, pieces).anchors;
            && (x in LinesOn(Right, after) <==>
                 x in LinesOn(Right, w.anchors) || w.newLine <= x < w.newLine + RightCount(pieces))
            && (x in LinesOn(Left, after) <==>
                 x in LinesOn(Left, w.anchors) || w.oldLine <= x < w.oldLine + LeftCount(pieces))
    decreases |pieces|
  {
    if pieces != [] {
      LinesGrow(w, pieces[0]);
      StretchIsRecorded(Step(w, pieces[0]), pieces[1..], x);
    }
  }

  ghost predicate HeadsOnly(blocks: seq<Block>)
  {
    forall b :: b in blocks ==> b.header.Header? && NoHeader(Rest(b))
  }

  predicate InRightStretch(blocks: seq<Block>, x: int)
  {
    blocks != [] && ((blocks[0].header.Header? &&
      blocks[0].header.newStart <= x < blocks[0].header.newStart + RightCount(Rest(blocks[0])))
                     || InRightStretch(blocks[1..], x))
  }

  predicate InLeftStretch(blocks: seq<Block>, x: int)
  {
    blocks != [] && ((blocks[0].header.Header? &&
      blocks[0].header.oldStart <= x < blocks[0].header.oldStart + LeftCount(Rest(blocks[0])))
                     || InLeftStretch(blocks[1..], x))
  }

  lemma {:induction false} StretchesAreRecorded(w: Walk, blocks: seq<Block>, x: int)
    requires HeadsOnly(blocks)
    ensures var after := WalkLines(w, FullKinds(blocks)).anchors;
            && (x in LinesOn(Right, after) <==> x in LinesOn(Right, w.anchors) || InRightStretch(blocks, x))
            && (x in LinesOn(Left, after) <==> x in LinesOn(Left, w.anchors) || InLeftStretch(blocks, x))
    decreases |blocks|
  {
    if blocks != [] {
      var b := blocks[0];
      assert b in blocks;
      WalkConcat(w, [b.header] + Rest(b), FullKinds(blocks[1..]));
      WalkHead(w, b.header, Rest(b));
      StretchIsRecorded(Step(w, b.header), Rest(b), x);
      StretchesAreRecorded(WalkLines(w, [b.header] + Rest(b)), blocks[1..], x);
    }
  }

  lemma {:induction false} StretchHas(blocks: seq<Block>, k: int, x: int)
    requires 0 <= k < |blocks| && blocks[k].header.Header?
    ensures blocks[k].header.newStart <= x < blocks[k].header.newStart + RightCount(Rest(blocks[k])) ==>
            InRightStretch(blocks, x)
    ensures blocks[k].header.oldStart <= x < blocks[k].header.oldStart + LeftCount(Rest(blocks[k])) ==>
            InLeftStretch(blocks, x)
    decreases k
  {
    if k > 0 {
      StretchHas(blocks[1..], k - 1, x);
    }
  }

  // ------------------------------------------- lines counted and lines wanted

  function NewLines(items: seq<Item>): nat
  {
    if items == [] then 0 else NewCount(items[0].kind) + NewLines(items[1..])
  }

  function OldLines(items: seq<Item>): nat
  {
    if items == [] then 0 else OldCount(items[0].kind) + OldLines(items[1..])
  }

  lemma {:induction false} ItemsCountText(lines: seq<HunkLine>)
    ensures NewLines(Items(lines)) == |NewText(lines)| && OldLines(Items(lines)) == |OldText(lines)|
  {
    if lines != [] {
      assert Items(lines)[1..] == Items(lines[1..]);
      ItemsCountText(lines[1..]);
    }
  }

  lemma {:induction false} WeightIsCounts(pieces: seq<PatchLine>)
    ensures TotalWeight(pieces) == RightCount(pieces) + LeftCount(pieces)
  {
    if pieces != [] {
      WeightIsCounts(pieces[1..]);
    }
  }

  /** The body counts at least the printed lines, and more if a phantom begins like a diff line. */
  lemma {:induction false} BodyCounts(items: seq<Item>)
    ensures RightCount(FullBody(items)) >= NewLines(items) && LeftCount(FullBody(items)) >= OldLines(items)
    ensures forall x :: x in items ==>
              RightCount(FullBody(items)) + LeftCount(FullBody(items)) >= NewLines(items) + OldLines(items) +
                TotalWeight(x.extra)
    decreases |items|
  {
    if items != [] {
      var x, rest := items[0], FullBody(items[1..]);
      BodyCounts(items[1..]);
      CountsConcat(x.extra, rest);
      CountsConcat([x.kind], x.extra + rest);
      WeightIsCounts(x.extra);
      assert forall y :: y in items <==> y == x || y in items[1..];
    }
  }

  lemma {:induction false} LineAmongItems(lines: seq<HunkLine>, p: string)
    requires p in BodyLines(lines)
    ensures exists x :: x in Items(lines) && x.extra == Extra(p)
    decreases |lines|
  {
    if p == BodyLine(lines[0]) {
      assert Items(lines)[0].extra == Extra(p);
    } else {
      LineAmongItems(lines[1..], p);
      var x :| x in Items(lines[1..]) && x.extra == Extra(p);
      assert Items(lines) == [Items(lines)[0]] + Items(lines[1..]);
      assert x in Items(lines);
    }
  }

  /**
   A block counts at least its hunk's lines on each side, and more on one side if a line `p` of the hunk is not mute.
   */
  lemma BlockCounts(x: Block, newLines: nat, oldLines: nat, extra: seq<PatchLine>)
    requires NewLines(x.items) == newLines && OldLines(x.items) == oldLines
    requires extra == x.extra || exists y :: y in x.items && y.extra == extra
    ensures RightCount(Rest(x)) >= newLines && LeftCount(Rest(x)) >= oldLines
    ensures TotalWeight(extra) > 0 ==> RightCount(Rest(x)) > newLines || LeftCount(Rest(x)) > oldLines
  {
    BodyCounts(x.items);
    CountsConcat(x.extra, FullBody(x.items));
    WeightIsCounts(x.extra);
  }

  /** Hunks that leave at least one line between them in both files, as `diff` prints them. */
  ghost predicate Apart(hunks: seq<Hunk>)
  {
    forall i, j :: 0 <= i < j < |hunks| ==>
      && hunks[i].newPos + |NewText(hunks[i].lines)| < hunks[j].newPos
      && hunks[i].oldPos + |OldText(hunks[i].lines)| < hunks[j].oldPos
  }

  /** The parsed sets are exactly the lines inside the hunks of each file. */
  ghost predicate IndexIsRight(hunks: seq<Hunk>)
  {
    && (forall x :: x in IndexOf(Print(hunks)).rightLines <==> InNewHunk(hunks, x))
    && (forall x :: x in IndexOf(Print(hunks)).leftLines <==> InOldHunk(hunks, x))
  }

  /** The first line past a stretch that is too long lies in no hunk, if the hunks are apart. */
  lemma StrayLine(pos: seq<int>, size: seq<int>, k: int) returns (x: int)
    requires |pos| == |size| && 0 <= k < |pos| && (forall i :: 0 <= i < |pos| ==> size[i] >= 0)
    requires forall i, j :: 0 <= i < j < |pos| ==> pos[i] + size[i] < pos[j]
    ensures var start := if size[k] == 0 then pos[k] else pos[k] + 1; x == start + size[k]
    ensures forall i :: 0 <= i < |pos| ==> !(pos[i] < x <= pos[i] + size[i])
  {
    x := (if size[k] == 0 then pos[k] else pos[k] + 1) + size[k];
    forall i | 0 <= i < |pos| ensures !(pos[i] < x <= pos[i] + size[i]) {
      assert i < k ==> pos[i] + size[i] < pos[k];
      assert k < i ==> pos[k] + size[k] < pos[i];
    }
  }

  lemma LexAt(pieces: seq<string>, k: int)
    requires 0 <= k < |pieces|
    ensures Lex(pieces)[k] == Classify(pieces[k])
  {
    if k > 0 {
      LexAt(pieces[1..], k - 1);
    }
  }

  lemma ExtraHasNoHeader(p: string)
    requires NoPhantomHeader(p)
    ensures NoHeader(Extra(p))
  {
    forall k | 0 <= k < |Extra(p)| ensures !Extra(p)[k].Header? {
      LexAt(Phantoms(p), k);
      assert Phantoms(p)[k] in Phantoms(p);
    }
  }

  lemma NoHeaderConcat(a: seq<PatchLine>, b: seq<PatchLine>)
    requires NoHeader(a) && NoHeader(b)
    ensures NoHeader(a + b)
  {
  }

  lemma {:induction false} BodyHasNoHeader(items: seq<Item>)
    requires forall x :: x in items ==> !x.kind.Header? && NoHeader(x.extra)
    ensures NoHeader(FullBody(items))
    decreases |items|
  {
    if items != [] {
      var x := items[0];
      assert x in items;
      BodyHasNoHeader(items[1..]);
      NoHeaderConcat(x.extra, FullBody(items[1..]));
      NoHeaderConcat([x.kind], x.extra + FullBody(items[1..]));
    }
  }

  lemma {:induction false} ItemsHaveNoHeader(lines: seq<HunkLine>)
    requires forall p :: p in BodyLines(lines) ==> NoPhantomHeader(p)
    ensures forall x :: x in Items(lines) ==> !x.kind.Header? && NoHeader(x.extra)
    decreases |lines|
  {
    if lines != [] {
      var p := BodyLine(lines[0]);
      assert BodyLines(lines) == [p] + BodyLines(lines[1..]);
      assert p in BodyLines(lines);
      ExtraHasNoHeader(p);
      ItemsHaveNoHeader(lines[1..]);
      assert Items(lines) == [Item(KindOf(lines[0]), Extra(p))] + Items(lines[1..]);
    }
  }

  lemma HunkHasNoHeader(h: Hunk)
    requires NoPhantomHeader(HeaderLine(h)) && forall p :: p in BodyLines(h.lines) ==> NoPhantomHeader(p)
    ensures BlockOf(h).header.Header? && NoHeader(Rest(BlockOf(h)))
  {
    ExtraHasNoHeader(HeaderLine(h));
    ItemsHaveNoHeader(h.lines);
    BodyHasNoHeader(Items(h.lines));
    NoHeaderConcat(Extra(HeaderLine(h)), FullBody(Items(h.lines)));
  }

  lemma {:induction false} HunksHaveNoHeader(hunks: seq<Hunk>)
    requires forall p :: p in PrintedLines(hunks) ==> NoPhantomHeader(p)
    ensures HeadsOnly(Blocks(hunks))
    decreases |hunks|
  {
    if hunks != [] {
      PrintedUnfold(hunks);
      HunkHasNoHeader(hunks[0]);
      HunksHaveNoHeader(hunks[1..]);
      assert Blocks(hunks) == [BlockOf(hunks[0])] + Blocks(hunks[1..]);
    }
  }

  function HunkText(h: Hunk): seq<string>
  {
    [HeaderLine(h)] + BodyLines(h.lines)
  }

  function Flatten(parts: seq<seq<string>>): seq<string>
  {
    if parts == [] then [] else parts[0] + Flatten(parts[1..])
  }

  lemma {:induction false} PrintIsFlat(hunks: seq<Hunk>, parts: seq<seq<string>>)
    requires |parts| == |hunks| && forall k :: 0 <= k < |hunks| ==> parts[k] == HunkText(hunks[k])
    ensures PrintedLines(hunks) == Flatten(parts)
    decreases |hunks|
  {
    if hunks != [] {
      PrintIsFlat(hunks[1..], parts[1..]);
    }
  }

  lemma {:induction false} InPart(parts: seq<seq<string>>, p: string) returns (k: int)
    requires p in Flatten(parts)
    ensures 0 <= k < |parts| && p in parts[k]
    decreases |parts|
  {
    if p in parts[0] {
      k := 0;
    } else {
      k := InPart(parts[1..], p);
      k := k + 1;
    }
  }

  /** Which hunk a printed line belongs to. */
  lemma LineInHunk(hunks: seq<Hunk>, p: string) returns (k: int)
    requires p in PrintedLines(hunks)
    ensures 0 <= k < |hunks| && (p == HeaderLine(hunks[k]) || p in BodyLines(hunks[k].lines))
  {
    var parts := seq(|hunks|, k requires 0 <= k < |hunks| => HunkText(hunks[k]));
    PrintIsFlat(hunks, parts);
    k := InPart(parts, p);
    assert p in HunkText(hunks[k]);
  }

  lemma {:induction false} BlockAt(hunks: seq<Hunk>, k: int)
    requires 0 <= k < |hunks|
    ensures |Blocks(hunks)| == |hunks| && Blocks(hunks)[k] == BlockOf(hunks[k])
    decreases k
  {
    BlocksUnfold(hunks);
    BlocksFit(hunks);
    if k > 0 {
      BlockAt(hunks[1..], k - 1);
    }
  }

  lemma HunkCounts(h: Hunk, p: string, x: Block)
    requires x == BlockOf(h) && (p == HeaderLine(h) || p in BodyLines(h.lines))
    ensures RightCount(Rest(x)) >= |NewText(h.lines)| && LeftCount(Rest(x)) >= |OldText(h.lines)|
    ensures TotalWeight(Extra(p)) > 0 ==>
            RightCount(Rest(x)) > |NewText(h.lines)| || LeftCount(Rest(x)) > |OldText(h.lines)|
  {
    ItemsCountText(h.lines);
    if p in BodyLines(h.lines) {
      LineAmongItems(h.lines, p);
    }
    BlockCounts(x, |NewText(h.lines)|, |OldText(h.lines)|, Extra(p));
  }

  lemma {:induction false} OverlongSpoilsRight(hunks: seq<Hunk>, blocks: seq<Block>, k: int)
    requires Apart(hunks) && |blocks| == |hunks| && 0 <= k < |hunks| && HeadsOnly(blocks)
    requires blocks[k].header == HeaderKind(hunks[k]) && RightCount(Rest(blocks[k])) > |NewText(hunks[k].lines)|
    ensures exists x :: x in LinesOn(Right, WalkLines(START, FullKinds(blocks)).anchors) && !InNewHunk(hunks, x)
  {
    assert blocks[k] in blocks;
    var x := StrayLine(seq(|hunks|, i requires 0 <= i < |hunks| => hunks[i].newPos),
                       seq(|hunks|, i requires 0 <= i < |hunks| => |NewText(hunks[i].lines)|), k);
    StretchHas(blocks, k, x);
    StretchesAreRecorded(START, blocks, x);
    StrayIsOutside(hunks, x);
  }

  lemma {:induction false} OverlongSpoilsLeft(hunks: seq<Hunk>, blocks: seq<Block>, k: int)
    requires Apart(hunks) && |blocks| == |hunks| && 0 <= k < |hunks| && HeadsOnly(blocks)
    requires blocks[k].header == HeaderKind(hunks[k]) && LeftCount(Rest(blocks[k])) > |OldText(hunks[k].lines)|
    ensures exists x :: x in LinesOn(Left, WalkLines(START, FullKinds(blocks)).anchors) && !InOldHunk(hunks, x)
  {
    assert blocks[k] in blocks;
    var x := StrayLine(seq(|hunks|, i requires 0 <= i < |hunks| => hunks[i].oldPos),
                       seq(|hunks|, i requires 0 <= i < |hunks| => |OldText(hunks[i].lines)|), k);
    StretchHas(blocks, k, x);
    StretchesAreRecorded(START, blocks, x);
    StrayIsOutside(hunks, x);
  }

  lemma StrayIsOutside(hunks: seq<Hunk>, x: int)
    ensures (forall i :: 0 <= i < |hunks| ==>
            !(hunks[i].newPos < x <= hunks[i].newPos + |NewText(hunks[i].lines)|)) ==> !InNewHunk(hunks, x)
    ensures (forall i :: 0 <= i < |hunks| ==>
            !(hunks[i].oldPos < x <= hunks[i].oldPos + |OldText(hunks[i].lines)|)) ==> !InOldHunk(hunks, x)
  {
  }

  /**
   Exactly when the two line sets are right, for hunks that are apart and source text that holds no hunk header behind a
   stray break: if and only if no phantom begins like a diff line.
   */
  lemma {:induction false} IndexIsExactlyRightWhen(hunks: seq<Hunk>)
    requires Apart(hunks) && forall p :: p in PrintedLines(hunks) ==> NoPhantomHeader(p)
    ensures IndexIsRight(hunks) <==> forall p :: p in PrintedLines(hunks) ==> Tame(p)
  {
    if forall p :: p in PrintedLines(hunks) ==> Tame(p) {
      ParsingRecoversHunks(hunks);
      ShownLines(hunks);
    } else {
      var p :| p in PrintedLines(hunks) && !Tame(p);
      UntameSpoils(hunks, p);
    }
  }

  lemma {:induction false} UntameSpoils(hunks: seq<Hunk>, p: string)
    requires Apart(hunks) && forall p :: p in PrintedLines(hunks) ==> NoPhantomHeader(p)
    requires p in PrintedLines(hunks) && !Tame(p)
    ensures !IndexIsRight(hunks)
  {
    var q :| q in Phantoms(p) && Classify(q) != Other;
    LiveWeighs(Phantoms(p), q);
    var k := LineInHunk(hunks, p);
    var blocks := Blocks(hunks);
    BlockAt(hunks, k);
    HunkCounts(hunks[k], p, blocks[k]);
    HunksHaveNoHeader(hunks);
    PrintIsFull(hunks);
    if RightCount(Rest(blocks[k])) > |NewText(hunks[k].lines)| {
      OverlongSpoilsRight(hunks, blocks, k);
    } else {
      OverlongSpoilsLeft(hunks, blocks, k);
    }
  }
}
