/**
 Inputs on which the hunk walker goes wrong, or goes right by accident (backend/integrations/diff_mapping.py,
 `_parse_patch`).
 */
module DiffWitnesses {
  import opened LineSplitting
  import opened HunkHeader
  import opened DiffMapping
  import opened UnifiedDiff
  import opened DiffExactness

  // ------------------------------------------------------ stray form feeds

  /** A hunk of one line, with nothing after its header. */
  function OneLine(oldPos: nat, newPos: nat, l: HunkLine): Hunk
  {
    Hunk(oldPos, newPos, [l], false, "")
  }

  lemma HeaderIsPlain(h: Hunk)
    requires h.section == ""
    ensures Phantoms(HeaderLine(h)) == []
  {
    var m, n := |OldText(h.lines)|, |NewText(h.lines)|;
    var core := PrintHeader(RangeStart(h.oldPos, m), m, RangeStart(h.newPos, n), n, h.brief);
    HeaderIsBreakFree(RangeStart(h.oldPos, m), m, RangeStart(h.newPos, n), n, h.brief);
    assert HeaderLine(h) == core;
    PlainTextIsTame(core);
  }

  lemma OneLineRest(h: Hunk, l: HunkLine, extra: seq<PatchLine>)
    requires h == OneLine(h.oldPos, h.newPos, l) && extra == Extra(BodyLine(l))
    ensures Rest(BlockOf(h)) == [KindOf(l)] + extra
  {
    HeaderIsPlain(h);
    ItemsOfOne(l);
    BodyOfOne(Item(KindOf(l), extra));
    assert Extra(HeaderLine(h)) == [];
  }

  lemma ItemsOfOne(l: HunkLine)
    ensures Items([l]) == [Item(KindOf(l), Extra(BodyLine(l)))]
  {
    assert [l][1..] == [];
    assert Items([]) == [];
  }

  lemma BodyOfOne(x: Item)
    ensures FullBody([x]) == [x.kind] + x.extra
  {
    assert [x][1..] == [];
    assert FullBody([]) == [];
  }

  lemma BlocksOfOne(h: Hunk)
    ensures Blocks([h]) == [BlockOf(h)]
  {
    assert [h][1..] == [];
    assert Blocks([]) == [];
  }

  lemma ExtraOfOne(p: string, q: string)
    requires Phantoms(p) == [q]
    ensures Extra(p) == [Classify(q)]
  {
    assert Lex([q]) == [Classify(q)];
  }

  /**
   The failing family: a new file of one line, which has a form feed followed by a blank. The walker makes two lines of
   it and indexes line 2 of the new file, and line 0 of the old one.
   */
  lemma FormFeedThenBlankMiscounts(before: string, after: string)
    requires BreakFree(before) && BreakFree(after)
    ensures var text := before + "\U{000C}" + (" " + after);
            var hunks := [OneLine(0, 0, Inserted(text))];
            && Turns([], [text], 0, 0, hunks)
            && 2 in IndexOf(Print(hunks)).rightLines && !InNewHunk(hunks, 2)
            && 0 in IndexOf(Print(hunks)).leftLines && !InOldHunk(hunks, 0)
  {
    var text := before + "\U{000C}" + (" " + after);
    var l := Inserted(text);
    var h := OneLine(0, 0, l);
    assert BodyLine(l) == ("+" + before) + "\U{000C}" + (" " + after);
    FormFeedLeavesOne("+" + before, " " + after);
    ExtraOfOne(BodyLine(l), " " + after);
    MarkedKind(' ', after);
    OneLineRest(h, l, [Both(after)]);
    InsertedText(h, text);
    OneTurns([text], h);
    OneTooMany(h, Plus(FirstLine(text)), Both(after));
  }

  lemma OneTurns(newFile: seq<string>, h: Hunk)
    requires |newFile| == 1 && NewText(h.lines) == newFile && OldText(h.lines) == [] && h.oldPos == h.newPos == 0
    ensures Turns([], newFile, 0, 0, [h])
  {
    assert newFile[1..] == [] && newFile[0..1] == newFile && [h][1..] == [];
    assert Turns([], newFile, 0, 1, []);
  }

  lemma {:induction false} OneTooMany(h: Hunk, first: PatchLine, second: PatchLine)
    requires h.oldPos == h.newPos == 0 && OldText(h.lines) == [] && |NewText(h.lines)| == 1
    requires first.Plus? && second.Both? && Rest(BlockOf(h)) == [first] + [second]
    ensures 2 in IndexOf(Print([h])).rightLines && 0 in IndexOf(Print([h])).leftLines
    ensures !InNewHunk([h], 2) && !InOldHunk([h], 0)
  {
    var blocks := Blocks([h]);
    BlocksOfOne(h);
    PrintIsFull([h]);
    CountsConcat([first], [second]);
    assert [first][1..] == [] && [second][1..] == [];
    StrayRecorded(blocks, blocks[0]);
  }

  lemma {:induction false} StrayRecorded(blocks: seq<Block>, x: Block)
    requires blocks == [x] && x.header == Header(0, 1) && NoHeader(Rest(x)) && RightCount(Rest(x)) == 2 &&
             LeftCount(Rest(x)) == 1
    ensures 2 in LinesOn(Right, WalkLines(START, FullKinds(blocks)).anchors)
    ensures 0 in LinesOn(Left, WalkLines(START, FullKinds(blocks)).anchors)
  {
    StretchHas(blocks, 0, 2);
    StretchHas(blocks, 0, 0);
    StretchesAreRecorded(START, blocks, 2);
    StretchesAreRecorded(START, blocks, 0);
  }

  /** Hunks with nothing between them hide a miscount: the stray line is one the next hunk has anyway. */
  lemma {:induction false} AdjacentHunksHideMiscounts(a: string, b: string, c: string)
    requires BreakFree(a) && BreakFree(b) && BreakFree(c)
    ensures var first := a + "\U{000C}" + ("+" + b);
            var hunks := [OneLine(0, 0, Inserted(first)), OneLine(0, 1, Inserted(c))];
            Turns([], [first, c], 0, 0, hunks) && !Tame(BodyLine(Inserted(first))) && IndexIsRight(hunks)
  {
    var first := a + "\U{000C}" + ("+" + b);
    var h, g := OneLine(0, 0, Inserted(first)), OneLine(0, 1, Inserted(c));
    InsertionThenPlus(a, b);
    InsertionsTurn(first, c);
    AdjacentIndexIsRight(h, g, first, b, c);
  }

  lemma {:induction false} AdjacentIndexIsRight(h: Hunk, g: Hunk, first: string, b: string, c: string)
    requires h == OneLine(0, 0, Inserted(first)) && g == OneLine(0, 1, Inserted(c))
    requires Extra(BodyLine(Inserted(first))) == [Plus(b)] && BreakFree(c)
    ensures IndexIsRight([h, g])
  {
    PlainTextIsTame("+" + c);
    OneLineRest(h, Inserted(first), [Plus(b)]);
    OneLineRest(g, Inserted(c), []);
    TwoInsertions(h, g, first, c, FirstLine(first), b, FirstLine(c));
  }

  lemma InsertionThenPlus(a: string, b: string)
    requires BreakFree(a) && BreakFree(b)
    ensures var p := BodyLine(Inserted(a + "\U{000C}" + ("+" + b))); Extra(p) == [Plus(b)] && !Tame(p)
  {
    var p := BodyLine(Inserted(a + "\U{000C}" + ("+" + b)));
    assert p == ("+" + a) + "\U{000C}" + ("+" + b);
    FormFeedLeavesOne("+" + a, "+" + b);
    ExtraOfOne(p, "+" + b);
    MarkedKind('+', b);
    assert ("+" + b) in Phantoms(p);
  }

  lemma {:induction false} TwoInsertions(h: Hunk, g: Hunk, s: string, t: string, p: string, q: string, r: string)
    requires h.lines == [Inserted(s)] && g.lines == [Inserted(t)] && h.oldPos == g.oldPos == h.newPos == 0 &&
             g.newPos == 1
    requires Rest(BlockOf(h)) == [Plus(p)] + [Plus(q)] && Rest(BlockOf(g)) == [Plus(r)] + []
    ensures IndexIsRight([h, g])
  {
    TextUnfold(h.lines);
    TextUnfold(g.lines);
    BlocksOfTwo(h, g);
    PrintIsFull([h, g]);
    var blocks := Blocks([h, g]);
    TwoStretches(blocks, blocks[0], blocks[1], p, q, r);
    TwoSmallHunks(h, g);
  }

  lemma InsertedText(h: Hunk, t: string)
    requires h.lines == [Inserted(t)]
    ensures NewText(h.lines) == [t] && OldText(h.lines) == []
  {
    TextUnfold(h.lines);
    assert h.lines[1..] == [];
  }

  lemma {:induction false} InsertionsTurn(first: string, second: string)
    ensures Turns([], [first, second], 0, 0, [OneLine(0, 0, Inserted(first)), OneLine(0, 1, Inserted(second))])
  {
    var h, g := OneLine(0, 0, Inserted(first)), OneLine(0, 1, Inserted(second));
    InsertedText(h, first);
    InsertedText(g, second);
    TwoTurns([first, second], h, g);
  }

  lemma TwoTurns(newFile: seq<string>, h: Hunk, g: Hunk)
    requires |newFile| == 2 && NewText(h.lines) == [newFile[0]] && NewText(g.lines) == [newFile[1]]
    requires OldText(h.lines) == OldText(g.lines) == [] && h.oldPos == g.oldPos == h.newPos == 0 && g.newPos == 1
    ensures Turns([], newFile, 0, 0, [h, g])
  {
    assert newFile[2..] == [] && newFile[1..2] == [newFile[1]] && newFile[0..1] == [newFile[0]];
    assert Turns([], newFile, 0, 2, []);
    assert [g][1..] == [] && [h, g][1..] == [g];
    assert Turns([], newFile, 0, 1, [g]);
  }

  lemma BlocksOfTwo(h: Hunk, g: Hunk)
    ensures Blocks([h, g]) == [BlockOf(h), BlockOf(g)]
  {
    BlocksOfOne(g);
    assert [h, g][1..] == [g];
  }

  lemma {:induction false} TwoStretches(blocks: seq<Block>, x: Block, y: Block, p: string, q: string, r: string)
    requires blocks == [x, y] && x.header == Header(0, 1) && y.header == Header(0, 2)
    requires Rest(x) == [Plus(p)] + [Plus(q)] && Rest(y) == [Plus(r)] + []
    ensures forall z :: z in LinesOn(Right, WalkLines(START, FullKinds(blocks)).anchors) <==> 1 <= z < 3
    ensures forall z :: z !in LinesOn(Left, WalkLines(START, FullKinds(blocks)).anchors)
  {
    CountsConcat([Plus(p)], [Plus(q)]);
    CountsConcat([Plus(r)], []);
    assert [Plus(p)][1..] == [] && [Plus(q)][1..] == [] && [Plus(r)][1..] == [];
    assert RightCount(Rest(x)) == 2 && LeftCount(Rest(x)) == 0 && RightCount(Rest(y)) == 1 && LeftCount(Rest(y)) == 0;
    assert HeadsOnly(blocks);
    forall z ensures z in LinesOn(Right, WalkLines(START, FullKinds(blocks)).anchors) <==> 1 <= z < 3
             ensures z !in LinesOn(Left, WalkLines(START, FullKinds(blocks)).anchors)
    {
      StretchesAreRecorded(START, blocks, z);
      StretchesOfTwo(x, y, z);
    }
  }

  lemma StretchesOfTwo(x: Block, y: Block, z: int)
    requires x.header == Header(0, 1) && y.header == Header(0, 2)
    requires RightCount(Rest(x)) == 2 && LeftCount(Rest(x)) == 0 && RightCount(Rest(y)) == 1 && LeftCount(Rest(y)) == 0
    ensures InRightStretch([x, y], z) <==> 1 <= z < 3
    ensures !InLeftStretch([x, y], z)
  {
    assert [x, y][1..] == [y] && [y][1..] == [];
    assert InRightStretch([y], z) <==> z == 2;
    assert !InLeftStretch([y], z);
  }

  lemma TwoSmallHunks(h: Hunk, g: Hunk)
    requires h.newPos == 0 && g.newPos == 1 && |NewText(h.lines)| == |NewText(g.lines)| == 1
    requires OldText(h.lines) == OldText(g.lines) == []
    ensures forall z :: InNewHunk([h, g], z) <==> 1 <= z < 3
    ensures forall z :: !InOldHunk([h, g], z)
  {
    assert h in [h, g] && g in [h, g];
  }

  /** A phantom header that announces line `n` of the new file. */
  function Announce(n: nat): string
  {
    PrintHeader(0, 1, n, 1, false)
  }

  lemma AnnounceIsHeader(before: string, n: nat)
    requires BreakFree(before)
    ensures Extra(before + "\U{000C}" + Announce(n)) == [Header(0, n)]
  {
    HeaderIsBreakFree(0, 1, n, 1, false);
    FormFeedLeavesOne(before, Announce(n));
    ExtraOfOne(before + "\U{000C}" + Announce(n), Announce(n));
    HeaderRoundTrip(0, 1, n, 1, false, "");
    assert Announce(n) + "" == Announce(n);
  }

  /** Where two phantom headers swap the numbers of two lines: the sets come out right although the anchors do not. */
  function Swapped(a: string, b: string, c: string): Hunk
  {
    Hunk(0, 0, [Inserted(a + "\U{000C}" + Announce(3)), Inserted(b + "\U{000C}" + Announce(2)), Inserted(c)], false, "")
  }

  lemma {:induction false} SwappedWalk(w: Walk, p: string, q: string, r: string)
    requires w.anchors == []
    ensures WalkLines(w,
            [Header(0, 1)] + ([Plus(p)] + ([Header(0, 3)] + ([Plus(q)] + ([Header(0, 2)] + [Plus(r)]))))).anchors ==
            [Anchor(Right, 1, p), Anchor(Right, 3, q), Anchor(Right, 2, r)]
  {
    var w1 := Walk(0, 1, true, []);
    var w2 := Walk(0, 2, true, [Anchor(Right, 1, p)]);
    var w3 := Walk(0, 3, true, w2.anchors);
    var w4 := Walk(0, 4, true, [Anchor(Right, 1, p), Anchor(Right, 3, q)]);
    var w5 := Walk(0, 2, true, w4.anchors);
    var w6 := Walk(0, 3, true, [Anchor(Right, 1, p), Anchor(Right, 3, q), Anchor(Right, 2, r)]);
    WalkHead(w, Header(0, 1), [Plus(p)] + ([Header(0, 3)] + ([Plus(q)] + ([Header(0, 2)] + [Plus(r)]))));
    WalkHead(w1, Plus(p), [Header(0, 3)] + ([Plus(q)] + ([Header(0, 2)] + [Plus(r)])));
    assert Step(w1, Plus(p)) == w2;
    WalkHead(w2, Header(0, 3), [Plus(q)] + ([Header(0, 2)] + [Plus(r)]));
    WalkHead(w3, Plus(q), [Header(0, 2)] + [Plus(r)]);
    assert Step(w3, Plus(q)) == w4;
    WalkHead(w4, Header(0, 2), [Plus(r)]);
    assert Step(w5, Plus(r)) == w6;
    assert [Plus(r)] + [] == [Plus(r)];
    WalkHead(w5, Plus(r), []);
  }

  lemma BodyOfThree(x: Item, y: Item, z: Item)
    ensures FullBody([x, y, z]) == [x.kind] + (x.extra + ([y.kind] + (y.extra + ([z.kind] + z.extra))))
  {
    assert [x, y, z][1..] == [y, z] && [y, z][1..] == [z];
    BodyOfOne(z);
  }

  lemma ItemsOfThree(l: HunkLine, m: HunkLine, n: HunkLine)
    ensures Items([l, m, n]) ==
            [Item(KindOf(l), Extra(BodyLine(l))), Item(KindOf(m), Extra(BodyLine(m))),
              Item(KindOf(n), Extra(BodyLine(n)))]
  {
    assert [l, m, n][1..] == [m, n] && [m, n][1..] == [n];
    ItemsOfOne(n);
  }

  /** The pieces of a hunk of three inserted lines. */
  lemma ThreeInsertions(h: Hunk, s: string, t: string, u: string, x: seq<PatchLine>, y: seq<PatchLine>)
    requires h == Hunk(0, 0, [Inserted(s), Inserted(t), Inserted(u)], false, "")
    requires Extra("+" + s) == x && Extra("+" + t) == y && Extra("+" + u) == []
    ensures FullKinds(Blocks([h])) ==
            [Header(0, 1)] + ([Plus(FirstLine(s))] + (x + ([Plus(FirstLine(t))] + (y + ([Plus(FirstLine(u))] + [])))))
  {
    ItemsOfThree(h.lines[0], h.lines[1], h.lines[2]);
    BodyOfThree(Item(Plus(FirstLine(s)), x), Item(Plus(FirstLine(t)), y), Item(Plus(FirstLine(u)), []));
    HeaderIsPlain(h);
    BlocksOfOne(h);
    ThreeLines(h, s, t, u);
    KindsOfOne(BlockOf(h));
  }

  lemma KindsOfOne(x: Block)
    ensures FullKinds([x]) == [x.header] + Rest(x)
  {
    assert [x][1..] == [] && FullKinds([]) == [];
  }

  lemma ThreeLines(h: Hunk, s: string, t: string, u: string)
    requires h.lines == [Inserted(s), Inserted(t), Inserted(u)] && h.oldPos == h.newPos == 0
    ensures NewText(h.lines) == [s, t, u] && OldText(h.lines) == [] && HeaderKind(h) == Header(0, 1)
  {
    var two, one := [Inserted(t), Inserted(u)], [Inserted(u)];
    assert h.lines[1..] == two && two[1..] == one && one[1..] == [];
    assert NewText(one) == [u] && NewText(two) == [t, u];
    assert OldText(one) == [] && OldText(two) == [];
  }

  lemma AnnouncedLine(a: string, n: nat)
    requires BreakFree(a)
    ensures Extra("+" + (a + "\U{000C}" + Announce(n))) == [Header(0, n)]
  {
    assert "+" + (a + "\U{000C}" + Announce(n)) == ("+" + a) + "\U{000C}" + Announce(n);
    AnnounceIsHeader("+" + a, n);
  }

  lemma SwappedAnchors(a: string, b: string, c: string)
    requires BreakFree(a) && BreakFree(b) && BreakFree(c)
    ensures var h := Swapped(a, b, c);
            AnchorsOf(Print([h])) ==
              [Anchor(Right, 1, FirstLine(h.lines[0].text)), Anchor(Right, 3, FirstLine(h.lines[1].text)),
                Anchor(Right, 2, FirstLine(c))]
  {
    var h := Swapped(a, b, c);
    var s, t := h.lines[0].text, h.lines[1].text;
    AnnouncedLine(a, 3);
    AnnouncedLine(b, 2);
    PlainTextIsTame("+" + c);
    ThreeInsertions(h, s, t, c, [Header(0, 3)], [Header(0, 2)]);
    assert [Plus(FirstLine(c))] + [] == [Plus(FirstLine(c))];
    PrintIsFull([h]);
    SwappedWalk(START, FirstLine(s), FirstLine(t), FirstLine(c));
  }

  /**
   Phantom headers can cancel out in the sets: every line is indexed, and the second and third are taken for each
   other.
   */
  lemma {:induction false} PhantomHeadersCanCancel(a: string, b: string, c: string)
    requires BreakFree(a) && BreakFree(b) && BreakFree(c)
    ensures var hunks := [Swapped(a, b, c)]; IndexIsRight(hunks) && AnchorsOf(Print(hunks)) != Shown(hunks)
  {
    var h := Swapped(a, b, c);
    var s, t := h.lines[0].text, h.lines[1].text;
    SwappedAnchors(a, b, c);
    ThreeLines(h, s, t, c);
    ThreeOutOfOrder([h], FirstLine(s), FirstLine(t), FirstLine(c), AnchorsOf(Print([h])));
    SecondOfSwapped(h, s, t, c, AnchorsOf(Print([h])));
  }

  lemma SecondOfSwapped(h: Hunk, s: string, t: string, u: string, anchors: seq<Anchor>)
    requires h.lines == [Inserted(s), Inserted(t), Inserted(u)] && h.oldPos == h.newPos == 0
    requires |anchors| == 3 && anchors[1].line == 3
    ensures anchors != Shown([h])
  {
    ShownOfOne(h);
    SecondShown(h.lines, 1, 1);
  }

  lemma ShownOfOne(h: Hunk)
    ensures Shown([h]) == ShownBy(h.lines, h.oldPos + 1, h.newPos + 1)
  {
    assert [h][1..] == [] && Shown([]) == [];
  }

  lemma SecondShown(lines: seq<HunkLine>, o: int, n: int)
    requires |lines| >= 2 && lines[0].Inserted? && lines[1].Inserted?
    ensures |ShownBy(lines, o, n)| >= 2 && ShownBy(lines, o, n)[1].line == n + 1
  {
    ShownByUnfold(lines, o, n);
    ShownByUnfold(lines[1..], o, n + 1);
  }

  lemma ThreeOutOfOrder(hunks: seq<Hunk>, p: string, q: string, r: string, anchors: seq<Anchor>)
    requires |hunks| == 1 && hunks[0].oldPos == hunks[0].newPos == 0
    requires |NewText(hunks[0].lines)| == 3 && OldText(hunks[0].lines) == []
    requires anchors == [Anchor(Right, 1, p), Anchor(Right, 3, q), Anchor(Right, 2, r)]
    ensures forall z :: z in LinesOn(Right, anchors) <==> InNewHunk(hunks, z)
    ensures forall z :: z in LinesOn(Left, anchors) <==> InOldHunk(hunks, z)
  {
    assert anchors[0] in anchors && anchors[1] in anchors && anchors[2] in anchors;
    assert hunks[0] in hunks && forall h :: h in hunks ==> h == hunks[0];
  }

  // ----------------------------------------------------- stripped blank lines

  /** `b` is `a` with some blank context lines stripped of their one space. */
  ghost predicate Strips(a: seq<string>, b: seq<string>)
  {
    |a| == |b| && forall i :: 0 <= i < |a| ==> b[i] == a[i] || (a[i] == " " && b[i] == "")
  }

  lemma BlankKinds()
    ensures Classify(FirstLine("")) == Other && Classify(FirstLine(" ")) == Both("") && Extra("") == []
  {
    PrintedMark(' ', "");
    assert [' '] + "" == " ";
    OtherStart("");
    NotAHeader("");
    PlainTextIsTame("");
  }

  lemma LineWeight(lines: seq<string>)
    requires lines != []
    ensures TotalWeight(LineKinds(lines)) ==
            Weight(Classify(FirstLine(lines[0]))) + TotalWeight(Extra(lines[0])) + TotalWeight(LineKinds(lines[1..]))
  {
    var first, extra, rest := Classify(FirstLine(lines[0])), Extra(lines[0]), LineKinds(lines[1..]);
    WeightConcat(extra, rest);
    WeightConcat([first], extra + rest);
    assert [first][1..] == [];
  }

  lemma {:induction false} StrippingLosesWeight(a: seq<string>, b: seq<string>)
    requires Strips(a, b)
    ensures TotalWeight(LineKinds(b)) <= TotalWeight(LineKinds(a))
    ensures b != a ==> TotalWeight(LineKinds(b)) < TotalWeight(LineKinds(a))
  {
    if a != [] {
      StrippingLosesWeight(a[1..], b[1..]);
      LineWeight(a);
      LineWeight(b);
      BlankKinds();
      assert a[0] == b[0] && a[1..] == b[1..] ==> a == b;
    }
  }

  /** The code skips a context line printed as nothing at all: a diff is read correctly exactly if none is stripped. */
  lemma {:induction false} StrippedBlanksSpoil(hunks: seq<Hunk>, printed: seq<string>)
    requires Strips(PrintedLines(hunks), printed) && forall p :: p in PrintedLines(hunks) ==> Tame(p)
    ensures AnchorsOf(Unlines(printed)) == Shown(hunks) <==> printed == PrintedLines(hunks)
  {
    ParsingRecoversHunks(hunks);
    var lines := PrintedLines(hunks);
    if printed != lines {
      StrippingLosesWeight(lines, printed);
      HeaderLineKind(hunks[0]);
      assert lines[0] == HeaderLine(hunks[0]) && printed[0] == lines[0];
      TextIsItsLines(lines);
      TextIsItsLines(printed);
      AnchorCount(START, LineKinds(lines));
      AnchorCount(START, LineKinds(printed));
    }
  }
}
