/**
 Unified diffs as the `diff` utility prints them (IEEE Std 1003.1-2017, `diff`, "Diff -u or -U Output Format"),
 and what the hunk walker recovers from the printed text.
 */
module UnifiedDiff {
  import opened LineSplitting
  import opened HunkHeader
  import opened DiffMapping

  datatype HunkLine = Context(text: string) | Removed(text: string) | Inserted(text: string) | NoNewlineNote

  /** A hunk that starts after `oldPos` lines of the old file and `newPos` lines of the new one. */
  datatype Hunk = Hunk(oldPos: nat, newPos: nat, lines: seq<HunkLine>, brief: bool, section: string)

  function OldText(lines: seq<HunkLine>): seq<string>
  {
    if lines == [] then []
    else if lines[0].Context? || lines[0].Removed? then [lines[0].text] + OldText(lines[1..])
    else OldText(lines[1..])
  }

  function NewText(lines: seq<HunkLine>): seq<string>
  {
    if lines == [] then []
    else if lines[0].Context? || lines[0].Inserted? then [lines[0].text] + NewText(lines[1..])
    else NewText(lines[1..])
  }

  /** The hunks turn `old` into `new`, given that `i` and `j` of their lines are already accounted for. */
  ghost predicate Turns(oldFile: seq<string>, newFile: seq<string>, i: nat, j: nat, hunks: seq<Hunk>)
    decreases |hunks|
  {
    && i <= |oldFile| && j <= |newFile|
    && if hunks == [] then oldFile[i..] == newFile[j..] else
         var h := hunks[0];
         var oldEnd, newEnd := h.oldPos + |OldText(h.lines)|, h.newPos + |NewText(h.lines)|;
         && i <= h.oldPos && oldEnd <= |oldFile| && j <= h.newPos && newEnd <= |newFile|
         && oldFile[i..h.oldPos] == newFile[j..h.newPos]
         && oldFile[h.oldPos..oldEnd] == OldText(h.lines)
         && newFile[h.newPos..newEnd] == NewText(h.lines)
         && Turns(oldFile, newFile, oldEnd, newEnd, hunks[1..])
  }

  // -------------------------------------------------------------- printing

  /** The start number of a range: the line before it when the range is empty. */
  function RangeStart(pos: nat, count: nat): nat
  {
    if count == 0 then pos else pos + 1
  }

  function HeaderLine(h: Hunk): string
  {
    var m, n := |OldText(h.lines)|, |NewText(h.lines)|;
    PrintHeader(RangeStart(h.oldPos, m), m, RangeStart(h.newPos, n), n, h.brief) + h.section
  }

  function BodyLine(l: HunkLine): string
  {
    match l
    case Context(t) => " " + t
    case Removed(t) => "-" + t
    case Inserted(t) => "+" + t
    case NoNewlineNote => "\\" + NOTE
  }

  const NOTE: string := " No newline at end of file"

  function BodyLines(lines: seq<HunkLine>): seq<string>
  {
    if lines == [] then [] else [BodyLine(lines[0])] + BodyLines(lines[1..])
  }

  function PrintedLines(hunks: seq<Hunk>): seq<string>
  {
    if hunks == [] then [] else [HeaderLine(hunks[0])] + BodyLines(hunks[0].lines) + PrintedLines(hunks[1..])
  }

  function Unlines(lines: seq<string>): string
  {
    if lines == [] then "" else lines[0] + "\n" + Unlines(lines[1..])
  }

  function Print(hunks: seq<Hunk>): string
  {
    Unlines(PrintedLines(hunks))
  }

  // ------------------------------------------------ what should be recovered

  /** What one body line advances in the old and in the new file. */
  function OldStep(l: HunkLine): int
  {
    if l.Context? || l.Removed? then 1 else 0
  }

  function NewStep(l: HunkLine): int
  {
    if l.Context? || l.Inserted? then 1 else 0
  }

  function ShownLine(l: HunkLine, o: int, n: int): seq<Anchor>
  {
    match l
    case Context(t) => [Anchor(Right, n, FirstLine(t)), Anchor(Left, o, FirstLine(t))]
    case Removed(t) => [Anchor(Left, o, FirstLine(t))]
    case Inserted(t) => [Anchor(Right, n, FirstLine(t))]
    case NoNewlineNote => []
  }

  /** The anchors a hunk body shows when its next lines are number `o` of the old and `n` of the new file. */
  function ShownBy(lines: seq<HunkLine>, o: int, n: int): seq<Anchor>
  {
    if lines == [] then []
    else ShownLine(lines[0], o, n) + ShownBy(lines[1..], o + OldStep(lines[0]), n + NewStep(lines[0]))
  }

  function Shown(hunks: seq<Hunk>): seq<Anchor>
  {
    if hunks == [] then [] else ShownBy(hunks[0].lines, hunks[0].oldPos + 1, hunks[0].newPos + 1) + Shown(hunks[1..])
  }

  /** The extra lines `splitlines` makes of one printed line whose text contains a break. */
  function Phantoms(printed: string): seq<string>
  {
    SplitLines(OtherLines(printed + "\n"))
  }

  /** No phantom of the printed line means anything to the walker. */
  ghost predicate Tame(printed: string)
  {
    forall q :: q in Phantoms(printed) ==> Classify(q) == Other
  }

  ghost predicate NoPhantomHeader(printed: string)
  {
    forall q :: q in Phantoms(printed) ==> !Classify(q).Header?
  }

  /** Text without line breaks makes no phantoms, and neither does text whose only break is a final carriage return. */
  lemma {:induction false} PlainTextIsTame(t: string)
    requires BreakFree(t) || (t != "" && BreakFree(t[..|t| - 1]) && t[|t| - 1] == '\r')
    ensures Phantoms(t) == [] && Tame(t)
  {
    if BreakFree(t) {
      FirstBreakOfConcat(t, "\n");
      assert FirstBreak("\n") == 0;
    } else {
      var s := t[..|t| - 1];
      assert t + "\n" == s + "\r\n";
      FirstBreakOfConcat(s, "\r\n");
      assert FirstBreak("\r\n") == 0;
    }
    assert OtherLines(t + "\n") == "";
  }

  // ------------------------------------------------------- walking the text

  lemma FirstPiece(printed: string)
    ensures SplitLines(printed + "\n") == [FirstLine(printed)] + Phantoms(printed)
  {
    FirstBreakOfConcat(printed, "\n");
    assert FirstBreak("\n") == 0;
    var n := FirstBreak(printed);
    assert FirstBreak(printed + "\n") == n;
    assert (printed + "\n")[..n] == printed[..n];
  }

  function FirstLines(lines: seq<string>): seq<string>
  {
    if lines == [] then [] else [FirstLine(lines[0])] + FirstLines(lines[1..])
  }

  lemma {:induction false} TamePiecesAreInert(w: Walk, pieces: seq<string>)
    requires forall q :: q in pieces ==> Classify(q) == Other
    ensures WalkLines(w, Lex(pieces)) == w
    decreases |pieces|
  {
    if pieces != [] {
      assert Classify(pieces[0]) == Other;
      assert Lex(pieces) == [Other] + Lex(pieces[1..]);
      TamePiecesAreInert(w, pieces[1..]);
      assert w.anchors + [] == w.anchors;
      assert Step(w, Other) == w;
      WalkHead(w, Other, Lex(pieces[1..]));
    }
  }

  lemma WalkHead(w: Walk, first: PatchLine, rest: seq<PatchLine>)
    ensures WalkLines(w, [first] + rest) == WalkLines(Step(w, first), rest)
  {
  }

  lemma SplitPrinted(lines: seq<string>)
    requires lines != []
    ensures Lex(SplitLines(Unlines(lines)))
         == [Classify(FirstLine(lines[0]))] + (Lex(Phantoms(lines[0])) + Lex(SplitLines(Unlines(lines[1..]))))
  {
    var rest := SplitLines(Unlines(lines[1..]));
    SplitAfterNewline(lines[0] + "\n", Unlines(lines[1..]));
    FirstPiece(lines[0]);
    LexConcat([FirstLine(lines[0])] + Phantoms(lines[0]), rest);
    LexConcat([FirstLine(lines[0])], Phantoms(lines[0]));
    assert Lex([FirstLine(lines[0])]) == [Classify(FirstLine(lines[0]))];
    Assoc([Classify(FirstLine(lines[0]))], Lex(Phantoms(lines[0])), Lex(rest));
  }

  lemma Assoc<T>(a: seq<T>, b: seq<T>, c: seq<T>)
    ensures (a + b) + c == a + (b + c)
  {
  }

  lemma {:induction false} TameTextWalksLikeItsLines(w: Walk, lines: seq<string>)
    requires forall p :: p in lines ==> Tame(p)
    ensures WalkLines(w, Lex(SplitLines(Unlines(lines)))) == WalkLines(w, Lex(FirstLines(lines)))
    decreases |lines|
  {
    if lines != [] {
      var p, first, rest := lines[0], Classify(FirstLine(lines[0])), Lex(SplitLines(Unlines(lines[1..])));
      assert Tame(p);
      SplitPrinted(lines);
      WalkHead(w, first, Lex(Phantoms(p)) + rest);
      WalkConcat(Step(w, first), Lex(Phantoms(p)), rest);
      TamePiecesAreInert(Step(w, first), Phantoms(p));
      TameTextWalksLikeItsLines(Step(w, first), lines[1..]);
      assert Lex(FirstLines(lines)) == [first] + Lex(FirstLines(lines[1..]));
      WalkHead(w, first, Lex(FirstLines(lines[1..])));
    }
  }

  // ------------------------------------------------------ lexing the print

  /** What a printed body line is to the walker. */
  function KindOf(l: HunkLine): PatchLine
  {
    match l
    case Context(t) => Both(FirstLine(t))
    case Removed(t) => Minus(FirstLine(t))
    case Inserted(t) => Plus(FirstLine(t))
    case NoNewlineNote => Other
  }

  function BodyKinds(lines: seq<HunkLine>): seq<PatchLine>
  {
    if lines == [] then [] else [KindOf(lines[0])] + BodyKinds(lines[1..])
  }

  function HeaderKind(h: Hunk): PatchLine
  {
    Header(RangeStart(h.oldPos, |OldText(h.lines)|), RangeStart(h.newPos, |NewText(h.lines)|))
  }

  function PrintedKinds(hunks: seq<Hunk>): seq<PatchLine>
  {
    if hunks == [] then []
    else ([HeaderKind(hunks[0])] + BodyKinds(hunks[0].lines)) + PrintedKinds(hunks[1..])
  }

  lemma MarkedLine(c: char, t: string)
    requires !IsBreak(c)
    ensures FirstLine([c] + t) == [c] + FirstLine(t)
  {
    assert ([c] + t)[1..] == t;
    assert FirstBreak([c] + t) == 1 + FirstBreak(t);
  }

  lemma MarkedKind(c: char, u: string)
    requires c != '@'
    ensures Classify([c] + u) ==
            if c == '+' then Plus(u) else if c == '-' then Minus(u) else if c == ' ' then Both(u) else Other
  {
    OtherStart([c] + u);
    NotAHeader([c] + u);
    assert ([c] + u)[1..] == u;
  }

  lemma PrintedMark(c: char, t: string)
    requires !IsBreak(c) && c != '@'
    ensures Classify(FirstLine([c] + t)) ==
            if c == '+' then Plus(FirstLine(t)) else if c == '-' then Minus(FirstLine(t))
            else if c == ' ' then Both(FirstLine(t)) else Other
  {
    MarkedLine(c, t);
    MarkedKind(c, FirstLine(t));
  }

  lemma BodyLineKind(l: HunkLine)
    ensures Classify(FirstLine(BodyLine(l))) == KindOf(l)
  {
    match l
    case Context(t) => PrintedMark(' ', t);
    case Removed(t) => PrintedMark('-', t);
    case Inserted(t) => PrintedMark('+', t);
    case NoNewlineNote => PrintedMark('\\', NOTE);
  }

  lemma HeaderLineKind(h: Hunk)
    ensures Classify(FirstLine(HeaderLine(h))) == HeaderKind(h)
  {
    var m, n := |OldText(h.lines)|, |NewText(h.lines)|;
    var o, p := RangeStart(h.oldPos, m), RangeStart(h.newPos, n);
    var core := PrintHeader(o, m, p, n, h.brief);
    HeaderIsBreakFree(o, m, p, n, h.brief);
    FirstLineAfter(core, h.section);
    HeaderRoundTrip(o, m, p, n, h.brief, FirstLine(h.section));
  }

  lemma FirstLineAfter(core: string, section: string)
    requires BreakFree(core)
    ensures FirstLine(core + section) == core + FirstLine(section)
  {
    FirstBreakOfConcat(core, section);
  }

  lemma BreakFreeConcat(a: string, b: string)
    requires BreakFree(a) && BreakFree(b)
    ensures BreakFree(a + b)
  {
  }

  lemma RangeIsBreakFree(start: nat, count: nat, brief: bool)
    ensures BreakFree(PrintRange(start, count, brief))
  {
    DigitsAreBreakFree(Decimal(start));
    DigitsAreBreakFree(Decimal(count));
    BreakFreeConcat(Decimal(start), ",");
    BreakFreeConcat(Decimal(start) + ",", Decimal(count));
  }

  lemma HeaderIsBreakFree(o: nat, m: nat, p: nat, n: nat, brief: bool)
    ensures BreakFree(PrintHeader(o, m, p, n, brief))
  {
    RangeIsBreakFree(o, m, brief);
    RangeIsBreakFree(p, n, brief);
    PiecesAreBreakFree(PrintRange(o, m, brief), PrintRange(p, n, brief));
  }

  lemma PiecesAreBreakFree(r: string, q: string)
    requires BreakFree(r) && BreakFree(q)
    ensures BreakFree("@@ -" + r + " +" + q + " @@")
  {
    BreakFreeConcat("@@ -", r);
    BreakFreeConcat("@@ -" + r, " +");
    BreakFreeConcat("@@ -" + r + " +", q);
    BreakFreeConcat("@@ -" + r + " +" + q, " @@");
  }

  lemma DigitsAreBreakFree(s: string)
    requires AllDigits(s)
    ensures BreakFree(s)
  {
    forall i | 0 <= i < |s| ensures !IsBreak(s[i]) {
      assert s[i] in s;
    }
  }

  lemma {:induction false} FirstLinesConcat(a: seq<string>, b: seq<string>)
    ensures FirstLines(a + b) == FirstLines(a) + FirstLines(b)
  {
    if a == [] {
      assert a + b == b;
    } else {
      assert (a + b)[1..] == a[1..] + b;
      FirstLinesConcat(a[1..], b);
    }
  }

  lemma {:induction false} BodyLex(lines: seq<HunkLine>)
    ensures Lex(FirstLines(BodyLines(lines))) == BodyKinds(lines)
  {
    if lines != [] {
      BodyLineKind(lines[0]);
      FirstLinesConcat([BodyLine(lines[0])], BodyLines(lines[1..]));
      var first := FirstLine(BodyLine(lines[0]));
      assert FirstLines([BodyLine(lines[0])]) == [first];
      LexConcat([first], FirstLines(BodyLines(lines[1..])));
      assert Lex([first]) == [KindOf(lines[0])];
      BodyLex(lines[1..]);
    }
  }

  lemma {:induction false} PrintedLex(hunks: seq<Hunk>)
    ensures Lex(FirstLines(PrintedLines(hunks))) == PrintedKinds(hunks)
  {
    if hunks != [] {
      var header, body, rest := HeaderLine(hunks[0]), BodyLines(hunks[0].lines), PrintedLines(hunks[1..]);
      FirstLinesConcat([header] + body, rest);
      FirstLinesConcat([header], body);
      assert FirstLines([header]) == [FirstLine(header)];
      LexConcat([FirstLine(header)] + FirstLines(body), FirstLines(rest));
      LexConcat([FirstLine(header)], FirstLines(body));
      HeaderLineKind(hunks[0]);
      assert Lex([FirstLine(header)]) == [HeaderKind(hunks[0])];
      BodyLex(hunks[0].lines);
      PrintedLex(hunks[1..]);
    }
  }

  // -------------------------------------------------- walking the lexed print

  lemma {:induction false} BodyWalk(w: Walk, lines: seq<HunkLine>)
    requires w.inHunk
    ensures WalkLines(w, BodyKinds(lines)).anchors == w.anchors + ShownBy(lines, w.oldLine, w.newLine)
    decreases |lines|
  {
    if lines != [] {
      var l := lines[0];
      var next := Step(w, KindOf(l));
      WalkHead(w, KindOf(l), BodyKinds(lines[1..]));
      BodyWalk(next, lines[1..]);
      Assoc(w.anchors, ShownLine(l, w.oldLine, w.newLine), ShownBy(lines[1..], next.oldLine, next.newLine));
    }
  }

  lemma EmptyStaysEmpty(lines: seq<HunkLine>)
    requires lines != []
    ensures OldText(lines) == [] ==> OldPiece(lines[0]) == [] && OldText(lines[1..]) == []
    ensures NewText(lines) == [] ==> NewPiece(lines[0]) == [] && NewText(lines[1..]) == []
  {
  }

  lemma ShownByUnfold(lines: seq<HunkLine>, o: int, n: int)
    requires lines != []
    ensures var l := lines[0];
            ShownBy(lines, o, n) == ShownLine(l, o, n) + ShownBy(lines[1..], o + OldStep(l), n + NewStep(l))
  {
  }

  lemma SameShownLine(l: HunkLine, o: int, o': int, n: int, n': int)
    requires OldPiece(l) == [] || o == o'
    requires NewPiece(l) == [] || n == n'
    ensures ShownLine(l, o, n) == ShownLine(l, o', n')
  {
  }

  /** An empty range has no anchors, so its printed start number does not matter. */
  lemma {:induction false} EmptyRangeStartIsUnused(lines: seq<HunkLine>, o: int, o': int, n: int, n': int)
    requires OldText(lines) == [] || o == o'
    requires NewText(lines) == [] || n == n'
    ensures ShownBy(lines, o, n) == ShownBy(lines, o', n')
    decreases |lines|
  {
    if lines != [] {
      var l := lines[0];
      var i, j := OldStep(l), NewStep(l);
      EmptyStaysEmpty(lines);
      SameShownLine(l, o, o', n, n');
      EmptyRangeStartIsUnused(lines[1..], o + i, o' + i, n + j, n' + j);
      ShownByUnfold(lines, o, n);
      ShownByUnfold(lines, o', n');
    }
  }

  lemma HunkWalk(w: Walk, h: Hunk)
    ensures WalkLines(w, [HeaderKind(h)] + BodyKinds(h.lines)).anchors
         == w.anchors + ShownBy(h.lines, h.oldPos + 1, h.newPos + 1)
  {
    var next := Step(w, HeaderKind(h));
    WalkHead(w, HeaderKind(h), BodyKinds(h.lines));
    BodyWalk(next, h.lines);
    EmptyRangeStartIsUnused(h.lines, next.oldLine, h.oldPos + 1, next.newLine, h.newPos + 1);
  }

  lemma {:induction false} PrintedWalk(w: Walk, hunks: seq<Hunk>)
    ensures WalkLines(w, PrintedKinds(hunks)).anchors == w.anchors + Shown(hunks)
    decreases |hunks|
  {
    if hunks != [] {
      var h := hunks[0];
      var first := [HeaderKind(h)] + BodyKinds(h.lines);
      WalkConcat(w, first, PrintedKinds(hunks[1..]));
      HunkWalk(w, h);
      PrintedWalk(WalkLines(w, first), hunks[1..]);
      Assoc(w.anchors, ShownBy(h.lines, h.oldPos + 1, h.newPos + 1), Shown(hunks[1..]));
    }
  }

  // ------------------------------------------------------ the main results

  /** Parsing a printed hunk list gives back exactly the lines the hunks show, in order, with their text. */
  lemma {:induction false} ParsingRecoversHunks(hunks: seq<Hunk>)
    requires forall p :: p in PrintedLines(hunks) ==> Tame(p)
    ensures AnchorsOf(Print(hunks)) == Shown(hunks)
  {
    TameTextWalksLikeItsLines(START, PrintedLines(hunks));
    PrintedLex(hunks);
    PrintedWalk(START, hunks);
  }

  /** How many anchors a line adds inside a hunk. */
  function Weight(line: PatchLine): nat
  {
    match line
    case Both(_) => 2
    case Plus(_) => 1
    case Minus(_) => 1
    case _ => 0
  }

  function TotalWeight(lines: seq<PatchLine>): nat
  {
    if lines == [] then 0 else Weight(lines[0]) + TotalWeight(lines[1..])
  }

  lemma {:induction false} WeightConcat(a: seq<PatchLine>, b: seq<PatchLine>)
    ensures TotalWeight(a + b) == TotalWeight(a) + TotalWeight(b)
  {
    if a == [] {
      assert a + b == b;
    } else {
      assert (a + b)[1..] == a[1..] + b;
      WeightConcat(a[1..], b);
    }
  }

  lemma {:induction false} AnchorCount(w: Walk, lines: seq<PatchLine>)
    requires w.inHunk || (lines != [] && lines[0].Header?)
    ensures |WalkLines(w, lines).anchors| == |w.anchors| + TotalWeight(lines)
    decreases |lines|
  {
    if lines != [] {
      AnchorCount(Step(w, lines[0]), lines[1..]);
    }
  }

  lemma {:induction false} PhantomsAddWeight(lines: seq<string>)
    ensures var whole, wanted := TotalWeight(Lex(SplitLines(Unlines(lines)))), TotalWeight(Lex(FirstLines(lines)));
            whole >= wanted && forall p :: p in lines ==> whole >= wanted + TotalWeight(Lex(Phantoms(p)))
    decreases |lines|
  {
    if lines != [] {
      var first, rest := [Classify(FirstLine(lines[0]))], Lex(SplitLines(Unlines(lines[1..])));
      SplitPrinted(lines);
      WeightConcat(first, Lex(Phantoms(lines[0])) + rest);
      WeightConcat(Lex(Phantoms(lines[0])), rest);
      assert Lex(FirstLines(lines)) == first + Lex(FirstLines(lines[1..]));
      WeightConcat(first, Lex(FirstLines(lines[1..])));
      PhantomsAddWeight(lines[1..]);
    }
  }

  lemma {:induction false} LiveWeighs(pieces: seq<string>, q: string)
    requires q in pieces && Classify(q) != Other && !Classify(q).Header?
    ensures TotalWeight(Lex(pieces)) > 0
  {
    assert Lex(pieces) == [Classify(pieces[0])] + Lex(pieces[1..]);
    if q != pieces[0] {
      LiveWeighs(pieces[1..], q);
    }
  }

  lemma LineAlone(t: string)
    requires BreakFree(t)
    ensures SplitLines(t + "\n") == [t]
  {
    FirstBreakOfConcat(t, "\n");
    assert FirstBreak("\n") == 0;
    assert FirstLine(t + "\n") == t && OtherLines(t + "\n") == "";
    assert SplitLines("") == [];
  }

  lemma AfterFormFeed(before: string, rest: string)
    requires BreakFree(before)
    ensures OtherLines(before + ("\U{000C}" + rest)) == rest
  {
    FirstBreakOfConcat(before, "\U{000C}" + rest);
    assert FirstBreak("\U{000C}" + rest) == 0;
  }

  /** A printed line with one stray break, a form feed, leaves what follows it as its one phantom. */
  lemma FormFeedLeavesOne(before: string, after: string)
    requires BreakFree(before) && BreakFree(after)
    ensures Phantoms(before + "\U{000C}" + after) == [after]
  {
    var printed := before + "\U{000C}" + after;
    RegroupLine(before, "\U{000C}", after, "\n");
    AfterFormFeed(before, after + "\n");
    LineAlone(after);
    assert Phantoms(printed) == SplitLines(OtherLines(printed + "\n"));
  }

  lemma RegroupLine(a: string, b: string, c: string, d: string)
    ensures (a + b + c) + d == a + (b + (c + d))
  {
  }

  // --------------------------------------- what the anchors say about files

  /** The RIGHT anchors are exactly the lines `text`, numbered from `n`; the LEFT ones are left aside. */
  ghost predicate Numbers(side: Side, anchors: seq<Anchor>, text: seq<string>, n: int)
  {
    && (forall a :: a in anchors && a.side == side ==>
         n <= a.line < n + |text| && a.text == FirstLine(text[a.line - n]))
    && (forall x :: n <= x < n + |text| ==> x in LinesOn(side, anchors))
  }

  lemma NumbersConcat(side: Side, a: seq<Anchor>, s: seq<string>, b: seq<Anchor>, t: seq<string>, n: int)
    requires Numbers(side, a, s, n) && Numbers(side, b, t, n + |s|)
    ensures Numbers(side, a + b, s + t, n)
  {
    LinesOnConcat(a, b);
    forall x | x in a + b && x.side == side
      ensures n <= x.line < n + |s + t| && x.text == FirstLine((s + t)[x.line - n])
    {
      assert x in a || x in b;
    }
  }

  lemma LineNumbers(l: HunkLine, o: int, n: int)
    ensures Numbers(Right, ShownLine(l, o, n), NewPiece(l), n)
    ensures Numbers(Left, ShownLine(l, o, n), OldPiece(l), o)
  {
    var shown := ShownLine(l, o, n);
    if NewStep(l) == 1 {
      assert shown[0] == Anchor(Right, n, FirstLine(l.text)) && shown[0] in shown;
    }
    if OldStep(l) == 1 {
      assert shown[|shown| - 1] == Anchor(Left, o, FirstLine(l.text)) && shown[|shown| - 1] in shown;
    }
  }

  function NewPiece(l: HunkLine): seq<string>
  {
    if l.Context? || l.Inserted? then [l.text] else []
  }

  function OldPiece(l: HunkLine): seq<string>
  {
    if l.Context? || l.Removed? then [l.text] else []
  }

  lemma TextUnfold(lines: seq<HunkLine>)
    requires lines != []
    ensures NewText(lines) == NewPiece(lines[0]) + NewText(lines[1..])
    ensures OldText(lines) == OldPiece(lines[0]) + OldText(lines[1..])
  {
  }

  lemma NewNumbersStep(l: HunkLine, o: int, n: int, tail: seq<Anchor>, text: seq<string>)
    requires Numbers(Right, tail, text, n + NewStep(l))
    ensures Numbers(Right, ShownLine(l, o, n) + tail, NewPiece(l) + text, n)
  {
    LineNumbers(l, o, n);
    NumbersConcat(Right, ShownLine(l, o, n), NewPiece(l), tail, text, n);
  }

  lemma OldNumbersStep(l: HunkLine, o: int, n: int, tail: seq<Anchor>, text: seq<string>)
    requires Numbers(Left, tail, text, o + OldStep(l))
    ensures Numbers(Left, ShownLine(l, o, n) + tail, OldPiece(l) + text, o)
  {
    LineNumbers(l, o, n);
    NumbersConcat(Left, ShownLine(l, o, n), OldPiece(l), tail, text, o);
  }

  lemma NothingNumbered(side: Side, n: int)
    ensures Numbers(side, [], [], n)
  {
  }

  lemma {:induction false} NewNumbers(lines: seq<HunkLine>, o: int, n: int)
    ensures Numbers(Right, ShownBy(lines, o, n), NewText(lines), n)
    decreases |lines|
  {
    if lines == [] {
      NothingNumbered(Right, n);
    } else {
      var l, rest := lines[0], lines[1..];
      var tail := ShownBy(rest, o + OldStep(l), n + NewStep(l));
      NewNumbers(rest, o + OldStep(l), n + NewStep(l));
      TextUnfold(lines);
      NewNumbersStep(l, o, n, tail, NewText(rest));
    }
  }

  lemma {:induction false} OldNumbers(lines: seq<HunkLine>, o: int, n: int)
    ensures Numbers(Left, ShownBy(lines, o, n), OldText(lines), o)
    decreases |lines|
  {
    if lines == [] {
      NothingNumbered(Left, o);
    } else {
      var l, rest := lines[0], lines[1..];
      var tail := ShownBy(rest, o + OldStep(l), n + NewStep(l));
      OldNumbers(rest, o + OldStep(l), n + NewStep(l));
      TextUnfold(lines);
      OldNumbersStep(l, o, n, tail, OldText(rest));
    }
  }

  lemma BodyNumbers(lines: seq<HunkLine>, o: int, n: int)
    ensures Numbers(Right, ShownBy(lines, o, n), NewText(lines), n)
    ensures Numbers(Left, ShownBy(lines, o, n), OldText(lines), o)
  {
    NewNumbers(lines, o, n);
    OldNumbers(lines, o, n);
  }

  /** Line `x` of the new file lies inside one of the hunks. */
  ghost predicate InNewHunk(hunks: seq<Hunk>, x: int)
  {
    exists h :: h in hunks && h.newPos < x <= h.newPos + |NewText(h.lines)|
  }

  ghost predicate InOldHunk(hunks: seq<Hunk>, x: int)
  {
    exists h :: h in hunks && h.oldPos < x <= h.oldPos + |OldText(h.lines)|
  }

  lemma HunkShows(h: Hunk, x: int)
    ensures var head := ShownBy(h.lines, h.oldPos + 1, h.newPos + 1);
            && (x in LinesOn(Right, head) <==> h.newPos < x <= h.newPos + |NewText(h.lines)|)
            && (x in LinesOn(Left, head) <==> h.oldPos < x <= h.oldPos + |OldText(h.lines)|)
  {
    BodyNumbers(h.lines, h.oldPos + 1, h.newPos + 1);
  }

  lemma InHunkUnfold(hunks: seq<Hunk>, x: int)
    requires hunks != []
    ensures var h := hunks[0];
            && (InNewHunk(hunks, x) <==> h.newPos < x <= h.newPos + |NewText(h.lines)| || InNewHunk(hunks[1..], x))
            && (InOldHunk(hunks, x) <==> h.oldPos < x <= h.oldPos + |OldText(h.lines)| || InOldHunk(hunks[1..], x))
  {
    assert forall k :: k in hunks <==> k == hunks[0] || k in hunks[1..];
  }

  lemma OnConcat(a: seq<Anchor>, b: seq<Anchor>, x: int)
    ensures x in LinesOn(Right, a + b) <==> x in LinesOn(Right, a) || x in LinesOn(Right, b)
    ensures x in LinesOn(Left, a + b) <==> x in LinesOn(Left, a) || x in LinesOn(Left, b)
  {
    LinesOnConcat(a, b);
  }

  lemma ShownUnfold(hunks: seq<Hunk>)
    requires hunks != []
    ensures Shown(hunks) == ShownBy(hunks[0].lines, hunks[0].oldPos + 1, hunks[0].newPos + 1) + Shown(hunks[1..])
  {
  }

  lemma LineJoins(all: seq<Anchor>, head: seq<Anchor>, tail: seq<Anchor>, x: int, headRight: bool, headLeft: bool,
      tailRight: bool, tailLeft: bool)
    requires all == head + tail
    requires (x in LinesOn(Right, head) <==> headRight) && (x in LinesOn(Left, head) <==> headLeft)
    requires (x in LinesOn(Right, tail) <==> tailRight) && (x in LinesOn(Left, tail) <==> tailLeft)
    ensures (x in LinesOn(Right, all) <==> headRight || tailRight) &&
            (x in LinesOn(Left, all) <==> headLeft || tailLeft)
  {
    OnConcat(head, tail, x);
  }

  lemma {:induction false} LineIsShown(hunks: seq<Hunk>, x: int)
    ensures x in LinesOn(Right, Shown(hunks)) <==> InNewHunk(hunks, x)
    ensures x in LinesOn(Left, Shown(hunks)) <==> InOldHunk(hunks, x)
    decreases |hunks|
  {
    if hunks != [] {
      var h := hunks[0];
      HunkShows(h, x);
      InHunkUnfold(hunks, x);
      LineIsShown(hunks[1..], x);
      ShownUnfold(hunks);
      LineJoins(Shown(hunks), ShownBy(h.lines, h.oldPos + 1, h.newPos + 1), Shown(hunks[1..]), x,
                h.newPos < x <= h.newPos + |NewText(h.lines)|, h.oldPos < x <= h.oldPos + |OldText(h.lines)|,
                InNewHunk(hunks[1..], x), InOldHunk(hunks[1..], x));
    }
  }

  lemma ShownLines(hunks: seq<Hunk>)
    ensures forall x :: x in LinesOn(Right, Shown(hunks)) <==> InNewHunk(hunks, x)
    ensures forall x :: x in LinesOn(Left, Shown(hunks)) <==> InOldHunk(hunks, x)
  {
    forall x
      ensures x in LinesOn(Right, Shown(hunks)) <==> InNewHunk(hunks, x)
      ensures x in LinesOn(Left, Shown(hunks)) <==> InOldHunk(hunks, x)
    {
      LineIsShown(hunks, x);
    }
  }

  /** Lines of a file from `pos` on, as a slice and one by one. */
  lemma SliceLines(file: seq<string>, pos: nat, text: seq<string>)
    requires pos + |text| <= |file| && file[pos..pos + |text|] == text
    ensures forall k :: 0 <= k < |text| ==> text[k] == file[pos + k]
  {
  }

  lemma NumberedIsTrue(oldFile: seq<string>, newFile: seq<string>, side: Side, anchors: seq<Anchor>, text: seq<string>,
      pos: nat)
    requires var file := if side == Right then newFile else oldFile;
             pos + |text| <= |file| && forall k :: 0 <= k < |text| ==> text[k] == file[pos + k]
    requires Numbers(side, anchors, text, pos + 1)
    ensures forall a :: a in anchors && a.side == side ==> IsTrue(oldFile, newFile, a)
  {
  }

  lemma HunkTextIsFileText(oldFile: seq<string>, newFile: seq<string>, h: Hunk)
    requires h.oldPos + |OldText(h.lines)| <= |oldFile| &&
             oldFile[h.oldPos..h.oldPos + |OldText(h.lines)|] == OldText(h.lines)
    requires h.newPos + |NewText(h.lines)| <= |newFile| &&
             newFile[h.newPos..h.newPos + |NewText(h.lines)|] == NewText(h.lines)
    ensures forall a :: a in ShownBy(h.lines, h.oldPos + 1, h.newPos + 1) ==> IsTrue(oldFile, newFile, a)
  {
    var shown := ShownBy(h.lines, h.oldPos + 1, h.newPos + 1);
    BodyNumbers(h.lines, h.oldPos + 1, h.newPos + 1);
    SliceLines(newFile, h.newPos, NewText(h.lines));
    SliceLines(oldFile, h.oldPos, OldText(h.lines));
    NumberedIsTrue(oldFile, newFile, Right, shown, NewText(h.lines), h.newPos);
    NumberedIsTrue(oldFile, newFile, Left, shown, OldText(h.lines), h.oldPos);
    assert forall a: Anchor :: a.side == Right || a.side == Left;
  }

  /** The anchor names an existing line of its file, and its text is that line up to the first break in it. */
  predicate IsTrue(oldFile: seq<string>, newFile: seq<string>, a: Anchor)
  {
    var file := if a.side == Right then newFile else oldFile;
    1 <= a.line <= |file| && a.text == FirstLine(file[a.line - 1])
  }

  lemma TurnsHead(oldFile: seq<string>, newFile: seq<string>, i: nat, j: nat, hunks: seq<Hunk>)
    requires Turns(oldFile, newFile, i, j, hunks) && hunks != []
    ensures var h := hunks[0];
            var oldEnd, newEnd := h.oldPos + |OldText(h.lines)|, h.newPos + |NewText(h.lines)|;
            && oldEnd <= |oldFile| && oldFile[h.oldPos..oldEnd] == OldText(h.lines)
            && newEnd <= |newFile| && newFile[h.newPos..newEnd] == NewText(h.lines)
            && Turns(oldFile, newFile, oldEnd, newEnd, hunks[1..])
  {
  }

  lemma {:induction false} ShownTextIsFileText(oldFile: seq<string>, newFile: seq<string>, i: nat, j: nat,
      hunks: seq<Hunk>)
    requires Turns(oldFile, newFile, i, j, hunks)
    ensures forall a :: a in Shown(hunks) ==> IsTrue(oldFile, newFile, a)
    decreases |hunks|
  {
    if hunks == [] {
      assert Shown(hunks) == [];
    } else {
      var h := hunks[0];
      var head, tail := ShownBy(h.lines, h.oldPos + 1, h.newPos + 1), Shown(hunks[1..]);
      assert Shown(hunks) == head + tail;
      TurnsHead(oldFile, newFile, i, j, hunks);
      HunkTextIsFileText(oldFile, newFile, h);
      ShownTextIsFileText(oldFile, newFile, h.oldPos + |OldText(h.lines)|, h.newPos + |NewText(h.lines)|, hunks[1..]);
      TrueOfConcat(oldFile, newFile, head, tail);
    }
  }

  lemma TrueOfConcat(oldFile: seq<string>, newFile: seq<string>, a: seq<Anchor>, b: seq<Anchor>)
    requires forall x :: x in a ==> IsTrue(oldFile, newFile, x)
    requires forall x :: x in b ==> IsTrue(oldFile, newFile, x)
    ensures forall x :: x in a + b ==> IsTrue(oldFile, newFile, x)
  {
  }

  /**
   For every pair of files and every hunk list turning one into the other: the walker's RIGHT lines are exactly the
   new-file lines inside the hunks and its LEFT lines exactly the old-file lines inside them, and the text the patch
   prints at each of them is that line of that file.
   */
  lemma {:induction false} WalkerIsFaithful(oldFile: seq<string>, newFile: seq<string>, hunks: seq<Hunk>)
    requires Turns(oldFile, newFile, 0, 0, hunks)
    requires forall p :: p in PrintedLines(hunks) ==> Tame(p)
    ensures forall x :: x in IndexOf(Print(hunks)).rightLines <==> InNewHunk(hunks, x)
    ensures forall x :: x in IndexOf(Print(hunks)).leftLines <==> InOldHunk(hunks, x)
    ensures forall a :: a in AnchorsOf(Print(hunks)) ==> IsTrue(oldFile, newFile, a)
  {
    ParsingRecoversHunks(hunks);
    ShownLines(hunks);
    ShownTextIsFileText(oldFile, newFile, 0, 0, hunks);
  }

  /** A patch reads the same with and without a final newline. */
  lemma FinalNewlineIsInert(patch: string)
    ensures IndexOf(patch + "\n") == IndexOf(patch)
  {
    FinalNewlineWalk(START, patch);
  }

  lemma {:induction false} FinalNewlineWalk(w: Walk, text: string)
    ensures WalkLines(w, Lex(SplitLines(text + "\n"))) == WalkLines(w, Lex(SplitLines(text)))
    decreases |text|
  {
    FirstPiece(text);
    if text == "" {
      assert text + "\n" == "\n";
      assert OtherLines("\n") == "";
      OtherStart("");
      NotAHeader("");
      assert SplitLines("\n") == [""];
      assert Lex([""]) == [Other];
      WalkHead(w, Other, []);
    } else {
      var first, more := Classify(FirstLine(text)), OtherLines(text);
      OtherLinesOfTerminated(text);
      if OtherLines(text + "\n") == more + "\n" {
        FinalNewlineWalk(Step(w, first), more);
      }
      assert Lex(SplitLines(text + "\n")) == [first] + Lex(SplitLines(OtherLines(text + "\n")));
      assert Lex(SplitLines(text)) == [first] + Lex(SplitLines(more));
      WalkHead(w, first, Lex(SplitLines(OtherLines(text + "\n"))));
      WalkHead(w, first, Lex(SplitLines(more)));
    }
  }

  lemma OtherLinesOfTerminated(text: string)
    requires text != ""
    ensures OtherLines(text + "\n") == OtherLines(text) + "\n" || OtherLines(text + "\n") == OtherLines(text) == ""
  {
    var n := FirstBreak(text);
    FirstBreakOfConcat(text, "\n");
    assert FirstBreak("\n") == 0;
    if n < |text| && !(n == |text| - 1 && text[n] == '\r') {
      assert BreakLength(text + "\n", n) == BreakLength(text, n);
      SliceOfConcat(text, "\n", n + BreakLength(text, n));
    }
  }
}
