/** Splitting text into lines the way Python's `str.splitlines` does. */
module LineSplitting {

  /** Every character `splitlines` breaks on. */
  predicate IsBreak(c: char)
  {
    '\n' <= c <= '\r' || '\U{001C}' <= c <= '\U{001E}' || c == '\U{0085}' || c == '\U{2028}' || c == '\U{2029}'
  }

  ghost predicate BreakFree(s: string)
  {
    forall i :: 0 <= i < |s| ==> !IsBreak(s[i])
  }

  /** Index of the first line break, or the length if there is none. */
  function FirstBreak(s: string): (n: nat)
    ensures n <= |s|
    ensures n < |s| ==> IsBreak(s[n])
    ensures forall i :: 0 <= i < n ==> !IsBreak(s[i])
  {
    if s == "" || IsBreak(s[0]) then 0 else 1 + FirstBreak(s[1..])
  }

  /** Length of the break at `n`: a carriage return and a following newline are one break. */
  function BreakLength(s: string, n: nat): (k: nat)
    requires n <= |s|
    ensures n + k <= |s| && (n < |s| ==> k > 0)
  {
    if n == |s| then 0
    else if s[n] == '\r' && n + 1 < |s| && s[n + 1] == '\n' then 2
    else 1
  }

  /** The text before the first break. */
  function FirstLine(s: string): string
  {
    s[..FirstBreak(s)]
  }

  /** The text after the first break. */
  function OtherLines(s: string): (r: string)
    ensures s != "" ==> |r| < |s|
  {
    s[FirstBreak(s) + BreakLength(s, FirstBreak(s))..]
  }

  /** The lines of `s`, without their breaks and without an empty line after a final break. */
  function SplitLines(s: string): seq<string>
    decreases |s|
  {
    if s == "" then [] else [FirstLine(s)] + SplitLines(OtherLines(s))
  }

  lemma {:induction false} FirstBreakOfConcat(a: string, b: string)
    ensures FirstBreak(a) < |a| ==> FirstBreak(a + b) == FirstBreak(a)
    ensures BreakFree(a) ==> FirstBreak(a + b) == |a| + FirstBreak(b)
  {
    if a == "" {
      assert a + b == b;
    } else {
      FirstBreakOfConcat(a[1..], b);
      assert (a + b)[1..] == a[1..] + b;
    }
  }

  /** The first line of text that ends in a newline does not depend on what follows the text. */
  lemma {:induction false} FirstLineIsLocal(a: string, b: string)
    requires a != "" && a[|a| - 1] == '\n'
    ensures FirstBreak(a) < |a|
    ensures FirstLine(a + b) == FirstLine(a)
    ensures OtherLines(a + b) == OtherLines(a) + b
    ensures OtherLines(a) == "" || OtherLines(a)[|OtherLines(a)| - 1] == '\n'
  {
    var n := FirstBreak(a);
    assert n < |a| by {
      assert IsBreak(a[|a| - 1]);
    }
    assert FirstBreak(a + b) == n by {
      FirstBreakOfConcat(a, b);
    }
    var k := BreakLength(a, n);
    assert BreakLength(a + b, n) == k;
    SliceOfConcat(a, b, n);
    SliceOfConcat(a, b, n + k);
    if n + k < |a| {
      assert a[n + k..][|a| - (n + k) - 1] == a[|a| - 1];
    }
  }

  lemma SliceOfConcat(a: string, b: string, n: nat)
    requires n <= |a|
    ensures (a + b)[..n] == a[..n] && (a + b)[n..] == a[n..] + b
  {
  }

  lemma {:induction false} SplitOnce(s: string)
    requires s != ""
    ensures SplitLines(s) == [FirstLine(s)] + SplitLines(OtherLines(s))
  {
  }

  lemma FirstOfConcat(x: string, a: seq<string>, b: seq<string>)
    ensures [x] + (a + b) == ([x] + a) + b
  {
  }

  /** Nothing that precedes a newline can affect how the text after it is split. */
  lemma {:induction false} SplitAfterNewline(a: string, b: string)
    requires a == "" || a[|a| - 1] == '\n'
    ensures SplitLines(a + b) == SplitLines(a) + SplitLines(b)
    decreases |a|
  {
    if a == "" {
      assert a + b == b;
    } else {
      FirstLineIsLocal(a, b);
      SplitAfterNewline(OtherLines(a), b);
      SplitOnce(a);
      SplitOnce(a + b);
      FirstOfConcat(FirstLine(a), SplitLines(OtherLines(a)), SplitLines(b));
    }
  }

  /** The ten characters that end a line, by their names in Unicode: LF, VT, FF, CR, FS, GS, RS, NEL, LS and PS. */
  predicate EndsLine(c: char)
  {
    c in {'\n', '\U{000B}', '\U{000C}', '\r', '\U{001C}', '\U{001D}', '\U{001E}', '\U{0085}', '\U{2028}', '\U{2029}'}
  }

  lemma BreaksAreLineEnds(c: char)
    ensures IsBreak(c) <==> EndsLine(c)
  {
  }

  lemma {:induction false} LineWithoutEnd(line: string)
    requires forall c :: c in line ==> !EndsLine(c)
    ensures BreakFree(line) && SplitLines(line) == if line == "" then [] else [line]
  {
    forall i | 0 <= i < |line| ensures !IsBreak(line[i]) {
      assert line[i] in line;
      BreaksAreLineEnds(line[i]);
    }
    FirstBreakOfConcat(line, "");
    assert line + "" == line && FirstBreak("") == 0;
    assert OtherLines(line) == "";
    assert FirstLine(line) == line;
  }

  lemma {:induction false} EndIsBreak(end: string, rest: string)
    requires end == "\r\n" || (|end| == 1 && EndsLine(end[0]) && (end == "\r" && rest != "" ==> rest[0] != '\n'))
    ensures FirstBreak(end + rest) == 0 && BreakLength(end + rest, 0) == |end|
  {
    BreaksAreLineEnds(end[0]);
    assert (end + rest)[0] == end[0];
  }

  lemma {:induction false} EndOfLine(line: string, end: string, rest: string)
    requires BreakFree(line) && end != "" && FirstBreak(end + rest) == 0 && BreakLength(end + rest, 0) == |end|
    ensures SplitLines(line + (end + rest)) == [line] + SplitLines(rest)
  {
    var s := line + (end + rest);
    FirstBreakOfConcat(line, end + rest);
    PartsOf(line, end, rest);
    BreakBehind(s, end + rest, |line|);
    SplitOnce(s);
  }

  lemma PartsOf(a: string, b: string, c: string)
    ensures var s := a + (b + c); s[..|a|] == a && s[|a|..] == b + c && s[|a| + |b|..] == c
  {
  }

  lemma BreakBehind(s: string, t: string, n: nat)
    requires n <= |s| && s[n..] == t
    ensures BreakLength(s, n) == BreakLength(t, 0)
  {
    assert forall i :: 0 <= i < |t| ==> t[i] == s[n + i];
  }

  /**
   What `splitlines` does, from the first line end on: text without one is a single line, and each of the ten characters
   ends the line before it, CR and LF together as one.
   */
  lemma {:induction false} SplitsAtEachLineEnd(line: string, end: string, rest: string)
    requires forall c :: c in line ==> !EndsLine(c)
    requires end == "\r\n" || (|end| == 1 && EndsLine(end[0]) && (end == "\r" && rest != "" ==> rest[0] != '\n'))
    ensures SplitLines(line + end + rest) == [line] + SplitLines(rest)
    ensures SplitLines(line) == if line == "" then [] else [line]
  {
    LineWithoutEnd(line);
    EndIsBreak(end, rest);
    EndOfLine(line, end, rest);
    assert line + end + rest == line + (end + rest);
  }
}

/** Hunk headers: decimal numbers and the header pattern (backend/integrations/diff_mapping.py:71-75). */
module HunkHeader {
  import opened Text

  predicate IsDigit(c: char)
  {
    '0' <= c <= '9'
  }

  ghost predicate AllDigits(s: string)
  {
    forall c :: c in s ==> IsDigit(c)
  }

  /** Length of the longest prefix of digits. */
  function DigitCount(s: string): (n: nat)
    ensures n <= |s|
  {
    if s == "" || !IsDigit(s[0]) then 0 else 1 + DigitCount(s[1..])
  }

  function Value(digits: string): (r: int)
    ensures AllDigits(digits) ==> r >= 0
  {
    if digits == "" then 0
    else
      assert forall c :: c in digits[..|digits| - 1] ==> c in digits;
      assert digits[|digits| - 1] in digits;
      10 * Value(digits[..|digits| - 1]) + (digits[|digits| - 1] as int - '0' as int)
  }

  function Decimal(n: nat): (r: string)
    ensures r != "" && AllDigits(r)
  {
    if n < 10 then [('0' as int + n) as char]
    else Decimal(n / 10) + [('0' as int + n % 10) as char]
  }

  /** Printing a number and reading it back gives the number. */
  lemma {:induction false} DecimalRoundTrip(n: nat)
    ensures Value(Decimal(n)) == n
  {
    if n >= 10 {
      DecimalRoundTrip(n / 10);
      assert Decimal(n)[..|Decimal(n)| - 1] == Decimal(n / 10);
    } else {
      assert Decimal(n)[..0] == "";
    }
  }

  lemma {:induction false} DigitsStopAt(digits: string, rest: string)
    requires AllDigits(digits) && (rest == "" || !IsDigit(rest[0]))
    ensures DigitCount(digits + rest) == |digits|
  {
    if digits == "" {
      assert digits + rest == rest;
    } else {
      assert forall c :: c in digits[1..] ==> c in digits;
      assert digits[0] in digits;
      DigitsStopAt(digits[1..], rest);
      assert (digits + rest)[1..] == digits[1..] + rest;
    }
  }

  predicate StartsWith(s: string, prefix: string)
  {
    |prefix| <= |s| && s[..|prefix|] == prefix
  }

  /** What is left of `s` after an optional comma and digits. */
  function SkipCount(s: string): string
  {
    if StartsWith(s, ",") && DigitCount(s[1..]) > 0 then s[1..][DigitCount(s[1..])..] else s
  }

  /**
   The two start numbers of a hunk header, if `line` begins with one: a digit run cannot be shortened and a comma
   is neither digit nor space, so the pattern needs no backtracking.
   */
  function ParseHeader(line: string): Option<(int, int)>
  {
    if !StartsWith(line, "@@ -") then None else
      var a := line[4..];
      var m := DigitCount(a);
      var b := SkipCount(a[m..]);
      if m == 0 || !StartsWith(b, " +") then None else
        var c := b[2..];
        var n := DigitCount(c);
        if n == 0 || !StartsWith(SkipCount(c[n..]), " @@") then None
        else Some((Value(a[..m]), Value(c[..n])))
  }

  lemma OtherStart(line: string)
    requires line == "" || line[0] != '@'
    ensures !StartsWith(line, "@@ -")
  {
    if |line| >= 4 {
      assert line[..4][0] == line[0];
    }
  }

  lemma NotAHeader(line: string)
    requires !StartsWith(line, "@@ -")
    ensures ParseHeader(line) == None
  {
  }

  /** `start,count` as printed in a header; the count may be left out when it is one. */
  function PrintRange(start: nat, count: nat, brief: bool): string
  {
    if brief && count == 1 then Decimal(start) else Decimal(start) + "," + Decimal(count)
  }

  function PrintHeader(oldStart: nat, oldCount: nat, newStart: nat, newCount: nat, brief: bool): string
  {
    "@@ -" + PrintRange(oldStart, oldCount, brief) + " +" + PrintRange(newStart, newCount, brief) + " @@"
  }

  lemma {:induction false} RangeText(start: nat, count: nat, brief: bool, rest: string) returns (x: string)
    ensures IsCount(x) && PrintRange(start, count, brief) + rest == Decimal(start) + (x + rest)
  {
    if brief && count == 1 {
      x := "";
      assert "" + rest == rest;
    } else {
      x := "," + Decimal(count);
      assert x[1..] == Decimal(count);
    }
  }

  lemma {:induction false} RangeIsRead(start: nat, count: nat, brief: bool, rest: string)
    requires rest != "" && rest[0] == ' '
    ensures var s := PrintRange(start, count, brief) + rest;
            && DigitCount(s) > 0
            && Value(s[..DigitCount(s)]) == start
            && SkipCount(s[DigitCount(s)..]) == rest
  {
    var x := RangeText(start, count, brief, rest);
    NumberAndCount(Decimal(start), x, rest);
    DecimalRoundTrip(start);
  }

  lemma Peel(prefix: string, rest: string)
    ensures StartsWith(prefix + rest, prefix)
    ensures (prefix + rest)[|prefix|..] == rest
  {
    assert (prefix + rest)[..|prefix|] == prefix;
  }

  lemma HeaderIsRead(a: string, b: string, c: string, oldStart: nat, newStart: nat)
    requires DigitCount(a) > 0 && Value(a[..DigitCount(a)]) == oldStart && SkipCount(a[DigitCount(a)..]) == " +" + b
    requires DigitCount(b) > 0 && Value(b[..DigitCount(b)]) == newStart && SkipCount(b[DigitCount(b)..]) == " @@" + c
    ensures ParseHeader("@@ -" + a) == Some((oldStart, newStart))
  {
    Peel("@@ -", a);
    Peel(" +", b);
    Peel(" @@", c);
  }

  /** A printed header is recognised, whatever follows it, and gives back its start numbers. */
  lemma HeaderRoundTrip(oldStart: nat, oldCount: nat, newStart: nat, newCount: nat, brief: bool, section: string)
    ensures ParseHeader(PrintHeader(oldStart, oldCount, newStart, newCount, brief) + section) ==
            Some((oldStart, newStart))
  {
    var r, s := PrintRange(oldStart, oldCount, brief), PrintRange(newStart, newCount, brief);
    var b := s + (" @@" + section);
    RangeIsRead(oldStart, oldCount, brief, " +" + b);
    RangeIsRead(newStart, newCount, brief, " @@" + section);
    HeaderIsRead(r + (" +" + b), b, section, oldStart, newStart);
    Regroup(r, s, section);
  }

  lemma Regroup(r: string, s: string, section: string)
    ensures "@@ -" + r + " +" + s + " @@" + section == "@@ -" + (r + (" +" + (s + (" @@" + section))))
  {
  }

  // ------------------------------------- the pattern, as a regular expression

  /** `,` and digits, or nothing. */
  ghost predicate IsCount(x: string)
  {
    x == "" || (|x| >= 2 && x[0] == ',' && AllDigits(x[1..]))
  }

  /** The line read as the header pattern: digits `a` and `b` are the two starts, `x` and `y` the optional counts. */
  ghost predicate Matches(line: string, a: string, x: string, b: string, y: string, rest: string)
  {
    && line == "@@ -" + a + x + " +" + b + y + " @@" + rest
    && a != "" && AllDigits(a) && IsCount(x) && b != "" && AllDigits(b) && IsCount(y)
  }

  lemma {:induction false} CountedDigits(s: string)
    ensures AllDigits(s[..DigitCount(s)]) && (DigitCount(s) < |s| ==> !IsDigit(s[DigitCount(s)]))
  {
    if s != "" && IsDigit(s[0]) {
      CountedDigits(s[1..]);
      assert s[..DigitCount(s)] == [s[0]] + s[1..][..DigitCount(s[1..])];
    }
  }

  lemma {:induction false} CountIsSkipped(x: string, rest: string)
    requires IsCount(x) && rest != "" && rest[0] == ' '
    ensures SkipCount(x + rest) == rest
  {
    if x == "" {
      assert x + rest == rest;
    } else {
      assert (x + rest)[1..] == x[1..] + rest;
      DigitsStopAt(x[1..], rest);
      assert (x + rest)[..1] == ",";
    }
  }

  lemma {:induction false} SkippedCount(s: string) returns (x: string)
    ensures IsCount(x) && s == x + SkipCount(s)
  {
    if StartsWith(s, ",") && DigitCount(s[1..]) > 0 {
      var n := DigitCount(s[1..]);
      CountedDigits(s[1..]);
      x := s[..1 + n];
      assert x[1..] == s[1..][..n] && s[..1][0] == s[0];
    } else {
      x := "";
    }
  }

  lemma {:induction false} NumberAndCount(a: string, x: string, rest: string)
    requires a != "" && AllDigits(a) && IsCount(x) && rest != "" && rest[0] == ' '
    ensures var s := a + (x + rest);
            DigitCount(s) == |a| && s[..|a|] == a && SkipCount(s[|a|..]) == rest
  {
    var s := a + (x + rest);
    DigitsStopAt(a, x + rest);
    assert s[..|a|] == a && s[|a|..] == x + rest;
    CountIsSkipped(x, rest);
  }

  /** Every line of the pattern is a header. */
  lemma {:induction false} MatchIsHeader(line: string, a: string, x: string, b: string, y: string, rest: string)
    requires Matches(line, a, x, b, y, rest)
    ensures ParseHeader(line) == Some((Value(a), Value(b)))
  {
    var tail := b + (y + (" @@" + rest));
    NumberAndCount(a, x, " +" + tail);
    NumberAndCount(b, y, " @@" + rest);
    HeaderIsRead(a + (x + (" +" + tail)), tail, rest, Value(a), Value(b));
    RegroupMatch(a, x, b, y, rest);
  }

  lemma RegroupMatch(a: string, x: string, b: string, y: string, rest: string)
    ensures "@@ -" + a + x + " +" + b + y + " @@" + rest == "@@ -" + (a + (x + (" +" + (b + (y + (" @@" + rest))))))
  {
  }

  lemma TakeAndDrop(s: string, n: nat)
    requires n <= |s|
    ensures s == s[..n] + s[n..]
  {
  }

  lemma {:induction false} NumberIsRead(s: string, n: nat, t: string) returns (a: string, x: string)
    requires 0 < n == DigitCount(s) && t == SkipCount(s[n..])
    ensures a == s[..n] && a != "" && AllDigits(a) && IsCount(x) && s == a + (x + t)
  {
    CountedDigits(s);
    TakeAndDrop(s, n);
    a := s[..n];
    x := SkippedCount(s[n..]);
  }

  /** Every header is a line of the pattern. */
  lemma {:induction false} HeaderIsMatch(line: string)
      returns (a: string, x: string, b: string, y: string, rest: string)
    requires ParseHeader(line).Some?
    ensures Matches(line, a, x, b, y, rest) && ParseHeader(line) == Some((Value(a), Value(b)))
  {
    var s := line[4..];
    var s' := SkipCount(s[DigitCount(s)..]);
    var t := s'[2..];
    var t' := SkipCount(t[DigitCount(t)..]);
    rest := t'[3..];
    Unpeel("@@ -", line);
    a, x := NumberIsRead(s, DigitCount(s), s');
    Unpeel(" +", s');
    b, y := NumberIsRead(t, DigitCount(t), t');
    Unpeel(" @@", t');
    RegroupMatch(a, x, b, y, rest);
  }

  lemma Unpeel(prefix: string, s: string)
    requires StartsWith(s, prefix)
    ensures s == prefix + s[|prefix|..]
  {
  }

  /** A line is a header with these starts exactly if it is one of the pattern with those numbers. */
  lemma {:induction false} HeaderExactlyWhen(line: string, o: int, n: int)
    ensures ParseHeader(line) == Some((o, n)) <==>
            exists a, x, b, y, rest :: Matches(line, a, x, b, y, rest) && Value(a) == o && Value(b) == n
  {
    if ParseHeader(line) == Some((o, n)) {
      var a, x, b, y, rest := HeaderIsMatch(line);
    }
    if a, x, b, y, rest :| Matches(line, a, x, b, y, rest) && Value(a) == o && Value(b) == n {
      MatchIsHeader(line, a, x, b, y, rest);
    }
  }

  function TenTo(n: nat): int
  {
    if n == 0 then 1 else 10 * TenTo(n - 1)
  }

  /** Each digit counts ten times as much as the one behind it. */
  lemma {:induction false} DigitsArePositional(c: char, digits: string)
    ensures Value([c] + digits) == (c as int - '0' as int) * TenTo(|digits|) + Value(digits)
    decreases |digits|
  {
    var s := [c] + digits;
    if digits == "" {
      assert s[..0] == "";
    } else {
      assert s[..|s| - 1] == [c] + digits[..|digits| - 1];
      DigitsArePositional(c, digits[..|digits| - 1]);
      TimesTen(c as int - '0' as int, TenTo(|digits| - 1));
    }
  }

  lemma TimesTen(d: int, x: int)
    ensures 10 * (d * x) == d * (10 * x)
  {
  }
}

/** The hunk walker and the anchor lookup (backend/integrations/diff_mapping.py). */
module DiffMapping {
  import opened Text
  import opened LineSplitting
  import opened HunkHeader

  datatype Side = Right | Left

  /** A place in a file a comment can be attached to, with the source text the patch shows there. */
  datatype Anchor = Anchor(side: Side, line: int, text: string)

  /** What a line of patch text is to the walker. */
  datatype PatchLine =
    | Header(oldStart: int, newStart: int)
    | Plus(text: string)
    | Minus(text: string)
    | Both(text: string)
    | Other

  function Classify(raw: string): PatchLine
  {
    var header := ParseHeader(raw);
    if header.Some? then Header(header.value.0, header.value.1)
    else if raw == "" then Other
    else if raw[0] == '+' then Plus(raw[1..])
    else if raw[0] == '-' then Minus(raw[1..])
    else if raw[0] == ' ' then Both(raw[1..])
    else Other
  }

  function Lex(lines: seq<string>): (r: seq<PatchLine>)
    ensures |r| == |lines|
  {
    if lines == [] then [] else [Classify(lines[0])] + Lex(lines[1..])
  }

  /** The walker's counters and everything it has recorded. */
  datatype Walk = Walk(oldLine: int, newLine: int, inHunk: bool, anchors: seq<Anchor>)

  const START: Walk := Walk(0, 0, false, [])

  /** The anchors one line adds. */
  function Added(w: Walk, line: PatchLine): seq<Anchor>
  {
    if !w.inHunk then [] else
      match line
      case Plus(t) => [Anchor(Right, w.newLine, t)]
      case Minus(t) => [Anchor(Left, w.oldLine, t)]
      case Both(t) => [Anchor(Right, w.newLine, t), Anchor(Left, w.oldLine, t)]
      case _ => []
  }

  function Step(w: Walk, line: PatchLine): Walk
  {
    match line
    case Header(o, n) => Walk(o, n, true, w.anchors)
    case _ =>
      if !w.inHunk then w else
        Walk(w.oldLine + (if line.Minus? || line.Both? then 1 else 0),
             w.newLine + (if line.Plus? || line.Both? then 1 else 0),
             true,
             w.anchors + Added(w, line))
  }

  function WalkLines(w: Walk, lines: seq<PatchLine>): Walk
    decreases |lines|
  {
    if lines == [] then w else WalkLines(Step(w, lines[0]), lines[1..])
  }

  /** All anchors of one file's patch, in the order the walker meets them. */
  function AnchorsOf(patch: string): seq<Anchor>
  {
    WalkLines(START, Lex(SplitLines(patch))).anchors
  }

  ghost function LinesOn(side: Side, anchors: seq<Anchor>): set<int>
  {
    set a | a in anchors && a.side == side :: a.line
  }

  lemma {:induction false} WalkConcat(w: Walk, a: seq<PatchLine>, b: seq<PatchLine>)
    ensures WalkLines(w, a + b) == WalkLines(WalkLines(w, a), b)
    decreases |a|
  {
    if a == [] {
      assert a + b == b;
    } else {
      assert (a + b)[1..] == a[1..] + b;
      WalkConcat(Step(w, a[0]), a[1..], b);
    }
  }

  lemma {:induction false} LexConcat(a: seq<string>, b: seq<string>)
    ensures Lex(a + b) == Lex(a) + Lex(b)
  {
    if a == [] {
      assert a + b == b;
    } else {
      assert (a + b)[1..] == a[1..] + b;
      LexConcat(a[1..], b);
    }
  }

  datatype FileDiffIndex = FileDiffIndex(rightLines: set<int>, leftLines: set<int>)

  ghost function IndexOf(patch: string): FileDiffIndex
  {
    FileDiffIndex(LinesOn(Right, AnchorsOf(patch)), LinesOn(Left, AnchorsOf(patch)))
  }

  /** The walk's counters and line sets, as the loop below keeps them. */
  ghost predicate Shows(w: Walk, oldLine: int, newLine: int, inHunk: bool, index: FileDiffIndex)
  {
    && w.oldLine == oldLine && w.newLine == newLine && w.inHunk == inHunk
    && index == FileDiffIndex(LinesOn(Right, w.anchors), LinesOn(Left, w.anchors))
  }

  method ParsePatch(patch: string) returns (index: FileDiffIndex)
    ensures index == IndexOf(patch)
  {
    var lines := SplitLines(patch);
    var oldLine, newLine, inHunk := 0, 0, false;
    index := FileDiffIndex({}, {});
    ghost var w := START;
    for n := 0 to |lines|
      invariant w == WalkLines(START, Lex(lines[..n]))
      invariant Shows(w, oldLine, newLine, inHunk, index)
    {
      var raw := lines[n];
      WalkSnoc(lines, n);
      LinesGrow(w, Classify(raw));
      w := Step(w, Classify(raw));
      var header := ParseHeader(raw);
      if header.Some? {
        oldLine, newLine, inHunk := header.value.0, header.value.1, true;
        continue;
      }
      if !inHunk || raw == "" {
        continue;
      }
      if raw[0] == '+' {
        index := index.(rightLines := index.rightLines + {newLine});
        newLine := newLine + 1;
      } else if raw[0] == '-' {
        index := index.(leftLines := index.leftLines + {oldLine});
        oldLine := oldLine + 1;
      } else if raw[0] == ' ' {
        index := FileDiffIndex(index.rightLines + {newLine}, index.leftLines + {oldLine});
        oldLine := oldLine + 1;
        newLine := newLine + 1;
      }
    }
    assert lines[..|lines|] == lines;
  }

  lemma WalkSnoc(lines: seq<string>, n: nat)
    requires n < |lines|
    ensures WalkLines(START, Lex(lines[..n + 1])) == Step(WalkLines(START, Lex(lines[..n])), Classify(lines[n]))
  {
    assert lines[..n + 1] == lines[..n] + [lines[n]];
    LexConcat(lines[..n], [lines[n]]);
    assert Lex([lines[n]]) == [Classify(lines[n])];
    WalkConcat(START, Lex(lines[..n]), [Classify(lines[n])]);
  }

  lemma LinesOnConcat(a: seq<Anchor>, b: seq<Anchor>)
    ensures forall x :: x in a + b <==> x in a || x in b
    ensures LinesOn(Right, a + b) == LinesOn(Right, a) + LinesOn(Right, b)
    ensures LinesOn(Left, a + b) == LinesOn(Left, a) + LinesOn(Left, b)
  {
  }

  /** What one line of the patch adds to the line sets. */
  lemma LinesGrow(w: Walk, line: PatchLine)
    ensures var r := Step(w, line).anchors;
            && LinesOn(Right, r) == LinesOn(Right, w.anchors) +
                 (if w.inHunk && (line.Plus? || line.Both?) then {w.newLine} else {})
            && LinesOn(Left, r) == LinesOn(Left, w.anchors) +
                 (if w.inHunk && (line.Minus? || line.Both?) then {w.oldLine} else {})
  {
    var added := Added(w, line);
    LinesOnConcat(w.anchors, added);
    assert forall a :: a in added && a.side == Right ==> a == added[0];
    assert forall a :: a in added && a.side == Left ==> a == added[|added| - 1];
  }

  // -------------------------------------------------- the per-PR index

  /** A changed file; no patch for binary or oversized files. */
  datatype ChangedFile = ChangedFile(filename: string, patch: Option<string>)

  type DiffIndex = map<string, FileDiffIndex>

  ghost function FileIndex(file: ChangedFile): FileDiffIndex
  {
    if file.patch.Some? then IndexOf(file.patch.value) else FileDiffIndex({}, {})
  }

  ghost predicate LastNamed(files: seq<ChangedFile>, i: int)
  {
    0 <= i < |files| && forall j :: i < j < |files| ==> files[j].filename != files[i].filename
  }

  /** Each listed file, and no other, is indexed; a repeated name keeps its last patch. */
  method BuildDiffIndex(files: seq<ChangedFile>) returns (index: DiffIndex)
    ensures forall path :: path in index <==> exists f :: f in files && f.filename == path
    ensures forall i :: LastNamed(files, i) ==>
            files[i].filename in index && index[files[i].filename] == FileIndex(files[i])
  {
    index := map[];
    for n := 0 to |files|
      invariant forall path :: path in index <==> exists f :: f in files[..n] && f.filename == path
      invariant forall i :: LastNamed(files[..n], i) ==>
                  files[i].filename in index && index[files[i].filename] == FileIndex(files[i])
    {
      var file := files[n];
      ghost var before := index;
      if file.patch.None? {
        index := index[file.filename := FileDiffIndex({}, {})];
      } else {
        var parsed := ParsePatch(file.patch.value);
        index := index[file.filename := parsed];
      }
      assert files[..n + 1] == files[..n] + [file];
      forall path ensures path in index <==> exists f :: f in files[..n + 1] && f.filename == path {
        assert file in files[..n + 1];
        if path in before {
          var f :| f in files[..n] && f.filename == path;
          assert f in files[..n + 1];
        }
      }
      forall i | LastNamed(files[..n + 1], i)
        ensures files[i].filename in index && index[files[i].filename] == FileIndex(files[i])
      {
        if i < n {
          assert files[..n + 1][n].filename != files[i].filename;
          assert forall j :: i < j < n ==> files[..n + 1][j] == files[..n][j];
          assert LastNamed(files[..n], i);
        }
      }
    }
    assert files[..|files|] == files;
  }

  datatype CommentAnchor = CommentAnchor(path: string, line: int, side: Side)

  function MapFindingToAnchor(filePath: string, lineStart: int, index: DiffIndex): Option<CommentAnchor>
  {
    if filePath !in index then None
    else if lineStart in index[filePath].rightLines then Some(CommentAnchor(filePath, lineStart, Right))
    else if lineStart in index[filePath].leftLines then Some(CommentAnchor(filePath, lineStart, Left))
    else None
  }
}
