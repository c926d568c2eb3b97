/**
 The paper copy: a single-page PDF whose cross-reference table holds byte offsets.  Go strings are octets; a
 string here has one char for each octet.
 */
module Pdf {
  import opened Wrappers
  import opened Buri

  // ---------------------------------------------------------------- literal strings

  /** strings.ReplaceAll of one octet. */
  function ReplaceAll(s: string, c: char, sub: string): string {
    if s == "" then "" else (if s[0] == c then sub else [s[0]]) + ReplaceAll(s[1..], c, sub)
  }

  /** esc: backslashes first, or the backslashes of the other two passes would be doubled. */
  function Escape(s: string): string {
    ReplaceAll(ReplaceAll(ReplaceAll(s, '\\', "\\\\"), '(', "\\("), ')', "\\)")
  }

  function EscapeChar(c: char): string {
    if c == '\\' || c == '(' || c == ')' then ['\\', c] else [c]
  }

  function EscapeOnce(s: string): string {
    if s == "" then "" else EscapeChar(s[0]) + EscapeOnce(s[1..])
  }

  lemma {:induction false} ReplaceAppend(a: string, b: string, c: char, sub: string)
    ensures ReplaceAll(a + b, c, sub) == ReplaceAll(a, c, sub) + ReplaceAll(b, c, sub)
  {
    if a == "" {
      assert a + b == b;
    } else {
      assert (a + b)[1..] == a[1..] + b;
      ReplaceAppend(a[1..], b, c, sub);
      var first := if a[0] == c then sub else [a[0]];
      var x, y := ReplaceAll(a[1..], c, sub), ReplaceAll(b, c, sub);
      assert first + (x + y) == (first + x) + y;
    }
  }

  lemma EscapeAppend(a: string, b: string)
    ensures Escape(a + b) == Escape(a) + Escape(b)
  {
    hide ReplaceAll;
    ReplaceAppend(a, b, '\\', "\\\\");
    var a1, b1 := ReplaceAll(a, '\\', "\\\\"), ReplaceAll(b, '\\', "\\\\");
    ReplaceAppend(a1, b1, '(', "\\(");
    ReplaceAppend(ReplaceAll(a1, '(', "\\("), ReplaceAll(b1, '(', "\\("), ')', "\\)");
  }

  lemma ReplaceOne(x: char, c: char, sub: string)
    ensures ReplaceAll([x], c, sub) == if x == c then sub else [x]
  {
    assert [x][1..] == "";
  }

  lemma ReplaceTwo(x: char, y: char, c: char, sub: string)
    requires x != c && y != c
    ensures ReplaceAll([x, y], c, sub) == [x, y]
  {
    assert [x, y][1..] == [y];
    ReplaceOne(y, c, sub);
  }

  lemma EscapeOne(x: char)
    ensures Escape([x]) == EscapeChar(x)
  {
    hide ReplaceAll;
    ReplaceOne(x, '\\', "\\\\");
    ReplaceOne(x, '(', "\\(");
    ReplaceOne(x, ')', "\\)");
    ReplaceTwo('\\', '\\', '(', "\\(");
    ReplaceTwo('\\', '\\', ')', "\\)");
    ReplaceTwo('\\', '(', ')', "\\)");
    assert "\\\\" == ['\\', '\\'] && "\\(" == ['\\', '('];
  }

  /** The three passes do what one pass over the octets would. */
  lemma {:induction false} ThreePassesAreOne(s: string)
    ensures Escape(s) == EscapeOnce(s)
  {
    if s != "" {
      assert s == [s[0]] + s[1..];
      EscapeAppend([s[0]], s[1..]);
      EscapeOne(s[0]);
      ThreePassesAreOne(s[1..]);
    }
  }

  predicate Octal(c: char) {
    '0' <= c <= '7'
  }

  /** How many octal digits, at most three, s starts with. */
  function OctalRun(s: string): (n: nat)
    ensures n <= 3 && n <= |s|
  {
    if |s| < 1 || !Octal(s[0]) then 0
    else if |s| < 2 || !Octal(s[1]) then 1
    else if |s| < 3 || !Octal(s[2]) then 2
    else 3
  }

  function OctalChar(s: string): char
    requires forall c <- s :: Octal(c)
  {
    (OctalValue(s) % 0x100) as char
  }

  function OctalValue(s: string): nat
    requires forall c <- s :: Octal(c)
  {
    if s == "" then 0
    else
      var last := s[|s| - 1];
      assert last in s && Octal(last);
      OctalValue(s[..|s| - 1]) * 8 + (last as int - '0' as int)
  }

  function NamedEscape(c: char): char {
    match c
    case 'n' => '\n'
    case 'r' => '\r'
    case 't' => '\t'
    case 'b' => 8 as char
    case 'f' => 12 as char
    case _ => c
  }

  /** s without a line feed in front. */
  function SkipLineFeed(s: string): (r: string)
    ensures |r| <= |s|
  {
    if s != "" && s[0] == '\n' then s[1..] else s
  }

  /**
   A PDF reader's view of a literal string (section 7.3.4.2 of ISO 32000-1), after its opening parenthesis:
   escapes, balanced parentheses, and line ends, which all read as a line feed.
   */
  function ReadLiteral(s: string, depth: nat): Option<(string, string)>
    decreases |s|
  {
    if s == "" then None
    else if s[0] == '\\' then
      if |s| == 1 then None
      else if s[1] == '\n' then ReadLiteral(s[2..], depth)
      else if s[1] == '\r' then ReadLiteral(SkipLineFeed(s[2..]), depth)
      else if OctalRun(s[1..]) > 0 then
        var n := OctalRun(s[1..]);
        assert forall c <- s[1..][..n] :: Octal(c);
        var (rest, after) :- ReadLiteral(s[1..][n..], depth);
        Some(([OctalChar(s[1..][..n])] + rest, after))
      else
        var (rest, after) :- ReadLiteral(s[2..], depth);
        Some(([NamedEscape(s[1])] + rest, after))
    else if s[0] == ')' && depth == 0 then Some(("", s[1..]))
    else if s[0] == '\r' then
      var (rest, after) :- ReadLiteral(SkipLineFeed(s[1..]), depth);
      Some(("\n" + rest, after))
    else
      var (rest, after) :- ReadLiteral(s[1..], if s[0] == '(' then depth + 1 else if s[0] == ')' then depth - 1 else depth);
      Some(([s[0]] + rest, after))
  }

  /** Carriage returns, with or without a line feed after them, become line feeds. */
  function Normal(s: string): string
    decreases |s|
  {
    if s == "" then ""
    else if s[0] == '\r' then "\n" + Normal(SkipLineFeed(s[1..]))
    else [s[0]] + Normal(s[1..])
  }

  /** The reader takes one written character, unless it is a carriage return. */
  lemma ReadWritten(c: char, more: string)
    requires c != '\r' && ReadLiteral(more, 0).Some?
    ensures var (line, after) := ReadLiteral(more, 0).value;
      ReadLiteral(EscapeChar(c) + more, 0) == Some(([c] + line, after))
  {
    var text := EscapeChar(c) + more;
    if c == '\\' || c == '(' || c == ')' {
      assert text[0] == '\\' && text[1] == c && text[2..] == more;
    } else {
      assert text[0] == c && text[1..] == more;
    }
  }

  lemma ReadReturn(more: string)
    requires ReadLiteral(SkipLineFeed(more), 0).Some?
    ensures var (line, after) := ReadLiteral(SkipLineFeed(more), 0).value;
      ReadLiteral(EscapeChar('\r') + more, 0) == Some(("\n" + line, after))
  {
    assert (EscapeChar('\r') + more)[1..] == more;
  }

  lemma ReadEnd(rest: string)
    ensures ReadLiteral(")" + rest, 0) == Some(("", rest))
  {
    assert (")" + rest)[1..] == rest;
  }

  /** What esc writes reads back, for every string, up to the reader's treatment of line ends. */
  lemma {:induction false} LiteralRoundTrip(s: string, rest: string)
    ensures ReadLiteral(EscapeOnce(s) + (")" + rest), 0) == Some((Normal(s), rest))
    decreases |s|
  {
    hide ReadLiteral, EscapeChar;
    var tail := ")" + rest;
    ReadEnd(rest);
    if s == "" {
      assert EscapeOnce(s) + tail == tail;
    } else {
      var more := EscapeOnce(s[1..]) + tail;
      assert EscapeOnce(s) + tail == EscapeChar(s[0]) + more;
      if s[0] == '\r' {
        LineEnd(s[1..], tail);
        LiteralRoundTrip(SkipLineFeed(s[1..]), rest);
        ReadReturn(more);
      } else {
        LiteralRoundTrip(s[1..], rest);
        ReadWritten(s[0], more);
      }
    }
  }

  lemma LineEnd(s: string, tail: string)
    requires tail != "" && tail[0] == ')'
    ensures SkipLineFeed(EscapeOnce(s) + tail) == EscapeOnce(SkipLineFeed(s)) + tail
  {
    if s == "" {
      assert EscapeOnce(s) + tail == tail;
    } else {
      assert EscapeOnce(s) + tail == EscapeChar(s[0]) + (EscapeOnce(s[1..]) + tail);
      if s[0] == '\n' {
        assert (EscapeChar(s[0]) + (EscapeOnce(s[1..]) + tail))[1..] == EscapeOnce(s[1..]) + tail;
      }
    }
  }

  /** A string reads back unchanged exactly when it has no carriage return, which esc leaves alone. */
  lemma {:induction false} NormalIff(s: string)
    ensures Normal(s) == s <==> '\r' !in s
    ensures |Normal(s)| <= |s|
    decreases |s|
  {
    if s != "" {
      if s[0] == '\r' {
        NormalIff(SkipLineFeed(s[1..]));
        assert Normal(s)[0] == '\n';
      } else {
        NormalIff(s[1..]);
        assert s == [s[0]] + s[1..];
        assert Normal(s)[1..] == Normal(s[1..]);
        assert '\r' in s <==> '\r' in s[1..];
      }
    }
  }

  // ---------------------------------------------------------------- the content stream

  const BEGIN_TEXT := "BT /F1 11 Tf 50 800 Td 14 TL\n"

  function ShowLine(line: string): string {
    "(" + (Escape(line) + ") Tj\n")
  }

  /** The lines after the first, each on a new line. */
  function MoreLines(lines: seq<string>): string {
    if lines == [] then "" else "T* " + (ShowLine(lines[0]) + MoreLines(lines[1..]))
  }

  function ContentOf(lines: seq<string>, qr: string): string
    requires lines != []
  {
    BEGIN_TEXT + (ShowLine(lines[0]) + (MoreLines(lines[1..]) + ("ET\n" + qr)))
  }

  lemma {:induction false} MoreAppend(lines: seq<string>, line: string)
    ensures MoreLines(lines + [line]) == MoreLines(lines) + ("T* " + ShowLine(line))
  {
    hide ShowLine;
    if lines == [] {
      assert (lines + [line])[1..] == [];
      assert "T* " + (ShowLine(line) + "") == "T* " + ShowLine(line);
    } else {
      assert (lines + [line])[1..] == lines[1..] + [line];
      MoreAppend(lines[1..], line);
      var x, y, z := ShowLine(lines[0]), MoreLines(lines[1..]), "T* " + ShowLine(line);
      assert "T* " + (x + (y + z)) == ("T* " + (x + y)) + z;
    }
  }

  method Content(lines: seq<string>, qr: string) returns (content: string)
    requires lines != []
    ensures content == ContentOf(lines, qr)
  {
    hide ShowLine, MoreLines, Escape;
    content := BEGIN_TEXT;
    for i := 0 to |lines|
      invariant content == if i == 0 then BEGIN_TEXT else BEGIN_TEXT + (ShowLine(lines[0]) + MoreLines(lines[1..][..i - 1]))
    {
      ghost var before := content;
      if i == 0 {
        content := content + ("(" + (Escape(lines[i]) + ") Tj\n"));
        FirstLine(lines);
      } else {
        content := content + ("T* (" + (Escape(lines[i]) + ") Tj\n"));
        NextLine(lines, i);
      }
    }
    assert lines[1..][..|lines| - 1] == lines[1..];
    ghost var text := ShowLine(lines[0]) + MoreLines(lines[1..]);
    content := content + "ET\n";
    content := content + qr;
    assert BEGIN_TEXT + text + "ET\n" + qr == ContentOf(lines, qr) by {
      assert BEGIN_TEXT + text + "ET\n" + qr == BEGIN_TEXT + (text + ("ET\n" + qr));
      assert text + ("ET\n" + qr) == ShowLine(lines[0]) + (MoreLines(lines[1..]) + ("ET\n" + qr));
    }
  }

  lemma FirstLine(lines: seq<string>)
    requires lines != []
    ensures BEGIN_TEXT + ("(" + (Escape(lines[0]) + ") Tj\n")) == BEGIN_TEXT + (ShowLine(lines[0]) + MoreLines(lines[1..][..0]))
  {
    hide Escape;
    assert ShowLine(lines[0]) + MoreLines(lines[1..][..0]) == ShowLine(lines[0]);
  }

  lemma NextLine(lines: seq<string>, i: nat)
    requires 0 < i < |lines|
    ensures var shown := BEGIN_TEXT + (ShowLine(lines[0]) + MoreLines(lines[1..][..i - 1]));
      shown + ("T* (" + (Escape(lines[i]) + ") Tj\n")) == BEGIN_TEXT + (ShowLine(lines[0]) + MoreLines(lines[1..][..i]))
  {
    hide Escape;
    var rest := lines[1..];
    assert rest[..i] == rest[..i - 1] + [rest[i - 1]];
    MoreAppend(rest[..i - 1], rest[i - 1]);
    assert "T* (" + (Escape(lines[i]) + ") Tj\n") == "T* " + ShowLine(lines[i]);
    hide ShowLine;
    var x, y, z := ShowLine(lines[0]), MoreLines(rest[..i - 1]), "T* " + ShowLine(lines[i]);
    assert BEGIN_TEXT + (x + y) + z == BEGIN_TEXT + (x + (y + z));
  }

  /** s with prefix p taken off. */
  function Strip(s: string, p: string): Option<string> {
    if p <= s then Some(s[|p|..]) else None
  }

  /** What a reader shows: the literal strings up to the end of the text object, and what follows it. */
  function ReadShown(s: string): Option<(seq<string>, string)>
    decreases |s|
  {
    match Strip(s, "ET\n")
    case Some(after) => Some(([], after))
    case None =>
      var s :- Strip(s, "T* (");
      var (line, s') :- ReadLiteral(s, 0);
      var s'' :- Strip(s', " Tj\n");
      if |s''| < |s| then
        var (lines, after) :- ReadShown(s'');
        Some(([line] + lines, after))
      else None
  }

  function ReadContent(s: string): Option<(seq<string>, string)> {
    var s :- Strip(s, BEGIN_TEXT);
    var s :- Strip(s, "(");
    var (line, s) :- ReadLiteral(s, 0);
    var s :- Strip(s, " Tj\n");
    var (lines, after) :- ReadShown(s);
    Some(([line] + lines, after))
  }

  function AllNormal(lines: seq<string>): (r: seq<string>)
    ensures |r| == |lines| && forall i :: 0 <= i < |lines| ==> r[i] == Normal(lines[i])
  {
    seq(|lines|, i requires 0 <= i < |lines| => Normal(lines[i]))
  }

  lemma StripPrefix(p: string, rest: string)
    ensures Strip(p + rest, p) == Some(rest)
  {
  }

  lemma LineReadBack(line: string, rest: string)
    ensures ReadLiteral(Escape(line) + (") Tj\n" + rest), 0) == Some((Normal(line), " Tj\n" + rest))
    ensures |rest| < |Escape(line) + (") Tj\n" + rest)|
  {
    hide ReadLiteral, Escape, EscapeOnce;
    ThreePassesAreOne(line);
    assert ") Tj\n" + rest == ")" + (" Tj\n" + rest);
    LiteralRoundTrip(line, " Tj\n" + rest);
  }

  lemma {:induction false} ShownReadBack(lines: seq<string>, qr: string)
    ensures ReadShown(MoreLines(lines) + ("ET\n" + qr)) == Some((AllNormal(lines), qr))
  {
    hide ReadLiteral, Escape, Normal;
    var s := MoreLines(lines) + ("ET\n" + qr);
    if lines == [] {
      assert s == "ET\n" + qr;
      StripPrefix("ET\n", qr);
      assert AllNormal(lines) == [];
    } else {
      var rest := MoreLines(lines[1..]) + ("ET\n" + qr);
      var open := Escape(lines[0]) + (") Tj\n" + rest);
      assert s == "T* (" + open by {
        ShownLayout(lines[0], MoreLines(lines[1..]), "ET\n" + qr);
      }
      assert s[0] == 'T' && Strip(s, "ET\n") == None;
      StripPrefix("T* (", open);
      LineReadBack(lines[0], rest);
      StripPrefix(" Tj\n", rest);
      ShownReadBack(lines[1..], qr);
      assert AllNormal(lines) == [Normal(lines[0])] + AllNormal(lines[1..]);
    }
  }

  lemma ShownLayout(line: string, more: string, end: string)
    ensures "T* " + (ShowLine(line) + more) + end == "T* (" + (Escape(line) + (") Tj\n" + (more + end)))
  {
    hide Escape;
  }

  /** A reader of the content stream shows every line, whatever octets the fields hold, and then the QR operators. */
  lemma ContentReadBack(lines: seq<string>, qr: string)
    requires lines != []
    ensures ReadContent(ContentOf(lines, qr)) == Some((AllNormal(lines), qr))
  {
    hide ReadLiteral, Escape, Normal, MoreLines, ReadShown;
    var rest := MoreLines(lines[1..]) + ("ET\n" + qr);
    var open := Escape(lines[0]) + (") Tj\n" + rest);
    StripPrefix(BEGIN_TEXT, ShowLine(lines[0]) + rest);
    assert ShowLine(lines[0]) + rest == "(" + open;
    StripPrefix("(", open);
    LineReadBack(lines[0], rest);
    StripPrefix(" Tj\n", rest);
    ShownReadBack(lines[1..], qr);
    assert AllNormal(lines) == [Normal(lines[0])] + AllNormal(lines[1..]);
  }

  // ---------------------------------------------------------------- objects and the cross-reference table

  const HEADER := "%PDF-1.4\n"

  function ObjectText(i: nat, o: string): string {
    PrintNat(i) + (" 0 obj\n" + (o + "\nendobj\n"))
  }

  /** The header and the objects, numbered from 1. */
  function Body(objs: seq<string>): string {
    if objs == [] then HEADER
    else
      var n := |objs| - 1;
      Body(objs[..n]) + ObjectText(n + 1, objs[n])
  }

  /** The byte offset of object i. */
  function Offset(objs: seq<string>, i: nat): nat
    requires 1 <= i <= |objs|
  {
    |Body(objs[..i - 1])|
  }

  function Zeros(n: nat): (r: string)
    ensures |r| == n && forall c <- r :: c == '0'
  {
    seq(n, _ => '0')
  }

  /** %010d */
  function PadTen(n: nat): (r: string)
    ensures forall c <- r :: Digit(c)
  {
    var d := PrintNat(n);
    if |d| < 10 then Zeros(10 - |d|) + d else d
  }

  const FREE_ENTRY := "0000000000 65535 f \n"
  const IN_USE := " 00000 n \n"

  function Entries(objs: seq<string>, n: nat): string
    requires n <= |objs|
  {
    if n == 0 then FREE_ENTRY else Entries(objs, n - 1) + (PadTen(Offset(objs, n)) + IN_USE)
  }

  function TableHead(objs: seq<string>): string {
    "xref\n0 " + (PrintNat(|objs| + 1) + "\n")
  }

  function Trailer(size: nat, xref: nat): string {
    "trailer\n<</Size " + (PrintNat(size) + ("/Root 1 0 R>>\n" + ("startxref\n" + (PrintNat(xref) + "\n%%EOF\n"))))
  }

  function File(objs: seq<string>): string {
    Body(objs) + (TableHead(objs) + (Entries(objs, |objs|) + Trailer(|objs| + 1, |Body(objs)|)))
  }

  /** Writes the objects, noting where each begins, then the table and the trailer. */
  method Assemble(objs: seq<string>) returns (pdf: string)
    ensures pdf == File(objs)
  {
    hide ObjectText, Trailer, PadTen, TableHead, PrintNat;
    var offsets := new nat[|objs| + 1];
    var b := HEADER;
    for i := 0 to |objs|
      invariant b == Body(objs[..i])
      invariant forall k :: 1 <= k <= i ==> offsets[k] == Offset(objs, k)
    {
      offsets[i + 1] := |b|;
      assert objs[..i + 1][..i] == objs[..i];
      b := b + ObjectText(i + 1, objs[i]);
    }
    assert objs[..|objs|] == objs;
    var xref := |b|;
    b := b + TableHead(objs);
    b := b + FREE_ENTRY;
    ghost var front := Body(objs) + TableHead(objs);
    for i := 1 to |objs| + 1
      invariant b == front + Entries(objs, i - 1)
    {
      b := b + (PadTen(offsets[i]) + IN_USE);
    }
    b := b + Trailer(|objs| + 1, xref);
    FileLayout(objs);
    return b;
  }

  lemma FileLayout(objs: seq<string>)
    ensures Body(objs) + TableHead(objs) + Entries(objs, |objs|) + Trailer(|objs| + 1, |Body(objs)|) == File(objs)
  {
    hide Body, TableHead, Entries, Trailer;
    var a, b, c, d := Body(objs), TableHead(objs), Entries(objs, |objs|), Trailer(|objs| + 1, |Body(objs)|);
    assert a + b + c + d == a + (b + (c + d));
  }

  // ---------------------------------------------------------------- the offsets are right

  /** 10^k. */
  function Pow10(k: nat): nat {
    if k == 0 then 1 else 10 * Pow10(k - 1)
  }

  lemma {:induction false} PrintedWidth(n: nat, k: nat)
    requires k >= 1
    ensures |PrintNat(n)| <= k <==> n < Pow10(k)
  {
    if n >= 10 {
      if k == 1 {
        assert Pow10(1) == 10 * Pow10(0);
      } else {
        PrintedWidth(n / 10, k - 1);
      }
    } else {
      SmallPower(k);
    }
  }

  lemma {:induction false} SmallPower(k: nat)
    requires k >= 1
    ensures Pow10(k) >= 10
  {
    if k > 1 {
      SmallPower(k - 1);
    }
  }

  /** A table entry has its 20 octets exactly when the offset is below 10^10. */
  lemma EntryWidth(n: nat)
    ensures |PadTen(n) + IN_USE| == 20 <==> n < 10_000_000_000
  {
    PrintedWidth(n, 10);
    TenPowers();
  }

  lemma TenPowers()
    ensures Pow10(10) == 10_000_000_000
  {
    assert Pow10(2) == 100;
    assert Pow10(4) == 10_000;
    assert Pow10(6) == 1_000_000;
    assert Pow10(8) == 100_000_000;
  }

  lemma {:induction false} LeadingZeros(n: nat, d: string)
    requires forall c <- d :: Digit(c)
    ensures ReadNat(Zeros(n) + d) == ReadNat(d)
  {
    var s := Zeros(n) + d;
    assert forall c <- s :: Digit(c);
    if d != "" {
      var m := |d| - 1;
      assert s[..|s| - 1] == Zeros(n) + d[..m];
      LeadingZeros(n, d[..m]);
    } else if n > 0 {
      assert s[..|s| - 1] == Zeros(n - 1) + d;
      LeadingZeros(n - 1, d);
    }
  }

  lemma ReadPadded(n: nat)
    ensures ReadNat(PadTen(n)) == n
  {
    var d := PrintNat(n);
    ReadPrintNat(n);
    if |d| < 10 {
      LeadingZeros(10 - |d|, d);
    }
  }

  /**
   An entry of the table, as a reader finds it at pos: ten digits that are the offset of object i, the place
   where the text of the object, and no other text like it, stands.
   */
  ghost predicate PointsAt(objs: seq<string>, file: string, pos: nat, i: nat)
    requires 1 <= i <= |objs|
  {
    && pos + 20 <= |file|
    && file[pos + 10..pos + 20] == IN_USE
    && (forall c <- file[pos..pos + 10] :: Digit(c))
    && var off := ReadNat(file[pos..pos + 10]);
       && off == |HEADER| + ObjectsLength(objs, i - 1)
       && off <= |file| && ObjectText(i, objs[i - 1]) <= file[off..]
  }

  /** The octets of the first n objects. */
  function ObjectsLength(objs: seq<string>, n: nat): nat
    requires n <= |objs|
  {
    if n == 0 then 0 else ObjectsLength(objs, n - 1) + |ObjectText(n, objs[n - 1])|
  }

  /** An object begins right after the header and the objects before it. */
  lemma {:induction false} OffsetIs(objs: seq<string>, i: nat)
    requires 1 <= i <= |objs|
    ensures Offset(objs, i) == |HEADER| + ObjectsLength(objs, i - 1)
  {
    hide ObjectText;
    if i > 1 {
      OffsetIs(objs, i - 1);
      var upTo := objs[..i - 1];
      assert upTo[..i - 2] == objs[..i - 2];
      BodyStep(upTo);
    }
  }

  lemma {:induction false} EntriesLength(objs: seq<string>, n: nat)
    requires n <= |objs| && |Body(objs)| < 10_000_000_000
    ensures |Entries(objs, n)| == 20 * (n + 1)
  {
    hide PadTen;
    if n > 0 {
      EntriesLength(objs, n - 1);
      var _ := BodyPrefix(objs, n - 1);
      EntryWidth(Offset(objs, n));
    }
  }

  lemma {:induction false} BodyPrefix(objs: seq<string>, n: nat) returns (more: string)
    requires n <= |objs|
    ensures Body(objs) == Body(objs[..n]) + more
    decreases |objs|
  {
    hide ObjectText;
    if n == |objs| {
      assert objs[..n] == objs;
      more := "";
    } else {
      var m := |objs| - 1;
      assert objs[..m][..n] == objs[..n];
      var front := BodyPrefix(objs[..m], n);
      more := front + ObjectText(m + 1, objs[m]);
      assert (Body(objs[..n]) + front) + ObjectText(m + 1, objs[m]) == Body(objs[..n]) + more;
    }
  }

  lemma {:induction false} EntriesPrefix(objs: seq<string>, m: nat, n: nat) returns (more: string)
    requires m <= n <= |objs|
    ensures Entries(objs, n) == Entries(objs, m) + more
  {
    hide PadTen, Offset;
    more := "";
    if m < n {
      var front := EntriesPrefix(objs, m, n - 1);
      var last := PadTen(Offset(objs, n)) + IN_USE;
      more := front + last;
      assert (Entries(objs, m) + front) + last == Entries(objs, m) + more;
    }
  }

  lemma StartsAt(front: string, head: string, more: string)
    ensures var s := front + (head + more); |front| <= |s| && head <= s[|front|..]
  {
    assert (front + (head + more))[|front|..] == head + more;
  }

  /** The object that starts at its offset. */
  lemma ObjectStarts(objs: seq<string>, i: nat, rest: string)
    requires 1 <= i <= |objs|
    ensures var file, off := Body(objs) + rest, Offset(objs, i);
      off <= |file| && ObjectText(i, objs[i - 1]) <= file[off..]
  {
    hide ObjectText, Body;
    var upTo := objs[..i];
    assert upTo[..i - 1] == objs[..i - 1];
    var front, text := Body(objs[..i - 1]), ObjectText(i, objs[i - 1]);
    BodyStep(upTo);
    var more := BodyPrefix(objs, i);
    assert Body(objs) + rest == ((front + text) + more) + rest == front + (text + (more + rest));
    StartsAt(front, text, more + rest);
  }

  lemma BodyStep(objs: seq<string>)
    requires objs != []
    ensures Body(objs) == Body(objs[..|objs| - 1]) + ObjectText(|objs|, objs[|objs| - 1])
  {
  }

  lemma EntryAt(objs: seq<string>, i: nat) returns (before: string, after: string)
    requires 1 <= i <= |objs| && |Body(objs)| < 10_000_000_000
    ensures |before| == 20 * i && |PadTen(Offset(objs, i))| == 10
    ensures Entries(objs, |objs|) == before + (PadTen(Offset(objs, i)) + (IN_USE + after))
  {
    hide PadTen, Offset, Body;
    before := Entries(objs, i - 1);
    after := EntriesPrefix(objs, i, |objs|);
    EntriesLength(objs, i);
    EntriesLength(objs, i - 1);
    var pad := PadTen(Offset(objs, i));
    assert Entries(objs, i) == before + (pad + IN_USE);
    assert (before + (pad + IN_USE)) + after == before + (pad + (IN_USE + after));
  }

  /** Slices of a text made of five pieces. */
  lemma Slices(front: string, before: string, pad: string, mark: string, after: string)
    ensures var s, pos := front + (before + (pad + (mark + after))), |front| + |before|;
      && pos + |pad| + |mark| <= |s|
      && s[pos..pos + |pad|] == pad && s[pos + |pad|..pos + |pad| + |mark|] == mark
  {
    var s, pos := front + (before + (pad + (mark + after))), |front| + |before|;
    assert s == (front + before) + (pad + (mark + after));
    assert s[pos..] == pad + (mark + after);
  }

  /**
   In a file whose objects end below 10^10 octets: startxref names the offset of the table, entry i of the table
   names the offset of object i, and each entry has 20 octets (sections 7.5.4 and 7.5.5 of ISO 32000-1).
   */
  lemma OffsetsAreRight(objs: seq<string>)
    requires |Body(objs)| < 10_000_000_000
    ensures var file, xref := File(objs), |Body(objs)|;
      && xref <= |file| && TableHead(objs) <= file[xref..]
      && (forall i :: 1 <= i <= |objs| ==> PointsAt(objs, file, xref + |TableHead(objs)| + 20 * i, i))
      && (exists front :: file == front + ("startxref\n" + (PrintNat(xref) + "\n%%EOF\n")))
      && ReadNat(PrintNat(xref)) == xref
  {
    hide Body, TableHead, Entries, Trailer, PointsAt, ReadNat, PrintNat;
    StartsAt(Body(objs), TableHead(objs), Entries(objs, |objs|) + Trailer(|objs| + 1, |Body(objs)|));
    forall i | 1 <= i <= |objs| ensures PointsAt(objs, File(objs), |Body(objs)| + |TableHead(objs)| + 20 * i, i) {
      EntryPoints(objs, i);
    }
    TrailerEnds(objs);
    ReadPrintNat(|Body(objs)|);
  }

  lemma EntryPoints(objs: seq<string>, i: nat)
    requires 1 <= i <= |objs| && |Body(objs)| < 10_000_000_000
    ensures PointsAt(objs, File(objs), |Body(objs)| + |TableHead(objs)| + 20 * i, i)
  {
    hide Body, TableHead, Entries, Trailer, PadTen, ReadNat, PrintNat, Offset, ObjectText, ObjectsLength;
    var a, b, d := Body(objs), TableHead(objs), Trailer(|objs| + 1, |Body(objs)|);
    var pad := PadTen(Offset(objs, i));
    var before, after := EntryAt(objs, i);
    assert a + (b + ((before + (pad + (IN_USE + after))) + d)) == (a + b) + (before + (pad + (IN_USE + (after + d))));
    Slices(a + b, before, pad, IN_USE, after + d);
    ReadPadded(Offset(objs, i));
    OffsetIs(objs, i);
    ObjectStarts(objs, i, b + (Entries(objs, |objs|) + d));
  }

  lemma TrailerEnds(objs: seq<string>)
    ensures exists front :: File(objs) == front + ("startxref\n" + (PrintNat(|Body(objs)|) + "\n%%EOF\n"))
  {
    hide Body, TableHead, Entries;
    var a, b, c := Body(objs), TableHead(objs), Entries(objs, |objs|);
    var x := "trailer\n<</Size " + (PrintNat(|objs| + 1) + "/Root 1 0 R>>\n");
    var end := "startxref\n" + (PrintNat(|a|) + "\n%%EOF\n");
    assert Trailer(|objs| + 1, |a|) == x + end;
    assert a + (b + (c + (x + end))) == (a + (b + (c + x))) + end;
  }

  // ---------------------------------------------------------------- the page

  const PAGE := "<</Type/Page/Parent 2 0 R/MediaBox[0 0 595 842]/Resources<</Font<</F1 4 0 R>>>>/Contents 5 0 R>>"

  function StreamObject(content: string): string {
    "<</Length " + (PrintNat(|content|) + (">>\nstream\n" + (content + "endstream")))
  }

  function Objects(content: string): seq<string> {
    ["<</Type/Catalog/Pages 2 0 R>>", "<</Type/Pages/Kids[3 0 R]/Count 1>>", PAGE,
     "<</Type/Font/Subtype/Type1/BaseFont/Helvetica>>", StreamObject(content)]
  }

  /** RenderPDF for the lines of the body and the operators of the QR code. */
  method RenderPdf(lines: seq<string>, qr: string) returns (pdf: string)
    requires lines != []
    ensures pdf == File(Objects(ContentOf(lines, qr)))
  {
    var cs := Content(lines, qr);
    pdf := Assemble(Objects(cs));
  }

  /**
   A reader of the stream object that takes as many octets as Length says finds the whole content and then
   the keyword endstream (section 7.3.8.2 of ISO 32000-1), and in the content every line of the document.
   */
  lemma StreamReadBack(lines: seq<string>, qr: string) returns (digits: string, rest: string)
    requires lines != []
    ensures StreamObject(ContentOf(lines, qr)) == "<</Length " + (digits + (">>\nstream\n" + rest))
    ensures (forall c <- digits :: Digit(c)) && ReadNat(digits) <= |rest|
    ensures rest[ReadNat(digits)..] == "endstream"
    ensures ReadContent(rest[..ReadNat(digits)]) == Some((AllNormal(lines), qr))
  {
    hide ContentOf, ReadContent, PrintNat, ReadNat;
    var cs := ContentOf(lines, qr);
    ReadPrintNat(|cs|);
    ContentReadBack(lines, qr);
    digits, rest := PrintNat(|cs|), cs + "endstream";
    assert rest[..|cs|] == cs && rest[|cs|..] == "endstream";
  }

  /** The content stream: the text operators of the page, each line escaped between parentheses, and the QR operators. */
  lemma ContentIs(first: string, more: seq<string>, qr: string)
    ensures ContentOf([first] + more, qr) ==
      "BT /F1 11 Tf 50 800 Td 14 TL\n" + (("(" + (Escape(first) + ") Tj\n")) + (MoreLines(more) + ("ET\n" + qr)))
    ensures MoreLines([]) == ""
    ensures more != [] ==> MoreLines(more) == "T* " + (("(" + (Escape(more[0]) + ") Tj\n")) + MoreLines(more[1..]))
  {
    hide Escape;
    assert ([first] + more)[1..] == more;
  }

  /** The table and the trailer of a file of n objects, text for text. */
  lemma TablesAre(objs: seq<string>, n: nat, xref: nat)
    requires n < |objs|
    ensures TableHead(objs) == "xref\n0 " + (PrintNat(|objs| + 1) + "\n")
    ensures Entries(objs, 0) == "0000000000 65535 f \n"
    ensures Entries(objs, n + 1) == Entries(objs, n) + (PadTen(Offset(objs, n + 1)) + " 00000 n \n")
    ensures Trailer(|objs| + 1, xref) ==
      "trailer\n<</Size " + (PrintNat(|objs| + 1) + ("/Root 1 0 R>>\n" + ("startxref\n" + (PrintNat(xref) + "\n%%EOF\n"))))
  {
    hide PadTen, PrintNat, Offset;
  }

  /** The body: a header, and the objects numbered from 1 in their order. */
  lemma BodyIs(objs: seq<string>, o: string)
    ensures Body([]) == "%PDF-1.4\n"
    ensures Body(objs + [o]) == Body(objs) + (PrintNat(|objs| + 1) + (" 0 obj\n" + (o + "\nendobj\n")))
  {
    assert (objs + [o])[..|objs|] == objs;
  }

  /** The catalog names the pages, these the page, and that its font and its content, whose length is given. */
  lemma ObjectsAre(content: string)
    ensures var objs := Objects(content);
      && |objs| == 5 && objs[0] == "<</Type/Catalog/Pages 2 0 R>>" && objs[1] == "<</Type/Pages/Kids[3 0 R]/Count 1>>"
      && objs[2] == "<</Type/Page/Parent 2 0 R/MediaBox[0 0 595 842]/Resources<</Font<</F1 4 0 R>>>>/Contents 5 0 R>>"
      && objs[3] == "<</Type/Font/Subtype/Type1/BaseFont/Helvetica>>"
      && objs[4] == "<</Length " + (PrintNat(|content|) + (">>\nstream\n" + (content + "endstream")))
      && File(objs) == Body(objs) + (TableHead(objs) + (Entries(objs, 5) + Trailer(6, |Body(objs)|)))
  {
    hide PrintNat, Body, TableHead, Entries, Trailer;
  }
}
