/** The printed inclusion reference: scheme, block id, transaction id, index and branch. */
module Buri {
  import opened Wrappers
  import opened ByteStrings
  import opened Merkle

  datatype Error = NotBuri | FieldCount | BadNumber | BadHex

  /** Go's int. */
  type int64 = i: int | -0x8000_0000_0000_0000 <= i < 0x8000_0000_0000_0000

  datatype Reference = Reference(blockId: string, txId: string, index: int64, branch: seq<string>)

  const SCHEME: string := "buri:"

  // ---------------------------------------------------------------- strings

  /** strings.Join. */
  function Join(parts: seq<string>, sep: char): string {
    if parts == [] then ""
    else if |parts| == 1 then parts[0]
    else parts[0] + [sep] + Join(parts[1..], sep)
  }

  /** strings.Split on a one-character separator. */
  function Split(s: string, sep: char): (r: seq<string>)
    ensures r != []
  {
    if s == "" then [""]
    else if s[0] == sep then [""] + Split(s[1..], sep)
    else
      var rest := Split(s[1..], sep);
      [[s[0]] + rest[0]] + rest[1..]
  }

  lemma {:induction false} JoinSplit(s: string, sep: char)
    ensures Join(Split(s, sep), sep) == s
  {
    if s != "" {
      JoinSplit(s[1..], sep);
      var rest := Split(s[1..], sep);
      if s[0] == sep {
        assert ([""] + rest)[1..] == rest;
      } else {
        assert ([[s[0]] + rest[0]] + rest[1..])[1..] == rest[1..];
      }
    }
  }

  lemma {:induction false} SplitParts(s: string, sep: char)
    ensures forall p <- Split(s, sep) :: sep !in p && forall c <- p :: c in s
  {
    if s != "" {
      SplitParts(s[1..], sep);
      var rest := Split(s[1..], sep);
      assert rest[0] in rest && forall p <- rest[1..] :: p in rest;
      forall p | p in Split(s, sep) ensures sep !in p && forall c <- p :: c in s {
        if s[0] == sep {
          assert p == "" || p in rest;
        } else if p != [s[0]] + rest[0] {
          assert p in rest[1..];
        }
      }
    }
  }

  lemma {:induction false} SplitPlain(p: string, sep: char)
    requires sep !in p
    ensures Split(p, sep) == [p]
  {
    if p != "" {
      SplitPlain(p[1..], sep);
      assert p == [p[0]] + p[1..];
    }
  }

  lemma {:induction false} SplitFirst(p: string, rest: string, sep: char)
    requires sep !in p
    ensures Split(p + [sep] + rest, sep) == [p] + Split(rest, sep)
  {
    var s := p + [sep] + rest;
    if p == "" {
      assert s[1..] == rest;
    } else {
      assert s[1..] == p[1..] + [sep] + rest;
      SplitFirst(p[1..], rest, sep);
      assert p == [p[0]] + p[1..];
    }
  }

  lemma {:induction false} SplitJoin(parts: seq<string>, sep: char)
    requires parts != [] && forall p <- parts :: sep !in p
    ensures Split(Join(parts, sep), sep) == parts
  {
    if |parts| == 1 {
      SplitPlain(parts[0], sep);
    } else {
      SplitFirst(parts[0], Join(parts[1..], sep), sep);
      SplitJoin(parts[1..], sep);
    }
  }

  // ---------------------------------------------------------------- numbers

  predicate Digit(c: char) {
    '0' <= c <= '9'
  }

  function DigitChar(d: int): (c: char)
    requires 0 <= d < 10
    ensures Digit(c)
  {
    '0' + d as char
  }

  function DigitValue(c: char): (d: int)
    requires Digit(c)
    ensures 0 <= d < 10
  {
    c as int - '0' as int
  }

  function PrintNat(n: nat): (s: string)
    ensures s != "" && forall c <- s :: Digit(c)
  {
    if n < 10 then [DigitChar(n)] else PrintNat(n / 10) + [DigitChar(n % 10)]
  }

  /** The %d verb. */
  function PrintInt(i: int): string {
    if i < 0 then "-" + PrintNat(-i) else PrintNat(i)
  }

  function ReadNat(s: string): nat
    requires forall c <- s :: Digit(c)
  {
    if s == "" then 0 else ReadNat(s[..|s| - 1]) * 10 + DigitValue(s[|s| - 1])
  }

  /** strconv.Atoi: an optional sign, at least one digit, and a value that fits. */
  function Atoi(s: string): Result<int64, Error> {
    var digits := if s != "" && (s[0] == '-' || s[0] == '+') then s[1..] else s;
    if digits == "" || exists c <- digits :: !Digit(c) then Err(BadNumber)
    else
      var v: int := if s[0] == '-' then 0 - ReadNat(digits) else ReadNat(digits);
      if -0x8000_0000_0000_0000 <= v < 0x8000_0000_0000_0000 then Ok(v) else Err(BadNumber)
  }

  /** Digits are read in base ten. */
  lemma ReadNatDigit(s: string, c: char)
    requires (forall d <- s :: Digit(d)) && '0' <= c <= '9'
    ensures (forall d <- s + [c] :: Digit(d)) && ReadNat(s + [c]) == 10 * ReadNat(s) + (c as int - 48)
    ensures ReadNat("") == 0
  {
    assert (s + [c])[..|s|] == s;
  }

  /** What strconv.Atoi takes: digits, with or without one sign, of a value that 64 bits hold. */
  lemma AtoiIff(s: string, v: int64)
    ensures Atoi(s) == Ok(v) <==> exists digits ::
      && digits != "" && (forall c <- digits :: Digit(c))
      && (((s == digits || s == "+" + digits) && v == ReadNat(digits)) || (s == "-" + digits && v == 0 - ReadNat(digits)))
  {
    hide ReadNat;
    if Atoi(s) == Ok(v) {
      if s[0] == '-' || s[0] == '+' {
        assert s == [s[0]] + s[1..];
        assert forall c <- s[1..] :: Digit(c);
      } else {
        assert forall c <- s :: Digit(c);
      }
    }
    if digits :|
      && digits != "" && (forall c <- digits :: Digit(c))
      && (((s == digits || s == "+" + digits) && v == ReadNat(digits)) || (s == "-" + digits && v == 0 - ReadNat(digits))) {
      assert digits[0] in digits && Digit(digits[0]);
      assert s == "+" + digits || s == "-" + digits ==> s[1..] == digits;
    }
  }

  lemma {:induction false} ReadPrintNat(n: nat)
    ensures ReadNat(PrintNat(n)) == n
  {
    var s := PrintNat(n);
    if n < 10 {
      assert s[..0] == "";
    } else {
      ReadPrintNat(n / 10);
      assert s[..|s| - 1] == PrintNat(n / 10);
    }
  }

  lemma AtoiPrint(i: int64)
    ensures Atoi(PrintInt(i)) == Ok(i)
    ensures '|' !in PrintInt(i)
  {
    var n: nat := if i < 0 then 0 - (i as int) else i;
    ReadPrintNat(n);
    var s := PrintInt(i);
    var d := PrintNat(n);
    assert Digit(d[0]);
    if i < 0 {
      assert s[1..] == d;
    }
  }

  // ---------------------------------------------------------------- print and parse

  function Body(b: Reference): string {
    b.blockId + ['|'] + (b.txId + ['|'] + (PrintInt(b.index) + ['|'] + Join(b.branch, ',')))
  }

  /** String. */
  function Print(b: Reference): string {
    SCHEME + Body(b)
  }

  function Parse(s: string): Result<Reference, Error> {
    if !(SCHEME <= s) then Err(NotBuri)
    else
      var parts := Split(s[|SCHEME|..], '|');
      if |parts| != 4 then Err(FieldCount)
      else
        var index :- Atoi(parts[2]);
        Ok(Reference(parts[0], parts[1], index, if parts[3] == "" then [] else Split(parts[3], ',')))
  }

  /** What survives printing: no separator inside a field, and not the branch of one empty hash. */
  predicate Printable(b: Reference) {
    && '|' !in b.blockId && '|' !in b.txId
    && (forall h <- b.branch :: '|' !in h && ',' !in h)
    && b.branch != [""]
  }

  lemma {:induction false} JoinPlain(parts: seq<string>, sep: char, c: char)
    requires c != sep && forall p <- parts :: c !in p
    ensures c !in Join(parts, sep)
  {
    if |parts| > 1 {
      JoinPlain(parts[1..], sep, c);
    }
  }

  lemma {:induction false} JoinEmpty(parts: seq<string>, sep: char)
    ensures Join(parts, sep) == "" <==> parts == [] || parts == [""]
  {
  }

  /** The printed form: "buri:" and four fields between pipes, the hashes between commas. */
  lemma PrintIs(b: Reference)
    ensures Print(b) == "buri:" + (b.blockId + ("|" + (b.txId + ("|" + (PrintInt(b.index) + ("|" + Join(b.branch, ',')))))))
    ensures forall h, more :: more != [] ==> Join([h] + more, ',') == h + ("," + Join(more, ','))
    ensures forall h :: Join([h], ',') == h
  {
    forall h: string, more: seq<string> | more != [] ensures Join([h] + more, ',') == h + ("," + Join(more, ',')) {
      assert ([h] + more)[1..] == more;
    }
    assert Body(b) == b.blockId + ("|" + (b.txId + ("|" + (PrintInt(b.index) + ("|" + Join(b.branch, ','))))));
  }

  /** What parses, for every string: the scheme, three pipes, a number in the third field, and any hashes. */
  lemma ParseIff(s: string, b: Reference)
    ensures Parse(s) == Ok(b) <==> exists num, tail ::
      && s == "buri:" + (b.blockId + (['|'] + (b.txId + (['|'] + (num + (['|'] + tail))))))
      && '|' !in b.blockId && '|' !in b.txId && '|' !in num && '|' !in tail
      && Atoi(num) == Ok(b.index) && b.branch == if tail == "" then [] else Split(tail, ',')
  {
    hide Atoi, Split, Join;
    if Parse(s) == Ok(b) {
      var parts := Split(s[|SCHEME|..], '|');
      JoinSplit(s[|SCHEME|..], '|');
      SplitParts(s[|SCHEME|..], '|');
      assert parts[0] in parts && parts[1] in parts && parts[2] in parts && parts[3] in parts;
      JoinFour(parts);
      assert s == SCHEME + s[|SCHEME|..];
    }
    if num, tail :|
      && s == "buri:" + (b.blockId + (['|'] + (b.txId + (['|'] + (num + (['|'] + tail))))))
      && '|' !in b.blockId && '|' !in b.txId && '|' !in num && '|' !in tail
      && Atoi(num) == Ok(b.index) && b.branch == if tail == "" then [] else Split(tail, ',') {
      SplitFour(b.blockId, b.txId, num, tail);
      assert s[|SCHEME|..] == b.blockId + (['|'] + (b.txId + (['|'] + (num + (['|'] + tail)))));
    }
  }

  lemma JoinFour(parts: seq<string>)
    requires |parts| == 4
    ensures Join(parts, '|') == parts[0] + (['|'] + (parts[1] + (['|'] + (parts[2] + (['|'] + parts[3])))))
  {
    var p1, p2, p3 := parts[1..], parts[1..][1..], parts[1..][1..][1..];
    assert Join(p3, '|') == parts[3];
    assert Join(p2, '|') == parts[2] + ['|'] + Join(p3, '|');
    assert Join(p1, '|') == parts[1] + ['|'] + Join(p2, '|');
    assert Join(parts, '|') == parts[0] + ['|'] + Join(p1, '|');
  }

  lemma SplitFour(a: string, b: string, c: string, d: string)
    requires '|' !in a && '|' !in b && '|' !in c && '|' !in d
    ensures Split(a + (['|'] + (b + (['|'] + (c + (['|'] + d))))), '|') == [a, b, c, d]
  {
    hide Split;
    SplitPlain(d, '|');
    SplitFirst(c, d, '|');
    assert c + ['|'] + d == c + (['|'] + d);
    SplitFirst(b, c + (['|'] + d), '|');
    assert b + ['|'] + (c + (['|'] + d)) == b + (['|'] + (c + (['|'] + d)));
    SplitFirst(a, b + (['|'] + (c + (['|'] + d))), '|');
    assert a + ['|'] + (b + (['|'] + (c + (['|'] + d)))) == a + (['|'] + (b + (['|'] + (c + (['|'] + d)))));
  }

  /** A reference parses back from its printed form exactly when it is printable. */
  lemma PrintParse(b: Reference)
    ensures Parse(Print(b)) == Ok(b) <==> Printable(b)
  {
    var s := Print(b);
    assert s[|SCHEME|..] == Body(b);
    if Printable(b) {
      PrintedFields(b);
    }
    if Parse(s) == Ok(b) {
      SplitParts(Body(b), '|');
      var parts := Split(Body(b), '|');
      assert parts[0] in parts && parts[1] in parts && parts[3] in parts;
      if parts[3] != "" {
        SplitParts(parts[3], ',');
        JoinSplit(parts[3], ',');
        JoinEmpty(b.branch, ',');
      }
    }
  }

  lemma BodySplits(b: Reference)
    requires Printable(b)
    ensures Split(Body(b), '|') == [b.blockId, b.txId, PrintInt(b.index), Join(b.branch, ',')]
  {
    hide Split, Join, PrintInt;
    var tail := Join(b.branch, ',');
    AtoiPrint(b.index);
    JoinPlain(b.branch, ',', '|');
    SplitPlain(tail, '|');
    SplitFirst(PrintInt(b.index), tail, '|');
    SplitFirst(b.txId, PrintInt(b.index) + ['|'] + tail, '|');
    SplitFirst(b.blockId, b.txId + ['|'] + (PrintInt(b.index) + ['|'] + tail), '|');
  }

  lemma PrintedFields(b: Reference)
    requires Printable(b)
    ensures Split(Body(b), '|') == [b.blockId, b.txId, PrintInt(b.index), Join(b.branch, ',')]
    ensures Parse(Print(b)) == Ok(b)
  {
    hide Split, Join, PrintInt, Body;
    BodySplits(b);
    AtoiPrint(b.index);
    JoinEmpty(b.branch, ',');
    if b.branch != [] {
      SplitJoin(b.branch, ',');
    }
    assert Print(b)[|SCHEME|..] == Body(b);
  }

  // ---------------------------------------------------------------- hex

  function HexDigit(d: int): (c: char)
    requires 0 <= d < 16
    ensures c != '|' && c != ',' && c as int < 0x80
  {
    if d < 10 then '0' + d as char else 'a' + (d - 10) as char
  }

  function HexValue(c: char): Option<int> {
    if '0' <= c <= '9' then Some(c as int - '0' as int)
    else if 'a' <= c <= 'f' then Some(c as int - 'a' as int + 10)
    else if 'A' <= c <= 'F' then Some(c as int - 'A' as int + 10)
    else None
  }

  function EncodeHex(b: Bytes): (s: string)
    ensures |s| == 2 * |b| && forall c <- s :: c != '|' && c != ',' && c as int < 0x80
  {
    if b == [] then "" else [HexDigit(b[0] / 16), HexDigit(b[0] % 16)] + EncodeHex(b[1..])
  }

  function DecodeHex(s: string): Result<Bytes, Error> {
    if s == "" then Ok([])
    else if |s| == 1 then Err(BadHex)
    else match (HexValue(s[0]), HexValue(s[1]))
      case (Some(hi), Some(lo)) =>
        var rest :- DecodeHex(s[2..]);
        assert 0 <= hi < 16 && 0 <= lo < 16;
        Ok([hi * 16 + lo] + rest)
      case _ => Err(BadHex)
  }

  lemma {:induction false} DecodeEncodeHex(b: Bytes)
    ensures DecodeHex(EncodeHex(b)) == Ok(b)
  {
    if b != [] {
      DecodeEncodeHex(b[1..]);
      var s := EncodeHex(b);
      assert s[2..] == EncodeHex(b[1..]);
      assert HexValue(HexDigit(b[0] / 16)) == Some(b[0] / 16);
      assert HexValue(HexDigit(b[0] % 16)) == Some(b[0] % 16);
      assert b == [b[0]] + b[1..];
    }
  }

  /** Each octet is written as its two hexadecimal digits, in lower case. */
  lemma {:induction false} HexAt(b: Bytes, i: nat)
    requires i < |b|
    ensures EncodeHex(b)[2 * i] == "0123456789abcdef"[b[i] / 16] && EncodeHex(b)[2 * i + 1] == "0123456789abcdef"[b[i] % 16]
  {
    if i == 0 {
      HexDigitIs(b[0] / 16);
      HexDigitIs(b[0] % 16);
    } else {
      HexAt(b[1..], i - 1);
    }
  }

  lemma HexDigitIs(d: int)
    requires 0 <= d < 16
    ensures HexDigit(d) == "0123456789abcdef"[d]
  {
  }

  /** Hexadecimal is read in either case, and nothing else is. */
  lemma HexValueIff(c: char, d: int)
    ensures HexValue(c) == Some(d) <==>
      0 <= d < 16 && (c == "0123456789abcdef"[d] || c == "0123456789ABCDEF"[d])
  {
  }

  lemma {:induction false} DecodeHexIff(s: string, b: Bytes)
    ensures DecodeHex(s) == Ok(b) <==> |s| == 2 * |b| && forall i :: 0 <= i < |b| ==>
      HexValue(s[2 * i]) == Some(b[i] / 16) && HexValue(s[2 * i + 1]) == Some(b[i] % 16)
  {
    hide HexValue;
    if |s| >= 2 && b != [] {
      DecodeHexIff(s[2..], b[1..]);
      HexSplits(s, b);
      HexBounds(s[0]);
      HexBounds(s[1]);
      assert b == [b[0]] + b[1..];
    }
  }

  lemma HexBounds(c: char)
    ensures HexValue(c).Some? ==> 0 <= HexValue(c).value < 16
  {
  }

  ghost predicate Spells(s: string, b: Bytes) {
    |s| == 2 * |b| && forall i :: 0 <= i < |b| ==>
      HexValue(s[2 * i]) == Some(b[i] / 16) && HexValue(s[2 * i + 1]) == Some(b[i] % 16)
  }

  lemma HexSplits(s: string, b: Bytes)
    requires |s| >= 2 && b != []
    ensures Spells(s, b) <==>
      HexValue(s[0]) == Some(b[0] / 16) && HexValue(s[1]) == Some(b[0] % 16) && Spells(s[2..], b[1..])
  {
    hide HexValue;
    if |s| == 2 * |b| {
      assert forall i :: 0 <= i < |b| - 1 ==> s[2..][2 * i] == s[2 * (i + 1)] && s[2..][2 * i + 1] == s[2 * (i + 1) + 1] && b[1..][i] == b[i + 1];
      forall i | 0 < i < |b|
        ensures s[2 * i] == s[2..][2 * (i - 1)] && s[2 * i + 1] == s[2..][2 * (i - 1) + 1] && b[i] == b[1..][i - 1]
      {
      }
    }
  }

  lemma HexInjective(a: Bytes, b: Bytes)
    ensures EncodeHex(a) == EncodeHex(b) <==> a == b
  {
    DecodeEncodeHex(a);
    DecodeEncodeHex(b);
  }

  function HexAll(bs: seq<Bytes>): (r: seq<string>)
    ensures |r| == |bs| && forall i :: 0 <= i < |bs| ==> r[i] == EncodeHex(bs[i])
  {
    seq(|bs|, i requires 0 <= i < |bs| => EncodeHex(bs[i]))
  }

  // ---------------------------------------------------------------- build and verify

  method BuildBuri(sha: Sha, blockId: string, leaves: seq<Bytes>, index: int64) returns (r: Option<Reference>)
    ensures r ==
      if 0 <= index < |leaves| then
        Some(Reference(blockId, EncodeHex(leaves[index]), index, HexAll(BranchOf(sha, leaves, index))))
      else None
  {
    hide BranchOf, EncodeHex;
    var branch :- BranchFor(sha, leaves, index);
    var hexBranch: seq<string> := [];
    for i := 0 to |branch|
      invariant |hexBranch| == i && forall k :: 0 <= k < i ==> hexBranch[k] == EncodeHex(branch[k])
    {
      hexBranch := hexBranch + [EncodeHex(branch[i])];
    }
    assert hexBranch == HexAll(branch);
    return Some(Reference(blockId, EncodeHex(leaves[index]), index, hexBranch));
  }

  /** The decoded branch, if every hash is hex. */
  function DecodeBranch(hs: seq<string>): Result<seq<Bytes>, Error> {
    if hs == [] then Ok([])
    else
      var h :- DecodeHex(hs[0]);
      var rest :- DecodeBranch(hs[1..]);
      Ok([h] + rest)
  }

  lemma {:induction false} DecodeHexAll(bs: seq<Bytes>)
    ensures DecodeBranch(HexAll(bs)) == Ok(bs)
  {
    if bs != [] {
      DecodeEncodeHex(bs[0]);
      DecodeHexAll(bs[1..]);
      assert HexAll(bs)[1..] == HexAll(bs[1..]);
      assert bs == [bs[0]] + bs[1..];
    }
  }

  lemma {:induction false} DecodeBranchAt(hs: seq<string>, i: nat)
    requires i < |hs|
    ensures DecodeHex(hs[i]).Err? ==> DecodeBranch(hs).Err?
    ensures DecodeBranch(hs).Ok? ==>
      |DecodeBranch(hs).value| == |hs| && DecodeHex(hs[i]) == Ok(DecodeBranch(hs).value[i])
  {
    if i > 0 {
      DecodeBranchAt(hs[1..], i - 1);
    } else if |hs| > 1 {
      DecodeBranchAt(hs[1..], 0);
    }
  }

  /** The branch of the reference leads from its transaction to the root. */
  predicate Proves(sha: Sha, b: Reference, root: Bytes) {
    && DecodeHex(b.txId).Ok? && DecodeBranch(b.branch).Ok?
    && Fold(sha, DecodeHex(b.txId).value, DecodeBranch(b.branch).value, b.index) == root
  }

  method Verify(sha: Sha, b: Reference, root: Bytes) returns (r: Result<bool, Error>)
    ensures r.Ok? <==> DecodeHex(b.txId).Ok? && DecodeBranch(b.branch).Ok?
    ensures r == Ok(true) <==> Proves(sha, b, root)
  {
    var leaf :- DecodeHex(b.txId);
    var branch: seq<Bytes> := [];
    for i := 0 to |b.branch|
      invariant |branch| == i && forall k :: 0 <= k < i ==> DecodeHex(b.branch[k]) == Ok(branch[k])
    {
      DecodeBranchAt(b.branch, i);
      var h :- DecodeHex(b.branch[i]);
      branch := branch + [h];
    }
    DecodedBranch(b.branch, branch);
    var got := RootFromBranch(sha, leaf, branch, b.index);
    HexInjective(got, root);
    return Ok(EncodeHex(got) == EncodeHex(root));
  }

  lemma {:induction false} DecodedBranch(hs: seq<string>, bs: seq<Bytes>)
    requires |hs| == |bs| && forall k :: 0 <= k < |hs| ==> DecodeHex(hs[k]) == Ok(bs[k])
    ensures DecodeBranch(hs) == Ok(bs)
  {
    if hs != [] {
      DecodedBranch(hs[1..], bs[1..]);
      assert bs == [bs[0]] + bs[1..];
    }
  }

  /**
   The whole path: build a reference for a transaction of a block, print it, parse the print and verify
   the result against the block's root.  It comes back unchanged, and verifies, exactly when the block id
   has no pipe and the branch is not a single empty hash, which takes a block of two whose other leaf is
   empty.
   */
  method RoundTrip(sha: Sha, blockId: string, leaves: seq<Bytes>, index: int64)
    returns (ok: bool)
    requires 0 <= index < |leaves|
    requires forall b: Bytes :: sha(b) != []
    ensures ok <==> '|' !in blockId && !(|leaves| == 2 && leaves[1 - index] == [])
  {
    var built := BuildBuri(sha, blockId, leaves, index);
    var b := built.value;
    PrintParse(b);
    BuiltPrintable(sha, leaves, index);
    var parsed := Parse(Print(b));
    if parsed != Ok(b) {
      return false;
    }
    var root := MerkleRoot(sha, leaves);
    var verified := Verify(sha, parsed.value, root);
    DecodeEncodeHex(leaves[index]);
    DecodeHexAll(BranchOf(sha, leaves, index));
    Completeness(sha, leaves, index);
    return verified == Ok(true);
  }

  /**
   What a reference proves that verifies against a block's root.  With a branch of the tree's height, l == 0, it names
   a transaction of the block; with l hashes less, a node l steps above the transactions.  Otherwise the lemma finds,
   among what was hashed for the branch and for the block, two inputs on which SHA-256 collides.
   */
  lemma ReferenceSound(sha: Sha, leaves: seq<Bytes>, b: Reference, l: nat) returns (x: Bytes, y: Bytes)
    requires Sized(sha) && leaves != [] && Nodes(leaves) && Proves(sha, b, RootOf(sha, leaves))
    requires |DecodeHex(b.txId).value| == 32 && |b.branch| + l == Height(|leaves|)
    ensures var id, level := DecodeHex(b.txId).value, LevelAt(sha, leaves, l);
      || Broken(sha, leaves, id, DecodeBranch(b.branch).value, b.index, x, y)
      || (id in level && (0 <= b.index < |level| ==> id == level[b.index]))
  {
    hide DecodeHex, RootOf, Fold, Broken, LevelAt;
    BranchSize(b.branch);
    x, y := LevelSoundness(sha, leaves, DecodeHex(b.txId).value, DecodeBranch(b.branch).value, b.index, l);
  }

  lemma {:induction false} BranchSize(hs: seq<string>)
    requires DecodeBranch(hs).Ok?
    ensures |DecodeBranch(hs).value| == |hs|
  {
    if hs != [] {
      DecodeBranchAt(hs, 0);
    }
  }

  /**
   Verify never looks at the length of the branch, so the levels do verify: for every block and every level, the
   reference to the node above a leaf with the rest of the leaf's branch.
   */
  lemma InnerReferenceProves(sha: Sha, blockId: string, leaves: seq<Bytes>, index: int64, l: nat)
    requires 0 <= index < |leaves| && l <= Height(|leaves|)
    ensures |BranchOf(sha, leaves, index)| == Height(|leaves|) && Ancestor(index, l) < |LevelAt(sha, leaves, l)|
    ensures var node, branch := LevelAt(sha, leaves, l)[Ancestor(index, l)], BranchOf(sha, leaves, index)[l..];
      Proves(sha, Reference(blockId, EncodeHex(node), Ancestor(index, l), HexAll(branch)), RootOf(sha, leaves))
  {
    InnerNodeFolds(sha, leaves, index, l);
    DecodeEncodeHex(LevelAt(sha, leaves, l)[Ancestor(index, l)]);
    DecodeHexAll(BranchOf(sha, leaves, index)[l..]);
  }

  lemma BuiltPrintable(sha: Sha, leaves: seq<Bytes>, index: nat)
    requires index < |leaves|
    requires forall b: Bytes :: sha(b) != []
    ensures HexAll(BranchOf(sha, leaves, index)) == [""] <==> |leaves| == 2 && leaves[1 - index] == []
  {
    var branch := BranchOf(sha, leaves, index);
    BranchLength(sha, leaves, index);
    HeightOne(|leaves|);
    if |branch| == 1 {
      assert BranchOf(sha, NextLevel(sha, leaves), index / 2) == [];
      assert branch[0] == leaves[1 - index];
      assert HexAll(branch) == [EncodeHex(branch[0])];
      if branch[0] == [] {
        assert EncodeHex(branch[0]) == "";
      }
    }
  }

  lemma HeightOne(n: nat)
    ensures Height(n) == 1 <==> n == 2
  {
    if n > 2 {
      assert Height((n + 1) / 2) >= 1;
    }
  }
}
