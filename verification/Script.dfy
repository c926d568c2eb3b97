/** Locking scripts: opcodes, length-based pushes, and the parser that reads them back. */
module Script {
  import opened Wrappers
  import opened ByteStrings

  const OP_FALSE: byte := 0x00
  const OP_PUSHDATA1: byte := 0x4c
  const OP_PUSHDATA2: byte := 0x4d
  const OP_PUSHDATA4: byte := 0x4e
  const OP_IF: byte := 0x63
  const OP_ENDIF: byte := 0x68
  const OP_RETURN: byte := 0x6a
  const OP_DROP: byte := 0x75
  const OP_DUP: byte := 0x76
  const OP_EQUAL: byte := 0x87
  const OP_EQUALVERIFY: byte := 0x88
  const OP_HASH160: byte := 0xa9
  const OP_CHECKSIG: byte := 0xac

  /** A parsed operation: its opcode and, for a push, the pushed octets. */
  datatype Op = Op(op: byte, data: Bytes)

  /** The k octets of x, least significant first. */
  function LittleEndian(x: nat, k: nat): (r: Bytes)
    ensures |r| == k
  {
    if k == 0 then [] else [x % 0x100] + LittleEndian(x / 0x100, k - 1)
  }

  function FromLittleEndian(b: Bytes): nat {
    if b == [] then 0 else b[0] + 0x100 * FromLittleEndian(b[1..])
  }

  lemma {:induction false} FromToLittleEndian(x: nat, k: nat)
    requires x < Pow256(k)
    ensures FromLittleEndian(LittleEndian(x, k)) == x
  {
    if k > 0 {
      FromToLittleEndian(x / 0x100, k - 1);
      var b := LittleEndian(x, k);
      assert b[1..] == LittleEndian(x / 0x100, k - 1);
    }
  }

  /** The opcode that pushes n octets, and the width of the length that follows it. */
  function PushOpcode(n: nat): byte {
    if n <= 75 then n else if n <= 0xff then OP_PUSHDATA1 else if n <= 0xffff then OP_PUSHDATA2 else OP_PUSHDATA4
  }

  function LengthWidth(op: byte): nat {
    if op == OP_PUSHDATA1 then 1 else if op == OP_PUSHDATA2 then 2 else if op == OP_PUSHDATA4 then 4 else 0
  }

  /** AppendPushData: the shortest length form that holds |data|. */
  function Push(data: Bytes): Bytes {
    [PushOpcode(|data|)] + (LittleEndian(|data|, LengthWidth(PushOpcode(|data|))) + data)
  }

  /** The operation a push reads back as; pushing nothing reads as OP_FALSE. */
  function PushOp(data: Bytes): Op {
    Op(PushOpcode(|data|), data)
  }

  /** One operation and the octets after it. */
  function ReadOp(s: Bytes): (r: Option<(Op, Bytes)>)
    ensures r.Some? ==> |r.value.1| < |s|
  {
    if s == [] then None
    else
      var op, rest := s[0], s[1..];
      var w := LengthWidth(op);
      if w > 0 then
        if |rest| < w then None
        else
          var n := FromLittleEndian(rest[..w]);
          if |rest| - w < n then None else Some((Op(op, rest[w..][..n]), rest[w..][n..]))
      else if 1 <= op < OP_PUSHDATA1 then
        if |rest| < op then None else Some((Op(op, rest[..op]), rest[op..]))
      else Some((Op(op, []), rest))
  }

  /** ParseOps. */
  function Parse(s: Bytes): Option<seq<Op>>
    decreases |s|
  {
    if s == [] then Some([])
    else
      var (op, rest) :- ReadOp(s);
      var ops :- Parse(rest);
      Some([op] + ops)
  }

  predicate PlainOpcode(op: byte) {
    op == 0 || op > OP_PUSHDATA4
  }

  predicate Pushable(data: Bytes) {
    |data| < TWO_32
  }

  lemma ReadPlain(op: byte, rest: Bytes)
    requires PlainOpcode(op)
    ensures ReadOp([op] + rest) == Some((Op(op, []), rest))
  {
    assert ([op] + rest)[1..] == rest;
  }

  lemma ReadPush(data: Bytes, rest: Bytes)
    requires Pushable(data)
    ensures ReadOp(Push(data) + rest) == Some((PushOp(data), rest))
  {
    var op := PushOpcode(|data|);
    var w := LengthWidth(op);
    var len := LittleEndian(|data|, w);
    var s := Push(data) + rest;
    assert s[0] == op && s[1..] == len + (data + rest);
    if w > 0 {
      Powers();
      FromToLittleEndian(|data|, w);
      assert s[1..][..w] == len && s[1..][w..] == data + rest;
      assert (data + rest)[..|data|] == data && (data + rest)[|data|..] == rest;
    } else {
      assert len == [];
      assert s[1..] == data + rest;
      assert (data + rest)[..|data|] == data && (data + rest)[|data|..] == rest;
    }
  }

  /** A script written as a list of pieces: opcodes and pushes. */
  datatype Piece = Code(op: byte) | Data(data: Bytes)

  predicate Writable1(p: Piece) {
    match p
    case Code(op) => PlainOpcode(op)
    case Data(d) => Pushable(d)
  }

  predicate Writable(ps: seq<Piece>) {
    forall p <- ps :: Writable1(p)
  }

  function Piece1(p: Piece): Bytes {
    match p
    case Code(op) => [op]
    case Data(d) => Push(d)
  }

  function Write(ps: seq<Piece>): Bytes {
    if ps == [] then [] else Piece1(ps[0]) + Write(ps[1..])
  }

  function OpOf(p: Piece): Op {
    match p
    case Code(op) => Op(op, [])
    case Data(d) => PushOp(d)
  }

  function Ops(ps: seq<Piece>): (r: seq<Op>)
    ensures |r| == |ps| && forall i :: 0 <= i < |ps| ==> r[i] == OpOf(ps[i])
  {
    if ps == [] then [] else [OpOf(ps[0])] + Ops(ps[1..])
  }

  /** The parser recovers every piece, whatever octets the pushes carry. */
  lemma {:induction false} ParseWrite(ps: seq<Piece>)
    requires Writable(ps)
    ensures Parse(Write(ps)) == Some(Ops(ps))
  {
    if ps != [] {
      var rest := Write(ps[1..]);
      assert Writable1(ps[0]);
      match ps[0] {
        case Code(op) => ReadPlain(op, rest);
        case Data(d) => ReadPush(d, rest);
      }
      ParseWrite(ps[1..]);
    }
  }

  lemma {:induction false} WriteAppend(ps: seq<Piece>, p: Piece)
    ensures Write(ps + [p]) == Write(ps) + Piece1(p)
  {
    hide Piece1;
    var all := ps + [p];
    if ps == [] {
      assert all[1..] == [] && Write(all[1..]) == [];
      assert all[0] == p;
    } else {
      WriteAppend(ps[1..], p);
      assert all[1..] == ps[1..] + [p] && all[0] == ps[0];
      var first, middle, last := Piece1(ps[0]), Write(ps[1..]), Piece1(p);
      assert first + (middle + last) == (first + middle) + last;
    }
  }

  /** The octets of an operation: its opcode, its length if it has one, and its data. */
  function OpOctets(op: byte, len: Bytes, data: Bytes): Bytes {
    [op] + (len + data)
  }

  lemma Layout(op: byte, len: Bytes, data: Bytes, more: Bytes)
    ensures var s := OpOctets(op, len, data) + more;
      && s != [] && s[0] == op && s[1..] == len + (data + more)
      && s[1..][..|len|] == len && s[1..][|len|..] == data + more
      && s[1..][|len|..][..|data|] == data && s[1..][|len|..][|data|..] == more
  {
    var rest := len + (data + more);
    assert OpOctets(op, len, data) + more == [op] + rest;
    assert ([op] + rest)[1..] == rest;
    assert rest[..|len|] == len && rest[|len|..] == data + more;
    assert (data + more)[..|data|] == data && (data + more)[|data|..] == more;
  }

  /** How many octets of data an operation has. */
  function DataLength(op: byte, len: Bytes): nat {
    if |len| > 0 then FromLittleEndian(len) else if 1 <= op < OP_PUSHDATA1 then op else 0
  }

  lemma ReadOctets(op: byte, len: Bytes, data: Bytes, more: Bytes)
    requires |len| == LengthWidth(op) && |data| == DataLength(op, len)
    ensures ReadOp(OpOctets(op, len, data) + more) == Some((Op(op, data), more))
  {
    hide FromLittleEndian, OpOctets;
    Layout(op, len, data, more);
    if |len| == 0 {
      assert data + more == (OpOctets(op, len, data) + more)[1..];
    }
  }

  lemma Cut(s: Bytes, w: nat, n: nat)
    requires 1 + w + n <= |s|
    ensures s == OpOctets(s[0], s[1..][..w], s[1..][w..][..n]) + s[1..][w..][n..]
  {
  }

  /** Any operation that was read has such octets. */
  lemma ReadOpSplits(s: Bytes) returns (len: Bytes, data: Bytes)
    requires ReadOp(s).Some?
    ensures var (op, rest) := ReadOp(s).value;
      && s == OpOctets(op.op, len, data) + rest && op == Op(s[0], data)
      && |len| == LengthWidth(op.op) && |data| == DataLength(op.op, len)
  {
    hide FromLittleEndian, OpOctets;
    var (op, rest) := ReadOp(s).value;
    var w := LengthWidth(s[0]);
    len, data := s[1..][..w], op.data;
    Cut(s, w, |data|);
    assert s[1..][0..] == s[1..];
  }

  /** Parsing runs through a front that parses and goes on with what follows. */
  lemma {:induction false} ParseAppend(a: Bytes, b: Bytes)
    requires Parse(a).Some? && Parse(b).Some?
    ensures Parse(a + b) == Some(Parse(a).value + Parse(b).value)
    decreases |a|
  {
    hide ReadOp, LengthWidth, DataLength;
    if a == [] {
      assert a + b == b;
      assert Parse(a).value + Parse(b).value == Parse(b).value;
    } else {
      var (op, rest) := ReadOp(a).value;
      var len, data := ReadOpSplits(a);
      ReadOctets(op.op, len, data, rest + b);
      assert a + b == OpOctets(op.op, len, data) + (rest + b);
      ParseAppend(rest, b);
      assert ([op] + Parse(rest).value) + Parse(b).value == [op] + (Parse(rest).value + Parse(b).value);
    }
  }

  /** The octets up to operation k, and from it on. */
  lemma {:induction false} ParseSplit(s: Bytes, k: nat) returns (front: Bytes, back: Bytes)
    requires Parse(s).Some? && k <= |Parse(s).value|
    ensures s == front + back && Parse(front) == Some(Parse(s).value[..k]) && Parse(back) == Some(Parse(s).value[k..])
    decreases |s|
  {
    hide ReadOp, LengthWidth, DataLength;
    var ops := Parse(s).value;
    if k == 0 {
      front, back := [], s;
    } else {
      var (op, rest) := ReadOp(s).value;
      var len, data := ReadOpSplits(s);
      var head := OpOctets(op.op, len, data);
      var f, b := ParseSplit(rest, k - 1);
      front, back := head + f, b;
      assert s == front + back;
      assert Parse(rest).value == ops[1..];
      ReadOctets(op.op, len, data, f);
      assert front != [];
      assert [op] + ops[1..][..k - 1] == ops[..k];
    }
  }

  lemma {:induction false} LittleEndianBound(b: Bytes)
    ensures FromLittleEndian(b) < Pow256(|b|)
  {
    if b != [] {
      LittleEndianBound(b[1..]);
    }
  }

  /** No parsed operation holds more than a push can carry. */
  lemma {:induction false} ParsedFits(s: Bytes)
    requires Parse(s).Some?
    ensures forall op <- Parse(s).value :: Pushable(op.data)
    decreases |s|
  {
    if s != [] {
      var (op, rest) := ReadOp(s).value;
      var len, data := ReadOpSplits(s);
      LittleEndianBound(len);
      Powers();
      ParsedFits(rest);
    }
  }

  /** The octets of a push. */
  lemma PushOctets(data: Bytes)
    requires |data| < 0x1_0000_0000
    ensures var n := |data|;
      Push(data) ==
        (if n <= 0x4b then [n]
         else if n <= 0xff then [0x4c, n]
         else if n <= 0xffff then [0x4d, n % 0x100, n / 0x100]
         else [0x4e, n % 0x100, n / 0x100 % 0x100, n / 0x1_0000 % 0x100, n / 0x100_0000]) + data
  {
    var n := |data|;
    assert LittleEndian(n, 0) == [];
    LittleEndianFour(n);
    if n <= 0xffff {
      assert n / 0x100 % 0x100 == n / 0x100;
    }
  }

  lemma LittleEndianFour(n: nat)
    ensures LittleEndian(n, 1) == [n % 0x100] && LittleEndian(n, 2) == [n % 0x100, n / 0x100 % 0x100]
    ensures LittleEndian(n, 4) == [n % 0x100, n / 0x100 % 0x100, n / 0x1_0000 % 0x100, n / 0x100_0000 % 0x100]
  {
    var a, b, c := n / 0x100, n / 0x1_0000, n / 0x100_0000;
    assert b == a / 0x100 && c == b / 0x100;
    assert LittleEndian(c / 0x100, 0) == [] && LittleEndian(b, 0) == [] && LittleEndian(a, 0) == [];
    assert LittleEndian(c, 1) == [c % 0x100];
    assert LittleEndian(b, 2) == [b % 0x100] + LittleEndian(c, 1);
    assert LittleEndian(a, 3) == [a % 0x100] + LittleEndian(b, 2);
    assert LittleEndian(a, 1) == [a % 0x100];
  }

  /** p is a push of d and nothing else, in any of the length forms. */
  ghost predicate Pushes(p: Bytes, d: Bytes) {
    p != [] && ReadOp(p) == Some((Op(p[0], d), []))
  }

  /** No push of the same octets is shorter. */
  lemma PushIsShortest(p: Bytes, d: Bytes)
    requires Pushes(p, d)
    ensures |Push(d)| <= |p|
  {
    var len, data := ReadOpSplits(p);
    LittleEndianBound(len);
    Powers();
    assert |OpOctets(p[0], len, data)| == 1 + |len| + |data|;
  }

  /** A push stays one whatever follows it. */
  lemma PushThen(p: Bytes, d: Bytes, more: Bytes)
    requires Pushes(p, d)
    ensures p + more != [] && ReadOp(p + more) == Some((Op(p[0], d), more))
  {
    hide ReadOp, OpOctets, DataLength, LengthWidth;
    var len, data := ReadOpSplits(p);
    assert p == OpOctets(p[0], len, data);
    ReadOctets(p[0], len, data, more);
  }

  /** Conversely what was read with data is a push and the rest. */
  lemma PushOf(s: Bytes) returns (p: Bytes)
    requires ReadOp(s).Some?
    ensures var (op, rest) := ReadOp(s).value; Pushes(p, op.data) && p[0] == op.op == s[0] && s == p + rest
  {
    hide ReadOp, DataLength, LengthWidth;
    var (op, rest) := ReadOp(s).value;
    var len, data := ReadOpSplits(s);
    p := OpOctets(op.op, len, data);
    ReadOctets(op.op, len, data, []);
    assert p + [] == p;
  }

  /** What a push is: its opcode is the length of its data up to 75, or one of three with 1, 2 or 4 octets of length. */
  lemma PushesIff(p: Bytes, d: Bytes)
    requires d != [] && p != []
    ensures Pushes(p, d) <==> exists len: Bytes ::
      && p == [p[0]] + (len + d) && len == LittleEndian(|d|, |len|)
      && (|| (len == [] && p[0] == |d| <= 0x4b) || (|len| == 1 && p[0] == 0x4c && |d| <= 0xff)
          || (|len| == 2 && p[0] == 0x4d && |d| <= 0xffff) || (|len| == 4 && p[0] == 0x4e && |d| < 0x1_0000_0000))
  {
    hide ReadOp, LittleEndian;
    if Pushes(p, d) {
      var len := LengthOf(p, d);
    }
    if len: Bytes :|
      && p == [p[0]] + (len + d) && len == LittleEndian(|d|, |len|)
      && (|| (len == [] && p[0] == |d| <= 0x4b) || (|len| == 1 && p[0] == 0x4c && |d| <= 0xff)
          || (|len| == 2 && p[0] == 0x4d && |d| <= 0xffff) || (|len| == 4 && p[0] == 0x4e && |d| < 0x1_0000_0000)) {
      Powers();
      Reads(p[0], len, d);
    }
  }

  /** The length octets of a push. */
  lemma LengthOf(p: Bytes, d: Bytes) returns (len: Bytes)
    requires Pushes(p, d) && d != []
    ensures p == [p[0]] + (len + d) && len == LittleEndian(|d|, |len|)
    ensures || (len == [] && p[0] == |d| <= 0x4b) || (|len| == 1 && p[0] == 0x4c && |d| <= 0xff)
            || (|len| == 2 && p[0] == 0x4d && |d| <= 0xffff) || (|len| == 4 && p[0] == 0x4e && |d| < 0x1_0000_0000)
  {
    hide ReadOp;
    var data: Bytes;
    len, data := ReadOpSplits(p);
    LittleEndianBound(len);
    Powers();
    ToFromLittleEndian(len);
    Spelled(p[0], len, data);
  }

  lemma Spelled(op: byte, len: Bytes, data: Bytes)
    ensures OpOctets(op, len, data) + [] == [op] + (len + data)
  {
  }

  lemma Reads(op: byte, len: Bytes, d: Bytes)
    requires |len| == LengthWidth(op) && (|len| == 0 ==> 1 <= op < OP_PUSHDATA1 && op == |d|)
    requires |len| > 0 ==> len == LittleEndian(|d|, |len|) && |d| < Pow256(|len|)
    ensures Pushes([op] + (len + d), d)
  {
    hide ReadOp, LittleEndian, FromLittleEndian;
    if |len| > 0 {
      FromToLittleEndian(|d|, |len|);
    }
    ReadOctets(op, len, d, []);
    Spelled(op, len, d);
  }

  lemma {:induction false} ToFromLittleEndian(b: Bytes)
    ensures LittleEndian(FromLittleEndian(b), |b|) == b
  {
    if b != [] {
      ToFromLittleEndian(b[1..]);
      assert b == [b[0]] + b[1..];
    }
  }
}
