/** Spendable data envelopes: a record carried as a push inside a P2PKH locking script. */
module Envelope {
  import opened Wrappers
  import opened ByteStrings
  import opened Script

  datatype Error =
    | KeyHashSize | DataTooBig
    | Unparsable | TooShort | MalformedIf | EmptyPayload | NoEnvelope | NoSpendTail
    | ForbiddenP2sh | ForbiddenReturn

  /** OP_DUP OP_HASH160 <pkh> OP_EQUALVERIFY OP_CHECKSIG. */
  function SpendTail(pkh: Bytes): seq<Piece> {
    [Code(OP_DUP), Code(OP_HASH160), Data(pkh), Code(OP_EQUALVERIFY), Code(OP_CHECKSIG)]
  }

  function IfPieces(data: Bytes, pkh: Bytes): seq<Piece> {
    [Code(OP_FALSE), Code(OP_IF), Data(data), Code(OP_ENDIF)] + SpendTail(pkh)
  }

  function DropPieces(data: Bytes, pkh: Bytes): seq<Piece> {
    [Data(data), Code(OP_DROP)] + SpendTail(pkh)
  }

  function IfEnvelope(data: Bytes, pkh: Bytes): Bytes {
    Write(IfPieces(data, pkh))
  }

  function DropEnvelope(data: Bytes, pkh: Bytes): Bytes {
    Write(DropPieces(data, pkh))
  }

  /** The wallet's plain lock. */
  function P2pkh(pkh: Bytes): Bytes {
    Write(SpendTail(pkh))
  }

  // ---------------------------------------------------------------- builders

  class Builder {
    var bytes: Bytes
    ghost var pieces: seq<Piece>

    ghost predicate Valid()
      reads this
    {
      bytes == Write(pieces)
    }

    constructor ()
      ensures Valid() && pieces == []
    {
      bytes := [];
      pieces := [];
    }

    method AppendOpcodes(ops: seq<byte>)
      requires Valid()
      modifies this
      ensures Valid() && pieces == old(pieces) + Codes(ops)
    {
      hide Write;
      for i := 0 to |ops|
        invariant Valid() && pieces == old(pieces) + Codes(ops[..i])
      {
        WriteAppend(pieces, Code(ops[i]));
        CodesAppend(ops[..i], ops[i]);
        assert ops[..i + 1] == ops[..i] + [ops[i]];
        bytes := bytes + [ops[i]];
        pieces := pieces + [Code(ops[i])];
      }
      assert ops[..|ops|] == ops;
    }

    method AppendPushData(data: Bytes) returns (r: Result<(), Error>)
      requires Valid()
      modifies this
      ensures r.Ok? <==> Pushable(data)
      ensures r.Ok? ==> Valid() && pieces == old(pieces) + [Data(data)]
    {
      if |data| >= TWO_32 {
        return Err(DataTooBig);
      }
      WriteAppend(pieces, Data(data));
      bytes := bytes + Push(data);
      pieces := pieces + [Data(data)];
      return Ok(());
    }
  }

  function Codes(ops: seq<byte>): seq<Piece> {
    if ops == [] then [] else [Code(ops[0])] + Codes(ops[1..])
  }

  lemma {:induction false} CodesAppend(ops: seq<byte>, op: byte)
    ensures Codes(ops + [op]) == Codes(ops) + [Code(op)]
  {
    if ops == [] {
      assert (ops + [op])[1..] == [];
    } else {
      CodesAppend(ops[1..], op);
      assert (ops + [op])[1..] == ops[1..] + [op];
    }
  }

  method BuildEnvelopeIf(data: Bytes, pkh: Bytes) returns (r: Result<Bytes, Error>)
    ensures r == if |pkh| != 20 then Err(KeyHashSize)
                 else if !Pushable(data) then Err(DataTooBig)
                 else Ok(IfEnvelope(data, pkh))
  {
    if |pkh| != 20 {
      return Err(KeyHashSize);
    }
    var s := new Builder();
    s.AppendOpcodes([OP_FALSE, OP_IF]);
    var pushed := s.AppendPushData(data);
    if pushed.Err? {
      return Err(DataTooBig);
    }
    s.AppendOpcodes([OP_ENDIF, OP_DUP, OP_HASH160]);
    var _ := s.AppendPushData(pkh);
    s.AppendOpcodes([OP_EQUALVERIFY, OP_CHECKSIG]);
    assert s.pieces == IfPieces(data, pkh) by {
      CodesOf();
    }
    return Ok(s.bytes);
  }

  method BuildEnvelopeDrop(data: Bytes, pkh: Bytes) returns (r: Result<Bytes, Error>)
    ensures r == if |pkh| != 20 then Err(KeyHashSize)
                 else if !Pushable(data) then Err(DataTooBig)
                 else Ok(DropEnvelope(data, pkh))
  {
    if |pkh| != 20 {
      return Err(KeyHashSize);
    }
    var s := new Builder();
    var pushed := s.AppendPushData(data);
    if pushed.Err? {
      return Err(DataTooBig);
    }
    s.AppendOpcodes([OP_DROP, OP_DUP, OP_HASH160]);
    var _ := s.AppendPushData(pkh);
    s.AppendOpcodes([OP_EQUALVERIFY, OP_CHECKSIG]);
    assert s.pieces == DropPieces(data, pkh) by {
      CodesOf();
    }
    return Ok(s.bytes);
  }

  lemma CodesOf()
    ensures forall a, b :: Codes([a, b]) == [Code(a), Code(b)]
    ensures forall a, b, c :: Codes([a, b, c]) == [Code(a), Code(b), Code(c)]
  {
    forall a: byte ensures Codes([a]) == [Code(a)] {
      assert [a][1..] == [];
    }
    forall a: byte, b: byte ensures Codes([a, b]) == [Code(a), Code(b)] {
      assert [a, b][1..] == [b];
    }
    forall a: byte, b: byte, c: byte ensures Codes([a, b, c]) == [Code(a), Code(b), Code(c)] {
      assert [a, b, c][1..] == [b, c];
    }
  }

  // ---------------------------------------------------------------- readers

  function ExtractEnvelopeData(s: Bytes): Result<Bytes, Error> {
    match Parse(s)
    case None => Err(Unparsable)
    case Some(ops) =>
      if |ops| < 2 then Err(TooShort)
      else if ops[0].op == OP_FALSE && ops[1].op == OP_IF then
        if |ops| < 4 || ops[3].op != OP_ENDIF then Err(MalformedIf)
        else if ops[2].data == [] then Err(EmptyPayload)
        else Ok(ops[2].data)
      else if ops[0].data != [] && ops[1].op == OP_DROP then Ok(ops[0].data)
      else Err(NoEnvelope)
  }

  function EnvelopePubKeyHash(s: Bytes): Result<Bytes, Error> {
    match Parse(s)
    case None => Err(Unparsable)
    case Some(ops) =>
      var n := |ops|;
      if n < 5 || ops[n - 1].op != OP_CHECKSIG || ops[n - 2].op != OP_EQUALVERIFY
         || ops[n - 4].op != OP_HASH160 || ops[n - 5].op != OP_DUP then Err(NoSpendTail)
      else if |ops[n - 3].data| != 20 then Err(KeyHashSize)
      else Ok(ops[n - 3].data)
  }

  predicate IsP2sh(s: Bytes) {
    |s| == 23 && s[0] == OP_HASH160 && s[1] == 20 && s[22] == OP_EQUAL
  }

  ghost predicate NativeSpendable(s: Bytes) {
    && !IsP2sh(s)
    && Parse(s).Some?
    && var ops := Parse(s).value;
       && (forall op <- ops :: op.op != OP_RETURN)
       && |ops| >= 5
       && ops[|ops| - 1].op == OP_CHECKSIG && ops[|ops| - 2].op == OP_EQUALVERIFY
  }

  method AssertNativeSpendable(s: Bytes) returns (e: Option<Error>)
    ensures e == None <==> NativeSpendable(s)
  {
    if IsP2sh(s) {
      return Some(ForbiddenP2sh);
    }
    var parsed := Parse(s);
    if parsed == None {
      return Some(Unparsable);
    }
    var ops := parsed.value;
    for i := 0 to |ops|
      invariant forall k :: 0 <= k < i ==> ops[k].op != OP_RETURN
    {
      if ops[i].op == OP_RETURN {
        return Some(ForbiddenReturn);
      }
    }
    var n := |ops|;
    if n < 5 || ops[n - 1].op != OP_CHECKSIG || ops[n - 2].op != OP_EQUALVERIFY {
      return Some(NoSpendTail);
    }
    return None;
  }

  // ---------------------------------------------------------------- properties

  lemma PushIsNotCode(data: Bytes)
    ensures PushOp(data).op != OP_RETURN && (PushOp(data).op == OP_FALSE <==> data == [])
  {
  }

  function TailOps(pkh: Bytes): seq<Op> {
    [Op(OP_DUP, []), Op(OP_HASH160, []), PushOp(pkh), Op(OP_EQUALVERIFY, []), Op(OP_CHECKSIG, [])]
  }

  /** A script that starts with anything but OP_HASH160 is not pay-to-script-hash. */
  lemma NotHash160(p: Piece, rest: seq<Piece>)
    requires p.Data? || p.op != OP_HASH160
    ensures !IsP2sh(Write([p] + rest))
  {
    assert Write([p] + rest) == Piece1(p) + Write(rest) by {
      assert ([p] + rest)[1..] == rest;
    }
    if p.Data? {
      assert (Push(p.data) + Write(rest))[0] == PushOpcode(|p.data|) != OP_HASH160;
    }
  }

  lemma IfParsed(data: Bytes, pkh: Bytes)
    requires Pushable(data) && |pkh| == 20
    ensures Parse(IfEnvelope(data, pkh)) ==
      Some([Op(OP_FALSE, []), Op(OP_IF, []), PushOp(data), Op(OP_ENDIF, [])] + TailOps(pkh))
    ensures !IsP2sh(IfEnvelope(data, pkh))
  {
    hide Write, Parse, IsP2sh, Push, Ops;
    var ps := IfPieces(data, pkh);
    ParseWrite(ps);
    assert Ops(ps) == [Op(OP_FALSE, []), Op(OP_IF, []), PushOp(data), Op(OP_ENDIF, [])] + TailOps(pkh);
    assert [ps[0]] + ps[1..] == ps;
    NotHash160(ps[0], ps[1..]);
  }

  lemma DropParsed(data: Bytes, pkh: Bytes)
    requires Pushable(data) && |pkh| == 20
    ensures Parse(DropEnvelope(data, pkh)) == Some([PushOp(data), Op(OP_DROP, [])] + TailOps(pkh))
    ensures !IsP2sh(DropEnvelope(data, pkh))
  {
    hide Write, Parse, IsP2sh, Push, Ops;
    var ps := DropPieces(data, pkh);
    ParseWrite(ps);
    assert Ops(ps) == [PushOp(data), Op(OP_DROP, [])] + TailOps(pkh);
    assert [ps[0]] + ps[1..] == ps;
    NotHash160(ps[0], ps[1..]);
  }

  /**
   The if-envelope of any payload that can be pushed is spendable by its key, and yields the payload
   back exactly when the payload is not empty, in all four length forms and for any octets.
   */
  lemma IfEnvelopeRoundTrip(data: Bytes, pkh: Bytes)
    requires Pushable(data) && |pkh| == 20
    ensures ExtractEnvelopeData(IfEnvelope(data, pkh)) == if data == [] then Err(EmptyPayload) else Ok(data)
    ensures EnvelopePubKeyHash(IfEnvelope(data, pkh)) == Ok(pkh)
    ensures NativeSpendable(IfEnvelope(data, pkh))
  {
    IfParsed(data, pkh);
    PushIsNotCode(data);
    PushIsNotCode(pkh);
  }

  lemma DropEnvelopeRoundTrip(data: Bytes, pkh: Bytes)
    requires Pushable(data) && |pkh| == 20
    ensures ExtractEnvelopeData(DropEnvelope(data, pkh)) == if data == [] then Err(NoEnvelope) else Ok(data)
    ensures EnvelopePubKeyHash(DropEnvelope(data, pkh)) == Ok(pkh)
    ensures NativeSpendable(DropEnvelope(data, pkh))
  {
    DropParsed(data, pkh);
    PushIsNotCode(data);
    PushIsNotCode(pkh);
  }

  /** The wallet's change output carries no envelope, so a search of the outputs passes over it. */
  lemma P2pkhIsNoEnvelope(pkh: Bytes)
    requires |pkh| == 20
    ensures ExtractEnvelopeData(P2pkh(pkh)).Err?
    ensures EnvelopePubKeyHash(P2pkh(pkh)) == Ok(pkh)
  {
    ParseWrite(SpendTail(pkh));
  }

  /**
   The spend check looks at the last two opcodes only.  A script that passes it names a key exactly when the
   three operations before them are OP_DUP, OP_HASH160 and a push of 20 octets.
   */
  lemma SpendableNamesKeyIff(s: Bytes)
    requires NativeSpendable(s)
    ensures var ops := Parse(s).value; var n := |ops|;
      EnvelopePubKeyHash(s).Ok? <==> ops[n - 5].op == OP_DUP && ops[n - 4].op == OP_HASH160 && |ops[n - 3].data| == 20
  {
  }

  /** The 25 octets of a pay-to-public-key-hash lock. */
  lemma P2pkhOctets(pkh: Bytes)
    requires |pkh| == 20
    ensures P2pkh(pkh) == [OP_DUP] + ([OP_HASH160] + ([20] + (pkh + ([OP_EQUALVERIFY] + [OP_CHECKSIG]))))
    ensures Parse(P2pkh(pkh)) == Some(TailOps(pkh))
  {
    hide Write, Parse, Ops, Push;
    var ps := SpendTail(pkh);
    ParseWrite(ps);
    assert Ops(ps) == TailOps(pkh);
    WriteFive(ps[0], ps[1], ps[2], ps[3], ps[4]);
    assert ps == [ps[0], ps[1], ps[2], ps[3], ps[4]];
    PushTwenty(pkh, [OP_EQUALVERIFY] + [OP_CHECKSIG]);
  }

  lemma PushTwenty(pkh: Bytes, more: Bytes)
    requires |pkh| == 20
    ensures Push(pkh) + more == [20] + (pkh + more)
  {
    assert LittleEndian(20, 0) == [] && Push(pkh) == [20] + pkh;
  }

  lemma WriteFive(a: Piece, b: Piece, c: Piece, d: Piece, e: Piece)
    ensures Write([a, b, c, d, e]) == Piece1(a) + (Piece1(b) + (Piece1(c) + (Piece1(d) + Piece1(e))))
  {
    hide Piece1;
    assert [e][1..] == [] && [d, e][1..] == [e] && [c, d, e][1..] == [d, e];
    assert [b, c, d, e][1..] == [c, d, e] && [a, b, c, d, e][1..] == [b, c, d, e];
    assert Write([e]) == Piece1(e) + Write([]);
    assert Write([d, e]) == Piece1(d) + Write([e]);
    assert Write([c, d, e]) == Piece1(c) + Write([d, e]);
    assert Write([b, c, d, e]) == Piece1(b) + Write([c, d, e]);
  }

  /** Any script that parses, followed by the 25 octets of a lock, names the key of the lock. */
  lemma LockNamesKey(front: Bytes, pkh: Bytes)
    requires Parse(front).Some? && |pkh| == 20
    ensures EnvelopePubKeyHash(front + P2pkh(pkh)) == Ok(pkh)
  {
    hide Parse, P2pkh;
    P2pkhOctets(pkh);
    ParseAppend(front, P2pkh(pkh));
    var ops := Parse(front).value;
    assert forall i :: 0 <= i < 5 ==> (ops + TailOps(pkh))[|ops| + i] == TailOps(pkh)[i];
  }

  /**
   Conversely a script that names a key by a direct push ends in the 25 octets of that key's lock, and what
   stands before them parses; the only other form pushes the hash behind a length octet.
   */
  lemma KeyNamedByLock(s: Bytes, pkh: Bytes) returns (front: Bytes)
    requires EnvelopePubKeyHash(s) == Ok(pkh) && Parse(s).value[|Parse(s).value| - 3].op == 20
    ensures Parse(front).Some? && s == front + P2pkh(pkh)
  {
    hide Parse, P2pkh, ReadOp;
    var ops := Parse(s).value;
    var n := |ops|;
    var back: Bytes;
    front, back := ParseSplit(s, n - 5);
    var tail := ops[n - 5..];
    assert tail == [tail[0], tail[1], tail[2], tail[3], tail[4]];
    TailOctets(back, tail);
    P2pkhOctets(pkh);
  }

  lemma TailOctets(b: Bytes, ops: seq<Op>)
    requires Parse(b) == Some(ops) && |ops| == 5
    requires ops[0].op == OP_DUP && ops[1].op == OP_HASH160 && ops[2].op == 20
    requires ops[3].op == OP_EQUALVERIFY && ops[4].op == OP_CHECKSIG
    ensures b == [OP_DUP] + ([OP_HASH160] + ([20] + (ops[2].data + ([OP_EQUALVERIFY] + [OP_CHECKSIG]))))
  {
    hide ReadOp;
    var b1 := NextOp(b, ops);
    var b2 := NextOp(b1, ops[1..]);
    var b3 := NextOp(b2, ops[2..]);
    var b4 := NextOp(b3, ops[3..]);
    var b5 := NextOp(b4, ops[4..]);
    assert b5 == [];
    PlainOp(b, b1);
    PlainOp(b1, b2);
    DirectPush(b2, b3);
    PlainOp(b3, b4);
    PlainOp(b4, b5);
    assert [OP_CHECKSIG] + [] == [OP_CHECKSIG];
  }

  lemma NextOp(b: Bytes, ops: seq<Op>) returns (rest: Bytes)
    requires Parse(b) == Some(ops) && ops != []
    ensures ReadOp(b) == Some((ops[0], rest)) && Parse(rest) == Some(ops[1..])
  {
    rest := ReadOp(b).value.1;
  }

  lemma PlainOp(b: Bytes, rest: Bytes)
    requires ReadOp(b).Some? && ReadOp(b).value.1 == rest && ReadOp(b).value.0.op > OP_PUSHDATA4
    ensures b == [ReadOp(b).value.0.op] + rest
  {
  }

  lemma DirectPush(b: Bytes, rest: Bytes)
    requires ReadOp(b).Some? && ReadOp(b).value.1 == rest && ReadOp(b).value.0.op == 20
    ensures b == [20] + (ReadOp(b).value.0.data + rest)
  {
    assert b == [b[0]] + b[1..] && b[1..] == b[1..][..20] + b[1..][20..];
  }

  /** The octets of a lock: OP_DUP OP_HASH160, a push of the hash, OP_EQUALVERIFY OP_CHECKSIG. */
  lemma LockOctets(pkh: Bytes)
    requires |pkh| == 20
    ensures P2pkh(pkh) == [0x76, 0xa9, 0x14] + (pkh + [0x88, 0xac])
  {
    hide P2pkh, Parse;
    P2pkhOctets(pkh);
    assert [OP_DUP] + ([OP_HASH160] + ([20] + (pkh + ([OP_EQUALVERIFY] + [OP_CHECKSIG])))) == [0x76, 0xa9, 0x14] + (pkh + [0x88, 0xac]);
  }

  /** The octets of both envelopes: the payload behind OP_FALSE OP_IF or before OP_DROP, then the lock. */
  lemma EnvelopeOctets(data: Bytes, pkh: Bytes)
    ensures IfEnvelope(data, pkh) == [0x00, 0x63] + (Push(data) + ([0x68] + P2pkh(pkh)))
    ensures DropEnvelope(data, pkh) == Push(data) + ([0x75] + P2pkh(pkh))
  {
    hide Push;
    var tail := SpendTail(pkh);
    var ifs, drops := IfPieces(data, pkh), DropPieces(data, pkh);
    assert ifs[1..][1..][1..][1..] == tail && drops[1..][1..] == tail;
    assert Write(ifs[1..][1..][1..]) == [0x68] + P2pkh(pkh);
    assert Write(ifs[1..][1..]) == Push(data) + ([0x68] + P2pkh(pkh));
    assert Write(ifs) == [0x00] + ([0x63] + Write(ifs[1..][1..]));
    assert Write(drops[1..]) == [0x75] + P2pkh(pkh);
  }

  /**
   What counts as an envelope, for every script: a payload that is not empty is extracted exactly from OP_FALSE OP_IF,
   a push of it, and OP_ENDIF, or from a push of it and OP_DROP, before anything that parses.
   */
  lemma ExtractIff(s: Bytes, d: Bytes)
    ensures ExtractEnvelopeData(s) == Ok(d) <==> d != [] && exists p, rest ::
      && Pushes(p, d) && Parse(rest).Some?
      && (s == [0x00, 0x63] + (p + ([0x68] + rest)) || s == p + ([0x75] + rest))
  {
    hide ReadOp;
    if ExtractEnvelopeData(s) == Ok(d) {
      var p, rest := ExtractedFrom(s, d);
    }
    if d != [] {
      if p, rest :|
        && Pushes(p, d) && Parse(rest).Some?
        && (s == [0x00, 0x63] + (p + ([0x68] + rest)) || s == p + ([0x75] + rest)) {
        if s == p + ([0x75] + rest) {
          PushedFirst(p, rest, d);
        } else {
          PushedInside(p, rest, d);
        }
      }
    }
  }

  lemma PushedFirst(p: Bytes, rest: Bytes, d: Bytes)
    requires Pushes(p, d) && Parse(rest).Some? && d != []
    ensures ExtractEnvelopeData(p + ([0x75] + rest)) == Ok(d)
  {
    PushOpcodes(p, d);
    hide Parse, ReadOp;
    var ops := Parse(rest).value;
    CodeThen(0x75, rest, ops);
    DataThen(p, d, [0x75] + rest, [Op(0x75, [])] + ops);
  }

  lemma PushedInside(p: Bytes, rest: Bytes, d: Bytes)
    requires Pushes(p, d) && Parse(rest).Some? && d != []
    ensures ExtractEnvelopeData([0x00, 0x63] + (p + ([0x68] + rest))) == Ok(d)
  {
    hide Parse, ReadOp;
    var ops := Parse(rest).value;
    CodeThen(0x68, rest, ops);
    DataThen(p, d, [0x68] + rest, [Op(0x68, [])] + ops);
    CodeThen(0x63, p + ([0x68] + rest), [Op(p[0], d)] + ([Op(0x68, [])] + ops));
    CodeThen(0x00, [0x63] + (p + ([0x68] + rest)), [Op(0x63, [])] + ([Op(p[0], d)] + ([Op(0x68, [])] + ops)));
    assert [0x00, 0x63] + (p + ([0x68] + rest)) == [0x00] + ([0x63] + (p + ([0x68] + rest)));
  }

  /** An operation with data is a push. */
  lemma PushOpcodes(p: Bytes, d: Bytes)
    requires Pushes(p, d) && d != []
    ensures p[0] != OP_FALSE
  {
  }

  lemma ExtractedFrom(s: Bytes, d: Bytes) returns (p: Bytes, rest: Bytes)
    requires ExtractEnvelopeData(s) == Ok(d)
    ensures d != [] && Pushes(p, d) && Parse(rest).Some?
    ensures s == [0x00, 0x63] + (p + ([0x68] + rest)) || s == p + ([0x75] + rest)
  {
    hide ReadOp;
    var ops := Parse(s).value;
    var s1 := NextOp(s, ops);
    var s2 := NextOp(s1, ops[1..]);
    if ops[0].op == OP_FALSE && ops[1].op == OP_IF {
      var s3 := NextOp(s2, ops[2..]);
      var s4 := NextOp(s3, ops[3..]);
      ZeroOp(s, s1);
      PlainOp(s1, s2);
      p := PushOf(s2);
      PlainOp(s3, s4);
      rest := s4;
      assert [0x00] + ([0x63] + (p + ([0x68] + rest))) == [0x00, 0x63] + (p + ([0x68] + rest));
    } else {
      p := PushOf(s);
      PlainOp(s1, s2);
      rest := s2;
    }
  }

  lemma ZeroOp(b: Bytes, rest: Bytes)
    requires ReadOp(b).Some? && ReadOp(b).value.1 == rest && ReadOp(b).value.0.op == 0
    ensures b == [0x00] + rest
  {
  }

  /** What passes the spend check, for every script: three operations or more, none OP_RETURN, before 0x88 0xac. */
  lemma SpendableIff(s: Bytes)
    ensures NativeSpendable(s) <==> exists front ::
      && s == front + [0x88, 0xac] && Parse(front).Some? && |Parse(front).value| >= 3
      && forall op <- Parse(front).value :: op.op != 0x6a
  {
    hide ReadOp, Parse;
    if NativeSpendable(s) {
      var ops := Parse(s).value;
      var front, back := ParseSplit(s, |ops| - 2);
      CheckTail(back, ops[|ops| - 2..]);
      assert forall op <- Parse(front).value :: op in ops;
    }
    if front :|
      && s == front + [0x88, 0xac] && Parse(front).Some? && |Parse(front).value| >= 3
      && forall op <- Parse(front).value :: op.op != 0x6a {
      TailParses();
      ParseAppend(front, [0x88, 0xac]);
      assert s[|s| - 1] == 0xac;
      assert |s| == 23 ==> s[22] == 0xac;
    }
  }

  lemma TailParses()
    ensures Parse([0x88, 0xac]) == Some([Op(0x88, []), Op(0xac, [])])
  {
    assert Parse([]) == Some([]);
    hide Parse, ReadOp;
    CodeThen(0xac, [], []);
    assert [0xac] + [] == [0xac] && [0x88] + [0xac] == [0x88, 0xac];
    assert [Op(0xac, [])] + [] == [Op(0xac, [])];
    CodeThen(0x88, [0xac], [Op(0xac, [])]);
    assert [Op(0x88, [])] + [Op(0xac, [])] == [Op(0x88, []), Op(0xac, [])];
  }

  lemma CodeThen(op: byte, rest: Bytes, ops: seq<Op>)
    requires PlainOpcode(op) && Parse(rest) == Some(ops)
    ensures Parse([op] + rest) == Some([Op(op, [])] + ops)
  {
    ReadPlain(op, rest);
    hide ReadOp;
  }

  lemma DataThen(p: Bytes, d: Bytes, rest: Bytes, ops: seq<Op>)
    requires Pushes(p, d) && Parse(rest) == Some(ops)
    ensures Parse(p + rest) == Some([Op(p[0], d)] + ops)
  {
    PushThen(p, d, rest);
    hide ReadOp;
  }

  lemma CheckTail(b: Bytes, ops: seq<Op>)
    requires Parse(b) == Some(ops) && |ops| == 2 && ops[0].op == OP_EQUALVERIFY && ops[1].op == OP_CHECKSIG
    ensures b == [0x88, 0xac]
  {
    hide ReadOp;
    var b1 := NextOp(b, ops);
    var b2 := NextOp(b1, ops[1..]);
    assert b2 == [];
    PlainOp(b, b1);
    PlainOp(b1, b2);
    assert [0xac] + [] == [0xac];
  }

  /** What names a key, for every script: a push of its hash between 0x76 0xa9 and 0x88 0xac, after a front that parses. */
  lemma KeyNamedIff(s: Bytes, pkh: Bytes)
    ensures EnvelopePubKeyHash(s) == Ok(pkh) <==> |pkh| == 20 && exists front, p ::
      Parse(front).Some? && Pushes(p, pkh) && s == front + ([0x76, 0xa9] + (p + [0x88, 0xac]))
  {
    hide ReadOp, Parse;
    if EnvelopePubKeyHash(s) == Ok(pkh) {
      var ops := Parse(s).value;
      var front, back := ParseSplit(s, |ops| - 5);
      var p := KeyTail(back, ops[|ops| - 5..]);
      assert s == front + ([0x76, 0xa9] + (p + [0x88, 0xac]));
    }
    if |pkh| == 20 {
      if front, p :| Parse(front).Some? && Pushes(p, pkh) && s == front + ([0x76, 0xa9] + (p + [0x88, 0xac])) {
        KeyTailParses(p, pkh);
        ParseAppend(front, [0x76, 0xa9] + (p + [0x88, 0xac]));
      }
    }
  }

  lemma KeyTail(b: Bytes, ops: seq<Op>) returns (p: Bytes)
    requires Parse(b) == Some(ops) && |ops| == 5
    requires ops[0].op == OP_DUP && ops[1].op == OP_HASH160 && ops[3].op == OP_EQUALVERIFY && ops[4].op == OP_CHECKSIG
    ensures Pushes(p, ops[2].data) && b == [0x76, 0xa9] + (p + [0x88, 0xac])
  {
    hide ReadOp;
    var b1 := NextOp(b, ops);
    var b2 := NextOp(b1, ops[1..]);
    var b3 := NextOp(b2, ops[2..]);
    PlainOp(b, b1);
    PlainOp(b1, b2);
    p := PushOf(b2);
    CheckTail(b3, ops[3..]);
    assert [0x76] + ([0xa9] + (p + [0x88, 0xac])) == [0x76, 0xa9] + (p + [0x88, 0xac]);
  }

  lemma KeyTailParses(p: Bytes, pkh: Bytes)
    requires Pushes(p, pkh)
    ensures Parse([0x76, 0xa9] + (p + [0x88, 0xac])) ==
      Some([Op(0x76, []), Op(0xa9, []), Op(p[0], pkh), Op(0x88, []), Op(0xac, [])])
  {
    hide Parse, ReadOp;
    var tail := [Op(0x88, []), Op(0xac, [])];
    TailParses();
    DataThen(p, pkh, [0x88, 0xac], tail);
    CodeThen(0xa9, p + [0x88, 0xac], [Op(p[0], pkh)] + tail);
    CodeThen(0x76, [0xa9] + (p + [0x88, 0xac]), [Op(0xa9, [])] + ([Op(p[0], pkh)] + tail));
    assert [0x76, 0xa9] + (p + [0x88, 0xac]) == [0x76] + ([0xa9] + (p + [0x88, 0xac]));
    assert [Op(0x76, [])] + ([Op(0xa9, [])] + ([Op(p[0], pkh)] + tail)) ==
      [Op(0x76, []), Op(0xa9, []), Op(p[0], pkh), Op(0x88, []), Op(0xac, [])];
  }

  /** Some scripts pass the check and name no key. */
  lemma SpendCheckIgnoresKey()
    ensures var s := Write([Code(0x51), Code(0x51), Code(0x51), Code(OP_EQUALVERIFY), Code(OP_CHECKSIG)]);
      NativeSpendable(s) && EnvelopePubKeyHash(s).Err?
  {
    var ps := [Code(0x51), Code(0x51), Code(0x51), Code(OP_EQUALVERIFY), Code(OP_CHECKSIG)];
    ParseWrite(ps);
    assert Write(ps)[0] == 0x51;
  }
}
