/** The TypeScript codec: a chunked writer and a reader that throws at its first error. */
module TsCodec {
  import opened Wrappers
  import opened ByteStrings
  import opened Format
  import Utf8
  import GoCodec

  /** A thrown exception. */
  datatype Thrown = Thrown

  /** A well-formed JavaScript string, as its scalar values. */
  type Text = seq<Utf8.Scalar>

  const BOM: Utf8.Scalar := 0xFEFF

  datatype TsMessage = TsMessage(
    tableId: Text, rowId: Bytes, columnId: Text, op: byte, seqNo: u64, prevTxid: Bytes)

  datatype TsRecord = TsRecord(
    streamId: Bytes, message: TsMessage, imageKind: byte, changeImage: Bytes, tag: Bytes)

  // ---------------------------------------------------------------- views of the Go values

  /** TextDecoder drops one leading byte-order mark. */
  function StripBom(t: Text): Text {
    if t != [] && t[0] == BOM then t[1..] else t
  }

  predicate StartsWithBom(b: Bytes) {
    |b| >= 3 && b[0] == 0xEF && b[1] == 0xBB && b[2] == 0xBF
  }

  function TextOf(b: Bytes): Text
    requires Utf8.Valid(b)
  {
    StripBom(Utf8.Decode(b).value)
  }

  function ViewMessage(m: ChangeMessage): TsMessage
    requires WellFormedMessage(m)
  {
    TsMessage(TextOf(m.tableId), m.rowId, TextOf(m.columnId), m.op, m.seqNo, m.prevTxid)
  }

  function ViewRecord(r: FieldRecord): TsRecord
    requires WellFormedMessage(r.message)
  {
    TsRecord(r.streamId, ViewMessage(r.message), r.imageKind, r.changeImage, r.tag)
  }

  function GoMessage(m: TsMessage): ChangeMessage {
    ChangeMessage(Utf8.Encode(m.tableId), m.rowId, Utf8.Encode(m.columnId), m.op, m.seqNo, m.prevTxid)
  }

  function GoRecord(r: TsRecord): FieldRecord {
    FieldRecord(r.streamId, GoMessage(r.message), r.imageKind, r.changeImage, r.tag)
  }

  // ---------------------------------------------------------------- writer

  class Writer {
    var chunks: seq<Bytes>

    ghost function Contents(): Bytes
      reads this
    {
      Join(chunks)
    }

    constructor ()
      ensures Contents() == []
    {
      chunks := [];
    }

    method Raw(p: Bytes)
      modifies this
      ensures Contents() == old(Contents()) + p
    {
      JoinAppend(chunks, p);
      chunks := chunks + [p];
    }

    method U8(x: byte)
      modifies this
      ensures Contents() == old(Contents()) + [x]
    {
      Raw([x]);
    }

    method U32(x: nat) returns (r: Result<(), Thrown>)
      modifies this
      ensures r.Ok? <==> x < TWO_32
      ensures r.Ok? ==> Contents() == old(Contents()) + BigEndian(x, 4)
    {
      if x > 0xffff_ffff {
        return Err(Thrown);
      }
      FourOctets(x);
      Raw([x / 0x100_0000 % 0x100, x / 0x1_0000 % 0x100, x / 0x100 % 0x100, x % 0x100]);
      return Ok(());
    }

    method U64(x: u64)
      modifies this
      ensures Contents() == old(Contents()) + U64Bytes(x)
    {
      var b: Bytes := seq(8, _ => 0);
      var v: nat := x;
      var i := 7;
      while i >= 0
        invariant -1 <= i <= 7 && |b| == 8
        invariant BigEndian(v, i + 1) + b[i + 1..] == BigEndian(x, 8)
      {
        assert BigEndian(v, i + 1) == BigEndian(v / 0x100, i) + [v % 0x100];
        ghost var after := b[i + 1..];
        b := b[i := v % 0x100];
        assert b[i..] == [v % 0x100] + after;
        v := v / 0x100;
        i := i - 1;
      }
      assert b == b[0..];
      Raw(b);
    }

    method Octets(p: Bytes) returns (r: Result<(), Thrown>)
      modifies this
      ensures r.Ok? <==> Fits(p)
      ensures r.Ok? ==> Contents() == old(Contents()) + Prefixed(p)
    {
      var _ :- U32(|p|);
      Raw(p);
      return Ok(());
    }

    method Str(t: Text) returns (r: Result<(), Thrown>)
      modifies this
      ensures r.Ok? <==> Fits(Utf8.Encode(t))
      ensures r.Ok? ==> Contents() == old(Contents()) + Prefixed(Utf8.Encode(t))
    {
      r := Octets(Utf8.Encode(t));
    }

    method Finish() returns (out: Bytes)
      ensures out == Contents()
    {
      out := Concat(chunks);
    }
  }

  ghost function Join(parts: seq<Bytes>): Bytes {
    if parts == [] then [] else parts[0] + Join(parts[1..])
  }

  lemma {:induction false} JoinAppend(parts: seq<Bytes>, p: Bytes)
    ensures Join(parts + [p]) == Join(parts) + p
  {
    if parts != [] {
      JoinAppend(parts[1..], p);
      assert (parts + [p])[1..] == parts[1..] + [p];
    } else {
      assert (parts + [p])[1..] == [];
    }
  }

  /** concat: measures the parts, then copies each one to its offset. */
  method Concat(parts: seq<Bytes>) returns (r: Bytes)
    ensures r == Join(parts)
  {
    var n := 0;
    for i := 0 to |parts|
      invariant n == |Join(parts[..i])|
    {
      n := n + |parts[i]|;
      assert parts[..i + 1] == parts[..i] + [parts[i]];
      JoinAppend(parts[..i], parts[i]);
    }
    assert parts[..|parts|] == parts;
    var out := new byte[n];
    var off := 0;
    for i := 0 to |parts|
      invariant off == |Join(parts[..i])| <= n
      invariant out[..off] == Join(parts[..i])
    {
      assert parts[..i + 1] == parts[..i] + [parts[i]];
      JoinAppend(parts[..i], parts[i]);
      JoinPrefix(parts, i + 1);
      forall k | 0 <= k < |parts[i]| {
        out[off + k] := parts[i][k];
      }
      assert out[..off + |parts[i]|] == out[..off] + parts[i];
      off := off + |parts[i]|;
    }
    return out[..];
  }

  lemma {:induction false} JoinPrefix(parts: seq<Bytes>, i: nat)
    requires i <= |parts|
    ensures |Join(parts[..i])| <= |Join(parts)|
    decreases |parts| - i
  {
    if i == |parts| {
      assert parts[..i] == parts;
    } else {
      assert parts[..i + 1] == parts[..i] + [parts[i]];
      JoinAppend(parts[..i], parts[i]);
      JoinPrefix(parts, i + 1);
    }
  }

  method EncodeMessage(m: TsMessage) returns (r: Result<Bytes, Thrown>)
    ensures r.Ok? <==>
      && LinkSize(m.prevTxid) && Fits(m.rowId)
      && Fits(Utf8.Encode(m.tableId)) && Fits(Utf8.Encode(m.columnId))
    ensures r.Ok? ==> r.value == MessageBytes(GoMessage(m))
  {
    if |m.prevTxid| != 0 && |m.prevTxid| != 32 {
      return Err(Thrown);
    }
    var w := new Writer();
    w.Raw(MAGIC_M);
    w.U8(VERSION);
    assert w.Contents() == Header(MAGIC_M);
    var _ :- w.Str(m.tableId);
    var _ :- w.Octets(m.rowId);
    var _ :- w.Str(m.columnId);
    ghost var cell := w.Contents();
    w.U8(m.op);
    w.U64(m.seqNo);
    var _ := w.Octets(m.prevTxid);  // at most 32 octets: does not throw
    GoCodec.LeftNested3(cell, [m.op], U64Bytes(m.seqNo), Prefixed(m.prevTxid));
    GoCodec.LeftNested4(Header(MAGIC_M), Prefixed(Utf8.Encode(m.tableId)), Prefixed(m.rowId),
                        Prefixed(Utf8.Encode(m.columnId)), PositionBytes(m.op, m.seqNo, m.prevTxid));
    var out := w.Finish();
    return Ok(out);
  }

  /** Where this encoder does not throw, it writes the octets of the Go encoder. */
  method EncodeRecord(rec: TsRecord) returns (r: Result<Bytes, Thrown>)
    ensures r.Ok? <==>
      var m := GoMessage(rec.message);
      && |rec.tag| == 32 && LinkSize(m.prevTxid)
      && Fits(m.tableId) && Fits(m.rowId) && Fits(m.columnId)
      && Fits(rec.streamId) && Fits(MessageBytes(m)) && Fits(rec.changeImage)
    ensures r.Ok? ==> r.value == RecordBytes(GoRecord(rec))
  {
    if |rec.tag| != 32 {
      return Err(Thrown);
    }
    var w := new Writer();
    w.Raw(MAGIC_R);
    w.U8(VERSION);
    assert w.Contents() == Header(MAGIC_R);
    var _ :- w.Octets(rec.streamId);
    var inner :- EncodeMessage(rec.message);
    var _ :- w.Octets(inner);
    ghost var head := w.Contents();
    w.U8(rec.imageKind);
    var _ :- w.Octets(rec.changeImage);
    var _ := w.Octets(rec.tag);  // 32 octets: does not throw
    GoCodec.LeftNested3(head, [rec.imageKind], Prefixed(rec.changeImage), Prefixed(rec.tag));
    GoCodec.LeftNested3(Header(MAGIC_R), Prefixed(rec.streamId), Prefixed(inner),
                        ImageBytes(rec.imageKind, rec.changeImage, rec.tag));
    var out := w.Finish();
    return Ok(out);
  }

  // ---------------------------------------------------------------- reader

  class Reader {
    const buf: Bytes
    var off: nat

    ghost predicate Valid()
      reads this
    {
      off <= |buf|
    }

    ghost function Rest(): Bytes
      reads this
      requires Valid()
    {
      buf[off..]
    }

    constructor (buf: Bytes)
      ensures this.buf == buf && Valid() && Rest() == buf
    {
      this.buf := buf;
      off := 0;
    }

    method Need(n: nat) returns (r: Result<(), Thrown>)
      requires Valid()
      ensures r.Ok? <==> n <= |Rest()|
    {
      if off + n > |buf| {
        return Err(Thrown);
      }
      return Ok(());
    }

    method U8() returns (r: Result<byte, Thrown>)
      requires Valid()
      modifies this
      ensures Valid()
      ensures match old(TakeU8(Rest()))
        case None => r.Err?
        case Some((x, rest)) => r == Ok(x) && Rest() == rest
    {
      var _ :- Need(1);
      var v := buf[off];
      off := off + 1;
      return Ok(v);
    }

    method U32() returns (r: Result<nat, Thrown>)
      requires Valid()
      modifies this
      ensures Valid()
      ensures match old(TakeU32(Rest()))
        case None => r.Err?
        case Some((x, rest)) => r == Ok(x) && Rest() == rest
    {
      var _ :- Need(4);
      ghost var s := Rest()[..4];
      FromFour(s);
      var top: nat, b1: nat, b2: nat, b3: nat := buf[off], buf[off + 1], buf[off + 2], buf[off + 3];
      var v := top * 0x100_0000 + (b1 * 0x1_0000 + b2 * 0x100 + b3);
      off := off + 4;
      return Ok(v);
    }

    method U64() returns (r: Result<u64, Thrown>)
      requires Valid()
      modifies this
      ensures Valid()
      ensures match old(TakeU64(Rest()))
        case None => r.Err?
        case Some((x, rest)) => r == Ok(x) && Rest() == rest
    {
      var _ :- Need(8);
      Powers();
      ghost var s := Rest()[..8];
      var v: nat := 0;
      for i := 0 to 8
        invariant v == FromBigEndian(s[..i])
      {
        assert s[..i + 1][..i] == s[..i] && s[..i + 1][i] == buf[off + i];
        v := v * 0x100 + buf[off + i];
      }
      assert s[..8] == s;
      off := off + 8;
      return Ok(v);
    }

    method Raw(n: nat) returns (r: Result<Bytes, Thrown>)
      requires Valid()
      modifies this
      ensures Valid()
      ensures match old(TakeRaw(Rest(), n))
        case None => r.Err?
        case Some((x, rest)) => r == Ok(x) && Rest() == rest
    {
      var _ :- Need(n);
      var p := buf[off..off + n];
      assert p == Rest()[..n];
      off := off + n;
      return Ok(p);
    }

    method Octets() returns (r: Result<Bytes, Thrown>)
      requires Valid()
      modifies this
      ensures Valid()
      ensures match old(TakePrefixed(Rest()))
        case None => r.Err?
        case Some((x, rest)) => r == Ok(x) && Rest() == rest
    {
      var n :- U32();
      r := Raw(n);
    }

    method Str() returns (r: Result<Text, Thrown>)
      requires Valid()
      modifies this
      ensures Valid()
      ensures match old(TakeString(Rest()))
        case None => r.Err?
        case Some((x, rest)) => Utf8.Valid(x) && r == Ok(TextOf(x)) && Rest() == rest
    {
      var b :- Octets();
      match Utf8.Decode(b)
      case None => return Err(Thrown);
      case Some(t) => return Ok(StripBom(t));
    }

    method End() returns (r: Result<(), Thrown>)
      requires Valid()
      ensures r.Ok? <==> Rest() == []
    {
      if off != |buf| {
        return Err(Thrown);
      }
      return Ok(());
    }
  }

  lemma FromFour(s: Bytes)
    requires |s| == 4
    ensures FromBigEndian(s) ==
      (s[0] as int) * 0x100_0000 + ((s[1] as int) * 0x1_0000 + (s[2] as int) * 0x100 + (s[3] as int))
  {
    assert s[..3][..2] == s[..2] && s[..2][..1] == s[..1] && s[..1][..0] == [];
    assert FromBigEndian(s[..1]) == s[0];
    assert FromBigEndian(s[..2]) == FromBigEndian(s[..1]) * 0x100 + s[1];
    assert FromBigEndian(s[..3]) == FromBigEndian(s[..2]) * 0x100 + s[2];
  }

  method ReadHeader(rd: Reader, magic: Bytes) returns (r: Result<(), Thrown>)
    requires rd.Valid() && |magic| == 4
    modifies rd
    ensures rd.Valid()
    ensures match old(TakeHeader(rd.Rest(), magic))
      case None => r.Err?
      case Some(rest) => r.Ok? && rd.Rest() == rest
  {
    var m :- rd.Raw(4);
    for i := 0 to 4
      invariant m[..i] == magic[..i]
    {
      if m[i] != magic[i] {
        return Err(Thrown);
      }
    }
    assert m == m[..4] && magic == magic[..4];
    var version :- rd.U8();
    if version != VERSION {
      return Err(Thrown);
    }
    return Ok(());
  }

  method DecodeMessage(buf: Bytes) returns (r: Result<TsMessage, Thrown>)
    ensures match ParseMessage(buf)
      case None => r.Err?
      case Some(m) => WellFormedMessage(m) && r == Ok(ViewMessage(m))
  {
    if ParseMessage(buf).Some? {
      MessageInverse(buf);
    }
    var rd := new Reader(buf);
    var _ :- ReadHeader(rd, MAGIC_M);
    var tableId :- rd.Str();
    var rowId :- rd.Octets();
    var columnId :- rd.Str();
    var position :- ReadPosition(rd);
    return Ok(TsMessage(tableId, rowId, columnId, position.0, position.1, position.2));
  }

  method ReadPosition(rd: Reader) returns (r: Result<(byte, u64, Bytes), Thrown>)
    requires rd.Valid()
    modifies rd
    ensures match old(ParsePosition(rd.Rest()))
      case None => r.Err?
      case Some(p) => r == Ok(p)
  {
    var op :- rd.U8();
    if op != OP_INSERT && op != OP_UPDATE && op != OP_DELETE {
      return Err(Thrown);
    }
    var seqNo :- rd.U64();
    var prevTxid :- rd.Octets();
    var _ :- rd.End();
    if |prevTxid| != 0 && |prevTxid| != 32 {
      return Err(Thrown);
    }
    return Ok((op, seqNo, prevTxid));
  }

  method ReadImage(rd: Reader) returns (r: Result<(byte, Bytes, Bytes), Thrown>)
    requires rd.Valid()
    modifies rd
    ensures match old(ParseImage(rd.Rest()))
      case None => r.Err?
      case Some(p) => r == Ok(p)
  {
    var kind :- rd.U8();
    if kind != IMAGE_PLAINTEXT && kind != IMAGE_COMMITMENT {
      return Err(Thrown);
    }
    var image :- rd.Octets();
    var tag :- rd.Octets();
    var _ :- rd.End();
    if |tag| != 32 {
      return Err(Thrown);
    }
    return Ok((kind, image, tag));
  }

  /** Decodes the inner message where it stands, before the fields that follow it. */
  method DecodeRecord(buf: Bytes) returns (r: Result<TsRecord, Thrown>)
    ensures match ParseRecord(buf)
      case None => r.Err?
      case Some(rec) => WellFormedRecord(rec) && r == Ok(ViewRecord(rec))
  {
    if ParseRecord(buf).Some? {
      RecordInverse(buf);
    }
    var rd := new Reader(buf);
    var _ :- ReadHeader(rd, MAGIC_R);
    var streamId :- rd.Octets();
    var inner :- rd.Octets();
    var message :- DecodeMessage(inner);
    var image :- ReadImage(rd);
    return Ok(TsRecord(streamId, message, image.0, image.1, image.2));
  }

  // ---------------------------------------------------------------- agreement

  /** A decoded string is the Go string, up to a byte-order mark. */
  lemma TextLosesOnlyBom(b: Bytes)
    requires Utf8.Valid(b)
    ensures Utf8.Encode(TextOf(b)) == if StartsWithBom(b) then b[3..] else b
  {
    Utf8.EncodeDecode(b);
    var t := Utf8.Decode(b).value;
    if b != [] {
      var (c, rest) := Utf8.DecodeScalar(b).value;
      assert t[0] == c && t[1..] == Utf8.Decode(rest).value;
      Utf8.EncodeDecode(rest);
      Utf8.ScalarInverse(b);
      BomOctets(c);
      if c == BOM {
        assert b[3..] == rest;
      } else if StartsWithBom(b) {
        assert b == Utf8.EncodeScalar(BOM) + b[3..];
        Utf8.ScalarRoundTrip(BOM, b[3..]);
      }
    }
  }

  lemma BomOctets(c: Utf8.Scalar)
    ensures Utf8.EncodeScalar(BOM) == [0xEF, 0xBB, 0xBF]
  {
  }

  /** The TypeScript decoder loses nothing of a record exactly when neither string starts with a mark. */
  lemma ViewIsFaithful(rec: FieldRecord)
    requires WellFormedRecord(rec)
    ensures GoRecord(ViewRecord(rec)) == rec <==>
      !StartsWithBom(rec.message.tableId) && !StartsWithBom(rec.message.columnId)
  {
    TextLosesOnlyBom(rec.message.tableId);
    TextLosesOnlyBom(rec.message.columnId);
  }

  /**
   Both decoders on one buffer: they accept the same buffers, and their records agree field by field
   exactly when no string starts with a byte-order mark.
   */
  method DecodeBoth(buf: Bytes)
    returns (go: Result<FieldRecord, GoCodec.Error>, ts: Result<TsRecord, Thrown>)
    ensures go.Ok? <==> ts.Ok?
    ensures go.Ok? ==>
      (GoRecord(ts.value) == go.value <==>
       !StartsWithBom(go.value.message.tableId) && !StartsWithBom(go.value.message.columnId))
  {
    go := GoCodec.DecodeRecord(buf);
    ts := DecodeRecord(buf);
    if go.Ok? {
      ViewIsFaithful(go.value);
    }
  }
}
