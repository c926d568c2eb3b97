/** The Go codec: an appending writer and a reader that remembers its first error and reads on. */
module GoCodec {
  import opened Wrappers
  import opened ByteStrings
  import opened Format
  import Utf8

  datatype Error =
    | Truncated | InvalidUtf8 | TrailingBytes
    | BadMagic | BadVersion | BadOp | BadImageKind | BadPrevTxid | BadTag

  class Writer {
    var b: Bytes

    constructor ()
      ensures b == []
    {
      b := [];
    }

    method U8(x: byte)
      modifies this
      ensures b == old(b) + [x]
    {
      b := b + [x];
    }

    method U32(x: nat)
      modifies this
      ensures b == old(b) + BigEndian(x, 4)
    {
      b := b + BigEndian(x, 4);
    }

    method U64(x: u64)
      modifies this
      ensures b == old(b) + U64Bytes(x)
    {
      b := b + BigEndian(x, 8);
    }

    method Raw(p: Bytes)
      modifies this
      ensures b == old(b) + p
    {
      b := b + p;
    }

    method Octets(p: Bytes)
      modifies this
      ensures b == old(b) + Prefixed(p)
    {
      hide BigEndian;
      Truncation(|p|);
      U32(|p| % TWO_32);
      Raw(p);
    }

    method Str(s: Bytes)
      modifies this
      ensures b == old(b) + Prefixed(s)
    {
      Octets(s);
    }
  }

  /** The writer's uint32 conversion of a length keeps its low four octets. */
  lemma Truncation(n: nat)
    ensures BigEndian(n % TWO_32, 4) == BigEndian(n, 4)
  {
    Powers();
    HighPartIgnored(n % TWO_32, n / TWO_32, 4);
  }

  lemma {:induction false} HighPartIgnored(x: nat, c: nat, k: nat)
    ensures BigEndian(x + c * Pow256(k), k) == BigEndian(x, k)
  {
    if k > 0 {
      var t := c * Pow256(k - 1);
      assert c * Pow256(k) == 0x100 * t;
      assert (x + 0x100 * t) / 0x100 == x / 0x100 + t;
      HighPartIgnored(x / 0x100, c, k - 1);
    }
  }

  class Reader {
    const buf: Bytes
    var off: nat
    var err: Option<Error>

    ghost predicate Valid()
      reads this
    {
      off <= |buf|
    }

    /** The octets not read yet. */
    ghost function Rest(): Bytes
      reads this
      requires Valid()
    {
      buf[off..]
    }

    /** A reader that has failed stays as it is. */
    twostate predicate Stuck()
      reads this
    {
      off == old(off) && err == old(err)
    }

    constructor (buf: Bytes)
      ensures this.buf == buf && Valid() && Rest() == buf && err == None
    {
      this.buf := buf;
      off, err := 0, None;
    }

    method Need(n: nat) returns (ok: bool)
      requires Valid()
      modifies this`err
      ensures ok == (old(err) == None && n <= |Rest()|)
      ensures err == if old(err) == None && !ok then Some(Truncated) else old(err)
    {
      if err.Some? {
        return false;
      }
      if off + n > |buf| {
        err := Some(Truncated);
        return false;
      }
      return true;
    }

    method U8() returns (v: byte)
      requires Valid()
      modifies this
      ensures Valid()
      ensures old(err).Some? ==> Stuck() && v == 0
      ensures old(err) == None ==>
        match old(TakeU8(Rest()))
        case None => err.Some? && v == 0
        case Some((x, rest)) => err == None && v == x && Rest() == rest
    {
      var ok := Need(1);
      if !ok {
        return 0;
      }
      v := buf[off];
      off := off + 1;
    }

    method U32() returns (v: nat)
      requires Valid()
      modifies this
      ensures Valid() && v < TWO_32
      ensures old(err).Some? ==> Stuck() && v == 0
      ensures old(err) == None ==>
        match old(TakeU32(Rest()))
        case None => err.Some? && v == 0
        case Some((x, rest)) => err == None && v == x && Rest() == rest
    {
      Powers();
      var ok := Need(4);
      if !ok {
        return 0;
      }
      assert Rest()[..4] == buf[off..off + 4];
      v := FromBigEndian(buf[off..off + 4]);
      off := off + 4;
    }

    method U64() returns (v: u64)
      requires Valid()
      modifies this
      ensures Valid()
      ensures old(err).Some? ==> Stuck() && v == 0
      ensures old(err) == None ==>
        match old(TakeU64(Rest()))
        case None => err.Some? && v == 0
        case Some((x, rest)) => err == None && v == x && Rest() == rest
    {
      Powers();
      var ok := Need(8);
      if !ok {
        return 0;
      }
      assert Rest()[..8] == buf[off..off + 8];
      v := FromBigEndian(buf[off..off + 8]);
      off := off + 8;
    }

    method Raw(n: nat) returns (p: Bytes)
      requires Valid()
      modifies this
      ensures Valid()
      ensures old(err).Some? ==> Stuck() && p == []
      ensures old(err) == None ==>
        match old(TakeRaw(Rest(), n))
        case None => err.Some? && p == []
        case Some((x, rest)) => err == None && p == x && Rest() == rest
    {
      var ok := Need(n);
      if !ok {
        return [];
      }
      p := buf[off..off + n];
      off := off + n;
    }

    method Octets() returns (p: Bytes)
      requires Valid()
      modifies this
      ensures Valid()
      ensures old(err).Some? ==> Stuck() && p == []
      ensures old(err) == None ==>
        match old(TakePrefixed(Rest()))
        case None => err.Some? && p == []
        case Some((x, rest)) => err == None && p == x && Rest() == rest
    {
      var n := U32();
      p := Raw(n);
    }

    method Str() returns (s: Bytes)
      requires Valid()
      modifies this
      ensures Valid()
      ensures old(err).Some? ==> Stuck() && s == []
      ensures old(err) == None ==>
        match old(TakeString(Rest()))
        case None => err.Some? && s == []
        case Some((x, rest)) => err == None && s == x && Rest() == rest
    {
      s := Octets();
      if err.Some? {
        return [];
      }
      if !Utf8.Valid(s) {
        err := Some(InvalidUtf8);
        return [];
      }
    }

    method End() returns (e: Option<Error>)
      requires Valid()
      ensures e == None <==> err == None && Rest() == []
      ensures err.Some? ==> e == err
    {
      if err.Some? {
        return err;
      }
      if off != |buf| {
        return Some(TrailingBytes);
      }
      return None;
    }
  }

  /** Appending one piece at a time builds the nested concatenation the format is written in. */
  lemma LeftNested3(a: Bytes, b: Bytes, c: Bytes, d: Bytes)
    ensures a + b + c + d == a + (b + (c + d))
  {
  }

  lemma LeftNested4(a: Bytes, b: Bytes, c: Bytes, d: Bytes, e: Bytes)
    ensures a + b + c + d + e == a + (b + (c + (d + e)))
  {
    LeftNested3(a, b, c, d + e);
    assert a + b + c + d + e == a + b + c + (d + e);
  }

  method EncodeMessage(m: ChangeMessage) returns (r: Result<Bytes, Error>)
    ensures r == if LinkSize(m.prevTxid) then Ok(MessageBytes(m)) else Err(BadPrevTxid)
  {
    if |m.prevTxid| != 0 && |m.prevTxid| != 32 {
      return Err(BadPrevTxid);
    }
    var w := new Writer();
    w.Raw(MAGIC_M);
    w.U8(VERSION);
    assert w.b == Header(MAGIC_M);
    w.Str(m.tableId);
    w.Octets(m.rowId);
    w.Str(m.columnId);
    ghost var cell := w.b;
    w.U8(m.op);
    w.U64(m.seqNo);
    w.Octets(m.prevTxid);
    LeftNested3(cell, [m.op], U64Bytes(m.seqNo), Prefixed(m.prevTxid));
    LeftNested4(Header(MAGIC_M), Prefixed(m.tableId), Prefixed(m.rowId), Prefixed(m.columnId),
                PositionBytes(m.op, m.seqNo, m.prevTxid));
    return Ok(w.b);
  }

  method EncodeRecord(rec: FieldRecord) returns (r: Result<Bytes, Error>)
    ensures r ==
      if |rec.tag| != 32 then Err(BadTag)
      else if !LinkSize(rec.message.prevTxid) then Err(BadPrevTxid)
      else Ok(RecordBytes(rec))
  {
    if |rec.tag| != 32 {
      return Err(BadTag);
    }
    var inner :- EncodeMessage(rec.message);
    var w := new Writer();
    w.Raw(MAGIC_R);
    w.U8(VERSION);
    assert w.b == Header(MAGIC_R);
    w.Octets(rec.streamId);
    w.Octets(inner);
    ghost var head := w.b;
    w.U8(rec.imageKind);
    w.Octets(rec.changeImage);
    w.Octets(rec.tag);
    LeftNested3(head, [rec.imageKind], Prefixed(rec.changeImage), Prefixed(rec.tag));
    LeftNested3(Header(MAGIC_R), Prefixed(rec.streamId), Prefixed(inner),
                ImageBytes(rec.imageKind, rec.changeImage, rec.tag));
    return Ok(w.b);
  }

  method ReadHeader(rd: Reader, magic: Bytes) returns (e: Option<Error>)
    requires rd.Valid() && rd.err == None
    modifies rd
    ensures rd.Valid()
    ensures
      match old(TakeHeader(rd.Rest(), magic))
      case None => e.Some? || rd.err.Some?
      case Some(rest) => e == None && rd.err == None && rd.Rest() == rest
  {
    var m := rd.Raw(4);
    if rd.err == None && m != magic {
      return Some(BadMagic);
    }
    var v := rd.U8();
    if rd.err == None && v != VERSION {
      return Some(BadVersion);
    }
    return None;
  }

  /** op, seq and prev_txid, up to the end of the buffer. */
  method ReadPosition(rd: Reader) returns (r: Result<(byte, u64, Bytes), Error>)
    requires rd.Valid()
    modifies rd
    ensures old(rd.err).Some? ==> r.Err?
    ensures old(rd.err) == None ==>
      match old(ParsePosition(rd.Rest()))
      case None => r.Err?
      case Some(p) => r == Ok(p)
  {
    var op := rd.U8();
    if rd.err == None && op != OP_INSERT && op != OP_UPDATE && op != OP_DELETE {
      return Err(BadOp);
    }
    var seqNo := rd.U64();
    var prevTxid := rd.Octets();
    var e := rd.End();
    if e.Some? {
      return Err(e.value);
    }
    if |prevTxid| != 0 && |prevTxid| != 32 {
      return Err(BadPrevTxid);
    }
    return Ok((op, seqNo, prevTxid));
  }

  /** image_kind, change_image and tag, up to the end of the buffer. */
  method ReadImage(rd: Reader) returns (r: Result<(byte, Bytes, Bytes), Error>)
    requires rd.Valid()
    modifies rd
    ensures old(rd.err).Some? ==> r.Err?
    ensures old(rd.err) == None ==>
      match old(ParseImage(rd.Rest()))
      case None => r.Err?
      case Some(p) => r == Ok(p)
  {
    var kind := rd.U8();
    if rd.err == None && kind != IMAGE_PLAINTEXT && kind != IMAGE_COMMITMENT {
      return Err(BadImageKind);
    }
    var image := rd.Octets();
    var tag := rd.Octets();
    var e := rd.End();
    if e.Some? {
      return Err(e.value);
    }
    if |tag| != 32 {
      return Err(BadTag);
    }
    return Ok((kind, image, tag));
  }

  /**
   Accepts exactly the encodings of well-formed messages: although a failed read yields zero values that
   later fields are filled from, nothing read after the first failure reaches the result.
   */
  method DecodeMessage(buf: Bytes) returns (r: Result<ChangeMessage, Error>)
    ensures match ParseMessage(buf)
      case None => r.Err?
      case Some(m) => r == Ok(m)
  {
    var rd := new Reader(buf);
    var bad := ReadHeader(rd, MAGIC_M);
    if bad.Some? {
      return Err(bad.value);
    }
    var tableId := rd.Str();
    var rowId := rd.Octets();
    var columnId := rd.Str();
    var position :- ReadPosition(rd);
    return Ok(ChangeMessage(tableId, rowId, columnId, position.0, position.1, position.2));
  }

  method DecodeRecord(buf: Bytes) returns (r: Result<FieldRecord, Error>)
    ensures match ParseRecord(buf)
      case None => r.Err?
      case Some(rec) => r == Ok(rec)
  {
    var rd := new Reader(buf);
    var bad := ReadHeader(rd, MAGIC_R);
    if bad.Some? {
      return Err(bad.value);
    }
    var streamId := rd.Octets();
    var inner := rd.Octets();
    var image :- ReadImage(rd);
    var m :- DecodeMessage(inner);
    return Ok(FieldRecord(streamId, m, image.0, image.1, image.2));
  }
}
