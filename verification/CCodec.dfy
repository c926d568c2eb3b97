/** The C codec: a growable buffer and the encoders that write to it. */
module CCodec {
  import opened Wrappers
  import opened ByteStrings
  import opened Format
  import GoCodec

  const FIRST_CAPACITY: nat := 64

  lemma Filled(all: Bytes, before: Bytes, src: Bytes)
    requires |before| + |src| <= |all|
    requires forall k :: 0 <= k < |before| ==> all[k] == before[k]
    requires forall k :: 0 <= k < |src| ==> all[|before| + k] == src[k]
    ensures all[..|before| + |src|] == before + src
  {
    forall k | 0 <= k < |before| + |src| ensures all[k] == (before + src)[k] {
      if k >= |before| {
        assert all[|before| + (k - |before|)] == src[k - |before|];
      }
    }
  }

  /** buf_t.  A null p is an empty array; size_t does not overflow and realloc does not fail. */
  class Buffer {
    var p: array<byte>
    var len: nat
    var cap: nat

    ghost predicate Valid()
      reads this
    {
      && p.Length == cap && len <= cap
      && (cap == 0 || FIRST_CAPACITY <= cap)
      && (cap <= FIRST_CAPACITY || cap <= 2 * len)
    }

    ghost function Contents(): Bytes
      reads this, p
      requires Valid()
    {
      p[..len]
    }

    constructor ()
      ensures Valid() && fresh(p) && Contents() == []
    {
      p := new byte[0];
      len, cap := 0, 0;
    }

    /** realloc: a new block with the old contents at its start. */
    method Realloc(nc: nat)
      requires p.Length <= nc
      modifies this`p
      ensures fresh(p) && p.Length == nc && p[..old(p.Length)] == old(p[..])
    {
      var q := new byte[nc];
      for i := 0 to p.Length
        invariant p == old(p) && q[..i] == p[..i]
      {
        q[i] := p[i];
      }
      p := q;
    }

    /**
     Makes room for add more octets.  Doubling stops at the first capacity that is large enough, so
     growth at most doubles what is needed.
     */
    method Ensure(add: nat)
      requires Valid()
      modifies this
      ensures p == old(p) || fresh(p)
      ensures len == old(len) && len + add <= cap == p.Length
      ensures p[..len] == old(p[..len])
      ensures cap == 0 || FIRST_CAPACITY <= cap
      ensures cap <= FIRST_CAPACITY || cap <= 2 * (len + add)
    {
      if len + add > cap {
        var nc := if cap != 0 then cap * 2 else FIRST_CAPACITY;
        while nc < len + add
          invariant FIRST_CAPACITY <= nc && cap < nc
          invariant nc <= FIRST_CAPACITY || nc < 2 * (len + add)
        {
          nc := nc * 2;
        }
        ghost var before := p[..];
        Realloc(nc);
        cap := nc;
        assert p[..len] == before[..len];
      }
    }

    method Raw(src: Bytes)
      requires Valid()
      modifies this, p
      ensures Valid() && (p == old(p) || fresh(p))
      ensures Contents() == old(Contents()) + src
    {
      Ensure(|src|);
      ghost var before := p[..len];
      for i := 0 to |src|
        invariant len == old(len) && len + |src| <= cap == p.Length
        invariant forall k :: 0 <= k < len ==> p[k] == before[k]
        invariant forall k :: 0 <= k < i ==> p[len + k] == src[k]
        modifies p
      {
        p[len + i] := src[i];
      }
      Filled(p[..], before, src);
      assert p[..][..len + |src|] == p[..len + |src|];
      len := len + |src|;
    }

    method U8(x: byte)
      requires Valid()
      modifies this, p
      ensures Valid() && (p == old(p) || fresh(p))
      ensures Contents() == old(Contents()) + [x]
    {
      Ensure(1);
      p[len] := x;
      len := len + 1;
    }

    method U32(x: nat)
      requires Valid()
      modifies this, p
      ensures Valid() && (p == old(p) || fresh(p))
      ensures Contents() == old(Contents()) + BigEndian(x, 4)
    {
      FourOctets(x);
      Raw([x / 0x100_0000 % 0x100, x / 0x1_0000 % 0x100, x / 0x100 % 0x100, x % 0x100]);
    }

    method U64(x: u64)
      requires Valid()
      modifies this, p
      ensures Valid() && (p == old(p) || fresh(p))
      ensures Contents() == old(Contents()) + U64Bytes(x)
    {
      var t: Bytes := seq(8, _ => 0);
      var v: nat := x;
      var i := 7;
      while i >= 0
        invariant -1 <= i <= 7 && |t| == 8
        invariant BigEndian(v, i + 1) + t[i + 1..] == BigEndian(x, 8)
      {
        assert BigEndian(v, i + 1) == BigEndian(v / 0x100, i) + [v % 0x100];
        ghost var after := t[i + 1..];
        t := t[i := v % 0x100];
        assert t[i..] == [v % 0x100] + after;
        v := v / 0x100;
        i := i - 1;
      }
      assert t == t[0..];
      Raw(t);
    }

    method Octets(src: Bytes)
      requires Valid()
      modifies this, p
      ensures Valid() && (p == old(p) || fresh(p))
      ensures Contents() == old(Contents()) + Prefixed(src)
    {
      hide BigEndian;
      ghost var before := Contents();
      U32(|src| % TWO_32);
      GoCodec.Truncation(|src|);
      Raw(src);
      assert Contents() == (before + BigEndian(|src|, 4)) + src == before + Prefixed(src);
    }

    /** Writes the octets before the terminator. */
    method Str(s: Bytes)
      requires Valid() && 0 in s
      modifies this, p
      ensures Valid() && (p == old(p) || fresh(p))
      ensures Contents() == old(Contents()) + Prefixed(BeforeNul(s))
    {
      var n := StrLen(s);
      Octets(s[..n]);
    }
  }

  /** The C string that starts at s. */
  function BeforeNul(s: Bytes): (r: Bytes)
    requires 0 in s
    ensures r <= s && 0 !in r && |r| < |s| && s[|r|] == 0
  {
    if s[0] == 0 then [] else [s[0]] + BeforeNul(s[1..])
  }

  lemma {:induction false} BeforeNulIs(s: Bytes, n: nat)
    requires n < |s| && s[n] == 0 && 0 !in s[..n]
    ensures 0 in s && BeforeNul(s) == s[..n]
  {
    if n > 0 {
      assert s[0] == s[..n][0];
      assert s[1..][..n - 1] == s[..n][1..];
      BeforeNulIs(s[1..], n - 1);
      assert s[..n] == [s[0]] + s[1..][..n - 1];
    }
  }

  /** strlen. */
  method StrLen(s: Bytes) returns (n: nat)
    requires 0 in s
    ensures n < |s| && s[..n] == BeforeNul(s)
  {
    n := 0;
    while s[n] != 0
      invariant n < |s| && 0 !in s[..n] && 0 in s[n..]
      decreases |s| - n
    {
      assert s[n..] == [s[n]] + s[n + 1..];
      n := n + 1;
    }
    BeforeNulIs(s, n);
  }

  /** te_msg_t: the strings are pointers to terminated octets, the rest as in the Go value. */
  datatype CMessage = CMessage(
    tableId: Bytes, rowId: Bytes, columnId: Bytes, op: byte, seqNo: u64, prevTxid: Bytes)

  predicate Terminated(m: CMessage) {
    0 in m.tableId && 0 in m.columnId
  }

  /** The message C sees. */
  function SeenMessage(m: CMessage): ChangeMessage
    requires Terminated(m)
  {
    ChangeMessage(BeforeNul(m.tableId), m.rowId, BeforeNul(m.columnId), m.op, m.seqNo, m.prevTxid)
  }

  /** Appends the message; the buffer may hold octets already. */
  method EncodeMessage(m: CMessage, out: Buffer)
    requires Terminated(m) && out.Valid()
    modifies out, out.p
    ensures out.Valid() && (out.p == old(out.p) || fresh(out.p))
    ensures out.Contents() == old(out.Contents()) + MessageBytes(SeenMessage(m))
  {
    hide Prefixed, U64Bytes, BeforeNul;
    ghost var before := out.Contents();
    out.Raw(MAGIC_M);
    out.U8(VERSION);
    out.Str(m.tableId);
    out.Octets(m.rowId);
    out.Str(m.columnId);
    out.U8(m.op);
    out.U64(m.seqNo);
    out.Octets(m.prevTxid);
    MessageLayout(before, SeenMessage(m));
  }

  lemma MessageLayout(before: Bytes, m: ChangeMessage)
    ensures before + MAGIC_M + [VERSION] + Prefixed(m.tableId) + Prefixed(m.rowId) + Prefixed(m.columnId) + [m.op] +
      U64Bytes(m.seqNo) + Prefixed(m.prevTxid) == before + MessageBytes(m)
  {
    hide Prefixed, U64Bytes;
    var cell := before + MAGIC_M + [VERSION] + Prefixed(m.tableId) + Prefixed(m.rowId) + Prefixed(m.columnId);
    GoCodec.LeftNested3(cell, [m.op], U64Bytes(m.seqNo), Prefixed(m.prevTxid));
    assert before + MAGIC_M + [VERSION] == before + Header(MAGIC_M);
    var position := PositionBytes(m.op, m.seqNo, m.prevTxid);
    hide PositionBytes, Header;
    GoCodec.LeftNested4(before + Header(MAGIC_M), Prefixed(m.tableId), Prefixed(m.rowId), Prefixed(m.columnId), position);
    var rest := Prefixed(m.tableId) + (Prefixed(m.rowId) + (Prefixed(m.columnId) + position));
    assert (before + Header(MAGIC_M)) + rest == before + (Header(MAGIC_M) + rest);
  }

  /** Appends the record; the message is encoded in a buffer of its own. */
  method EncodeRecord(streamId: Bytes, m: CMessage, kind: byte, image: Bytes, tag: Bytes, out: Buffer)
    requires 0 in streamId && Terminated(m) && |tag| == 32 && out.Valid()
    modifies out, out.p
    ensures out.Valid()
    ensures out.Contents() == old(out.Contents()) + RecordBytes(FieldRecord(BeforeNul(streamId), SeenMessage(m), kind, image, tag))
  {
    hide Prefixed, MessageBytes, BeforeNul, SeenMessage;
    ghost var before := out.Contents();
    var menc := new Buffer();
    EncodeMessage(m, menc);
    assert menc.Contents() == MessageBytes(SeenMessage(m));
    out.Raw(MAGIC_R);
    out.U8(VERSION);
    out.Str(streamId);
    out.Octets(menc.p[..menc.len]);
    out.U8(kind);
    out.Octets(image);
    out.Octets(tag);
    RecordLayout(before, FieldRecord(BeforeNul(streamId), SeenMessage(m), kind, image, tag));
  }

  lemma RecordLayout(before: Bytes, r: FieldRecord)
    ensures before + MAGIC_R + [VERSION] + Prefixed(r.streamId) + Prefixed(MessageBytes(r.message)) + [r.imageKind] +
      Prefixed(r.changeImage) + Prefixed(r.tag) == before + RecordBytes(r)
  {
    hide Prefixed, MessageBytes;
    var head := before + MAGIC_R + [VERSION] + Prefixed(r.streamId) + Prefixed(MessageBytes(r.message));
    GoCodec.LeftNested3(head, [r.imageKind], Prefixed(r.changeImage), Prefixed(r.tag));
    assert before + MAGIC_R + [VERSION] == before + Header(MAGIC_R);
    var image := ImageBytes(r.imageKind, r.changeImage, r.tag);
    hide ImageBytes, Header;
    GoCodec.LeftNested3(before + Header(MAGIC_R), Prefixed(r.streamId), Prefixed(MessageBytes(r.message)), image);
    var rest := Prefixed(r.streamId) + (Prefixed(MessageBytes(r.message)) + image);
    assert (before + Header(MAGIC_R)) + rest == before + (Header(MAGIC_R) + rest);
  }

  // ---------------------------------------------------------------- agreement with Go

  function CString(s: Bytes): (r: Bytes)
    ensures 0 in r
  {
    assert (s + [0])[|s|] == 0;
    s + [0]
  }

  /** The record handed to the C encoder for a Go record. */
  function ToC(m: ChangeMessage): CMessage {
    CMessage(CString(m.tableId), m.rowId, CString(m.columnId), m.op, m.seqNo, m.prevTxid)
  }

  lemma CStringSeen(s: Bytes)
    ensures BeforeNul(CString(s)) == s <==> 0 !in s
    ensures |BeforeNul(CString(s))| <= |s| && (|BeforeNul(CString(s))| == |s| <==> 0 !in s)
  {
    var r := BeforeNul(CString(s));
    if 0 !in s {
      assert CString(s)[..|s|] == s;
      BeforeNulIs(CString(s), |s|);
    }
  }

  /** The octets C sees of a Go record are the record's own exactly when none of its three strings holds a NUL. */
  lemma SameOctetsIffNulFree(r: FieldRecord)
    ensures
      RecordBytes(FieldRecord(BeforeNul(CString(r.streamId)), SeenMessage(ToC(r.message)),
                              r.imageKind, r.changeImage, r.tag)) == RecordBytes(r)
      <==> 0 !in r.streamId && 0 !in r.message.tableId && 0 !in r.message.columnId
  {
    hide RecordBytes, MessageBytes, BeforeNul, CString;
    var c := FieldRecord(BeforeNul(CString(r.streamId)), SeenMessage(ToC(r.message)),
                         r.imageKind, r.changeImage, r.tag);
    CStringSeen(r.streamId);
    CStringSeen(r.message.tableId);
    CStringSeen(r.message.columnId);
    MessageLength(c.message);
    MessageLength(r.message);
    RecordLength(c);
    RecordLength(r);
  }

  /**
   Both encoders on one record with a 32-octet tag, which C takes for granted: they write the same octets
   exactly when no string holds a NUL and the link has a size Go accepts.
   */
  method EncodeBoth(r: FieldRecord) returns (c: Bytes, go: Result<Bytes, GoCodec.Error>)
    requires |r.tag| == 32
    ensures go == Ok(c) <==>
      && 0 !in r.streamId && 0 !in r.message.tableId && 0 !in r.message.columnId && LinkSize(r.message.prevTxid)
  {
    hide RecordBytes, SeenMessage, BeforeNul;
    var out := new Buffer();
    EncodeRecord(CString(r.streamId), ToC(r.message), r.imageKind, r.changeImage, r.tag, out);
    c := out.p[..out.len];
    assert c == RecordBytes(FieldRecord(BeforeNul(CString(r.streamId)), SeenMessage(ToC(r.message)),
                                        r.imageKind, r.changeImage, r.tag));
    go := GoCodec.EncodeRecord(r);
    SameOctetsIffNulFree(r);
  }
}
