/**
 The wire format of change messages and field records (sections 1.1 and 1.2 of spec/ALGORITHMS.md),
 as encoders into octets and as a grammar that reads them back.  Every implementation of the format is
 proved against this module.
 */
module Format {
  import opened Wrappers
  import opened ByteStrings
  import Utf8

  const MAGIC_M: Bytes := [0x54, 0x45, 0x4D, 0x43]
  const MAGIC_R: Bytes := [0x54, 0x45, 0x52, 0x31]
  const VERSION: byte := 1

  const OP_INSERT: byte := 1
  const OP_UPDATE: byte := 2
  const OP_DELETE: byte := 3

  const IMAGE_PLAINTEXT: byte := 0
  const IMAGE_COMMITMENT: byte := 1

  /** A Go string is its octets. */
  datatype ChangeMessage = ChangeMessage(
    tableId: Bytes, rowId: Bytes, columnId: Bytes, op: byte, seqNo: u64, prevTxid: Bytes)

  datatype FieldRecord = FieldRecord(
    streamId: Bytes, message: ChangeMessage, imageKind: byte, changeImage: Bytes, tag: Bytes)

  // ---------------------------------------------------------------- encoders

  function U64Bytes(x: u64): Bytes {
    BigEndian(x, 8)
  }

  /** u32(len) followed by the octets; the length is truncated to 32 bits. */
  function Prefixed(p: Bytes): Bytes {
    BigEndian(|p|, 4) + p
  }

  function Header(magic: Bytes): Bytes {
    magic + [VERSION]
  }

  /** op, seq and prev_txid: where the change stands in its stream. */
  function PositionBytes(op: byte, seqNo: u64, prevTxid: Bytes): Bytes {
    [op] + (U64Bytes(seqNo) + Prefixed(prevTxid))
  }

  function MessageBytes(m: ChangeMessage): Bytes {
    Header(MAGIC_M) + (Prefixed(m.tableId) + (Prefixed(m.rowId) + (Prefixed(m.columnId) +
    PositionBytes(m.op, m.seqNo, m.prevTxid))))
  }

  /** image_kind, change_image and tag. */
  function ImageBytes(kind: byte, image: Bytes, tag: Bytes): Bytes {
    [kind] + (Prefixed(image) + Prefixed(tag))
  }

  function RecordBytes(r: FieldRecord): Bytes {
    Header(MAGIC_R) + (Prefixed(r.streamId) + (Prefixed(MessageBytes(r.message)) +
    ImageBytes(r.imageKind, r.changeImage, r.tag)))
  }

  /** The octets of a message: "TEMC", the version, three sized fields, the operation, the number and the sized link. */
  lemma MessageOctets(m: ChangeMessage)
    ensures MessageBytes(m) == [0x54, 0x45, 0x4D, 0x43, 1] +
      ((BigEndian(|m.tableId|, 4) + m.tableId) + ((BigEndian(|m.rowId|, 4) + m.rowId) +
      ((BigEndian(|m.columnId|, 4) + m.columnId) +
      ([m.op] + (BigEndian(m.seqNo, 8) + (BigEndian(|m.prevTxid|, 4) + m.prevTxid))))))
  {
    hide BigEndian;
    assert MAGIC_M + [VERSION] == [0x54, 0x45, 0x4D, 0x43, 1];
  }

  /** The octets of a record: "TER1", the version, the sized stream and message, the kind, the sized image and tag. */
  lemma RecordOctets(r: FieldRecord)
    ensures RecordBytes(r) == [0x54, 0x45, 0x52, 0x31, 1] +
      ((BigEndian(|r.streamId|, 4) + r.streamId) + ((BigEndian(|MessageBytes(r.message)|, 4) + MessageBytes(r.message)) +
      ([r.imageKind] + ((BigEndian(|r.changeImage|, 4) + r.changeImage) + (BigEndian(|r.tag|, 4) + r.tag)))))
  {
    hide BigEndian, MessageBytes;
    assert MAGIC_R + [VERSION] == [0x54, 0x45, 0x52, 0x31, 1];
  }

  predicate LinkSize(p: Bytes) {
    |p| == 0 || |p| == 32
  }

  predicate Fits(p: Bytes) {
    |p| < TWO_32
  }

  /** Everything the decoder asks of a message but that its names are text. */
  predicate SizedMessage(m: ChangeMessage) {
    && Fits(m.tableId) && Fits(m.rowId) && Fits(m.columnId)
    && m.op in {OP_INSERT, OP_UPDATE, OP_DELETE}
    && LinkSize(m.prevTxid)
  }

  predicate TextMessage(m: ChangeMessage) {
    Utf8.Valid(m.tableId) && Utf8.Valid(m.columnId)
  }

  predicate WellFormedMessage(m: ChangeMessage) {
    SizedMessage(m) && TextMessage(m)
  }

  predicate SizedRecord(r: FieldRecord) {
    && Fits(r.streamId)
    && SizedMessage(r.message) && Fits(MessageBytes(r.message))
    && r.imageKind in {IMAGE_PLAINTEXT, IMAGE_COMMITMENT}
    && Fits(r.changeImage)
    && |r.tag| == 32
  }

  predicate WellFormedRecord(r: FieldRecord) {
    SizedRecord(r) && TextMessage(r.message)
  }

  lemma MessageLength(m: ChangeMessage)
    ensures |MessageBytes(m)| == 30 + |m.tableId| + |m.rowId| + |m.columnId| + |m.prevTxid|
  {
  }

  lemma RecordLength(r: FieldRecord)
    ensures |RecordBytes(r)| == 22 + |r.streamId| + |MessageBytes(r.message)| + |r.changeImage| + |r.tag|
  {
  }

  // ---------------------------------------------------------------- grammar

  /** A parse consumes a prefix of s and leaves the rest. */
  function TakeRaw(s: Bytes, n: nat): Option<(Bytes, Bytes)> {
    if n <= |s| then Some((s[..n], s[n..])) else None
  }

  function TakeU8(s: Bytes): Option<(byte, Bytes)> {
    if 1 <= |s| then Some((s[0], s[1..])) else None
  }

  function TakeU32(s: Bytes): Option<(nat, Bytes)> {
    if 4 <= |s| then Some((FromBigEndian(s[..4]), s[4..])) else None
  }

  function TakeU64(s: Bytes): Option<(u64, Bytes)> {
    if 8 <= |s| then
      Powers();
      Some((FromBigEndian(s[..8]), s[8..]))
    else None
  }

  function TakePrefixed(s: Bytes): Option<(Bytes, Bytes)> {
    var (n, s) :- TakeU32(s);
    TakeRaw(s, n)
  }

  function TakeString(s: Bytes): Option<(Bytes, Bytes)> {
    var (p, s) :- TakePrefixed(s);
    if Utf8.Valid(p) then Some((p, s)) else None
  }

  /** The magic and version that open a message or a record. */
  function TakeHeader(s: Bytes, magic: Bytes): Option<Bytes> {
    var (m, s) :- TakeRaw(s, 4);
    if m != magic then None
    else
      var (v, s) :- TakeU8(s);
      if v != VERSION then None else Some(s)
  }

  function ParsePosition(s: Bytes): Option<(byte, u64, Bytes)> {
    var (op, s) :- TakeU8(s);
    if op !in {OP_INSERT, OP_UPDATE, OP_DELETE} then None
    else
      var (seqNo, s) :- TakeU64(s);
      var (prevTxid, s) :- TakePrefixed(s);
      if s == [] && LinkSize(prevTxid) then Some((op, seqNo, prevTxid)) else None
  }

  function ParseMessage(s: Bytes): Option<ChangeMessage> {
    var s :- TakeHeader(s, MAGIC_M);
    var (tableId, s) :- TakeString(s);
    var (rowId, s) :- TakePrefixed(s);
    var (columnId, s) :- TakeString(s);
    var (op, seqNo, prevTxid) :- ParsePosition(s);
    Some(ChangeMessage(tableId, rowId, columnId, op, seqNo, prevTxid))
  }

  function ParseImage(s: Bytes): Option<(byte, Bytes, Bytes)> {
    var (kind, s) :- TakeU8(s);
    if kind !in {IMAGE_PLAINTEXT, IMAGE_COMMITMENT} then None
    else
      var (image, s) :- TakePrefixed(s);
      var (tag, s) :- TakePrefixed(s);
      if s == [] && |tag| == 32 then Some((kind, image, tag)) else None
  }

  function ParseRecord(s: Bytes): Option<FieldRecord> {
    var s :- TakeHeader(s, MAGIC_R);
    var (streamId, s) :- TakePrefixed(s);
    var (inner, s) :- TakePrefixed(s);
    var (kind, image, tag) :- ParseImage(s);
    var m :- ParseMessage(inner);
    Some(FieldRecord(streamId, m, kind, image, tag))
  }

  // ---------------------------------------------------------------- round trips

  lemma TakeAfterRaw(p: Bytes, rest: Bytes)
    ensures TakeRaw(p + rest, |p|) == Some((p, rest))
  {
    assert (p + rest)[..|p|] == p && (p + rest)[|p|..] == rest;
  }

  lemma TakeAfterU64(x: u64, rest: Bytes)
    ensures TakeU64(U64Bytes(x) + rest) == Some((x, rest))
  {
    TakeAfterRaw(U64Bytes(x), rest);
    Powers();
    FromToBigEndian(x, 8);
  }

  lemma TakeAfterPrefixed(p: Bytes, rest: Bytes)
    requires Fits(p)
    ensures TakePrefixed(Prefixed(p) + rest) == Some((p, rest))
  {
    var h := BigEndian(|p|, 4);
    assert Prefixed(p) + rest == h + (p + rest);
    TakeAfterRaw(h, p + rest);
    TakeAfterRaw(p, rest);
    Powers();
    FromToBigEndian(|p|, 4);
  }

  lemma TakePrefixedInverse(s: Bytes)
    requires TakePrefixed(s).Some?
    ensures var (p, rest) := TakePrefixed(s).value; Fits(p) && s == Prefixed(p) + rest
  {
    Powers();
    ToFromBigEndian(s[..4]);
    var (p, rest) := TakePrefixed(s).value;
    assert s == s[..4] + (p + rest);
  }

  lemma TakeU64Inverse(s: Bytes)
    requires TakeU64(s).Some?
    ensures var (x, rest) := TakeU64(s).value; s == U64Bytes(x) + rest
  {
    ToFromBigEndian(s[..8]);
    assert s == s[..8] + s[8..];
  }

  lemma HeaderRoundTrip(magic: Bytes, rest: Bytes)
    requires |magic| == 4
    ensures TakeHeader(Header(magic) + rest, magic) == Some(rest)
  {
    assert Header(magic) + rest == magic + ([VERSION] + rest);
    TakeAfterRaw(magic, [VERSION] + rest);
    assert ([VERSION] + rest)[1..] == rest;
  }

  lemma HeaderInverse(s: Bytes, magic: Bytes)
    requires TakeHeader(s, magic).Some?
    ensures s == Header(magic) + TakeHeader(s, magic).value
  {
    assert s == s[..4] + ([s[4]] + s[4..][1..]);
  }

  lemma TakeLastPrefixed(p: Bytes)
    requires Fits(p)
    ensures TakePrefixed(Prefixed(p)) == Some((p, []))
  {
    TakeAfterPrefixed(p, []);
    assert Prefixed(p) + [] == Prefixed(p);
  }

  lemma PositionRoundTrip(op: byte, seqNo: u64, prevTxid: Bytes)
    requires op in {OP_INSERT, OP_UPDATE, OP_DELETE} && LinkSize(prevTxid)
    ensures ParsePosition(PositionBytes(op, seqNo, prevTxid)) == Some((op, seqNo, prevTxid))
  {
    hide U64Bytes, Prefixed, TakeU64, TakePrefixed;
    var s := U64Bytes(seqNo) + Prefixed(prevTxid);
    assert ([op] + s)[1..] == s;
    TakeAfterU64(seqNo, Prefixed(prevTxid));
    TakeLastPrefixed(prevTxid);
  }

  lemma PositionInverse(s: Bytes)
    requires ParsePosition(s).Some?
    ensures var (op, seqNo, prevTxid) := ParsePosition(s).value;
      op in {OP_INSERT, OP_UPDATE, OP_DELETE} && LinkSize(prevTxid) && s == PositionBytes(op, seqNo, prevTxid)
  {
    assert s == [s[0]] + s[1..];
    TakeU64Inverse(s[1..]);
    var s' := TakeU64(s[1..]).value.1;
    TakePrefixedInverse(s');
    assert s' == Prefixed(TakePrefixed(s').value.0);
  }

  lemma MessageRoundTrip(m: ChangeMessage)
    requires SizedMessage(m)
    ensures ParseMessage(MessageBytes(m)) == if TextMessage(m) then Some(m) else None
  {
    hide Prefixed, TakePrefixed, Header, TakeHeader, PositionBytes, ParsePosition, Utf8.Valid;
    var s4 := PositionBytes(m.op, m.seqNo, m.prevTxid);
    var s3 := Prefixed(m.columnId) + s4;
    var s2 := Prefixed(m.rowId) + s3;
    HeaderRoundTrip(MAGIC_M, Prefixed(m.tableId) + s2);
    TakeAfterPrefixed(m.tableId, s2);
    TakeAfterPrefixed(m.rowId, s3);
    TakeAfterPrefixed(m.columnId, s4);
    PositionRoundTrip(m.op, m.seqNo, m.prevTxid);
  }

  lemma MessageInverse(s: Bytes)
    requires ParseMessage(s).Some?
    ensures WellFormedMessage(ParseMessage(s).value) && MessageBytes(ParseMessage(s).value) == s
  {
    HeaderInverse(s, MAGIC_M);
    var s1 := TakeHeader(s, MAGIC_M).value;
    TakePrefixedInverse(s1);
    var s2 := TakePrefixed(s1).value.1;
    TakePrefixedInverse(s2);
    var s3 := TakePrefixed(s2).value.1;
    TakePrefixedInverse(s3);
    PositionInverse(TakePrefixed(s3).value.1);
  }

  lemma ImageRoundTrip(kind: byte, image: Bytes, tag: Bytes)
    requires kind in {IMAGE_PLAINTEXT, IMAGE_COMMITMENT} && Fits(image) && |tag| == 32
    ensures ParseImage(ImageBytes(kind, image, tag)) == Some((kind, image, tag))
  {
    var s := Prefixed(image) + Prefixed(tag);
    assert ([kind] + s)[1..] == s;
    TakeAfterPrefixed(image, Prefixed(tag));
    TakeLastPrefixed(tag);
  }

  lemma ImageInverse(s: Bytes)
    requires ParseImage(s).Some?
    ensures var (kind, image, tag) := ParseImage(s).value;
      kind in {IMAGE_PLAINTEXT, IMAGE_COMMITMENT} && Fits(image) && |tag| == 32 && s == ImageBytes(kind, image, tag)
  {
    assert s == [s[0]] + s[1..];
    TakePrefixedInverse(s[1..]);
    var s' := TakePrefixed(s[1..]).value.1;
    TakePrefixedInverse(s');
    assert s' == Prefixed(TakePrefixed(s').value.0);
  }

  /** The encoders take any octets for names: a record reads back exactly when its names are text. */
  lemma RecordReadsBack(r: FieldRecord)
    requires SizedRecord(r)
    ensures ParseRecord(RecordBytes(r)) == if TextMessage(r.message) then Some(r) else None
  {
    hide Prefixed, TakePrefixed, Header, TakeHeader, MessageBytes, ParseMessage, ImageBytes, ParseImage, TextMessage;
    var inner := MessageBytes(r.message);
    var s3 := ImageBytes(r.imageKind, r.changeImage, r.tag);
    var s2 := Prefixed(inner) + s3;
    HeaderRoundTrip(MAGIC_R, Prefixed(r.streamId) + s2);
    TakeAfterPrefixed(r.streamId, s2);
    TakeAfterPrefixed(inner, s3);
    ImageRoundTrip(r.imageKind, r.changeImage, r.tag);
    MessageRoundTrip(r.message);
  }

  /** Parsing inverts encoding on every well-formed record. */
  lemma RecordRoundTrip(r: FieldRecord)
    requires WellFormedRecord(r)
    ensures ParseRecord(RecordBytes(r)) == Some(r)
  {
    RecordReadsBack(r);
  }

  /** A record whose encoding fits in 32 bits has parts that do. */
  lemma PartsFit(r: FieldRecord)
    requires Fits(RecordBytes(r)) && r.message.op in {OP_INSERT, OP_UPDATE, OP_DELETE} && LinkSize(r.message.prevTxid)
    requires r.imageKind in {IMAGE_PLAINTEXT, IMAGE_COMMITMENT} && |r.tag| == 32
    ensures SizedRecord(r)
  {
    hide RecordBytes, MessageBytes;
    RecordLength(r);
    MessageLength(r.message);
  }

  /** Every accepted buffer is, octet for octet, the encoding of what it parses to. */
  lemma RecordInverse(s: Bytes)
    requires ParseRecord(s).Some?
    ensures WellFormedRecord(ParseRecord(s).value) && RecordBytes(ParseRecord(s).value) == s
  {
    HeaderInverse(s, MAGIC_R);
    var s1 := TakeHeader(s, MAGIC_R).value;
    TakePrefixedInverse(s1);
    var s2 := TakePrefixed(s1).value.1;
    TakePrefixedInverse(s2);
    var (inner, s3) := TakePrefixed(s2).value;
    ImageInverse(s3);
    MessageInverse(inner);
  }

  /** The accepted buffers are exactly the encodings of well-formed records, and each has one record. */
  lemma AcceptedIffEncoding(s: Bytes, r: FieldRecord)
    ensures ParseRecord(s) == Some(r) <==> WellFormedRecord(r) && RecordBytes(r) == s
  {
    if ParseRecord(s) == Some(r) {
      RecordInverse(s);
    }
    if WellFormedRecord(r) && RecordBytes(r) == s {
      RecordRoundTrip(r);
    }
  }
}
