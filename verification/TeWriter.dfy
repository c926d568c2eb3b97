/** The journalling writer: the outbox drain and the cold verifiers. */
module TeWriter {
  import opened Wrappers
  import opened ByteStrings
  import opened Format
  import opened Capture
  import opened Ledger
  import opened Lineage
  import opened Keystone
  import Envelope
  import GoCodec
  import Utf8

  const ENVELOPE_SATS: nat := 1000

  datatype Relationship = Relationship(writerPriv: Bytes, counterpartyPub: Bytes)

  datatype Error =
    | NoRelationship | Crypto(e: Keystone.Error) | Codec(c: GoCodec.Error) | Script(s: Envelope.Error) | Broadcast
    | Leaked | Walk(w: WalkError) | BadImage | NotCommitment | NullCell

  /** One drained outbox row: the blinding drawn for it, its record and the transaction that carries it. */
  datatype Posting = Posting(row: OutboxRow, blind: Bytes, rec: FieldRecord, txid: Txid)

  /** What never changes during a drain; leaks says whether a transaction's hex contains a value's. */
  datatype Setup = Setup(
    tagger: Tagger, sha: Bytes -> Bytes, rels: map<Bytes, Relationship>, confidential: map<Bytes, bool>, pkh: Bytes,
    leaks: (Tx, Bytes) -> bool)

  ghost predicate ValidSetup(s: Setup) {
    SizedTagger(s.tagger) && (forall d :: |s.sha(d)| == 32) && |s.pkh| == 20
  }

  predicate Confidential(s: Setup, table: Bytes) {
    table in s.confidential && s.confidential[table]
  }

  // ---------------------------------------------------------------- records

  /** Sizes PostgreSQL admits (every field below one gigabyte), and names in UTF-8. */
  ghost predicate Encodable(r: OutboxRow) {
    && |r.stream| < 0x4000_0000 && |r.table| < 0x4000_0000 && |r.rowId| < 0x4000_0000
    && |r.column| < 0x4000_0000 && |Text(r.value)| < 0x4000_0000
    && Utf8.Valid(r.table) && Utf8.Valid(r.column)
    && r.op in {OP_INSERT, OP_UPDATE, OP_DELETE}
  }

  function KindOf(s: Setup, r: OutboxRow): byte {
    if Confidential(s, r.table) then IMAGE_COMMITMENT else IMAGE_PLAINTEXT
  }

  function MessageFor(r: OutboxRow, seqNo: u64, prev: Bytes): ChangeMessage {
    ChangeMessage(r.table, r.rowId, r.column, r.op, seqNo, prev)
  }

  /**
   The keystone part of the loop body: the record of a row at its place in the stream.  Driver.PlainPosting and
   Driver.SealedPosting say what a verifier makes of it.
   */
  function RecordFor(s: Setup, r: OutboxRow, blind: Bytes, seqNo: u64, prev: Bytes): Result<FieldRecord, Error> {
    if r.stream !in s.rels then Err(NoRelationship)
    else
      var rel := s.rels[r.stream];
      var m := MessageFor(r, seqNo, prev);
      var image := ChangeImage(s.sha, KindOf(s, r), Text(r.value), blind);
      match s.tagger(rel.writerPriv, rel.counterpartyPub, m, image)
      case Err(e) => Err(Crypto(e))
      case Ok(tag) => Ok(FieldRecord(r.stream, m, KindOf(s, r), image, tag))
  }

  /** Every field of the record of a row, the tag under the keys of its stream. */
  lemma RecordIs(s: Setup, r: OutboxRow, blind: Bytes, seqNo: u64, prev: Bytes, rec: FieldRecord)
    requires RecordFor(s, r, blind, seqNo, prev) == Ok(rec)
    ensures r.stream in s.rels && rec.streamId == r.stream
    ensures rec.message == ChangeMessage(r.table, r.rowId, r.column, r.op, seqNo, prev)
    ensures var value := match r.value case None => [] case Some(text) => text;
      if r.table in s.confidential && s.confidential[r.table] then
        && rec.imageKind == 1
        && rec.changeImage ==
             s.sha([0x43, 0x54, 0x4f, 0x2f, 0x63, 0x6f, 0x6d, 0x6d, 0x69, 0x74, 0x2f, 0x76, 0x31] + (blind + value))
      else
        rec.imageKind == 0 && rec.changeImage == BigEndian(|value|, 4) + value
    ensures var rel := s.rels[r.stream]; s.tagger(rel.writerPriv, rel.counterpartyPub, rec.message, rec.changeImage) == Ok(rec.tag)
  {
    hide ChangeImage;
    ImageIs(s.sha, Text(r.value), blind);
  }

  lemma RecordWellFormed(s: Setup, r: OutboxRow, blind: Bytes, seqNo: u64, prev: Bytes)
    requires ValidSetup(s) && Encodable(r) && LinkSize(prev) && RecordFor(s, r, blind, seqNo, prev).Ok?
    ensures WellFormedRecord(RecordFor(s, r, blind, seqNo, prev).value)
  {
    var rec := RecordFor(s, r, blind, seqNo, prev).value;
    MessageLength(rec.message);
    assert |rec.changeImage| <= 32 || |rec.changeImage| == 4 + |Text(r.value)|;
    assert |rec.tag| == 32;
  }

  // ---------------------------------------------------------------- the drain's state

  function StreamOf(posted: seq<Posting>, s: Bytes): seq<Posting> {
    if posted == [] then []
    else
      var n := |posted| - 1;
      StreamOf(posted[..n], s) + if posted[n].row.stream == s then [posted[n]] else []
  }

  function TxidAt(ps: seq<Posting>, k: nat): Txid
    requires k <= |ps|
  {
    if k == 0 then [] else ps[k - 1].txid
  }

  /** Each posting is at its place: numbered from 0 and naming the transaction before it in its stream. */
  ghost predicate Linked(s: Setup, ps: seq<Posting>) {
    forall k :: 0 <= k < |ps| ==> LinkedAt(s, ps, k)
  }

  /** Each posting is on chain: the first envelope of its transaction is its record. */
  ghost predicate Recorded(node: Node, posted: seq<Posting>) {
    forall i :: 0 <= i < |posted| ==>
      && |posted[i].txid| == 32 && posted[i].txid in node.txs
      && ReadFirst(node.txs[posted[i].txid]) == Ok(posted[i].rec)
  }

  ghost predicate Counted(posted: seq<Posting>, streamSeq: map<Bytes, nat>) {
    forall s :: (if s in streamSeq then streamSeq[s] else 0) == |StreamOf(posted, s)|
  }

  ghost predicate Headed(posted: seq<Posting>, prevLink: map<Bytes, Bytes>) {
    forall s :: (if s in prevLink then prevLink[s] else []) == TxidAt(StreamOf(posted, s), |StreamOf(posted, s)|)
  }

  /** chain_index holds exactly the positions 0.. of each stream, with the transaction of each. */
  ghost predicate Indexed(posted: seq<Posting>, chainIndex: map<(Bytes, nat), Txid>) {
    forall s, k: nat ::
      && ((s, k) in chainIndex <==> k < |StreamOf(posted, s)|)
      && ((s, k) in chainIndex ==> chainIndex[(s, k)] == StreamOf(posted, s)[k].txid)
  }

  /** te.blinding holds the blinding of exactly the confidential entries. */
  ghost predicate Blinded(s: Setup, posted: seq<Posting>, blinding: map<(Bytes, nat), Bytes>) {
    forall st, k: nat ::
      && ((st, k) in blinding <==> k < |StreamOf(posted, st)| && Confidential(s, StreamOf(posted, st)[k].row.table))
      && ((st, k) in blinding ==> blinding[(st, k)] == StreamOf(posted, st)[k].blind)
  }

  /** Every stream is linked. */
  ghost predicate AllLinked(s: Setup, posted: seq<Posting>) {
    forall st :: Linked(s, StreamOf(posted, st))
  }

  lemma StreamOfAppend(posted: seq<Posting>, p: Posting, s: Bytes)
    ensures StreamOf(posted + [p], s) == StreamOf(posted, s) + if p.row.stream == s then [p] else []
  {
    assert (posted + [p])[..|posted|] == posted;
  }

  lemma {:induction false} StreamOfLength(posted: seq<Posting>, s: Bytes)
    ensures |StreamOf(posted, s)| <= |posted|
    ensures forall p <- StreamOf(posted, s) :: p in posted && p.row.stream == s
  {
    if posted != [] {
      var n := |posted| - 1;
      StreamOfLength(posted[..n], s);
      assert forall p <- posted[..n] :: p in posted;
    }
  }

  lemma CountStep(posted: seq<Posting>, p: Posting, streamSeq: map<Bytes, nat>)
    requires Counted(posted, streamSeq)
    ensures Counted(posted + [p], streamSeq[p.row.stream := |StreamOf(posted, p.row.stream)| + 1])
  {
    hide StreamOf;
    forall t ensures StreamOf(posted + [p], t) == StreamOf(posted, t) + if p.row.stream == t then [p] else [] {
      StreamOfAppend(posted, p, t);
    }
  }

  lemma HeadStep(posted: seq<Posting>, p: Posting, prevLink: map<Bytes, Bytes>)
    requires Headed(posted, prevLink)
    ensures Headed(posted + [p], prevLink[p.row.stream := p.txid])
  {
    hide StreamOf;
    forall t ensures StreamOf(posted + [p], t) == StreamOf(posted, t) + if p.row.stream == t then [p] else [] {
      StreamOfAppend(posted, p, t);
    }
  }

  lemma IndexStep(posted: seq<Posting>, p: Posting, chainIndex: map<(Bytes, nat), Txid>)
    requires Indexed(posted, chainIndex)
    ensures Indexed(posted + [p], chainIndex[(p.row.stream, |StreamOf(posted, p.row.stream)|) := p.txid])
  {
    var s, n := p.row.stream, |StreamOf(posted, p.row.stream)|;
    var index := chainIndex[(s, n) := p.txid];
    forall t, k: nat
      ensures (t, k) in index <==> k < |StreamOf(posted + [p], t)|
      ensures (t, k) in index ==> index[(t, k)] == StreamOf(posted + [p], t)[k].txid
    {
      StreamOfAppend(posted, p, t);
      var before, after := StreamOf(posted, t), StreamOf(posted + [p], t);
      assert (t, k) in chainIndex <==> k < |before|;
      if t == s && k == n {
        assert after[k] == p;
      } else {
        assert (t, k) in index <==> (t, k) in chainIndex;
        assert k < |before| ==> after[k] == before[k];
      }
    }
  }

  lemma BlindStep(s: Setup, posted: seq<Posting>, p: Posting, blinding: map<(Bytes, nat), Bytes>)
    requires Blinded(s, posted, blinding)
    ensures var at := (p.row.stream, |StreamOf(posted, p.row.stream)|);
      Blinded(s, posted + [p], if Confidential(s, p.row.table) then blinding[at := p.blind] else blinding)
  {
    hide StreamOf, Confidential;
    var st, n := p.row.stream, |StreamOf(posted, p.row.stream)|;
    var after := if Confidential(s, p.row.table) then blinding[(st, n) := p.blind] else blinding;
    forall t, k: nat
      ensures (t, k) in after <==> k < |StreamOf(posted + [p], t)| && Confidential(s, StreamOf(posted + [p], t)[k].row.table)
      ensures (t, k) in after ==> after[(t, k)] == StreamOf(posted + [p], t)[k].blind
    {
      StreamOfAppend(posted, p, t);
      var before, longer := StreamOf(posted, t), StreamOf(posted + [p], t);
      assert (t, k) in blinding <==> k < |before| && Confidential(s, before[k].row.table);
      if t == st && k == n {
        assert longer[k] == p;
      } else {
        assert (t, k) in after <==> (t, k) in blinding;
        assert k < |before| ==> longer[k] == before[k];
      }
    }
  }

  ghost predicate LinkedAt(s: Setup, ps: seq<Posting>, k: nat)
    requires k < |ps|
  {
    k < TWO_64 && RecordFor(s, ps[k].row, ps[k].blind, k, TxidAt(ps, k)) == Ok(ps[k].rec)
  }

  lemma LinkedAppend(s: Setup, ps: seq<Posting>, p: Posting)
    requires Linked(s, ps) && LinkedAt(s, ps + [p], |ps|)
    ensures Linked(s, ps + [p])
  {
    forall k | 0 <= k < |ps + [p]| ensures LinkedAt(s, ps + [p], k) {
      if k < |ps| {
        assert LinkedAt(s, ps, k);
        assert TxidAt(ps + [p], k) == TxidAt(ps, k);
      }
    }
  }

  lemma LinkStep(s: Setup, posted: seq<Posting>, p: Posting)
    requires AllLinked(s, posted)
    requires var ps := StreamOf(posted, p.row.stream); LinkedAt(s, ps + [p], |ps|)
    ensures AllLinked(s, posted + [p])
  {
    forall st ensures Linked(s, StreamOf(posted + [p], st)) {
      StreamOfAppend(posted, p, st);
      if st == p.row.stream {
        LinkedAppend(s, StreamOf(posted, st), p);
      } else {
        assert StreamOf(posted, st) + [] == StreamOf(posted, st);
      }
    }
  }

  lemma RecordedStep(before: Node, after: Node, posted: seq<Posting>, p: Posting)
    requires Recorded(before, posted) && Extends(before, after)
    requires |p.txid| == 32 && p.txid in after.txs && ReadFirst(after.txs[p.txid]) == Ok(p.rec)
    ensures Recorded(after, posted + [p])
  {
  }

  // ---------------------------------------------------------------- one row

  function LowWord(x: int): nat {
    x % TWO_64
  }

  function Lock(s: Setup): Bytes {
    Envelope.P2pkh(s.pkh)
  }

  /** The transaction of an envelope: it spends the wallet's output and pays the change back. */
  function PostTx(s: Setup, env: Bytes, utxo: Outpoint, sats: nat): Tx {
    Tx([Input(utxo, Output(sats, Lock(s)), s.pkh)],
       [Output(ENVELOPE_SATS, env), Output(LowWord(sats - ENVELOPE_SATS), Lock(s))])
  }

  ghost predicate Holds(s: Setup, node: Node, utxo: Outpoint, sats: nat) {
    sats < TWO_64 && utxo in node.utxos && node.utxos[utxo] == Output(sats, Lock(s))
  }

  /** The node takes the transaction exactly when the wallet covers it and its id is new. */
  lemma PostAccepted(s: Setup, node: Node, env: Bytes, utxo: Outpoint, sats: nat)
    requires |s.pkh| == 20 && Holds(s, node, utxo, sats)
    ensures Accepts(node, PostTx(s, env, utxo, sats)) <==>
      sats >= 1000 && node.txidOf(PostTx(s, env, utxo, sats)) !in node.txs
  {
    var tx := PostTx(s, env, utxo, sats);
    Envelope.P2pkhIsNoEnvelope(s.pkh);
    PostSums(s, env, utxo, sats);
  }

  lemma PostSums(s: Setup, env: Bytes, utxo: Outpoint, sats: nat)
    ensures var tx := PostTx(s, env, utxo, sats);
      Sum(tx.outputs) == ENVELOPE_SATS + LowWord(sats - ENVELOPE_SATS) && Sum(Spent(tx.inputs)) == sats
  {
    var tx := PostTx(s, env, utxo, sats);
    SumTwo(tx.outputs[0], tx.outputs[1]);
    SumOne(Spent(tx.inputs));
  }

  lemma SumOne(outs: seq<Output>)
    requires |outs| == 1
    ensures Sum(outs) == outs[0].sats
  {
    assert outs[1..] == [];
  }

  lemma SumTwo(a: Output, b: Output)
    ensures Sum([a, b]) == a.sats + b.sats
  {
    SumOne([b]);
    assert [a, b][1..] == [b];
  }

  lemma LowWordOfChange(sats: nat)
    ensures ENVELOPE_SATS <= sats < TWO_64 ==> LowWord(sats - ENVELOPE_SATS) == sats - ENVELOPE_SATS
  {
  }

  /** The envelope holds the record. */
  ghost predicate Carries(env: Bytes, rec: FieldRecord) {
    match Envelope.ExtractEnvelopeData(env)
    case Ok(data) => ParseRecord(data) == Some(rec)
    case Err(_) => false
  }

  lemma CarriesReads(s: Setup, env: Bytes, rec: FieldRecord, utxo: Outpoint, sats: nat)
    requires Carries(env, rec)
    ensures ReadFirst(PostTx(s, env, utxo, sats)) == Ok(rec)
  {
  }

  lemma PostBalances(s: Setup, node: Node, env: Bytes, utxo: Outpoint, sats: nat)
    requires Ledger.Valid(node) && Accepts(node, PostTx(s, env, utxo, sats)) && ENVELOPE_SATS <= sats < TWO_64
    ensures Total(Apply(node, PostTx(s, env, utxo, sats)).utxos) == Total(node.utxos)
  {
    TotalAfter(node, PostTx(s, env, utxo, sats));
    PostSums(s, env, utxo, sats);
    LowWordOfChange(sats);
  }

  /** What a posted record leaves behind: itself on a longer chain, and the change in the wallet. */
  ghost predicate Posted(s: Setup, before: Node, after: Node, rec: FieldRecord, id: Txid, change: nat) {
    && Ledger.Valid(after) && Extends(before, after)
    && |id| == 32 && id in after.txs && ReadFirst(after.txs[id]) == Ok(rec)
    && Holds(s, after, Outpoint(id, 1), change)
  }

  lemma PostEffect(s: Setup, node: Node, env: Bytes, rec: FieldRecord, utxo: Outpoint, sats: nat)
    requires Ledger.Valid(node) && Carries(env, rec) && ENVELOPE_SATS <= sats < TWO_64
    requires Accepts(node, PostTx(s, env, utxo, sats))
    ensures var tx := PostTx(s, env, utxo, sats);
      Posted(s, node, Apply(node, tx), rec, node.txidOf(tx), sats - ENVELOPE_SATS)
  {
    var tx := PostTx(s, env, utxo, sats);
    SendValid(node, tx);
    CarriesReads(s, env, rec, utxo, sats);
    LowWordOfChange(sats);
    assert tx.outputs[1] == Output(sats - ENVELOPE_SATS, Lock(s));
  }

  /** When the row gets on chain, ps being what its stream holds already; nothing else keeps it off. */
  ghost predicate Postable(s: Setup, node: Node, r: OutboxRow, blind: Bytes, ps: seq<Posting>, utxo: Outpoint, sats: nat)
    requires |ps| < TWO_64
  {
    && RecordFor(s, r, blind, |ps|, TxidAt(ps, |ps|)).Ok?
    && var rec := RecordFor(s, r, blind, |ps|, TxidAt(ps, |ps|)).value;
       && Fits(RecordBytes(rec))
       && sats >= ENVELOPE_SATS
       && node.txidOf(PostTx(s, Envelope.IfEnvelope(RecordBytes(rec), s.pkh), utxo, sats)) !in node.txs
  }

  predicate Leaks(s: Setup, r: OutboxRow, tx: Tx) {
    Confidential(s, r.table) && Text(r.value) != [] && s.leaks(tx, Text(r.value))
  }

  /** The transaction on chain shows a confidential value of the row it records. */
  ghost predicate LeakedAt(s: Setup, node: Node, p: Posting) {
    p.txid in node.txs && Leaks(s, p.row, node.txs[p.txid])
  }

  /** The encoding part: record octets, envelope, and the check that it is spendable, which never fires. */
  method MakeEnvelope(s: Setup, rec: FieldRecord) returns (res: Result<Bytes, Error>)
    requires WellFormedRecord(rec) && |s.pkh| == 20
    ensures res.Ok? <==> Fits(RecordBytes(rec))
    ensures res.Err? ==> res.error != Leaked
    ensures res.Ok? ==> res.value == Envelope.IfEnvelope(RecordBytes(rec), s.pkh) && Carries(res.value, rec)
  {
    var encoded := GoCodec.EncodeRecord(rec);
    assert encoded == Ok(RecordBytes(rec));
    var env := Envelope.BuildEnvelopeIf(encoded.value, s.pkh);
    if env.Err? {
      return Err(Script(env.error));
    }
    Envelope.IfEnvelopeRoundTrip(encoded.value, s.pkh);
    RecordRoundTrip(rec);
    var check := Envelope.AssertNativeSpendable(env.value);
    assert check == None;
    return Ok(env.value);
  }

  // ---------------------------------------------------------------- the drain

  /** The books of the writer: everything the loop updates. */
  datatype Books = Books(
    node: Node, streamSeq: map<Bytes, nat>, prevLink: map<Bytes, Bytes>,
    chainIndex: map<(Bytes, nat), Txid>, blinding: map<(Bytes, nat), Bytes>, sent: seq<(nat, Txid)>,
    utxo: Outpoint, sats: nat)

  /** The drain invariant. */
  ghost predicate InOrder(s: Setup, b: Books, posted: seq<Posting>) {
    && ValidSetup(s) && Ledger.Valid(b.node)
    && Counted(posted, b.streamSeq) && Headed(posted, b.prevLink) && Indexed(posted, b.chainIndex)
    && Blinded(s, posted, b.blinding)
    && AllLinked(s, posted) && Recorded(b.node, posted)
    && Holds(s, b.node, b.utxo, b.sats)
  }

  lemma StepInOrder(s: Setup, b: Books, posted: seq<Posting>, p: Posting, stream: Bytes, place: nat, after: Books)
    requires InOrder(s, b, posted)
    requires stream == p.row.stream && place == |StreamOf(posted, stream)|
    requires LinkedAt(s, StreamOf(posted, stream) + [p], place)
    requires after.streamSeq == b.streamSeq[stream := place + 1]
    requires after.prevLink == b.prevLink[stream := p.txid]
    requires after.chainIndex == b.chainIndex[(stream, place) := p.txid]
    requires after.blinding == if Confidential(s, p.row.table) then b.blinding[(stream, place) := p.blind] else b.blinding
    requires Posted(s, b.node, after.node, p.rec, p.txid, after.sats) && after.utxo == Outpoint(p.txid, 1)
    ensures InOrder(s, after, posted + [p])
  {
    hide StreamOf, Counted, Headed, Indexed, Blinded, AllLinked, LinkedAt, Ledger.Valid, ReadFirst, ValidSetup;
    BlindStep(s, posted, p, b.blinding);
    RecordedStep(b.node, after.node, posted, p);
    CountStep(posted, p, b.streamSeq);
    HeadStep(posted, p, b.prevLink);
    IndexStep(posted, p, b.chainIndex);
    LinkStep(s, posted, p);
  }

  /** Sends the transaction of an envelope; on success, the node and wallet after it. */
  method SendEnvelope(s: Setup, node: Node, utxo: Outpoint, sats: nat, env: Bytes, ghost rec: FieldRecord)
    returns (tx: Tx, after: Node, id: Result<Txid, Ledger.Error>, change: nat)
    requires |s.pkh| == 20 && Ledger.Valid(node) && Holds(s, node, utxo, sats) && Carries(env, rec)
    ensures tx == PostTx(s, env, utxo, sats)
    ensures id == if sats >= ENVELOPE_SATS && node.txidOf(tx) !in node.txs then Ok(node.txidOf(tx)) else Err(Rejected)
    ensures id.Ok? ==> change == sats - ENVELOPE_SATS && Posted(s, node, after, rec, id.value, change)
    ensures id.Ok? ==> Total(after.utxos) == Total(node.utxos) && after.txs[id.value] == tx
  {
    change := LowWord(sats - ENVELOPE_SATS);
    tx := Tx([Input(utxo, Output(sats, Lock(s)), s.pkh)],
             [Output(ENVELOPE_SATS, env), Output(change, Lock(s))]);
    assert tx == PostTx(s, env, utxo, sats);
    PostAccepted(s, node, env, utxo, sats);
    var sent := Send(node, tx);
    after, id := sent.0, sent.1;
    if id.Ok? {
      PostEffect(s, node, env, rec, utxo, sats);
      PostBalances(s, node, env, utxo, sats);
      LowWordOfChange(sats);
    }
  }

  /** The place of the next record of a stream, and the link it carries. */
  lemma PlaceOf(s: Setup, b: Books, posted: seq<Posting>, stream: Bytes)
    requires InOrder(s, b, posted)
    ensures var ps := StreamOf(posted, stream);
      && (if stream in b.streamSeq then b.streamSeq[stream] else 0) == |ps|
      && (if stream in b.prevLink then b.prevLink[stream] else []) == TxidAt(ps, |ps|)
      && LinkSize(TxidAt(ps, |ps|))
    ensures ValidSetup(s) && Ledger.Valid(b.node) && Holds(s, b.node, b.utxo, b.sats)
  {
    StreamOfLength(posted, stream);
    var ps := StreamOf(posted, stream);
    if ps != [] {
      assert ps[|ps| - 1] in posted;
    }
  }

  /** The row at place k of a stream. */
  function RowAt(posted: seq<Posting>, st: Bytes, k: nat): OutboxRow
    requires k < |StreamOf(posted, st)|
  {
    StreamOf(posted, st)[k].row
  }

  /** What the chain holds at each place of each stream: its row, numbered, linked to the place before, and tagged. */
  lemma ChainHolds(s: Setup, b: Books, posted: seq<Posting>, st: Bytes, k: nat) returns (rec: FieldRecord)
    requires InOrder(s, b, posted) && k < |StreamOf(posted, st)|
    ensures (st, k) in b.chainIndex && b.chainIndex[(st, k)] in b.node.txs && (k > 0 ==> (st, k - 1) in b.chainIndex)
    ensures ReadFirst(b.node.txs[b.chainIndex[(st, k)]]) == Ok(rec)
    ensures var r := RowAt(posted, st, k);
      && r.stream == st && st in s.rels && rec.streamId == st && k < TWO_64
      && rec.message ==
           ChangeMessage(r.table, r.rowId, r.column, r.op, k, if k == 0 then [] else b.chainIndex[(st, k - 1)])
      && (rec.imageKind == 1 <==> r.table in s.confidential && s.confidential[r.table])
      && s.tagger(s.rels[st].writerPriv, s.rels[st].counterpartyPub, rec.message, rec.changeImage) == Ok(rec.tag)
  {
    hide StreamOf, Counted, Headed, Blinded, ValidSetup, Ledger.Valid, ReadFirst, RecordFor;
    var ps := StreamOf(posted, st);
    assert Linked(s, ps) && LinkedAt(s, ps, k);
    StreamOfLength(posted, st);
    var p := ps[k];
    var i :| 0 <= i < |posted| && posted[i] == p;
    rec := p.rec;
    RecordIs(s, p.row, p.blind, k, TxidAt(ps, k), rec);
  }

  /** What te.blinding is for: with it, the entry that chain_index points at opens to the value of its row. */
  lemma BlindingOpens(s: Setup, b: Books, posted: seq<Posting>, st: Bytes, k: nat)
    requires InOrder(s, b, posted) && (st, k) in b.blinding
    ensures k < |StreamOf(posted, st)| && (st, k) in b.chainIndex && b.chainIndex[(st, k)] in b.node.txs
    ensures var rec := ReadFirst(b.node.txs[b.chainIndex[(st, k)]]);
      && rec.Ok? && rec.value.imageKind == IMAGE_COMMITMENT
      && rec.value.changeImage == Commit(s.sha, Text(RowAt(posted, st, k).value), b.blinding[(st, k)])
  {
    hide StreamOf, Counted, Headed, Linked, ValidSetup, Ledger.Valid, ReadFirst, Commit;
    assert Linked(s, StreamOf(posted, st));
    StreamOfLength(posted, st);
    var p := StreamOf(posted, st)[k];
    var i :| 0 <= i < |posted| && posted[i] == p;
    SealedAt(s, StreamOf(posted, st), k);
  }

  lemma SealedAt(s: Setup, ps: seq<Posting>, k: nat)
    requires Linked(s, ps) && k < |ps| && Confidential(s, ps[k].row.table)
    ensures ps[k].rec.imageKind == IMAGE_COMMITMENT
    ensures ps[k].rec.changeImage == Commit(s.sha, Text(ps[k].row.value), ps[k].blind)
  {
    assert LinkedAt(s, ps, k);
  }

  /** So the chain binds the values of a confidential stream: no other opening fits, unless SHA-256 collides on both. */
  lemma ChainBinds(s: Setup, b: Books, posted: seq<Posting>, st: Bytes, k: nat, v: Bytes, r: Bytes)
    requires InOrder(s, b, posted) && (st, k) in b.blinding && |b.blinding[(st, k)]| == |r| == 32
    requires b.chainIndex[(st, k)] in b.node.txs
    requires match ReadFirst(b.node.txs[b.chainIndex[(st, k)]])
      case Ok(rec) => rec.changeImage == Commit(s.sha, v, r)
      case Err(_) => false
    ensures k < |StreamOf(posted, st)|
    ensures var value, blind := Text(RowAt(posted, st, k).value), b.blinding[(st, k)];
      var x, y := COMMIT_DOMAIN + (r + v), COMMIT_DOMAIN + (blind + value);
      (v == value && r == blind) || (x != y && s.sha(x) == s.sha(y))
  {
    hide InOrder, StreamOf, ReadFirst, RowAt;
    BlindingOpens(s, b, posted, st, k);
    CommitBinds(s.sha, v, r, Text(RowAt(posted, st, k).value), b.blinding[(st, k)]);
  }

  lemma NewLink(s: Setup, ps: seq<Posting>, p: Posting, place: u64)
    requires place == |ps| && RecordFor(s, p.row, p.blind, place, TxidAt(ps, place)) == Ok(p.rec)
    ensures LinkedAt(s, ps + [p], place)
  {
    assert TxidAt(ps + [p], place) == TxidAt(ps, place);
  }

  /**
   The loop body: records one outbox row on chain and in the index.  A leak is found only afterwards, so the row is on
   chain, indexed and marked by then; the run ends there, and nothing reads the counters in memory any more.
   */
  method PostRow(s: Setup, b: Books, r: OutboxRow, blind: Bytes, ghost posted: seq<Posting>)
    returns (e: Option<Error>, after: Books, p: Posting)
    requires InOrder(s, b, posted) && Encodable(r) && |StreamOf(posted, r.stream)| < TWO_64
    ensures var ps := StreamOf(posted, r.stream);
      if Postable(s, b.node, r, blind, ps, b.utxo, b.sats) then
        && p.row == r && p.blind == blind && InOrder(s, after, posted + [p]) && Extends(b.node, after.node)
        && Total(after.node.utxos) == Total(b.node.utxos)
        && after.utxo == Outpoint(p.txid, 1) && after.sats == b.sats - ENVELOPE_SATS
        && after.sent == b.sent + [(|ps|, p.txid)]
        && e == if LeakedAt(s, after.node, p) then Some(Leaked) else None
      else
        e.Some? && e != Some(Leaked) && after == b
  {
    hide InOrder, StreamOf, Carries, WellFormedRecord, Encodable, Posted, LinkedAt, Ledger.Valid, RecordBytes;
    hide Envelope.IfEnvelope, Ledger.Total, Extends, Envelope.P2pkh, ChangeImage, PostTx, Holds, KindOf, MessageFor, Text;
    p, after := Posting(r, blind, FieldRecord([], MessageFor(r, 0, []), 0, [], []), []), b;
    var sseq := if r.stream in b.streamSeq then b.streamSeq[r.stream] else 0;
    var prev := if r.stream in b.prevLink then b.prevLink[r.stream] else [];
    PlaceOf(s, b, posted, r.stream);
    var made := RecordFor(s, r, blind, sseq, prev);
    if made.Err? {
      return Some(made.error), b, p;
    }
    var rec := made.value;
    RecordWellFormed(s, r, blind, sseq, prev);
    var env := MakeEnvelope(s, rec);
    if env.Err? {
      return Some(env.error), b, p;
    }
    var tx, node, id, change := SendEnvelope(s, b.node, b.utxo, b.sats, env.value, rec);
    if id.Err? {
      return Some(Broadcast), b, p;
    }
    p := Posting(r, blind, rec, id.value);
    NewLink(s, StreamOf(posted, r.stream), p, sseq);
    var conf := Confidential(s, r.table);
    after := Books(
      node,
      b.streamSeq[r.stream := sseq + 1],
      b.prevLink[r.stream := id.value],
      b.chainIndex[(r.stream, sseq) := id.value],
      if conf then b.blinding[(r.stream, sseq) := blind] else b.blinding,
      b.sent + [(sseq, id.value)],
      Outpoint(id.value, 1), change);
    StepInOrder(s, b, posted, p, r.stream, sseq, after);
    PostedOnChain(s, b.node, node, rec, id.value, change);
    e := if conf && Text(r.value) != [] && s.leaks(node.txs[id.value], Text(r.value)) then Some(Leaked) else None;
  }

  lemma PostedOnChain(s: Setup, before: Node, after: Node, rec: FieldRecord, id: Txid, change: nat)
    requires Posted(s, before, after, rec, id, change)
    ensures id in after.txs && Extends(before, after)
  {
  }

  function Rows(posted: seq<Posting>): (r: seq<OutboxRow>)
    ensures |r| == |posted| && forall i :: 0 <= i < |posted| ==> r[i] == posted[i].row
  {
    seq(|posted|, i requires 0 <= i < |posted| => posted[i].row)
  }

  /** Each outbox row was marked sent with its place in its stream and its transaction. */
  ghost predicate Marked(posted: seq<Posting>, sent: seq<(nat, Txid)>) {
    && |sent| == |posted|
    && forall i :: 0 <= i < |posted| ==>
         sent[i] == (|StreamOf(posted[..i], posted[i].row.stream)|, posted[i].txid)
  }

  function FreshBooks(node: Node, utxo: Outpoint, sats: nat): Books {
    Books(node, map[], map[], map[], map[], [], utxo, sats)
  }

  lemma FreshInOrder(s: Setup, node: Node, utxo: Outpoint, sats: nat)
    requires ValidSetup(s) && Ledger.Valid(node) && Holds(s, node, utxo, sats)
    ensures InOrder(s, FreshBooks(node, utxo, sats), [])
  {
  }

  /** The wallet's output is the last change and has paid 1000 satoshis a row; no satoshi and no transaction was lost. */
  ghost predicate Paid(node: Node, sats: nat, b: Books, posted: seq<Posting>) {
    && b.sats + 1000 * |posted| == sats
    && (posted != [] ==> b.utxo == Outpoint(posted[|posted| - 1].txid, 1))
    && Extends(node, b.node) && Total(b.node.utxos) == Total(node.utxos)
  }

  lemma PaidStep(node: Node, sats: nat, b: Books, posted: seq<Posting>, after: Books, p: Posting)
    requires Paid(node, sats, b, posted) && Extends(b.node, after.node) && Total(after.node.utxos) == Total(b.node.utxos)
    requires after.utxo == Outpoint(p.txid, 1) && after.sats == b.sats - ENVELOPE_SATS
    ensures Paid(node, sats, after, posted + [p])
  {
    hide Total;
  }

  /** No posting shows a confidential value. */
  ghost predicate Discreet(s: Setup, node: Node, posted: seq<Posting>) {
    forall p <- posted :: !LeakedAt(s, node, p)
  }

  lemma NothingPosted(s: Setup, b: Books)
    requires b.sent == []
    ensures Marked([], b.sent) && Discreet(s, b.node, []) && Paid(b.node, b.sats, b, []) && Rows([]) == []
  {
  }

  /** What a transaction shows never changes. */
  lemma LeaksStay(s: Setup, b: Books, after: Node, posted: seq<Posting>, p: Posting)
    requires InOrder(s, b, posted) && Extends(b.node, after) && Discreet(s, b.node, posted)
    ensures Discreet(s, after, posted) && (!LeakedAt(s, after, p) ==> Discreet(s, after, posted + [p]))
  {
    hide Leaks, Counted, Headed, Indexed, Blinded, AllLinked, ValidSetup, Ledger.Valid;
    assert Recorded(b.node, posted);
  }

  lemma RowsStep(posted: seq<Posting>, p: Posting, pending: seq<OutboxRow>)
    requires |posted| < |pending| && Rows(posted) == pending[..|posted|] && p.row == pending[|posted|]
    ensures Rows(posted + [p]) == pending[..|posted| + 1]
  {
  }

  lemma MarkStep(posted: seq<Posting>, p: Posting, sent: seq<(nat, Txid)>, place: nat)
    requires Marked(posted, sent) && place == |StreamOf(posted, p.row.stream)|
    ensures Marked(posted + [p], sent + [(place, p.txid)])
  {
    var after := posted + [p];
    forall i | 0 <= i < |after| ensures after[..i] == if i < |posted| then posted[..i] else posted {
    }
  }

  /** The next row cannot be posted. */
  ghost predicate Stuck(s: Setup, b: Books, posted: seq<Posting>, pending: seq<OutboxRow>, blinds: seq<Bytes>)
    requires |blinds| == |pending|
  {
    var i := |posted|;
    && i < |pending| && |StreamOf(posted, pending[i].stream)| < TWO_64
    && !Postable(s, b.node, pending[i], blinds[i], StreamOf(posted, pending[i].stream), b.utxo, b.sats)
  }

  lemma StuckAt(s: Setup, b: Books, posted: seq<Posting>, pending: seq<OutboxRow>, blinds: seq<Bytes>)
    requires |posted| < |pending| == |blinds| && |StreamOf(posted, pending[|posted|].stream)| < TWO_64
    requires var r := pending[|posted|]; !Postable(s, b.node, r, blinds[|posted|], StreamOf(posted, r.stream), b.utxo, b.sats)
    ensures Stuck(s, b, posted, pending, blinds)
  {
    hide Postable, StreamOf;
  }

  /** A leak is a confidential value that is there, is not empty, and is found in the transaction. */
  lemma LeakedIff(s: Setup, node: Node, p: Posting)
    ensures LeakedAt(s, node, p) <==>
      && p.txid in node.txs && p.row.table in s.confidential && s.confidential[p.row.table]
      && p.row.value.Some? && p.row.value.value != [] && s.leaks(node.txs[p.txid], p.row.value.value)
  {
  }

  /**
   The drain.  At every moment a prefix of the pending rows is on chain, in order and paid for.  It stops early
   only at a row that cannot be posted, or after the first one whose transaction shows a confidential value.
   */
  method Drain(s: Setup, node: Node, utxo: Outpoint, sats: nat, pending: seq<OutboxRow>, blinds: seq<Bytes>)
    returns (e: Option<Error>, books: Books, posted: seq<Posting>)
    requires ValidSetup(s) && Ledger.Valid(node) && Holds(s, node, utxo, sats)
    requires |pending| == |blinds| < TWO_64 && forall r <- pending :: Encodable(r)
    ensures |posted| <= |pending| && Rows(posted) == pending[..|posted|]
    ensures InOrder(s, books, posted) && Marked(posted, books.sent)
    ensures Paid(node, sats, books, posted)
    ensures e == None ==> Rows(posted) == pending
    ensures e != Some(Leaked) ==> Discreet(s, books.node, posted)
    ensures e == Some(Leaked) ==>
      var n := |posted| - 1; n >= 0 && LeakedAt(s, books.node, posted[n]) && Discreet(s, books.node, posted[..n])
    ensures e.Some? && e != Some(Leaked) ==> Stuck(s, books, posted, pending, blinds)
  {
    hide Stuck, InOrder, StreamOf, Encodable, Postable, Ledger.Total, LeakedAt, Discreet, Marked, Rows, Paid, Extends;
    books := FreshBooks(node, utxo, sats);
    posted := [];
    FreshInOrder(s, node, utxo, sats);
    NothingPosted(s, books);
    for i := 0 to |pending|
      invariant |posted| == i && Rows(posted) == pending[..i] && InOrder(s, books, posted) && Marked(posted, books.sent)
      invariant Paid(node, sats, books, posted) && Discreet(s, books.node, posted)
    {
      StreamOfLength(posted, pending[i].stream);
      assert pending[i] in pending;
      var stopped, next, p := PostRow(s, books, pending[i], blinds[i], posted);
      if stopped.Some? && stopped != Some(Leaked) {
        StuckAt(s, books, posted, pending, blinds);
        return stopped, books, posted;
      }
      MarkStep(posted, p, books.sent, |StreamOf(posted, p.row.stream)|);
      LeaksStay(s, books, next.node, posted, p);
      RowsStep(posted, p, pending);
      PaidStep(node, sats, books, posted, next, p);
      assert (posted + [p])[..i] == posted;
      posted := posted + [p];
      books := next;
      if stopped.Some? {
        return stopped, books, posted;
      }
    }
    return None, books, posted;
  }
}
