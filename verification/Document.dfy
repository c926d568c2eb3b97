/** The document engine: origination, transitions, and the verification of a document's history. */
module Document {
  import opened Wrappers
  import opened ByteStrings
  import opened Format
  import opened Ledger
  import opened Lineage
  import opened Keystone
  import opened StateCoins
  import opened DocPayload
  import Envelope
  import Utf8

  const STATE_SATS: nat := 1000

  type Registry = map<Bytes, Automaton>

  /** One state of a document's lineage, as the engine hands it out. */
  datatype Doc = Doc(
    docType: Bytes, objectId: Bytes, state: Bytes, refs: seq<Bytes>, bodyHash: Bytes, controller: Keypair,
    seqNo: u64, txid: Txid, vout: nat, sats: nat, lock: Bytes)

  function At(d: Doc): Outpoint {
    Outpoint(d.txid, d.vout)
  }

  /** AddInputFrom: the state output as the document describes it, signed by its controller. */
  function SpendOf(d: Doc): Input {
    Input(At(d), Output(d.sats, d.lock), d.controller.pkh)
  }

  // ---------------------------------------------------------------- state records

  function PayloadOf(d: Doc): Payload {
    Payload(d.docType, d.objectId, d.state, d.refs, d.bodyHash, d.controller.pub)
  }

  function StateMessage(d: Doc, op: byte, prev: Bytes): ChangeMessage {
    ChangeMessage(d.docType, d.objectId, STATE, op, d.seqNo, prev)
  }

  function DocRecord(k: Keys, d: Doc, op: byte, prev: Bytes): Result<FieldRecord, Keystone.Error> {
    StateRecord(k, d.docType, StateMessage(d, op, prev), PayloadBytes(PayloadOf(d)))
  }

  /** The record of a document state: its names, place and image, all in the clear, under a tag that verifies. */
  lemma DocRecordIs(k: Keys, d: Doc, op: byte, prev: Bytes, rec: FieldRecord)
    requires DocRecord(k, d, op, prev) == Ok(rec)
    ensures rec.streamId == rec.message.tableId == d.docType && rec.message.rowId == d.objectId
    ensures rec.message.columnId == [0x73, 0x74, 0x61, 0x74, 0x65]
    ensures rec.message.op == op && rec.message.seqNo == d.seqNo && rec.message.prevTxid == prev && rec.imageKind == 0
    ensures rec.changeImage ==
      PayloadBytes(Payload(d.docType, d.objectId, d.state, d.refs, d.bodyHash, d.controller.pub))
    ensures k.tagger(k.writerPriv, k.counterpartyPub, rec.message, rec.changeImage) == Ok(rec.tag)
  {
    hide PayloadBytes;
  }

  /** recAndEnvelope. */
  method DocEnvelope(k: Keys, d: Doc, op: byte, prev: Bytes) returns (res: Result<Bytes, StateCoins.Error>)
    requires SizedTagger(k.tagger) && ValidKey(d.controller)
    ensures var made := DocRecord(k, d, op, prev);
      && (res.Ok? <==> Encodable(made))
      && (res.Ok? ==> res.value == EnvelopeOf(made.value, d.controller))
  {
    hide Encodable, EnvelopeOf, PayloadBytes;
    var image := EncodePayload(PayloadOf(d));
    res := MakeEnvelope(k, d.docType, StateMessage(d, op, prev), image, d.controller);
  }

  lemma {:induction false} RefsSize(refs: seq<Bytes>)
    ensures 4 * |refs| <= |RefsBytes(refs)|
    ensures forall r <- refs :: |r| <= |RefsBytes(refs)|
  {
    if refs != [] {
      RefsSize(refs[1..]);
      assert |RefsBytes(refs)| == 4 + |refs[0]| + |RefsBytes(refs[1..])|;
      forall r | r in refs ensures r == refs[0] || r in refs[1..] {
      }
    }
  }

  /** An image that fits consists of parts that do. */
  lemma ImageParts(p: Payload)
    requires Fits(PayloadBytes(p))
    ensures AllFit(p)
  {
    RefsSize(p.refs);
    assert |PayloadBytes(p)| ==
      24 + |p.docType| + |p.objectId| + |p.state| + |RefsBytes(p.refs)| + |p.bodyHash| + |p.controllerPub|;
  }

  /** What is known of an encodable document record: it is a state record, text exactly when the document type is. */
  lemma DocIsState(k: Keys, d: Doc, op: byte, prev: Bytes)
    requires SizedTagger(k.tagger) && Encodable(DocRecord(k, d, op, prev)) && op in {OP_INSERT, OP_UPDATE}
    ensures var rec := DocRecord(k, d, op, prev).value;
      && Stateful(rec) && IsStateOf(rec, d.objectId) && rec.message.prevTxid == prev
      && (TextMessage(rec.message) <==> Utf8.Valid(d.docType)) && AllFit(PayloadOf(d))
  {
    hide RecordBytes, PayloadBytes, Utf8.Valid, AllFit;
    var rec := DocRecord(k, d, op, prev).value;
    Utf8.AsciiIsValid(STATE);
    RecordLength(rec);
    ImageParts(PayloadOf(d));
  }

  // ---------------------------------------------------------------- histories

  /** The events a document went through: state i is reached by event i - 1 and controlled by key i. */
  datatype Journey = Journey(states: seq<Bytes>, events: seq<Bytes>, pubs: seq<Bytes>)

  datatype Dossier = Dossier(doc: Doc, journey: Journey, recs: seq<FieldRecord>)

  /** The document as it was in state i. */
  function Past(dos: Dossier, i: nat): Doc
    requires i < |dos.journey.states| == |dos.journey.pubs|
  {
    dos.doc.(state := dos.journey.states[i], controller := Keypair(dos.journey.pubs[i], []), seqNo := i % TWO_64)
  }

  ghost predicate ToldAt(k: Keys, dos: Dossier, i: nat)
    requires i < |dos.recs| == |dos.journey.states| == |dos.journey.pubs|
  {
    && DocRecord(k, Past(dos, i), if i == 0 then OP_INSERT else OP_UPDATE, dos.recs[i].message.prevTxid) == Ok(dos.recs[i])
    && AllFit(PayloadOf(Past(dos, i))) && AllText(PayloadOf(Past(dos, i)))
  }

  /** A path of the automaton from its initial state. */
  ghost predicate Path(a: Automaton, j: Journey) {
    && |j.states| == |j.events| + 1 == |j.pubs|
    && j.states[0] == a.initial
    && forall i :: 0 <= i < |j.events| ==> Next(a.transitions, j.states[i], j.events[i]) == Some(j.states[i + 1])
  }

  /** The records tell the document's journey: each state at its number, the last one current. */
  ghost predicate Told(k: Keys, reg: Registry, dos: Dossier) {
    && dos.doc.docType in reg && Path(reg[dos.doc.docType], dos.journey)
    && |dos.recs| == |dos.journey.states| == |dos.journey.pubs| == |dos.journey.events| + 1
    && dos.journey.states[|dos.recs| - 1] == dos.doc.state && dos.journey.pubs[|dos.recs| - 1] == dos.doc.controller.pub
    && (|dos.recs| - 1) % TWO_64 == dos.doc.seqNo
    && forall i :: 0 <= i < |dos.recs| ==> ToldAt(k, dos, i)
  }

  datatype History = History(states: seq<Bytes>, last: Payload, verified: nat)

  function CheckState(k: Keys, h: History, rec: FieldRecord): Result<History, StateCoins.Error> {
    match CheckTag(k.tagger, k.writerPriv, k.counterpartyPub, rec)
    case Some(e) => Err(Crypto(e))
    case None =>
      match ParsePayload(rec.changeImage)
      case None => Err(BadImage)
      case Some(p) => Ok(History(h.states + [p.state], p, h.verified + 1))
  }

  function Checking(k: Keys): Step<History, StateCoins.Error> {
    (h: History, rec: FieldRecord) => CheckState(k, h, rec)
  }

  const BLANK := History([], Payload([], [], [], [], [], []), 0)

  function HistoryOf(k: Keys, recs: seq<FieldRecord>): Result<History, StateCoins.Error> {
    Fold(Checking(k), BLANK, recs)
  }

  /** Verification succeeds exactly when every tag verifies and every image is a payload. */
  lemma HistoryIff(k: Keys, recs: seq<FieldRecord>)
    ensures HistoryOf(k, recs).Ok? <==> forall rec <- recs ::
      && k.tagger(k.writerPriv, k.counterpartyPub, rec.message, rec.changeImage) == Ok(rec.tag)
      && ParsePayload(rec.changeImage).Some?
  {
    hide ParsePayload;
    var good := (rec: FieldRecord) => CheckState(k, BLANK, rec).Ok?;
    FoldOkIff(Checking(k), good, BLANK, recs);
  }

  /** And it finds what the records say: the state of each, in order, and the whole of the last. */
  lemma {:induction false} HistoryTells(k: Keys, recs: seq<FieldRecord>, i: nat)
    requires HistoryOf(k, recs).Ok? && i < |recs|
    ensures ParsePayload(recs[i].changeImage).Some? && ParsePayload(recs[|recs| - 1].changeImage).Some?
    ensures var h := HistoryOf(k, recs).value;
      && h.verified == |h.states| == |recs| && h.states[i] == ParsePayload(recs[i].changeImage).value.state
      && h.last == ParsePayload(recs[|recs| - 1].changeImage).value
  {
    hide ParsePayload;
    var n := |recs| - 1;
    FoldNone(Checking(k), BLANK, recs);
    if n > 0 {
      HistoryTells(k, recs[..n], if i < n then i else 0);
    }
  }

  /** What verification must find: the states visited, and the last one with its references, body and controller. */
  function Visited(dos: Dossier): History {
    History(dos.journey.states, PayloadOf(dos.doc), |dos.recs|)
  }

  /** The lineage of id that ends at head verifies, to h. */
  ghost predicate Verifies(node: Node, k: Keys, head: Txid, id: Bytes, h: History) {
    exists recs :: OnChain(node.txs, ReadState(id), head, recs) && HistoryOf(k, recs) == Ok(h)
  }

  /** A document record verifies exactly when its strings are UTF-8. */
  lemma OneState(k: Keys, d: Doc, op: byte, prev: Bytes, h: History)
    requires DocRecord(k, d, op, prev).Ok? && AllFit(PayloadOf(d))
    ensures CheckState(k, h, DocRecord(k, d, op, prev).value) ==
      if AllText(PayloadOf(d)) then Ok(History(h.states + [d.state], PayloadOf(d), h.verified + 1)) else Err(BadImage)
  {
    hide PayloadBytes, ParsePayload, AllFit, AllText;
    PayloadRoundTrip(PayloadOf(d));
  }

  lemma {:induction false} JourneyPrefix(k: Keys, reg: Registry, dos: Dossier, n: nat)
    requires Told(k, reg, dos) && n < |dos.recs|
    ensures HistoryOf(k, dos.recs[..n + 1]) == Ok(History(dos.journey.states[..n + 1], PayloadOf(Past(dos, n)), n + 1))
  {
    hide CheckState, Fold, DocRecord, Path;
    var before := BLANK;
    FoldNone(Checking(k), before, dos.recs);
    if n > 0 {
      JourneyPrefix(k, reg, dos, n - 1);
      before := History(dos.journey.states[..n], PayloadOf(Past(dos, n - 1)), n);
    }
    assert HistoryOf(k, dos.recs[..n]) == Ok(before);
    FoldNext(Checking(k), BLANK, dos.recs, n);
    StateChecks(k, reg, dos, n, before);
    assert dos.journey.states[..n + 1] == before.states + [dos.journey.states[n]];
  }

  lemma StateChecks(k: Keys, reg: Registry, dos: Dossier, n: nat, h: History)
    requires Told(k, reg, dos) && n < |dos.recs|
    ensures CheckState(k, h, dos.recs[n]) ==
      Ok(History(h.states + [dos.journey.states[n]], PayloadOf(Past(dos, n)), h.verified + 1))
  {
    hide CheckState, DocRecord, Path, AllFit, AllText;
    assert ToldAt(k, dos, n);
    OneState(k, Past(dos, n), if n == 0 then OP_INSERT else OP_UPDATE, dos.recs[n].message.prevTxid, h);
  }

  /** A document's records verify, to exactly the states it visited. */
  lemma JourneyVerifies(k: Keys, reg: Registry, dos: Dossier)
    requires Told(k, reg, dos)
    ensures HistoryOf(k, dos.recs) == Ok(Visited(dos))
  {
    hide HistoryOf, ToldAt, Path;
    var n := |dos.recs| - 1;
    JourneyPrefix(k, reg, dos, n);
    assert dos.recs[..n + 1] == dos.recs && dos.journey.states[..n + 1] == dos.journey.states;
    assert PayloadOf(Past(dos, n)) == PayloadOf(dos.doc);
  }

  /**
   Every record of a document, from origination on, names the same references and body; record i holds the
   i-th state visited and the key that controlled it.
   */
  lemma SameBodyThroughout(k: Keys, reg: Registry, dos: Dossier, i: nat)
    requires Told(k, reg, dos) && i < |dos.recs|
    ensures ParsePayload(dos.recs[i].changeImage) ==
      Some(Payload(dos.doc.docType, dos.doc.objectId, dos.journey.states[i], dos.doc.refs, dos.doc.bodyHash, dos.journey.pubs[i]))
  {
    hide ParsePayload, DocRecord, Path, ToldAt;
    StateChecks(k, reg, dos, i, BLANK);
  }

  // ---------------------------------------------------------------- one more state

  /** The dossier after event leads to next. */
  function After(dos: Dossier, event: Bytes, next: Doc, rec: FieldRecord): Dossier {
    Dossier(next,
            Journey(dos.journey.states + [next.state], dos.journey.events + [event], dos.journey.pubs + [next.controller.pub]),
            dos.recs + [rec])
  }

  /** next is the same document one state on. */
  predicate Succeeds(d: Doc, next: Doc) {
    && next.docType == d.docType && next.objectId == d.objectId && next.refs == d.refs && next.bodyHash == d.bodyHash
    && next.seqNo == (d.seqNo + 1) % TWO_64 && next.sats == d.sats
  }

  /** The content of a record depends on these fields only. */
  lemma SameRecord(k: Keys, d: Doc, e: Doc, op: byte, prev: Bytes)
    requires PayloadOf(d) == PayloadOf(e) && d.seqNo == e.seqNo
    ensures DocRecord(k, d, op, prev) == DocRecord(k, e, op, prev)
  {
  }

  lemma JourneyContinues(k: Keys, reg: Registry, dos: Dossier, event: Bytes, next: Doc, rec: FieldRecord)
    requires Told(k, reg, dos) && Succeeds(dos.doc, next) && AllFit(PayloadOf(next)) && AllText(PayloadOf(next))
    requires Next(reg[dos.doc.docType].transitions, dos.doc.state, event) == Some(next.state)
    requires DocRecord(k, next, OP_UPDATE, rec.message.prevTxid) == Ok(rec)
    ensures Told(k, reg, After(dos, event, next, rec))
  {
    hide DocRecord, Path, ToldAt, Next, AllFit, AllText;
    var after := After(dos, event, next, rec);
    PathContinues(reg[dos.doc.docType], dos.journey, event, next.state, next.controller.pub);
    forall i | 0 <= i < |after.recs| ensures ToldAt(k, after, i) {
      if i < |dos.recs| {
        assert ToldAt(k, dos, i);
        ToldEarlier(k, dos, event, next, rec, i);
      } else {
        ToldLast(k, dos, event, next, rec);
      }
    }
  }

  lemma PathContinues(a: Automaton, j: Journey, event: Bytes, to: Bytes, pub: Bytes)
    requires Path(a, j) && Next(a.transitions, j.states[|j.events|], event) == Some(to)
    ensures Path(a, Journey(j.states + [to], j.events + [event], j.pubs + [pub]))
  {
  }

  lemma ToldEarlier(k: Keys, dos: Dossier, event: Bytes, next: Doc, rec: FieldRecord, i: nat)
    requires |dos.recs| == |dos.journey.states| == |dos.journey.pubs| && i < |dos.recs|
    requires ToldAt(k, dos, i) && Succeeds(dos.doc, next)
    ensures ToldAt(k, After(dos, event, next, rec), i)
  {
    hide DocRecord, AllFit, AllText;
    var after := After(dos, event, next, rec);
    SameRecord(k, Past(dos, i), Past(after, i), if i == 0 then OP_INSERT else OP_UPDATE, dos.recs[i].message.prevTxid);
  }

  lemma ToldLast(k: Keys, dos: Dossier, event: Bytes, next: Doc, rec: FieldRecord)
    requires |dos.recs| == |dos.journey.states| == |dos.journey.pubs| > 0
    requires (|dos.recs| - 1) % TWO_64 == dos.doc.seqNo && Succeeds(dos.doc, next)
    requires DocRecord(k, next, OP_UPDATE, rec.message.prevTxid) == Ok(rec)
    requires AllFit(PayloadOf(next)) && AllText(PayloadOf(next))
    ensures ToldAt(k, After(dos, event, next, rec), |dos.recs|)
  {
    hide DocRecord, AllFit, AllText;
    var after := After(dos, event, next, rec);
    SameRecord(k, next, Past(after, |dos.recs|), OP_UPDATE, rec.message.prevTxid);
  }

  /** The dossier of a document that has just been originated. */
  function Opened(d: Doc, rec: FieldRecord): Dossier {
    Dossier(d, Journey([d.state], [], [d.controller.pub]), [rec])
  }

  lemma JourneyBegins(k: Keys, reg: Registry, d: Doc, rec: FieldRecord)
    requires d.docType in reg && d.state == reg[d.docType].initial && d.seqNo == 0
    requires AllFit(PayloadOf(d)) && AllText(PayloadOf(d)) && DocRecord(k, d, OP_INSERT, rec.message.prevTxid) == Ok(rec)
    ensures Told(k, reg, Opened(d, rec))
  {
    hide DocRecord, AllFit, AllText;
    var dos := Opened(d, rec);
    SameRecord(k, d, Past(dos, 0), OP_INSERT, rec.message.prevTxid);
    assert ToldAt(k, dos, 0);
  }

  // ---------------------------------------------------------------- the books of the engine

  /** Everything an engine is made of: the documents on chain by their current output, and the outputs spent. */
  datatype Books = Books(
    k: Keys, wallet: Keypair, reg: Registry, node: Node, coin: Coin, docs: map<Outpoint, Dossier>, spent: set<Outpoint>)

  function HeldOf(dos: Dossier): Held {
    Held(dos.doc.objectId, dos.doc.controller.pkh, Output(dos.doc.sats, dos.doc.lock), dos.recs)
  }

  function TillOf(b: Books): Till {
    Till(b.node, b.coin, CoinsOf(HeldOf, b.docs), b.spent)
  }

  /** One unspent output for each document and one for the fee wallet; every lineage tells its document's journey. */
  ghost predicate InOrder(b: Books) {
    && SizedTagger(b.k.tagger) && Balances(b.wallet, TillOf(b))
    && forall o <- b.docs :: o == At(b.docs[o].doc) && Told(b.k, b.reg, b.docs[o])
  }

  /** The document is in this state, on the books of the engine. */
  ghost predicate Live(docs: map<Outpoint, Dossier>, d: Doc) {
    At(d) in docs && docs[At(d)].doc == d
  }

  /** The books after a transaction: the documents it spends leave, those it creates enter. */
  function Traded(b: Books, tx: Tx, coin: Coin, born: map<Outpoint, Dossier>): Books {
    Books(b.k, b.wallet, b.reg, Apply(b.node, tx), coin, (b.docs - Outpoints(tx.inputs)) + born, b.spent + Outpoints(tx.inputs))
  }

  /** No satoshi is made or lost, nothing on chain changes, and the outputs of the new states are new to the books. */
  ghost predicate Conserved(before: Books, after: Books, born: map<Outpoint, Dossier>) {
    && Total(after.node.utxos) == Total(before.node.utxos) && Extends(before.node, after.node)
    && born.Keys !! before.docs.Keys
  }

  /** A live state can be spent by its controller; a state that was left before is refused. */
  lemma SpendDecided(b: Books, d: Doc)
    requires InOrder(b)
    ensures Live(b.docs, d) ==> Authorised(b.node.utxos, SpendOf(d)) && At(d) != b.coin.outpoint
    ensures At(d) in b.spent ==> !Authorised(b.node.utxos, SpendOf(d))
    ensures At(d) in b.docs && b.docs[At(d)].doc.controller.pkh != d.controller.pkh ==> !Authorised(b.node.utxos, SpendOf(d))
  {
    hide Told, Balances, Authorised;
    var t := TillOf(b);
    SpendAuthorised(b.wallet, t, SpendOf(d));
    if At(d) in b.docs {
      var o := At(d);
      assert o in t.coins && t.coins[o] == HeldOf(b.docs[o]);
    }
  }

  /** A document state that transaction tx puts on chain at o. */
  ghost predicate Entering(b: Books, tx: Tx, o: Outpoint, dos: Dossier) {
    && o == At(dos.doc) && o.txid == b.node.txidOf(tx)
    && HeldAt(Apply(b.node, tx), o, HeldOf(dos)) && Told(b.k, b.reg, dos)
  }

  /** One accepted transaction keeps the books in order. */
  lemma TradeInOrder(b: Books, tx: Tx, coin: Coin, born: map<Outpoint, Dossier>)
    requires InOrder(b) && Accepts(b.node, tx) && Spendable(Apply(b.node, tx), b.wallet, coin)
    requires forall o <- born :: Entering(b, tx, o, born[o])
    ensures InOrder(Traded(b, tx, coin, born)) && born.Keys !! b.docs.Keys
  {
    hide Told, HeldAt, Apply, Accepts, Spendable, Outpoints, HeldOf, Balances, CoinsOf;
    forall o | o in born
      ensures o.txid == b.node.txidOf(tx) && HeldAt(Apply(b.node, tx), o, HeldOf(born[o]))
      ensures o == At(born[o].doc) && Told(b.k, b.reg, born[o])
    {
      assert Entering(b, tx, o, born[o]);
    }
    TradeKeeps(b.wallet, HeldOf, (o: Outpoint, dos: Dossier) => o == At(dos.doc) && Told(b.k, b.reg, dos), TillOf(b), b.docs, tx, coin, born);
  }

  lemma DocHeld(b: Books, d: Doc)
    requires InOrder(b) && At(d) in b.docs
    ensures var dos := b.docs[At(d)]; Told(b.k, b.reg, dos) && HeldAt(b.node, At(d), HeldOf(dos)) && Ledger.Valid(b.node)
  {
    hide Told, HeldAt, Ledger.Valid;
    var t := TillOf(b);
    assert At(d) in t.coins && t.coins[At(d)] == HeldOf(b.docs[At(d)]);
  }

  // ---------------------------------------------------------------- what the operations put on chain

  /** A live document's next state enters the books where its record is read back. */
  lemma NextEnters(b: Books, tx: Tx, d: Doc, event: Bytes, next: Doc, rec: FieldRecord)
    requires InOrder(b) && Accepts(b.node, tx) && Moves(b, tx, d, event, next, rec)
    requires Live(b.docs, d) && Utf8.Valid(next.state)
    ensures Entering(b, tx, At(next), After(b.docs[At(d)], event, next, rec))
  {
    hide Told, Accepts, Apply, EnvelopeOf, DocRecord, FirstState, Encodable, Next, StepTx, AllFit, AllText;
    var dos := b.docs[At(d)];
    DocHeld(b, d);
    DocIsState(b.k, next, OP_UPDATE, d.txid);
    EnvelopeReads(rec, next.controller, next.sats);
    LiveIsText(b, d, next);
    StepReads(b, tx, d, event, next, rec);
    StepOutputs(b, tx, d, event, next, rec);
    HeldNext(b.node, tx, 0, HeldOf(dos).(pkh := next.controller.pkh), rec);
    JourneyContinues(b.k, b.reg, dos, event, next, rec);
  }

  /** Transaction tx takes document d to next by an event of its automaton. */
  ghost predicate Moves(b: Books, tx: Tx, d: Doc, event: Bytes, next: Doc, rec: FieldRecord) {
    && d.docType in b.reg && Next(b.reg[d.docType].transitions, d.state, event) == Some(next.state)
    && Succeeds(d, next) && next.vout == 0 && next.txid == b.node.txidOf(tx) && ValidKey(next.controller)
    && Encodable(DocRecord(b.k, next, OP_UPDATE, d.txid)) && DocRecord(b.k, next, OP_UPDATE, d.txid) == Ok(rec)
    && next.lock == EnvelopeOf(rec, next.controller) && tx == StepTx(b.wallet, b.coin, SpendOf(d), next.lock)
  }

  /** Transaction tx originates d in the initial state of its type. */
  ghost predicate Opens(b: Books, tx: Tx, d: Doc, rec: FieldRecord) {
    && d.docType in b.reg && d.state == b.reg[d.docType].initial && d.seqNo == 0 && d.sats == STATE_SATS
    && d.vout == 0 && d.txid == b.node.txidOf(tx) && ValidKey(d.controller)
    && Encodable(DocRecord(b.k, d, OP_INSERT, [])) && DocRecord(b.k, d, OP_INSERT, []) == Ok(rec)
    && d.lock == EnvelopeOf(rec, d.controller) && tx == OpenTx(b.wallet, b.coin, d.lock, d.sats)
  }

  /** The strings of a live document are text, so its next state is when its name is. */
  lemma LiveIsText(b: Books, d: Doc, next: Doc)
    requires InOrder(b) && Live(b.docs, d) && Succeeds(d, next)
    ensures Utf8.Valid(next.docType) && (AllText(PayloadOf(next)) <==> Utf8.Valid(next.state))
  {
    hide Utf8.Valid, DocRecord, AllFit, Balances, Path;
    var dos := b.docs[At(d)];
    assert ToldAt(b.k, dos, |dos.recs| - 1);
  }

  lemma StepOutputs(b: Books, tx: Tx, d: Doc, event: Bytes, next: Doc, rec: FieldRecord)
    requires Moves(b, tx, d, event, next, rec)
    ensures |tx.outputs| == 2 && tx.outputs[0] == Output(next.sats, next.lock)
    ensures tx.outputs[1] == Output(b.coin.sats, Lock(b.wallet))
  {
    hide EnvelopeOf, DocRecord, Encodable, Next;
  }

  /** What a transition's transaction reads back as. */
  lemma StepReads(b: Books, tx: Tx, d: Doc, event: Bytes, next: Doc, rec: FieldRecord)
    requires InOrder(b) && Moves(b, tx, d, event, next, rec)
    ensures FirstState(tx.outputs, next.objectId) == if Utf8.Valid(next.docType) then Ok(rec) else Err(NoRecord)
  {
    hide EnvelopeOf, DocRecord, FirstState, Encodable, OutputRecord, TextMessage, Told, Next, StepTx, Utf8.Valid, AllFit;
    DocIsState(b.k, next, OP_UPDATE, d.txid);
    EnvelopeReads(rec, next.controller, next.sats);
    StepOutputs(b, tx, d, event, next, rec);
    OneRead(tx.outputs[0], b.wallet, tx.outputs[1].sats, rec, next.objectId);
    assert tx.outputs == [tx.outputs[0], tx.outputs[1]];
  }

  lemma OpenReads(b: Books, tx: Tx, d: Doc, rec: FieldRecord)
    requires InOrder(b) && Opens(b, tx, d, rec)
    ensures FirstState(tx.outputs, d.objectId) == if Utf8.Valid(d.docType) then Ok(rec) else Err(NoRecord)
  {
    hide EnvelopeOf, DocRecord, FirstState, Encodable, OutputRecord, TextMessage, Told, Utf8.Valid, AllFit;
    DocIsState(b.k, d, OP_INSERT, []);
    EnvelopeReads(rec, d.controller, d.sats);
    OneRead(tx.outputs[0], b.wallet, tx.outputs[1].sats, rec, d.objectId);
    assert tx.outputs == [tx.outputs[0], tx.outputs[1]];
  }

  lemma OpenedEnters(b: Books, tx: Tx, d: Doc, rec: FieldRecord)
    requires InOrder(b) && Accepts(b.node, tx) && Opens(b, tx, d, rec) && AllText(PayloadOf(d))
    ensures Entering(b, tx, At(d), Opened(d, rec))
  {
    hide Told, Accepts, Apply, EnvelopeOf, DocRecord, FirstState, Encodable, Ledger.Valid, AllFit, Utf8.Valid;
    DocIsState(b.k, d, OP_INSERT, []);
    EnvelopeReads(rec, d.controller, d.sats);
    OpenReads(b, tx, d, rec);
    NothingYet(b.node, d.objectId);
    HeldNext(b.node, tx, 0, Held(d.objectId, d.controller.pkh, tx.outputs[0], []), rec);
    assert [] + [rec] == [rec];
    JourneyBegins(b.k, b.reg, d, rec);
  }

  // ---------------------------------------------------------------- what can be verified

  lemma EnteringVerifies(b: Books, tx: Tx, o: Outpoint, dos: Dossier)
    requires Entering(b, tx, o, dos)
    ensures Verifies(Apply(b.node, tx), b.k, o.txid, dos.doc.objectId, Visited(dos))
  {
    hide Told, HistoryOf, Apply, OnChain;
    JourneyVerifies(b.k, b.reg, dos);
  }

  /** A state that can be verified is text. */
  lemma VerifiedIsText(b: Books, tx: Tx, d: Doc, op: byte, prev: Bytes, rec: FieldRecord, h: History)
    requires InOrder(b) && op in {OP_INSERT, OP_UPDATE}
    requires Encodable(DocRecord(b.k, d, op, prev)) && DocRecord(b.k, d, op, prev) == Ok(rec)
    requires FirstState(tx.outputs, d.objectId) == if Utf8.Valid(d.docType) then Ok(rec) else Err(NoRecord)
    requires Verifies(Apply(b.node, tx), b.k, b.node.txidOf(tx), d.objectId, h)
    ensures AllText(PayloadOf(d))
  {
    hide DocRecord, FirstState, Encodable, Told, Fold, Apply, AllText, AllFit, CheckState, Utf8.Valid, Ledger.Valid;
    var after, txid := Apply(b.node, tx), b.node.txidOf(tx);
    var recs :| OnChain(after.txs, ReadState(d.objectId), txid, recs) && HistoryOf(b.k, recs) == Ok(h);
    TxOnChain(b.node, tx);
    assert FirstState(tx.outputs, d.objectId) == Ok(recs[|recs| - 1]);
    DocIsState(b.k, d, op, prev);
    var before := FoldLast(Checking(b.k), BLANK, recs);
    OneState(b.k, d, op, prev, before);
  }

  /** A head verifies in one way only. */
  lemma VerifiesOnce(node: Node, k: Keys, head: Txid, id: Bytes, g: History, h: History)
    requires Verifies(node, k, head, id, g) && Verifies(node, k, head, id, h)
    ensures g == h
  {
    hide OnChain, HistoryOf;
    var recs :| OnChain(node.txs, ReadState(id), head, recs) && HistoryOf(k, recs) == Ok(g);
    var recs' :| OnChain(node.txs, ReadState(id), head, recs') && HistoryOf(k, recs') == Ok(h);
    OnChainUnique(node.txs, ReadState(id), head, recs, recs');
  }

  /** What an origination puts on chain: a lock of its controller, and a history of one state with the given body. */
  lemma OriginationTells(b: Books, tx: Tx, d: Doc, rec: FieldRecord)
    requires InOrder(b) && Accepts(b.node, tx) && Opens(b, tx, d, rec)
    ensures Envelope.EnvelopePubKeyHash(d.lock) == Ok(d.controller.pkh)
    ensures forall h :: Verifies(Apply(b.node, tx), b.k, d.txid, d.objectId, h) ==>
      h == History([d.state], Payload(d.docType, d.objectId, d.state, d.refs, d.bodyHash, d.controller.pub), 1)
  {
    hide EnvelopeOf, DocRecord, FirstState, Encodable, InOrder, OpenTx, Apply, Accepts, AllText, Entering, Verifies;
    EnvelopeNames(b, d, OP_INSERT, [], rec);
    forall h | Verifies(Apply(b.node, tx), b.k, d.txid, d.objectId, h)
      ensures h == History([d.state], Payload(d.docType, d.objectId, d.state, d.refs, d.bodyHash, d.controller.pub), 1)
    {
      OriginationVerifiesIff(b, tx, d, rec);
      OpenedEnters(b, tx, d, rec);
      EnteringIs(b, tx, At(d), Opened(d, rec), d);
      VerifiesOnce(Apply(b.node, tx), b.k, d.txid, d.objectId, Visited(Opened(d, rec)), h);
    }
  }

  lemma EnvelopeNames(b: Books, d: Doc, op: byte, prev: Bytes, rec: FieldRecord)
    requires InOrder(b) && ValidKey(d.controller) && op in {OP_INSERT, OP_UPDATE}
    requires Encodable(DocRecord(b.k, d, op, prev)) && DocRecord(b.k, d, op, prev) == Ok(rec)
    requires d.lock == EnvelopeOf(rec, d.controller)
    ensures Envelope.EnvelopePubKeyHash(d.lock) == Ok(d.controller.pkh)
  {
    hide EnvelopeOf, DocRecord, Encodable, Told, TextMessage, AllFit, OutputRecord;
    DocIsState(b.k, d, op, prev);
    EnvelopeReads(rec, d.controller, d.sats);
  }

  /**
   What a transition from a live state puts on chain: a lock of the new controller, and the old history with one more
   state, under that controller, with the references and body of before.
   */
  lemma TransitionTells(b: Books, tx: Tx, d: Doc, event: Bytes, next: Doc, rec: FieldRecord)
    requires InOrder(b) && Accepts(b.node, tx) && Moves(b, tx, d, event, next, rec)
    ensures Envelope.EnvelopePubKeyHash(next.lock) == Ok(next.controller.pkh)
    ensures rec.changeImage == PayloadBytes(Payload(d.docType, d.objectId, next.state, d.refs, d.bodyHash, next.controller.pub))
    ensures Live(b.docs, d) ==> forall h :: Verifies(Apply(b.node, tx), b.k, next.txid, next.objectId, h) ==>
      && h.states == b.docs[At(d)].journey.states + [next.state] && h.verified == |h.states|
      && h.last == Payload(d.docType, d.objectId, next.state, d.refs, d.bodyHash, next.controller.pub)
  {
    hide EnvelopeOf, DocRecord, FirstState, Encodable, InOrder, StepTx, Apply, Accepts, AllText, Entering, Next, Utf8.Valid;
    hide Verifies;
    EnvelopeNames(b, next, OP_UPDATE, d.txid, rec);
    DocRecordIs(b.k, next, OP_UPDATE, d.txid, rec);
    forall h | Live(b.docs, d) && Verifies(Apply(b.node, tx), b.k, next.txid, next.objectId, h)
      ensures h.states == b.docs[At(d)].journey.states + [next.state] && h.verified == |h.states|
      ensures h.last == Payload(d.docType, d.objectId, next.state, d.refs, d.bodyHash, next.controller.pub)
    {
      TransitionVerifiesIff(b, tx, d, event, next, rec);
      NextEnters(b, tx, d, event, next, rec);
      var after := After(b.docs[At(d)], event, next, rec);
      EnteringIs(b, tx, At(next), after, next);
      VerifiesOnce(Apply(b.node, tx), b.k, next.txid, next.objectId, Visited(after), h);
      AsManyStates(b, d);
    }
  }

  lemma AsManyStates(b: Books, d: Doc)
    requires InOrder(b) && At(d) in b.docs
    ensures var dos := b.docs[At(d)]; |dos.recs| == |dos.journey.states|
  {
    hide Balances, Path, ToldAt;
  }

  /** An origination can be verified exactly when all strings of the document are UTF-8. */
  lemma OriginationVerifiesIff(b: Books, tx: Tx, d: Doc, rec: FieldRecord)
    requires InOrder(b) && Accepts(b.node, tx) && Opens(b, tx, d, rec)
    ensures (exists h :: Verifies(Apply(b.node, tx), b.k, d.txid, d.objectId, h)) <==> AllText(PayloadOf(d))
  {
    hide EnvelopeOf, DocRecord, FirstState, Encodable, InOrder, OpenTx, Verifies, Apply, Accepts, AllText, Entering;
    if AllText(PayloadOf(d)) {
      OpenedEnters(b, tx, d, rec);
      EnteringIs(b, tx, At(d), Opened(d, rec), d);
    }
    if h :| Verifies(Apply(b.node, tx), b.k, d.txid, d.objectId, h) {
      OpenReads(b, tx, d, rec);
      VerifiedIsText(b, tx, d, OP_INSERT, [], rec, h);
    }
  }

  lemma EnteringIs(b: Books, tx: Tx, o: Outpoint, dos: Dossier, d: Doc)
    requires Entering(b, tx, o, dos) && o == At(d) && dos.doc.objectId == d.objectId
    ensures Verifies(Apply(b.node, tx), b.k, d.txid, d.objectId, Visited(dos))
  {
    hide Entering, Verifies, Visited, Apply;
    EnteringVerifies(b, tx, o, dos);
  }

  /** A transition from a live state can be verified exactly when the name of the new state is UTF-8. */
  lemma TransitionVerifiesIff(b: Books, tx: Tx, d: Doc, event: Bytes, next: Doc, rec: FieldRecord)
    requires InOrder(b) && Accepts(b.node, tx) && Moves(b, tx, d, event, next, rec) && Live(b.docs, d)
    ensures (exists h :: Verifies(Apply(b.node, tx), b.k, next.txid, next.objectId, h)) <==> Utf8.Valid(next.state)
  {
    hide EnvelopeOf, DocRecord, FirstState, Encodable, InOrder, StepTx, Verifies, Apply, Accepts, AllText, Entering, Next, Utf8.Valid;
    LiveIsText(b, d, next);
    if Utf8.Valid(next.state) {
      NextEnters(b, tx, d, event, next, rec);
      EnteringIs(b, tx, At(next), After(b.docs[At(d)], event, next, rec), next);
    }
    if h :| Verifies(Apply(b.node, tx), b.k, next.txid, next.objectId, h) {
      StepReads(b, tx, d, event, next, rec);
      VerifiedIsText(b, tx, next, OP_UPDATE, d.txid, rec, h);
    }
  }

  // ---------------------------------------------------------------- books after each operation

  /** The documents an origination puts on the books: one, if it can be verified. */
  function Opening(d: Doc, rec: FieldRecord): map<Outpoint, Dossier> {
    if AllText(PayloadOf(d)) then map[At(d) := Opened(d, rec)] else map[]
  }

  /** The state a transition puts on the books in place of a live one. */
  ghost function Moving(b: Books, d: Doc, event: Bytes, next: Doc, rec: FieldRecord): map<Outpoint, Dossier> {
    if Live(b.docs, d) && Utf8.Valid(next.state) then map[At(next) := After(b.docs[At(d)], event, next, rec)] else map[]
  }

  lemma TradedNode(b: Books, tx: Tx, coin: Coin, born: map<Outpoint, Dossier>)
    ensures Traded(b, tx, coin, born).node == Apply(b.node, tx)
  {
  }

  lemma OriginationBooks(b: Books, tx: Tx, d: Doc, rec: FieldRecord)
    requires InOrder(b) && Accepts(b.node, tx) && Opens(b, tx, d, rec) && STATE_SATS <= b.coin.sats
    ensures var born := Opening(d, rec);
      var after := Traded(b, tx, Coin(Outpoint(d.txid, 1), b.coin.sats - STATE_SATS), born);
      InOrder(after) && Conserved(b, after, born)
  {
    hide EnvelopeOf, DocRecord, Encodable, Told, HeldAt, Apply, Accepts, Traded, Ledger.Valid, Opened, AllText;
    var coin := Coin(Outpoint(d.txid, 1), b.coin.sats - STATE_SATS);
    ChangeOf(b.wallet, b.coin, d.lock, d.sats);
    OpenAccepted(b.node, b.wallet, b.coin, d.lock, d.sats);
    CoinsLeft(b.node, b.wallet, tx, 1, b.coin.sats - STATE_SATS);
    if AllText(PayloadOf(d)) {
      OpenedEnters(b, tx, d, rec);
    }
    TradeInOrder(b, tx, coin, Opening(d, rec));
    TradeConserves(b.wallet, TillOf(b), tx);
    TradedNode(b, tx, coin, Opening(d, rec));
  }

  lemma TransitionBooks(b: Books, tx: Tx, d: Doc, event: Bytes, next: Doc, rec: FieldRecord)
    requires InOrder(b) && Accepts(b.node, tx) && Moves(b, tx, d, event, next, rec)
    ensures var born := Moving(b, d, event, next, rec);
      var after := Traded(b, tx, Coin(Outpoint(next.txid, 1), b.coin.sats), born);
      InOrder(after) && Conserved(b, after, born)
  {
    hide EnvelopeOf, DocRecord, Encodable, Told, HeldAt, Apply, Accepts, Traded, Ledger.Valid, After, Next, Utf8.Valid;
    var coin, born := Coin(Outpoint(next.txid, 1), b.coin.sats), Moving(b, d, event, next, rec);
    StepAccepted(b.node, b.wallet, b.coin, SpendOf(d), next.lock);
    StepOutputs(b, tx, d, event, next, rec);
    CoinsLeft(b.node, b.wallet, tx, 1, b.coin.sats);
    if Live(b.docs, d) && Utf8.Valid(next.state) {
      NextEnters(b, tx, d, event, next, rec);
    }
    TradeInOrder(b, tx, coin, born);
    TradeConserves(b.wallet, TillOf(b), tx);
    TradedNode(b, tx, coin, born);
  }

  // ---------------------------------------------------------------- the engine

  /** Documents on one node with one fee wallet. */
  class Engine {
    const k: Keys
    const wallet: Keypair
    const reg: Registry
    var node: Node
    var coin: Coin
    ghost var docs: map<Outpoint, Dossier>
    ghost var spent: set<Outpoint>

    ghost function View(): Books
      reads this
    {
      Books(k, wallet, reg, node, coin, docs, spent)
    }

    ghost predicate Valid()
      reads this
    {
      InOrder(View())
    }

    constructor (k: Keys, wallet: Keypair, reg: Registry, node: Node, coin: Coin)
      requires SizedTagger(k.tagger) && ValidKey(wallet) && Ledger.Valid(node) && Spendable(node, wallet, coin)
      ensures Valid() && View() == Books(k, wallet, reg, node, coin, map[], {})
    {
      this.k, this.wallet, this.reg, this.node, this.coin := k, wallet, reg, node, coin;
      docs, spent := map[], {};
    }

    /** The first state of a document, before it is on chain. */
    function Draft(docType: Bytes, objectId: Bytes, controller: Keypair, refs: seq<Bytes>, bodyHash: Bytes): Doc
      requires docType in reg
    {
      Doc(docType, objectId, reg[docType].initial, refs, bodyHash, controller, 0, [], 0, STATE_SATS, [])
    }

    /**
     Opens a document in the initial state of its type.  It succeeds exactly when the type is known, the record can be
     made, the wallet covers it and the transaction is new; the document can then be verified exactly when its strings
     are UTF-8.
     */
    method Originate(docType: Bytes, objectId: Bytes, controller: Keypair, refs: seq<Bytes>, bodyHash: Bytes)
      returns (res: Result<Doc, StateCoins.Error>, ghost tx: Tx, ghost rec: FieldRecord)
      requires Valid() && ValidKey(controller)
      modifies this
      ensures Valid()
      ensures docType !in reg ==> res == Err(UnknownType)
      ensures docType in reg ==>
        var draft := Draft(docType, objectId, controller, refs, bodyHash);
        var made := DocRecord(k, draft, OP_INSERT, []);
        && (Encodable(made) ==> rec == made.value && tx == OpenTx(wallet, old(coin), EnvelopeOf(rec, controller), STATE_SATS))
        && (res.Ok? <==> Encodable(made) && STATE_SATS <= old(coin).sats && Fresh(old(node), tx))
        && (res.Ok? ==> res.value == draft.(txid := old(node).txidOf(tx), lock := EnvelopeOf(rec, controller)))
      ensures res.Ok? ==>
        var born := Opening(res.value, rec);
        && View() == Traded(old(View()), tx, Coin(Outpoint(res.value.txid, 1), old(coin).sats - STATE_SATS), born)
        && Conserved(old(View()), View(), born)
      ensures res.Ok? ==> ((exists h :: Verifies(node, k, res.value.txid, objectId, h)) <==> AllText(PayloadOf(res.value)))
      ensures res.Ok? ==> var d := res.value;
        && d.docType == docType && d.objectId == objectId && docType in reg && d.state == reg[docType].initial
        && d.refs == refs && d.bodyHash == bodyHash && d.controller == controller && d.seqNo == 0 && d.sats == 1000
        && Envelope.EnvelopePubKeyHash(d.lock) == Ok(controller.pkh)
        && forall h :: Verifies(node, k, d.txid, objectId, h) ==>
             h == History([d.state], Payload(docType, objectId, d.state, refs, bodyHash, controller.pub), 1)
      ensures res.Err? ==> unchanged(this)
    {
      hide InOrder, Accepts, Apply, DocRecord, EnvelopeOf, Conserved, Encodable, Verifies, Opening, AllText;
      hide Envelope.EnvelopePubKeyHash, Envelope.P2pkh, PayloadBytes;
      rec, tx := FieldRecord([], ChangeMessage([], [], [], 1, 0, []), 0, [], []), Tx([], []);
      if docType !in reg {
        return Err(UnknownType), tx, rec;
      }
      InOrderParts(View());
      var draft := Draft(docType, objectId, controller, refs, bodyHash);
      var env := DocEnvelope(k, draft, OP_INSERT, []);
      if env.Err? {
        return Err(env.error), tx, rec;
      }
      IsMade(DocRecord(k, draft, OP_INSERT, []));
      rec := DocRecord(k, draft, OP_INSERT, []).value;
      var change := (coin.sats - STATE_SATS) % TWO_64;
      var unsigned := Tx([CoinInput(wallet, coin)], [Output(STATE_SATS, env.value), Output(change, Lock(wallet))]);
      tx := unsigned;
      OpenAccepted(node, wallet, coin, env.value, STATE_SATS);
      label before:
      var sent: Result<Txid, StateCoins.Error>;
      node, sent := Broadcast(node, unsigned);
      if sent.Err? {
        return Err(sent.error), tx, rec;
      }
      var d := draft.(txid := sent.value, lock := env.value);
      SameRecord(k, d, draft, OP_INSERT, []);
      ghost var b := old@before(View());
      OriginationBooks(b, tx, d, rec);
      OriginationVerifiesIff(b, tx, d, rec);
      OriginationTells(b, tx, d, rec);
      ghost var after := Traded(b, tx, Coin(Outpoint(d.txid, 1), change), Opening(d, rec));
      docs, spent := after.docs, after.spent;
      coin := Coin(Outpoint(d.txid, 1), change);
      return Ok(d), tx, rec;
    }

    /** The next state of a document, before it is on chain. */
    function NextDraft(d: Doc, to: Bytes, newController: Option<Keypair>): Doc {
      d.(state := to, controller := if newController.Some? then newController.value else d.controller,
         seqNo := (d.seqNo + 1) % TWO_64, txid := [], vout := 0, lock := [])
    }

    /**
     Fires an event.  It succeeds exactly when the automaton has a transition for it, the record can be made, the
     output is unspent, as the document describes it and its controller's to spend, and the transaction is new.  That
     holds of a live state; a state that was left is refused, and nothing changes.  The next state is under the new
     controller if there is one: its lock, its record and every verification of its head say so.
     */
    method Transition(d: Doc, event: Bytes, newController: Option<Keypair>)
      returns (res: Result<Doc, StateCoins.Error>, ghost tx: Tx, ghost rec: FieldRecord)
      requires Valid() && ValidKey(d.controller) && (newController.Some? ==> ValidKey(newController.value))
      modifies this
      ensures Valid()
      ensures d.docType !in reg ==> res == Err(UnknownType)
      ensures d.docType in reg ==>
        match Next(reg[d.docType].transitions, d.state, event)
        case None => res == Err(NoTransition)
        case Some(to) =>
          var draft := NextDraft(d, to, newController);
          var made := DocRecord(k, draft, OP_UPDATE, d.txid);
          && (Encodable(made) ==> rec == made.value && tx == StepTx(wallet, old(coin), SpendOf(d), EnvelopeOf(rec, draft.controller)))
          && (res.Ok? <==> Encodable(made) && Authorised(old(node).utxos, SpendOf(d)) && At(d) != old(coin).outpoint
                           && Fresh(old(node), tx))
          && (res.Ok? ==> res.value == draft.(txid := old(node).txidOf(tx), lock := EnvelopeOf(rec, draft.controller)))
      ensures Live(old(docs), d) ==> Authorised(old(node).utxos, SpendOf(d)) && At(d) != old(coin).outpoint
      ensures At(d) in old(spent) ==> res.Err?
      ensures At(d) in old(docs) && old(docs)[At(d)].doc.controller.pkh != d.controller.pkh ==> res.Err?
      ensures res.Ok? ==>
        var born := Moving(old(View()), d, event, res.value, rec);
        && View() == Traded(old(View()), tx, Coin(Outpoint(res.value.txid, 1), old(coin).sats), born)
        && Conserved(old(View()), View(), born)
      ensures res.Ok? && Live(old(docs), d) ==>
        ((exists h :: Verifies(node, k, res.value.txid, d.objectId, h)) <==> Utf8.Valid(res.value.state))
      ensures res.Ok? ==> var next := res.value;
        && next.controller == (if newController.Some? then newController.value else d.controller)
        && d.docType in reg && Next(reg[d.docType].transitions, d.state, event) == Some(next.state)
        && next.docType == d.docType && next.objectId == d.objectId && next.refs == d.refs && next.bodyHash == d.bodyHash
        && next.seqNo == (d.seqNo + 1) % TWO_64 && next.sats == d.sats
        && Envelope.EnvelopePubKeyHash(next.lock) == Ok(next.controller.pkh)
        && rec.changeImage ==
             PayloadBytes(Payload(d.docType, d.objectId, next.state, d.refs, d.bodyHash, next.controller.pub))
      ensures res.Ok? && Live(old(docs), d) ==> var next := res.value;
        forall h :: Verifies(node, k, next.txid, d.objectId, h) ==>
          && h.states == old(docs)[At(d)].journey.states + [next.state] && h.verified == |h.states|
          && h.last == Payload(d.docType, d.objectId, next.state, d.refs, d.bodyHash, next.controller.pub)
      ensures res.Err? ==> unchanged(this)
    {
      hide InOrder, Accepts, Apply, DocRecord, EnvelopeOf, Conserved, Encodable, Verifies, Authorised, Live, Moving;
      hide Utf8.Valid, Next, Envelope.EnvelopePubKeyHash, Envelope.P2pkh, PayloadBytes;
      rec, tx := FieldRecord([], ChangeMessage([], [], [], 1, 0, []), 0, [], []), Tx([], []);
      InOrderParts(View());
      SpendDecided(View(), d);
      if d.docType !in reg {
        return Err(UnknownType), tx, rec;
      }
      var to := FindNext(reg[d.docType].transitions, d.state, event);
      if to == None {
        return Err(NoTransition), tx, rec;
      }
      var draft := NextDraft(d, to.value, newController);
      var env := DocEnvelope(k, draft, OP_UPDATE, d.txid);
      if env.Err? {
        return Err(env.error), tx, rec;
      }
      IsMade(DocRecord(k, draft, OP_UPDATE, d.txid));
      rec := DocRecord(k, draft, OP_UPDATE, d.txid).value;
      var unsigned := Tx([SpendOf(d), CoinInput(wallet, coin)], [Output(d.sats, env.value), Output(coin.sats, Lock(wallet))]);
      tx := unsigned;
      StepAccepted(node, wallet, coin, SpendOf(d), env.value);
      label before:
      var sent: Result<Txid, StateCoins.Error>;
      node, sent := Broadcast(node, unsigned);
      if sent.Err? {
        return Err(sent.error), tx, rec;
      }
      var next := draft.(txid := sent.value, lock := env.value);
      SameRecord(k, next, draft, OP_UPDATE, d.txid);
      ghost var b := old@before(View());
      TransitionBooks(b, tx, d, event, next, rec);
      if Live(b.docs, d) {
        TransitionVerifiesIff(b, tx, d, event, next, rec);
      }
      TransitionTells(b, tx, d, event, next, rec);
      ghost var after := Traded(b, tx, Coin(Outpoint(next.txid, 1), coin.sats), Moving(b, d, event, next, rec));
      docs, spent := after.docs, after.spent;
      coin := Coin(Outpoint(next.txid, 1), coin.sats);
      return Ok(next), tx, rec;
    }

    // -------------------------------------------------------------- verification

    /** The body of the replay loop. */
    method ReplayState(h: History, en: FieldRecord) returns (res: Result<History, StateCoins.Error>)
      ensures res == CheckState(k, h, en)
    {
      hide ParsePayload;
      var bad := CheckTag(k.tagger, k.writerPriv, k.counterpartyPub, en);
      if bad.Some? {
        return Err(Crypto(bad.value));
      }
      var p := DecodePayload(en.changeImage);
      if p.Err? {
        return Err(StateCoins.BadImage);
      }
      return Ok(History(h.states + [p.value.state], p.value, h.verified + 1));
    }

    /** The replay loop of the verification. */
    method ReplayStates(rev: seq<FieldRecord>) returns (res: Result<History, StateCoins.Error>)
      ensures res == HistoryOf(k, Reverse(rev))
    {
      hide Fold, CheckState;
      ghost var chain, step := Reverse(rev), Checking(k);
      var h := BLANK;
      var i := |rev| - 1;
      FoldNone(step, BLANK, chain);
      while i >= 0
        invariant -1 <= i < |rev|
        invariant Fold(step, BLANK, chain[..|rev| - 1 - i]) == Ok(h)
      {
        FoldNext(step, BLANK, chain, |rev| - 1 - i);
        var next := ReplayState(h, rev[i]);
        if next.Err? {
          FoldFails(step, BLANK, chain, |rev| - i);
          return next;
        }
        h := next.value;
        i := i - 1;
      }
      assert chain[..|rev|] == chain;
      return Ok(h);
    }

    /**
     Rebuilds a document's history from the chain.  On any head it is the fold of the lineage, or an error if
     there is none; on the head of a document of this engine it is exactly the states the document visited, which
     are a path of its automaton from the initial state, with the references and body it was opened with and the
     controller it was last given.
     */
    method Verify(head: Txid, objectId: Bytes) returns (res: Result<History, StateCoins.Error>)
      requires Valid()
      ensures forall recs :: OnChain(node.txs, ReadState(objectId), head, recs) ==> res == HistoryOf(k, recs)
      ensures (forall recs :: !OnChain(node.txs, ReadState(objectId), head, recs)) ==> res.Err?
      ensures forall h :: Verifies(node, k, head, objectId, h) <==> res == Ok(h)
      ensures forall recs: seq<FieldRecord> :: OnChain(node.txs, ReadState(objectId), head, recs) ==>
        (res.Ok? <==> forall rec <- recs ::
           && k.tagger(k.writerPriv, k.counterpartyPub, rec.message, rec.changeImage) == Ok(rec.tag)
           && ParsePayload(rec.changeImage).Some?)
      ensures forall o <- docs :: o.txid == head && docs[o].doc.objectId == objectId ==>
        && res == Ok(Visited(docs[o])) && res.value.states == docs[o].journey.states
        && res.value.last.controllerPub == docs[o].doc.controller.pub
        && res.value.last.refs == docs[o].doc.refs && res.value.last.bodyHash == docs[o].doc.bodyHash
        && docs[o].doc.docType in reg && Path(reg[docs[o].doc.docType], docs[o].journey)
    {
      hide HistoryOf, OnChain, Told, FirstState, ParsePayload;
      var walked := WalkBack(node.txs, ReadState(objectId), head);
      DocsOnChain(View(), head, objectId);
      if walked.Err? {
        return Err(Walk(walked.error));
      }
      forall recs: seq<FieldRecord> | OnChain(node.txs, ReadState(objectId), head, recs) ensures recs == Reverse(walked.value) {
        OnChainUnique(node.txs, ReadState(objectId), head, recs, Reverse(walked.value));
      }
      HistoryIff(k, Reverse(walked.value));
      res := ReplayStates(walked.value);
    }
  }

  lemma InOrderParts(b: Books)
    requires InOrder(b)
    ensures SizedTagger(b.k.tagger) && ValidKey(b.wallet) && Spendable(b.node, b.wallet, b.coin)
    ensures STATE_SATS <= b.coin.sats ==> (b.coin.sats - STATE_SATS) % TWO_64 == b.coin.sats - STATE_SATS
  {
  }

  /** A tracked document has its records as its lineage, and they verify to its journey. */
  lemma DocsOnChain(b: Books, head: Txid, objectId: Bytes)
    requires InOrder(b)
    ensures forall o <- b.docs :: o.txid == head && b.docs[o].doc.objectId == objectId ==>
      && OnChain(b.node.txs, ReadState(objectId), head, b.docs[o].recs)
      && HistoryOf(b.k, b.docs[o].recs) == Ok(Visited(b.docs[o]))
      && b.docs[o].doc.docType in b.reg && Path(b.reg[b.docs[o].doc.docType], b.docs[o].journey)
  {
    hide OnChain, HistoryOf, Path, ToldAt, Visited, Ledger.Valid, Names;
    forall o | o in b.docs && o.txid == head && b.docs[o].doc.objectId == objectId
      ensures OnChain(b.node.txs, ReadState(objectId), head, b.docs[o].recs)
      ensures HistoryOf(b.k, b.docs[o].recs) == Ok(Visited(b.docs[o]))
      ensures b.docs[o].doc.docType in b.reg && Path(b.reg[b.docs[o].doc.docType], b.docs[o].journey)
    {
      DocHeld(b, b.docs[o].doc);
      JourneyVerifies(b.k, b.reg, b.docs[o]);
    }
  }
}
