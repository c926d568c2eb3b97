/** The token engine: mint, transfer, redeem, swap, and the verification of a token's lineage. */
module Token {
  import opened Wrappers
  import opened ByteStrings
  import opened Format
  import opened Ledger
  import opened Lineage
  import opened Keystone
  import opened StateCoins
  import opened TokenEvent
  import Envelope
  import Utf8

  /** One state of a token's lineage, as the engine hands it out. */
  datatype Instance = Instance(
    def: Definition, tokenId: Bytes, holder: Keypair, value: u64, seqNo: u64, txid: Txid, vout: nat, sats: nat, lock: Bytes)

  function At(inst: Instance): Outpoint {
    Outpoint(inst.txid, inst.vout)
  }

  /** AddInputFrom: the state output as the instance describes it, signed by its holder. */
  function SpendOf(inst: Instance): Input {
    Input(At(inst), Output(inst.sats, inst.lock), inst.holder.pkh)
  }

  // ---------------------------------------------------------------- event records

  /** "token." */
  const STREAM_PREFIX: Bytes := [0x74, 0x6f, 0x6b, 0x65, 0x6e, 0x2e]

  function Stream(def: Definition): Bytes {
    STREAM_PREFIX + def.typeId
  }

  function EventMessage(def: Definition, tokenId: Bytes, kind: byte, seqNo: u64, prev: Bytes): ChangeMessage {
    ChangeMessage(Stream(def), tokenId, STATE, OpOf(kind), seqNo, prev)
  }

  function EventRecord(k: Keys, def: Definition, tokenId: Bytes, kind: byte, value: u64, pub: Bytes, seqNo: u64, prev: Bytes)
    : Result<FieldRecord, Keystone.Error>
  {
    StateRecord(k, Stream(def), EventMessage(def, tokenId, kind, seqNo, prev), EventBytes(EventOf(def, value, pub, kind)))
  }

  /** The record of an event: its stream, names, operation and place, and its image in the clear, under its tag. */
  lemma EventRecordIs(
      k: Keys, def: Definition, tokenId: Bytes, kind: byte, value: u64, pub: Bytes, seqNo: u64, prev: Bytes, rec: FieldRecord)
    requires EventRecord(k, def, tokenId, kind, value, pub, seqNo, prev) == Ok(rec)
    ensures rec.streamId == rec.message.tableId == [0x74, 0x6f, 0x6b, 0x65, 0x6e, 0x2e] + def.typeId
    ensures rec.message.rowId == tokenId && rec.message.columnId == [0x73, 0x74, 0x61, 0x74, 0x65]
    ensures rec.message.op == OpOf(kind) && rec.message.seqNo == seqNo && rec.message.prevTxid == prev
    ensures rec.imageKind == 0 && rec.changeImage == EventBytes(EventOf(def, value, pub, kind))
    ensures k.tagger(k.writerPriv, k.counterpartyPub, rec.message, rec.changeImage) == Ok(rec.tag)
  {
    hide EventBytes, EventOf;
  }

  /** The names of the definition are UTF-8. */
  predicate Legible(def: Definition) {
    Utf8.Valid(def.typeId) && Utf8.Valid(def.unit)
  }

  /** record and envelopeOut. */
  method EventEnvelope(k: Keys, def: Definition, tokenId: Bytes, kind: byte, value: u64, holder: Keypair, seqNo: u64, prev: Bytes)
    returns (res: Result<Bytes, StateCoins.Error>)
    requires SizedTagger(k.tagger) && ValidKey(holder)
    ensures var made := EventRecord(k, def, tokenId, kind, value, holder.pub, seqNo, prev);
      && (res.Ok? <==> Encodable(made))
      && (res.Ok? ==> res.value == EnvelopeOf(made.value, holder))
  {
    hide Encodable, EnvelopeOf, EventBytes;
    var image := EncodeEvent(def, value, holder.pub, kind);
    res := MakeEnvelope(k, Stream(def), EventMessage(def, tokenId, kind, seqNo, prev), image, holder);
  }

  /** What is known of an encodable event record: it is a state record, text exactly when the type id is. */
  lemma EventIsState(k: Keys, def: Definition, tokenId: Bytes, kind: byte, value: u64, pub: Bytes, seqNo: u64, prev: Bytes)
    requires SizedTagger(k.tagger) && Encodable(EventRecord(k, def, tokenId, kind, value, pub, seqNo, prev))
    ensures var rec := EventRecord(k, def, tokenId, kind, value, pub, seqNo, prev).value;
      && Stateful(rec) && IsStateOf(rec, tokenId) && rec.message.prevTxid == prev
      && (TextMessage(rec.message) <==> Utf8.Valid(def.typeId))
      && SizedEvent(EventOf(def, value, pub, kind))
  {
    hide RecordBytes, EventBytes, Utf8.Valid;
    var rec := EventRecord(k, def, tokenId, kind, value, pub, seqNo, prev).value;
    Utf8.AsciiIsValid(STATE);
    Utf8.AfterAscii(STREAM_PREFIX, def.typeId);
    RecordLength(rec);
    EventLength(EventOf(def, value, pub, kind));
  }

  // ---------------------------------------------------------------- lineages of events

  /** An event of a token's story: what happened, and the key that holds the token after it. */
  datatype Happening = Happening(kind: byte, pub: Bytes)

  /** A token as the chain tells it; the last state of a redeemed token is held by its issuer. */
  datatype Token = Token(inst: Instance, story: seq<Happening>, recs: seq<FieldRecord>)

  predicate Alive(t: Token) {
    t.story == [] || t.story[|t.story| - 1].kind != REDEEM
  }

  ghost predicate ToldAt(k: Keys, t: Token, i: nat)
    requires i < |t.recs| == |t.story|
  {
    && EventRecord(k, t.inst.def, t.inst.tokenId, t.story[i].kind, t.inst.value, t.story[i].pub, i % TWO_64,
                   t.recs[i].message.prevTxid) == Ok(t.recs[i])
    && SizedEvent(EventOf(t.inst.def, t.inst.value, t.story[i].pub, t.story[i].kind))
  }

  /** A mint, then transfers, then perhaps a redemption. */
  ghost predicate Plot(story: seq<Happening>) {
    && story != [] && story[0].kind == MINT
    && (forall i :: 0 < i < |story| - 1 ==> story[i].kind == TRANSFER)
    && (|story| > 1 ==> story[|story| - 1].kind in {TRANSFER, REDEEM})
  }

  /** The records tell the token's story: each event at its number, the last naming the holder. */
  ghost predicate Told(k: Keys, t: Token) {
    && |t.recs| == |t.story| && Plot(t.story) && Legible(t.inst.def)
    && t.story[|t.story| - 1].pub == t.inst.holder.pub
    && |t.recs| > 0 && (|t.recs| - 1) % TWO_64 == t.inst.seqNo
    && forall i :: 0 <= i < |t.recs| ==> ToldAt(k, t, i)
  }

  datatype LineageState = LineageState(entries: nat, value: u64, controllerPub: Bytes, alive: bool)

  function CheckEvent(k: Keys, ls: LineageState, rec: FieldRecord): Result<LineageState, StateCoins.Error> {
    match CheckTag(k.tagger, k.writerPriv, k.counterpartyPub, rec)
    case Some(e) => Err(Crypto(e))
    case None =>
      match ParseEvent(rec.changeImage)
      case None => Err(BadImage)
      case Some(ev) => Ok(LineageState(ls.entries + 1, ev.value, ev.controllerPub, ls.alive && ev.kind != REDEEM))
  }

  function Checking(k: Keys): Step<LineageState, StateCoins.Error> {
    (ls: LineageState, rec: FieldRecord) => CheckEvent(k, ls, rec)
  }

  const UNBORN := LineageState(0, 0, [], true)

  function LineageOf(k: Keys, recs: seq<FieldRecord>): Result<LineageState, StateCoins.Error> {
    Fold(Checking(k), UNBORN, recs)
  }

  /** Verification succeeds exactly when every tag verifies and every image is an event. */
  lemma LineageIff(k: Keys, recs: seq<FieldRecord>)
    ensures LineageOf(k, recs).Ok? <==> forall rec <- recs ::
      && k.tagger(k.writerPriv, k.counterpartyPub, rec.message, rec.changeImage) == Ok(rec.tag)
      && ParseEvent(rec.changeImage).Some?
  {
    hide ParseEvent;
    var good := (rec: FieldRecord) => CheckEvent(k, UNBORN, rec).Ok?;
    FoldOkIff(Checking(k), good, UNBORN, recs);
  }

  /** And it finds what the records say: how many, the last value and holder, and whether one is a redemption. */
  lemma {:induction false} LineageTells(k: Keys, recs: seq<FieldRecord>)
    requires LineageOf(k, recs).Ok? && recs != []
    ensures ParseEvent(recs[|recs| - 1].changeImage).Some?
    ensures var ls, last := LineageOf(k, recs).value, ParseEvent(recs[|recs| - 1].changeImage).value;
      && ls.entries == |recs| && ls.value == last.value && ls.controllerPub == last.controllerPub
      && (ls.alive <==> forall rec <- recs :: ParseEvent(rec.changeImage).Some? && ParseEvent(rec.changeImage).value.kind != 3)
  {
    hide ParseEvent;
    var n := |recs| - 1;
    assert recs == recs[..n] + [recs[n]];
    FoldNone(Checking(k), UNBORN, recs);
    if n > 0 {
      LineageTells(k, recs[..n]);
    }
  }

  /** What verification must find for a token. */
  function StateOf(t: Token): LineageState {
    LineageState(|t.recs|, t.inst.value, t.inst.holder.pub, Alive(t))
  }

  /** The lineage of id that ends at head verifies, to ls. */
  ghost predicate Verifies(node: Node, k: Keys, head: Txid, id: Bytes, ls: LineageState) {
    exists recs :: OnChain(node.txs, ReadState(id), head, recs) && LineageOf(k, recs) == Ok(ls)
  }

  /** An event record verifies exactly when the definition's names are UTF-8. */
  lemma OneEvent(k: Keys, def: Definition, tokenId: Bytes, h: Happening, value: u64, seqNo: u64, prev: Bytes, ls: LineageState)
    requires EventRecord(k, def, tokenId, h.kind, value, h.pub, seqNo, prev).Ok?
    requires SizedEvent(EventOf(def, value, h.pub, h.kind))
    ensures CheckEvent(k, ls, EventRecord(k, def, tokenId, h.kind, value, h.pub, seqNo, prev).value) ==
      if Legible(def) then Ok(LineageState(ls.entries + 1, value, h.pub, ls.alive && h.kind != REDEEM)) else Err(BadImage)
  {
    hide EventBytes, ParseEvent, Utf8.Valid;
    EventRoundTrip(EventOf(def, value, h.pub, h.kind));
  }

  lemma {:induction false} StoryPrefix(k: Keys, t: Token, n: nat)
    requires Told(k, t) && n < |t.recs|
    ensures LineageOf(k, t.recs[..n + 1])
      == Ok(LineageState(n + 1, t.inst.value, t.story[n].pub, t.story[n].kind != REDEEM))
  {
    hide CheckEvent, Fold, EventRecord, Legible, SizedEvent;
    var before := UNBORN;
    FoldNone(Checking(k), before, t.recs);
    if n > 0 {
      StoryPrefix(k, t, n - 1);
      before := LineageState(n, t.inst.value, t.story[n - 1].pub, true);
    }
    assert LineageOf(k, t.recs[..n]) == Ok(before);
    FoldNext(Checking(k), UNBORN, t.recs, n);
    assert ToldAt(k, t, n);
    OneEvent(k, t.inst.def, t.inst.tokenId, t.story[n], t.inst.value, n % TWO_64, t.recs[n].message.prevTxid, before);
  }

  /** A token's records verify, and to exactly its state. */
  lemma StoryVerifies(k: Keys, t: Token)
    requires Told(k, t)
    ensures LineageOf(k, t.recs) == Ok(StateOf(t))
  {
    hide ToldAt, LineageOf, Legible;
    StoryPrefix(k, t, |t.recs| - 1);
    assert t.recs[..|t.recs|] == t.recs;
  }

  // ---------------------------------------------------------------- one more event

  /** The instance an event leaves at output vout of transaction txid. */
  function Successor(inst: Instance, to: Keypair, txid: Txid, vout: nat, lock: Bytes): Instance {
    Instance(inst.def, inst.tokenId, to, inst.value, (inst.seqNo + 1) % TWO_64, txid, vout, inst.sats, lock)
  }

  /** The record of an event that follows inst. */
  function NextRecord(k: Keys, inst: Instance, kind: byte, to: Keypair): Result<FieldRecord, Keystone.Error> {
    EventRecord(k, inst.def, inst.tokenId, kind, inst.value, to.pub, (inst.seqNo + 1) % TWO_64, inst.txid)
  }

  /** The token after an event: the same token, with one more entry in its story. */
  function After(t: Token, next: Instance, kind: byte, rec: FieldRecord): Token {
    Token(next, t.story + [Happening(kind, next.holder.pub)], t.recs + [rec])
  }

  lemma StoryContinues(k: Keys, t: Token, kind: byte, to: Keypair, next: Instance, rec: FieldRecord)
    requires Told(k, t) && Alive(t) && kind in {TRANSFER, REDEEM}
    requires next == Successor(t.inst, to, next.txid, next.vout, next.lock) && NextRecord(k, t.inst, kind, to) == Ok(rec)
    requires SizedEvent(EventOf(next.def, next.value, to.pub, kind))
    ensures Told(k, After(t, next, kind, rec)) && (kind != REDEEM ==> Alive(After(t, next, kind, rec)))
  {
    hide Plot, ToldAt, Legible, NextRecord, SizedEvent;
    var after := After(t, next, kind, rec);
    PlotContinues(t.story, Happening(kind, to.pub));
    forall i | 0 <= i < |after.recs| ensures ToldAt(k, after, i) {
      if i < |t.recs| {
        assert ToldAt(k, t, i);
        ToldEarlier(k, t, next, kind, rec, i);
      } else {
        ToldLast(k, t, kind, to, next, rec);
      }
    }
  }

  lemma PlotContinues(story: seq<Happening>, h: Happening)
    requires Plot(story) && h.kind in {TRANSFER, REDEEM}
    requires story != [] ==> story[|story| - 1].kind != REDEEM
    ensures Plot(story + [h])
  {
    var after, n := story + [h], |story|;
    forall i | 0 < i < n ensures after[i].kind == TRANSFER {
      assert after[i] == story[i];
    }
    assert after[0] == story[0];
  }

  lemma ToldEarlier(k: Keys, t: Token, next: Instance, kind: byte, rec: FieldRecord, i: nat)
    requires |t.recs| == |t.story| && i < |t.recs| && ToldAt(k, t, i)
    requires next.def == t.inst.def && next.tokenId == t.inst.tokenId && next.value == t.inst.value
    ensures ToldAt(k, After(t, next, kind, rec), i)
  {
    hide EventRecord, SizedEvent;
  }

  lemma ToldLast(k: Keys, t: Token, kind: byte, to: Keypair, next: Instance, rec: FieldRecord)
    requires |t.recs| == |t.story| > 0 && (|t.recs| - 1) % TWO_64 == t.inst.seqNo
    requires next == Successor(t.inst, to, next.txid, next.vout, next.lock) && NextRecord(k, t.inst, kind, to) == Ok(rec)
    requires SizedEvent(EventOf(next.def, next.value, to.pub, kind))
    ensures ToldAt(k, After(t, next, kind, rec), |t.recs|)
  {
    hide SizedEvent, EventBytes;
  }

  /** The token a mint creates. */
  function Newborn(inst: Instance, rec: FieldRecord): Token {
    Token(inst, [Happening(MINT, inst.holder.pub)], [rec])
  }

  lemma StoryBegins(k: Keys, inst: Instance, rec: FieldRecord)
    requires inst.seqNo == 0 && Legible(inst.def)
    requires EventRecord(k, inst.def, inst.tokenId, MINT, inst.value, inst.holder.pub, 0, []) == Ok(rec)
    requires SizedEvent(EventOf(inst.def, inst.value, inst.holder.pub, MINT))
    ensures Told(k, Newborn(inst, rec))
  {
    hide SizedEvent, EventBytes, Legible;
    assert ToldAt(k, Newborn(inst, rec), 0);
  }

  // ---------------------------------------------------------------- the books of the engine

  /** Everything an engine is made of: the tokens on chain by their current output, and the outputs spent. */
  datatype Books = Books(
    k: Keys, wallet: Keypair, node: Node, coin: Coin, tokens: map<Outpoint, Token>, spent: set<Outpoint>)

  function HeldOf(t: Token): Held {
    Held(t.inst.tokenId, t.inst.holder.pkh, Output(t.inst.sats, t.inst.lock), t.recs)
  }

  function TillOf(b: Books): Till {
    Till(b.node, b.coin, CoinsOf(HeldOf, b.tokens), b.spent)
  }

  /** One unspent output for each token and one for the fee wallet; every lineage tells its token's story. */
  ghost predicate InOrder(b: Books) {
    && SizedTagger(b.k.tagger) && Balances(b.wallet, TillOf(b))
    && forall o <- b.tokens :: o == At(b.tokens[o].inst) && Told(b.k, b.tokens[o])
  }

  /** The instance is the current state of a token that has not been redeemed. */
  ghost predicate Live(tokens: map<Outpoint, Token>, inst: Instance) {
    At(inst) in tokens && tokens[At(inst)].inst == inst && Alive(tokens[At(inst)])
  }

  /** The books after a transaction: the tokens it spends leave, those it creates enter. */
  function Traded(b: Books, tx: Tx, coin: Coin, born: map<Outpoint, Token>): Books {
    Books(b.k, b.wallet, Apply(b.node, tx), coin, (b.tokens - Outpoints(tx.inputs)) + born, b.spent + Outpoints(tx.inputs))
  }

  /** No satoshi is made or lost, nothing on chain changes, and the outputs of the new tokens are new to the books. */
  ghost predicate Conserved(before: Books, after: Books, born: map<Outpoint, Token>) {
    && Total(after.node.utxos) == Total(before.node.utxos) && Extends(before.node, after.node)
    && born.Keys !! before.tokens.Keys
  }

  /** A live instance can be spent by its holder; an instance that was spent before is refused. */
  lemma SpendDecided(b: Books, inst: Instance)
    requires InOrder(b)
    ensures Live(b.tokens, inst) ==> Authorised(b.node.utxos, SpendOf(inst)) && At(inst) != b.coin.outpoint
    ensures At(inst) in b.spent ==> !Authorised(b.node.utxos, SpendOf(inst))
    ensures At(inst) in b.tokens && b.tokens[At(inst)].inst.holder.pkh != inst.holder.pkh ==> !Authorised(b.node.utxos, SpendOf(inst))
  {
    hide Told, Balances, Authorised;
    var t := TillOf(b);
    SpendAuthorised(b.wallet, t, SpendOf(inst));
    if At(inst) in b.tokens {
      var o := At(inst);
      assert o in t.coins && t.coins[o] == HeldOf(b.tokens[o]);
    }
  }

  /** A token that transaction tx puts on chain at o. */
  ghost predicate Entering(b: Books, tx: Tx, o: Outpoint, t: Token) {
    && o == At(t.inst) && o.txid == b.node.txidOf(tx)
    && HeldAt(Apply(b.node, tx), o, HeldOf(t)) && Told(b.k, t)
  }

  /** One accepted transaction keeps the books in order. */
  lemma TradeInOrder(b: Books, tx: Tx, coin: Coin, born: map<Outpoint, Token>)
    requires InOrder(b) && Accepts(b.node, tx) && Spendable(Apply(b.node, tx), b.wallet, coin)
    requires forall o <- born :: Entering(b, tx, o, born[o])
    ensures InOrder(Traded(b, tx, coin, born)) && born.Keys !! b.tokens.Keys
  {
    hide Told, HeldAt, Apply, Accepts, Spendable, Outpoints, HeldOf, Balances, CoinsOf;
    forall o | o in born
      ensures o.txid == b.node.txidOf(tx) && HeldAt(Apply(b.node, tx), o, HeldOf(born[o]))
      ensures o == At(born[o].inst) && Told(b.k, born[o])
    {
      assert Entering(b, tx, o, born[o]);
    }
    TradeKeeps(b.wallet, HeldOf, (o: Outpoint, t: Token) => o == At(t.inst) && Told(b.k, t), TillOf(b), b.tokens, tx, coin, born);
  }

  // ---------------------------------------------------------------- what the operations put on chain

  /** A live instance's successor enters the books where its record is read back. */
  lemma MoveEnters(b: Books, tx: Tx, inst: Instance, kind: byte, to: Keypair, next: Instance, rec: FieldRecord)
    requires InOrder(b) && Accepts(b.node, tx) && Live(b.tokens, inst) && ValidKey(to) && kind in {TRANSFER, REDEEM}
    requires NextRecord(b.k, inst, kind, to) == Ok(rec) && Encodable(NextRecord(b.k, inst, kind, to))
    requires next == Successor(inst, to, b.node.txidOf(tx), next.vout, EnvelopeOf(rec, to))
    requires next.vout < |tx.outputs| && tx.outputs[next.vout] == Output(next.sats, next.lock)
    requires FirstState(tx.outputs, inst.tokenId) == Ok(rec)
    ensures var t := After(b.tokens[At(inst)], next, kind, rec); Entering(b, tx, At(next), t) && (kind != REDEEM ==> Alive(t))
  {
    hide Told, Accepts, Apply, EnvelopeOf, EventRecord, FirstState, Encodable;
    var t := b.tokens[At(inst)];
    assert Told(b.k, t) && HeldAt(b.node, At(inst), HeldOf(t)) && Ledger.Valid(b.node) by {
      TokenHeld(b, inst);
    }
    EventIsState(b.k, inst.def, inst.tokenId, kind, inst.value, to.pub, next.seqNo, inst.txid);
    EnvelopeReads(rec, to, next.sats);
    HeldNext(b.node, tx, next.vout, HeldOf(t).(pkh := to.pkh), rec);
    StoryContinues(b.k, t, kind, to, next, rec);
  }

  lemma TokenHeld(b: Books, inst: Instance)
    requires InOrder(b) && At(inst) in b.tokens
    ensures Told(b.k, b.tokens[At(inst)]) && HeldAt(b.node, At(inst), HeldOf(b.tokens[At(inst)])) && Ledger.Valid(b.node)
  {
    hide Told, HeldAt, Ledger.Valid;
    var t := TillOf(b);
    assert At(inst) in t.coins && t.coins[At(inst)] == HeldOf(b.tokens[At(inst)]);
  }

  lemma NewbornEnters(b: Books, tx: Tx, inst: Instance, rec: FieldRecord)
    requires InOrder(b) && Accepts(b.node, tx) && ValidKey(inst.holder) && inst.seqNo == 0 && inst.vout == 0
    requires Encodable(EventRecord(b.k, inst.def, inst.tokenId, MINT, inst.value, inst.holder.pub, 0, []))
    requires EventRecord(b.k, inst.def, inst.tokenId, MINT, inst.value, inst.holder.pub, 0, []) == Ok(rec)
    requires inst.lock == EnvelopeOf(rec, inst.holder) && inst.txid == b.node.txidOf(tx) && Legible(inst.def)
    requires |tx.outputs| == 2 && tx.outputs[0] == Output(inst.sats, inst.lock)
    requires FirstState(tx.outputs, inst.tokenId) == Ok(rec)
    ensures Entering(b, tx, At(inst), Newborn(inst, rec))
  {
    hide Told, Accepts, Apply, EnvelopeOf, EventRecord, FirstState, Encodable, Ledger.Valid;
    EventIsState(b.k, inst.def, inst.tokenId, MINT, inst.value, inst.holder.pub, 0, []);
    EnvelopeReads(rec, inst.holder, inst.sats);
    NothingYet(b.node, inst.tokenId);
    HeldNext(b.node, tx, 0, Held(inst.tokenId, inst.holder.pkh, tx.outputs[0], []), rec);
    assert [] + [rec] == [rec];
    StoryBegins(b.k, inst, rec);
  }

  /** What a mint's transaction reads back as. */
  lemma MintReads(b: Books, tx: Tx, inst: Instance, rec: FieldRecord)
    requires InOrder(b) && tx == OpenTx(b.wallet, b.coin, inst.lock, inst.sats) && ValidKey(inst.holder)
    requires Encodable(EventRecord(b.k, inst.def, inst.tokenId, MINT, inst.value, inst.holder.pub, 0, []))
    requires EventRecord(b.k, inst.def, inst.tokenId, MINT, inst.value, inst.holder.pub, 0, []) == Ok(rec)
    requires inst.lock == EnvelopeOf(rec, inst.holder)
    ensures FirstState(tx.outputs, inst.tokenId) == if Utf8.Valid(inst.def.typeId) then Ok(rec) else Err(NoRecord)
  {
    hide EnvelopeOf, EventRecord, FirstState, Encodable, OutputRecord, TextMessage, Told;
    EventIsState(b.k, inst.def, inst.tokenId, MINT, inst.value, inst.holder.pub, 0, []);
    EnvelopeReads(rec, inst.holder, inst.sats);
    OneRead(tx.outputs[0], b.wallet, tx.outputs[1].sats, rec, inst.tokenId);
    assert tx.outputs == [tx.outputs[0], tx.outputs[1]];
  }

  lemma StepReads(b: Books, tx: Tx, inst: Instance, kind: byte, to: Keypair, rec: FieldRecord)
    requires InOrder(b) && ValidKey(to) && NextRecord(b.k, inst, kind, to) == Ok(rec) && Encodable(NextRecord(b.k, inst, kind, to))
    requires tx == StepTx(b.wallet, b.coin, SpendOf(inst), EnvelopeOf(rec, to))
    ensures FirstState(tx.outputs, inst.tokenId) == if Utf8.Valid(inst.def.typeId) then Ok(rec) else Err(NoRecord)
  {
    hide EnvelopeOf, EventRecord, FirstState, Encodable, OutputRecord, TextMessage, Told;
    EventIsState(b.k, inst.def, inst.tokenId, kind, inst.value, to.pub, (inst.seqNo + 1) % TWO_64, inst.txid);
    EnvelopeReads(rec, to, inst.sats);
    OneRead(tx.outputs[0], b.wallet, tx.outputs[1].sats, rec, inst.tokenId);
    assert tx.outputs == [tx.outputs[0], tx.outputs[1]];
  }

  /** A mint that can be verified is text. */
  lemma VerifiedIsText(b: Books, tx: Tx, inst: Instance, rec: FieldRecord, ls: LineageState)
    requires InOrder(b)
    requires Encodable(EventRecord(b.k, inst.def, inst.tokenId, MINT, inst.value, inst.holder.pub, 0, []))
    requires EventRecord(b.k, inst.def, inst.tokenId, MINT, inst.value, inst.holder.pub, 0, []) == Ok(rec)
    requires FirstState(tx.outputs, inst.tokenId) == if Utf8.Valid(inst.def.typeId) then Ok(rec) else Err(NoRecord)
    requires Verifies(Apply(b.node, tx), b.k, b.node.txidOf(tx), inst.tokenId, ls)
    ensures Legible(inst.def)
  {
    hide EventRecord, FirstState, Encodable, Told, Fold, Apply, Legible, CheckEvent, Utf8.Valid, Ledger.Valid;
    var after, txid := Apply(b.node, tx), b.node.txidOf(tx);
    var recs :| OnChain(after.txs, ReadState(inst.tokenId), txid, recs) && LineageOf(b.k, recs) == Ok(ls);
    TxOnChain(b.node, tx);
    assert FirstState(tx.outputs, inst.tokenId) == Ok(recs[|recs| - 1]);
    EventIsState(b.k, inst.def, inst.tokenId, MINT, inst.value, inst.holder.pub, 0, []);
    var before := FoldLast(Checking(b.k), UNBORN, recs);
    OneEvent(b.k, inst.def, inst.tokenId, Happening(MINT, inst.holder.pub), inst.value, 0, [], before);
  }

  /** A mint can be verified exactly when the names of its definition are UTF-8. */
  lemma MintVerifiesIff(b: Books, tx: Tx, inst: Instance, rec: FieldRecord)
    requires InOrder(b) && Accepts(b.node, tx) && ValidKey(inst.holder) && inst.seqNo == 0 && inst.vout == 0
    requires Encodable(EventRecord(b.k, inst.def, inst.tokenId, MINT, inst.value, inst.holder.pub, 0, []))
    requires EventRecord(b.k, inst.def, inst.tokenId, MINT, inst.value, inst.holder.pub, 0, []) == Ok(rec)
    requires inst.lock == EnvelopeOf(rec, inst.holder) && inst.txid == b.node.txidOf(tx)
    requires tx == OpenTx(b.wallet, b.coin, inst.lock, inst.sats)
    ensures (exists ls :: Verifies(Apply(b.node, tx), b.k, inst.txid, inst.tokenId, ls)) <==> Legible(inst.def)
  {
    hide EnvelopeOf, EventRecord, FirstState, Encodable, InOrder, OpenTx, Apply, Accepts, Verifies;
    MintReads(b, tx, inst, rec);
    if Legible(inst.def) {
      OpenOutputs(b.wallet, b.coin, inst.lock, inst.sats);
      NewbornEnters(b, tx, inst, rec);
      EnteringVerifies(b, tx, At(inst), Newborn(inst, rec));
    }
    if ls :| Verifies(Apply(b.node, tx), b.k, inst.txid, inst.tokenId, ls) {
      VerifiedIsText(b, tx, inst, rec, ls);
    }
  }

  lemma OpenOutputs(wallet: Keypair, coin: Coin, env: Bytes, sats: nat)
    ensures var outs := OpenTx(wallet, coin, env, sats).outputs; |outs| == 2 && outs[0] == Output(sats, env)
  {
  }

  lemma EnteringVerifies(b: Books, tx: Tx, o: Outpoint, t: Token)
    requires Entering(b, tx, o, t)
    ensures Verifies(Apply(b.node, tx), b.k, o.txid, t.inst.tokenId, StateOf(t))
  {
    hide Told, LineageOf, Apply, OnChain;
    StoryVerifies(b.k, t);
  }

  // ---------------------------------------------------------------- books after each operation

  /** The tokens a mint puts on the books: one, if it can be read back. */
  function Minting(inst: Instance, rec: FieldRecord): map<Outpoint, Token> {
    if Legible(inst.def) then map[At(inst) := Newborn(inst, rec)] else map[]
  }

  /** The token an event puts on the books in place of a live one. */
  ghost function Moving(b: Books, inst: Instance, kind: byte, next: Instance, rec: FieldRecord): map<Outpoint, Token> {
    if Live(b.tokens, inst) then map[At(next) := After(b.tokens[At(inst)], next, kind, rec)] else map[]
  }

  /** Both legs of a swap are one and the same event. */
  predicate SameEvent(a: Instance, b: Instance) {
    && a.txid == b.txid && a.seqNo == b.seqNo
    && EventOf(a.def, a.value, b.holder.pub, TRANSFER) == EventOf(b.def, b.value, a.holder.pub, TRANSFER)
  }

  /** The second leg of a swap can be read back: the first is of another token, or not text, or the same event. */
  predicate SecondReads(a: Instance, b: Instance) {
    a.tokenId != b.tokenId || !Utf8.Valid(a.def.typeId) || SameEvent(a, b)
  }

  ghost function Swapping(s: Books, a: Instance, b: Instance, na: Instance, nb: Instance, recA: FieldRecord, recB: FieldRecord)
    : map<Outpoint, Token>
  {
    Moving(s, a, TRANSFER, na, recA) + if SecondReads(a, b) then Moving(s, b, TRANSFER, nb, recB) else map[]
  }

  lemma MintBooks(b: Books, tx: Tx, inst: Instance, rec: FieldRecord)
    requires InOrder(b) && Accepts(b.node, tx) && ValidKey(inst.holder) && inst.seqNo == 0 && inst.vout == 0
    requires Encodable(EventRecord(b.k, inst.def, inst.tokenId, MINT, inst.value, inst.holder.pub, 0, []))
    requires EventRecord(b.k, inst.def, inst.tokenId, MINT, inst.value, inst.holder.pub, 0, []) == Ok(rec)
    requires inst.lock == EnvelopeOf(rec, inst.holder) && inst.txid == b.node.txidOf(tx) && inst.sats <= b.coin.sats
    requires tx == OpenTx(b.wallet, b.coin, inst.lock, inst.sats)
    ensures var after := Traded(b, tx, Coin(Outpoint(inst.txid, 1), b.coin.sats - inst.sats), Minting(inst, rec));
      InOrder(after) && Conserved(b, after, Minting(inst, rec))
  {
    hide EnvelopeOf, EventRecord, FirstState, Encodable, Told, HeldAt, Apply, Accepts, Traded, Ledger.Valid, Newborn;
    ChangeOf(b.wallet, b.coin, inst.lock, inst.sats);
    OpenAccepted(b.node, b.wallet, b.coin, inst.lock, inst.sats);
    CoinsLeft(b.node, b.wallet, tx, 1, b.coin.sats - inst.sats);
    if Legible(inst.def) {
      MintReads(b, tx, inst, rec);
      NewbornEnters(b, tx, inst, rec);
    }
    TradeInOrder(b, tx, Coin(Outpoint(inst.txid, 1), b.coin.sats - inst.sats), Minting(inst, rec));
    TradeConserves(b.wallet, TillOf(b), tx);
    TradedNode(b, tx, Coin(Outpoint(inst.txid, 1), b.coin.sats - inst.sats), Minting(inst, rec));
  }

  lemma TradedNode(b: Books, tx: Tx, coin: Coin, born: map<Outpoint, Token>)
    ensures Traded(b, tx, coin, born).node == Apply(b.node, tx)
  {
  }

  lemma MoveBooks(b: Books, tx: Tx, inst: Instance, kind: byte, to: Keypair, next: Instance, rec: FieldRecord)
    requires InOrder(b) && Accepts(b.node, tx) && ValidKey(to) && kind in {TRANSFER, REDEEM}
    requires NextRecord(b.k, inst, kind, to) == Ok(rec) && Encodable(NextRecord(b.k, inst, kind, to))
    requires tx == StepTx(b.wallet, b.coin, SpendOf(inst), EnvelopeOf(rec, to))
    requires next == Successor(inst, to, b.node.txidOf(tx), 0, EnvelopeOf(rec, to))
    ensures var born := Moving(b, inst, kind, next, rec);
      var after := Traded(b, tx, Coin(Outpoint(next.txid, 1), b.coin.sats), born);
      InOrder(after) && Conserved(b, after, born)
  {
    hide EnvelopeOf, EventRecord, FirstState, Encodable, Told, HeldAt, Apply, Accepts, Traded, Ledger.Valid, After;
    StepAccepted(b.node, b.wallet, b.coin, SpendOf(inst), EnvelopeOf(rec, to));
    CoinsLeft(b.node, b.wallet, tx, 1, b.coin.sats);
    var born := Moving(b, inst, kind, next, rec);
    if Live(b.tokens, inst) {
      StepReads(b, tx, inst, kind, to, rec);
      LiveIsLegible(b, inst);
      MoveEnters(b, tx, inst, kind, to, next, rec);
    }
    TradeInOrder(b, tx, Coin(Outpoint(next.txid, 1), b.coin.sats), born);
    TradeConserves(b.wallet, TillOf(b), tx);
    TradedNode(b, tx, Coin(Outpoint(next.txid, 1), b.coin.sats), born);
  }

  lemma AfterInst(t: Token, next: Instance, kind: byte, rec: FieldRecord)
    ensures After(t, next, kind, rec).inst == next
  {
  }

  /** What an event of kind puts on chain: a lock of the new holder, and, for a live token, one more entry in its name. */
  lemma MoveTells(b: Books, tx: Tx, inst: Instance, kind: byte, to: Keypair, next: Instance, rec: FieldRecord)
    requires InOrder(b) && Accepts(b.node, tx) && ValidKey(to) && kind in {TRANSFER, REDEEM}
    requires NextRecord(b.k, inst, kind, to) == Ok(rec) && Encodable(NextRecord(b.k, inst, kind, to))
    requires tx == StepTx(b.wallet, b.coin, SpendOf(inst), EnvelopeOf(rec, to))
    requires next == Successor(inst, to, b.node.txidOf(tx), 0, EnvelopeOf(rec, to))
    ensures Envelope.EnvelopePubKeyHash(next.lock) == Ok(to.pkh)
    ensures Live(b.tokens, inst) ==>
      Verifies(Apply(b.node, tx), b.k, next.txid, inst.tokenId,
               LineageState(|b.tokens[At(inst)].recs| + 1, inst.value, to.pub, kind != 3))
  {
    hide EnvelopeOf, EventRecord, FirstState, Encodable, Told, HeldAt, Apply, Accepts, Ledger.Valid, TextMessage, OutputRecord;
    hide Verifies, SizedEvent;
    EventIsState(b.k, inst.def, inst.tokenId, kind, inst.value, to.pub, (inst.seqNo + 1) % TWO_64, inst.txid);
    EnvelopeReads(rec, to, inst.sats);
    if Live(b.tokens, inst) {
      StepReads(b, tx, inst, kind, to, rec);
      LiveIsLegible(b, inst);
      MoveEnters(b, tx, inst, kind, to, next, rec);
      EnteringVerifies(b, tx, At(next), After(b.tokens[At(inst)], next, kind, rec));
    }
  }

  lemma LiveIsLegible(b: Books, inst: Instance)
    requires InOrder(b) && Live(b.tokens, inst)
    ensures Legible(inst.def)
  {
  }

  // ---------------------------------------------------------------- swaps

  /** The two records of a swap are equal exactly when the two legs are one event of one token. */
  lemma SameRecordIff(k: Keys, a: Instance, b: Instance)
    requires SizedTagger(k.tagger) && Legible(b.def)
    requires Encodable(NextRecord(k, a, TRANSFER, b.holder)) && Encodable(NextRecord(k, b, TRANSFER, a.holder))
    ensures NextRecord(k, a, TRANSFER, b.holder) == NextRecord(k, b, TRANSFER, a.holder) <==>
      a.tokenId == b.tokenId && SameEvent(a, b)
  {
    hide EventBytes, RecordBytes, ParseEvent, Utf8.Valid;
    var ea, eb := EventOf(a.def, a.value, b.holder.pub, TRANSFER), EventOf(b.def, b.value, a.holder.pub, TRANSFER);
    EventIsState(k, a.def, a.tokenId, TRANSFER, a.value, b.holder.pub, (a.seqNo + 1) % TWO_64, a.txid);
    EventIsState(k, b.def, b.tokenId, TRANSFER, b.value, a.holder.pub, (b.seqNo + 1) % TWO_64, b.txid);
    if EventBytes(ea) == EventBytes(eb) {
      EventInjective(ea, eb);
    }
    NextNumbers(a.seqNo, b.seqNo);
  }

  lemma NextNumbers(x: u64, y: u64)
    ensures (x + 1) % TWO_64 == (y + 1) % TWO_64 <==> x == y
  {
  }

  /** What a swap's transaction reads back as: the first leg if it is text, the second exactly when SecondReads. */
  lemma SwapReads(s: Books, tx: Tx, a: Instance, b: Instance, recA: FieldRecord, recB: FieldRecord)
    requires InOrder(s) && ValidKey(a.holder) && ValidKey(b.holder)
    requires NextRecord(s.k, a, TRANSFER, b.holder) == Ok(recA) && Encodable(NextRecord(s.k, a, TRANSFER, b.holder))
    requires NextRecord(s.k, b, TRANSFER, a.holder) == Ok(recB) && Encodable(NextRecord(s.k, b, TRANSFER, a.holder))
    requires tx == PairTx(s.wallet, s.coin, SpendOf(a), SpendOf(b), EnvelopeOf(recA, b.holder), EnvelopeOf(recB, a.holder))
    ensures Legible(a.def) ==> FirstState(tx.outputs, a.tokenId) == Ok(recA)
    ensures Legible(b.def) ==> (FirstState(tx.outputs, b.tokenId) == Ok(recB) <==> SecondReads(a, b))
  {
    hide EnvelopeOf, EventRecord, FirstState, Encodable, OutputRecord, TextMessage, Told, SameEvent;
    EventIsState(s.k, a.def, a.tokenId, TRANSFER, a.value, b.holder.pub, (a.seqNo + 1) % TWO_64, a.txid);
    EventIsState(s.k, b.def, b.tokenId, TRANSFER, b.value, a.holder.pub, (b.seqNo + 1) % TWO_64, b.txid);
    EnvelopeReads(recA, b.holder, a.sats);
    EnvelopeReads(recB, a.holder, b.sats);
    var outs := tx.outputs;
    PairReads(outs[0], outs[1], [outs[2]], recA, recB, a.tokenId, b.tokenId);
    assert [outs[0], outs[1]] + [outs[2]] == outs;
    if Legible(b.def) {
      SameRecordIff(s.k, a, b);
    }
  }

  lemma SwapBooks(s: Books, tx: Tx, a: Instance, b: Instance, na: Instance, nb: Instance, recA: FieldRecord, recB: FieldRecord)
    requires InOrder(s) && Accepts(s.node, tx) && ValidKey(a.holder) && ValidKey(b.holder)
    requires NextRecord(s.k, a, TRANSFER, b.holder) == Ok(recA) && Encodable(NextRecord(s.k, a, TRANSFER, b.holder))
    requires NextRecord(s.k, b, TRANSFER, a.holder) == Ok(recB) && Encodable(NextRecord(s.k, b, TRANSFER, a.holder))
    requires tx == PairTx(s.wallet, s.coin, SpendOf(a), SpendOf(b), EnvelopeOf(recA, b.holder), EnvelopeOf(recB, a.holder))
    requires na == Successor(a, b.holder, s.node.txidOf(tx), 0, EnvelopeOf(recA, b.holder))
    requires nb == Successor(b, a.holder, s.node.txidOf(tx), 1, EnvelopeOf(recB, a.holder))
    ensures var born := Swapping(s, a, b, na, nb, recA, recB);
      var after := Traded(s, tx, Coin(Outpoint(na.txid, 2), s.coin.sats), born);
      InOrder(after) && Conserved(s, after, born)
    ensures Live(s.tokens, a) ==>
      Verifies(Apply(s.node, tx), s.k, na.txid, a.tokenId, StateOf(After(s.tokens[At(a)], na, TRANSFER, recA)))
  {
    hide EnvelopeOf, EventRecord, FirstState, Encodable, Told, HeldAt, Apply, Accepts, Traded, Ledger.Valid, After, SecondReads;
    hide Verifies;
    PairAccepted(s.node, s.wallet, s.coin, SpendOf(a), SpendOf(b), EnvelopeOf(recA, b.holder), EnvelopeOf(recB, a.holder));
    CoinsLeft(s.node, s.wallet, tx, 2, s.coin.sats);
    SwapReads(s, tx, a, b, recA, recB);
    var born := Swapping(s, a, b, na, nb, recA, recB);
    if Live(s.tokens, a) {
      LiveIsLegible(s, a);
      MoveEnters(s, tx, a, TRANSFER, b.holder, na, recA);
      AfterInst(s.tokens[At(a)], na, TRANSFER, recA);
      EnteringVerifies(s, tx, At(na), After(s.tokens[At(a)], na, TRANSFER, recA));
    }
    if Live(s.tokens, b) && SecondReads(a, b) {
      LiveIsLegible(s, b);
      MoveEnters(s, tx, b, TRANSFER, a.holder, nb, recB);
    }
    TradeInOrder(s, tx, Coin(Outpoint(na.txid, 2), s.coin.sats), born);
    TradeConserves(s.wallet, TillOf(s), tx);
    TradedNode(s, tx, Coin(Outpoint(na.txid, 2), s.coin.sats), born);
  }

  // ---------------------------------------------------------------- the engine

  /** Token accounting on one node with one fee wallet. */
  class Engine {
    const k: Keys
    const wallet: Keypair
    var node: Node
    var coin: Coin
    ghost var tokens: map<Outpoint, Token>
    ghost var spent: set<Outpoint>

    ghost function View(): Books
      reads this
    {
      Books(k, wallet, node, coin, tokens, spent)
    }

    ghost predicate Valid()
      reads this
    {
      InOrder(View())
    }

    constructor (k: Keys, wallet: Keypair, node: Node, coin: Coin)
      requires SizedTagger(k.tagger) && ValidKey(wallet) && Ledger.Valid(node) && Spendable(node, wallet, coin)
      ensures Valid() && View() == Books(k, wallet, node, coin, map[], {})
    {
      this.k, this.wallet, this.node, this.coin := k, wallet, node, coin;
      tokens, spent := map[], {};
    }

    /**
     Creates a token, exactly when its record can be made, the wallet covers it and the transaction is new.  It can be
     verified exactly when the names of its definition are UTF-8.
     */
    method Mint(def: Definition, tokenId: Bytes, holder: Keypair, value: u64)
      returns (res: Result<Instance, StateCoins.Error>, ghost tx: Tx, ghost rec: FieldRecord)
      requires Valid() && ValidKey(holder)
      modifies this
      ensures Valid()
      ensures var made, sats := EventRecord(k, def, tokenId, MINT, value, holder.pub, 0, []), SatoshiQuantity(def, value);
        && (Encodable(made) ==> rec == made.value && tx == OpenTx(wallet, old(coin), EnvelopeOf(rec, holder), sats))
        && (res.Ok? <==> Encodable(made) && sats <= old(coin).sats && Fresh(old(node), tx))
        && (res.Ok? ==>
             res.value == Instance(def, tokenId, holder, value, 0, old(node).txidOf(tx), 0, sats, EnvelopeOf(rec, holder)))
      ensures res.Ok? ==>
        var born := Minting(res.value, rec);
        && View() == Traded(old(View()), tx, Coin(Outpoint(res.value.txid, 1), old(coin).sats - res.value.sats), born)
        && Conserved(old(View()), View(), born)
      ensures res.Ok? ==> ((exists ls :: Verifies(node, k, res.value.txid, tokenId, ls)) <==> Legible(def))
      ensures res.Err? ==> unchanged(this)
    {
      hide InOrder, Accepts, Apply, EventRecord, EnvelopeOf, Conserved, Encodable, Legible, Verifies, Minting;
      rec, tx := FieldRecord([], EventMessage(def, tokenId, MINT, 0, []), 0, [], []), Tx([], []);
      var sats := SatoshiQuantity(def, value);
      InOrderParts(View(), sats);
      var env := EventEnvelope(k, def, tokenId, MINT, value, holder, 0, []);
      if env.Err? {
        return Err(env.error), tx, rec;
      }
      IsMade(EventRecord(k, def, tokenId, MINT, value, holder.pub, 0, []));
      rec := EventRecord(k, def, tokenId, MINT, value, holder.pub, 0, []).value;
      var change := (coin.sats - sats) % TWO_64;
      var unsigned := Tx([CoinInput(wallet, coin)], [Output(sats, env.value), Output(change, Lock(wallet))]);
      tx := unsigned;
      OpenAccepted(node, wallet, coin, env.value, sats);
      label before:
      var sent: Result<Txid, StateCoins.Error>;
      node, sent := Broadcast(node, unsigned);
      if sent.Err? {
        return Err(sent.error), tx, rec;
      }
      var inst := Instance(def, tokenId, holder, value, 0, sent.value, 0, sats, env.value);
      MintBooks(old@before(View()), tx, inst, rec);
      MintVerifiesIff(old@before(View()), tx, inst, rec);
      ghost var after := Traded(old@before(View()), tx, Coin(Outpoint(inst.txid, 1), change), Minting(inst, rec));
      tokens, spent := after.tokens, after.spent;
      coin := Coin(Outpoint(inst.txid, 1), change);
      return Ok(inst), tx, rec;
    }

    /** What Transfer and Redeem share: the state output is spent and its successor created for key to. */
    method Succeed(inst: Instance, kind: byte, to: Keypair)
      returns (res: Result<Instance, StateCoins.Error>, ghost tx: Tx, ghost rec: FieldRecord)
      requires Valid() && ValidKey(to) && kind in {TRANSFER, REDEEM}
      modifies this
      ensures Valid()
      ensures var made := NextRecord(k, inst, kind, to);
        && (Encodable(made) ==> rec == made.value && tx == StepTx(wallet, old(coin), SpendOf(inst), EnvelopeOf(rec, to)))
        && (res.Ok? <==> Encodable(made) && Authorised(old(node).utxos, SpendOf(inst)) && At(inst) != old(coin).outpoint
                         && Fresh(old(node), tx))
        && (res.Ok? ==> res.value == Successor(inst, to, old(node).txidOf(tx), 0, EnvelopeOf(rec, to)))
      ensures Live(old(tokens), inst) ==> Authorised(old(node).utxos, SpendOf(inst)) && At(inst) != old(coin).outpoint
      ensures At(inst) in old(spent) ==> res.Err?
      ensures At(inst) in old(tokens) && old(tokens)[At(inst)].inst.holder.pkh != inst.holder.pkh ==> res.Err?
      ensures res.Ok? ==>
        var born := Moving(old(View()), inst, kind, res.value, rec);
        && View() == Traded(old(View()), tx, Coin(Outpoint(res.value.txid, 1), old(coin).sats), born)
        && Conserved(old(View()), View(), born)
      ensures res.Ok? ==> var next := res.value;
        && next.holder == to && next.def == inst.def && next.tokenId == inst.tokenId && next.value == inst.value
        && next.seqNo == (inst.seqNo + 1) % TWO_64 && next.sats == inst.sats && next.txid == old(node).txidOf(tx) && next.vout == 0
        && Envelope.EnvelopePubKeyHash(next.lock) == Ok(to.pkh)
      ensures res.Ok? && Live(old(tokens), inst) ==>
        Verifies(node, k, res.value.txid, inst.tokenId,
                 LineageState(|old(tokens)[At(inst)].recs| + 1, inst.value, to.pub, kind != 3))
      ensures res.Err? ==> unchanged(this)
    {
      hide InOrder, Accepts, Apply, EventRecord, EnvelopeOf, Conserved, Encodable, Authorised, Live;
      hide Verifies, Envelope.EnvelopePubKeyHash, Envelope.P2pkh, Moving;
      rec, tx := FieldRecord([], EventMessage(inst.def, inst.tokenId, kind, 0, []), 0, [], []), Tx([], []);
      InOrderParts(View(), 0);
      SpendDecided(View(), inst);
      var seqNo := (inst.seqNo + 1) % TWO_64;
      var env := EventEnvelope(k, inst.def, inst.tokenId, kind, inst.value, to, seqNo, inst.txid);
      if env.Err? {
        return Err(env.error), tx, rec;
      }
      IsMade(NextRecord(k, inst, kind, to));
      rec := NextRecord(k, inst, kind, to).value;
      var unsigned := Tx([SpendOf(inst), CoinInput(wallet, coin)], [Output(inst.sats, env.value), Output(coin.sats, Lock(wallet))]);
      tx := unsigned;
      StepAccepted(node, wallet, coin, SpendOf(inst), env.value);
      label before:
      var sent: Result<Txid, StateCoins.Error>;
      node, sent := Broadcast(node, unsigned);
      if sent.Err? {
        return Err(sent.error), tx, rec;
      }
      var next := Successor(inst, to, sent.value, 0, env.value);
      MoveBooks(old@before(View()), tx, inst, kind, to, next, rec);
      MoveTells(old@before(View()), tx, inst, kind, to, next, rec);
      ghost var b := old@before(View());
      ghost var after := Traded(b, tx, Coin(Outpoint(next.txid, 1), coin.sats), Moving(b, inst, kind, next, rec));
      tokens, spent := after.tokens, after.spent;
      coin := Coin(Outpoint(next.txid, 1), coin.sats);
      return Ok(next), tx, rec;
    }

    /**
     Moves a token to newHolder.  It succeeds exactly when the record can be made, the output is unspent, as the
     instance describes it and its holder's to spend, and the transaction is new.  That holds of a live token's
     instance; an instance that was spent is refused, and nothing changes.
     */
    method Transfer(inst: Instance, newHolder: Keypair)
      returns (res: Result<Instance, StateCoins.Error>, ghost tx: Tx, ghost rec: FieldRecord)
      requires Valid() && ValidKey(newHolder)
      modifies this
      ensures Valid()
      ensures var made := NextRecord(k, inst, TRANSFER, newHolder);
        && (Encodable(made) ==> rec == made.value && tx == StepTx(wallet, old(coin), SpendOf(inst), EnvelopeOf(rec, newHolder)))
        && (res.Ok? <==> Encodable(made) && Authorised(old(node).utxos, SpendOf(inst)) && At(inst) != old(coin).outpoint
                         && Fresh(old(node), tx))
        && (res.Ok? ==> res.value == Successor(inst, newHolder, old(node).txidOf(tx), 0, EnvelopeOf(rec, newHolder)))
      ensures Live(old(tokens), inst) ==> Authorised(old(node).utxos, SpendOf(inst)) && At(inst) != old(coin).outpoint
      ensures At(inst) in old(spent) ==> res.Err?
      ensures At(inst) in old(tokens) && old(tokens)[At(inst)].inst.holder.pkh != inst.holder.pkh ==> res.Err?
      ensures res.Ok? ==>
        var born := Moving(old(View()), inst, TRANSFER, res.value, rec);
        && View() == Traded(old(View()), tx, Coin(Outpoint(res.value.txid, 1), old(coin).sats), born)
        && Conserved(old(View()), View(), born)
      ensures res.Ok? ==> var next := res.value;
        && next.holder == newHolder && next.def == inst.def && next.tokenId == inst.tokenId && next.value == inst.value
        && next.seqNo == (inst.seqNo + 1) % TWO_64 && next.sats == inst.sats
        && Envelope.EnvelopePubKeyHash(next.lock) == Ok(newHolder.pkh)
      ensures res.Ok? && Live(old(tokens), inst) ==>
        Verifies(node, k, res.value.txid, inst.tokenId,
                 LineageState(|old(tokens)[At(inst)].recs| + 1, inst.value, newHolder.pub, true))
      ensures res.Err? ==> unchanged(this)
    {
      res, tx, rec := Succeed(inst, TRANSFER, newHolder);
    }

    /** Burns a token: its last state goes to the issuer, and its story ends. */
    method Redeem(inst: Instance, issuer: Keypair)
      returns (res: Result<Txid, StateCoins.Error>, ghost tx: Tx, ghost rec: FieldRecord)
      requires Valid() && ValidKey(issuer)
      modifies this
      ensures Valid()
      ensures var made := NextRecord(k, inst, REDEEM, issuer);
        && (Encodable(made) ==> rec == made.value && tx == StepTx(wallet, old(coin), SpendOf(inst), EnvelopeOf(rec, issuer)))
        && (res.Ok? <==> Encodable(made) && Authorised(old(node).utxos, SpendOf(inst)) && At(inst) != old(coin).outpoint
                         && Fresh(old(node), tx))
        && (res.Ok? ==> res.value == old(node).txidOf(tx))
      ensures Live(old(tokens), inst) ==> Authorised(old(node).utxos, SpendOf(inst)) && At(inst) != old(coin).outpoint
      ensures At(inst) in old(spent) ==> res.Err?
      ensures At(inst) in old(tokens) && old(tokens)[At(inst)].inst.holder.pkh != inst.holder.pkh ==> res.Err?
      ensures res.Ok? ==>
        var born := Moving(old(View()), inst, REDEEM, Successor(inst, issuer, res.value, 0, EnvelopeOf(rec, issuer)), rec);
        && View() == Traded(old(View()), tx, Coin(Outpoint(res.value, 1), old(coin).sats), born)
        && Conserved(old(View()), View(), born)
      ensures res.Ok? && Live(old(tokens), inst) ==>
        Verifies(node, k, res.value, inst.tokenId,
                 LineageState(|old(tokens)[At(inst)].recs| + 1, inst.value, issuer.pub, false))
      ensures res.Err? ==> unchanged(this)
    {
      var last: Result<Instance, StateCoins.Error>;
      last, tx, rec := Succeed(inst, REDEEM, issuer);
      return if last.Ok? then Ok(last.value.txid) else Err(last.error), tx, rec;
    }

    /**
     Exchanges two tokens in one transaction: each goes to the other's holder.  The first stays on the books; the
     second does exactly when it can be read back, which two tokens with one id cannot unless the legs are one event.
     In that case what verifies at the second's head is the first token.
     */
    method Swap(a: Instance, b: Instance)
      returns (res: Result<(Instance, Instance), StateCoins.Error>, ghost tx: Tx, ghost recs: (FieldRecord, FieldRecord))
      requires Valid() && ValidKey(a.holder) && ValidKey(b.holder)
      modifies this
      ensures Valid()
      ensures var madeA, madeB := NextRecord(k, a, TRANSFER, b.holder), NextRecord(k, b, TRANSFER, a.holder);
        && (Encodable(madeA) && Encodable(madeB) ==>
             && recs == (madeA.value, madeB.value)
             && tx == PairTx(wallet, old(coin), SpendOf(a), SpendOf(b),
                             EnvelopeOf(recs.0, b.holder), EnvelopeOf(recs.1, a.holder)))
        && (res.Ok? <==>
             && Encodable(madeA) && Encodable(madeB)
             && Authorised(old(node).utxos, SpendOf(a)) && Authorised(old(node).utxos, SpendOf(b))
             && At(a) != At(b) && At(a) != old(coin).outpoint && At(b) != old(coin).outpoint && Fresh(old(node), tx))
        && (res.Ok? ==>
             && res.value.0 == Successor(a, b.holder, old(node).txidOf(tx), 0, EnvelopeOf(recs.0, b.holder))
             && res.value.1 == Successor(b, a.holder, old(node).txidOf(tx), 1, EnvelopeOf(recs.1, a.holder)))
      ensures At(a) in old(spent) || At(b) in old(spent) ==> res.Err?
      ensures res.Ok? ==>
        var born := Swapping(old(View()), a, b, res.value.0, res.value.1, recs.0, recs.1);
        && View() == Traded(old(View()), tx, Coin(Outpoint(res.value.0.txid, 2), old(coin).sats), born)
        && Conserved(old(View()), View(), born)
      ensures res.Ok? && Live(old(tokens), a) ==>
        Verifies(node, k, res.value.1.txid, a.tokenId, StateOf(After(old(tokens)[At(a)], res.value.0, TRANSFER, recs.0)))
      ensures res.Ok? ==> var (na, nb) := res.value;
        && na.holder == b.holder && na.tokenId == a.tokenId && na.value == a.value && na.def == a.def && na.sats == a.sats
        && nb.holder == a.holder && nb.tokenId == b.tokenId && nb.value == b.value && nb.def == b.def && nb.sats == b.sats
      ensures res.Err? ==> unchanged(this)
    {
      hide InOrder, Accepts, Apply, EventRecord, EnvelopeOf, Conserved, Encodable, Authorised, Live, Verifies, Swapping, After;
      ghost var blank := FieldRecord([], EventMessage(a.def, a.tokenId, TRANSFER, 0, []), 0, [], []);
      recs, tx := (blank, blank), Tx([], []);
      InOrderParts(View(), 0);
      SpendDecided(View(), a);
      SpendDecided(View(), b);
      var seqA, seqB := (a.seqNo + 1) % TWO_64, (b.seqNo + 1) % TWO_64;
      var envA := EventEnvelope(k, a.def, a.tokenId, TRANSFER, a.value, b.holder, seqA, a.txid);
      if envA.Err? {
        return Err(envA.error), tx, recs;
      }
      var envB := EventEnvelope(k, b.def, b.tokenId, TRANSFER, b.value, a.holder, seqB, b.txid);
      if envB.Err? {
        return Err(envB.error), tx, recs;
      }
      IsMade(NextRecord(k, a, TRANSFER, b.holder));
      IsMade(NextRecord(k, b, TRANSFER, a.holder));
      recs := (NextRecord(k, a, TRANSFER, b.holder).value, NextRecord(k, b, TRANSFER, a.holder).value);
      var unsigned := Tx([SpendOf(a), SpendOf(b), CoinInput(wallet, coin)],
                         [Output(a.sats, envA.value), Output(b.sats, envB.value), Output(coin.sats, Lock(wallet))]);
      tx := unsigned;
      PairAccepted(node, wallet, coin, SpendOf(a), SpendOf(b), envA.value, envB.value);
      label before:
      var sent: Result<Txid, StateCoins.Error>;
      node, sent := Broadcast(node, unsigned);
      if sent.Err? {
        return Err(sent.error), tx, recs;
      }
      var na, nb := Successor(a, b.holder, sent.value, 0, envA.value), Successor(b, a.holder, sent.value, 1, envB.value);
      ghost var s := old@before(View());
      SwapBooks(s, tx, a, b, na, nb, recs.0, recs.1);
      ghost var after := Traded(s, tx, Coin(Outpoint(na.txid, 2), coin.sats), Swapping(s, a, b, na, nb, recs.0, recs.1));
      tokens, spent := after.tokens, after.spent;
      coin := Coin(Outpoint(sent.value, 2), coin.sats);
      return Ok((na, nb)), tx, recs;
    }

    // -------------------------------------------------------------- verification

    /** The body of the replay loop. */
    method ReplayEvent(ls: LineageState, en: FieldRecord) returns (res: Result<LineageState, StateCoins.Error>)
      ensures res == CheckEvent(k, ls, en)
    {
      hide ParseEvent;
      var bad := CheckTag(k.tagger, k.writerPriv, k.counterpartyPub, en);
      if bad.Some? {
        return Err(Crypto(bad.value));
      }
      var ev := DecodeEvent(en.changeImage);
      if ev.Err? {
        return Err(StateCoins.BadImage);
      }
      return Ok(LineageState(ls.entries + 1, ev.value.value, ev.value.controllerPub, ls.alive && ev.value.kind != REDEEM));
    }

    /** The replay loop of the verification. */
    method ReplayEvents(rev: seq<FieldRecord>) returns (res: Result<LineageState, StateCoins.Error>)
      ensures res == LineageOf(k, Reverse(rev))
    {
      hide Fold, CheckEvent;
      ghost var chain, step := Reverse(rev), Checking(k);
      var ls := UNBORN;
      var i := |rev| - 1;
      FoldNone(step, UNBORN, chain);
      while i >= 0
        invariant -1 <= i < |rev|
        invariant Fold(step, UNBORN, chain[..|rev| - 1 - i]) == Ok(ls)
      {
        FoldNext(step, UNBORN, chain, |rev| - 1 - i);
        var next := ReplayEvent(ls, rev[i]);
        if next.Err? {
          FoldFails(step, UNBORN, chain, |rev| - i);
          return next;
        }
        ls := next.value;
        i := i - 1;
      }
      assert chain[..|rev|] == chain;
      return Ok(ls);
    }

    /**
     Rebuilds a token from the chain.  On any head it is the fold of the lineage, or an error if there is
     none; on the head of a token of this engine it is exactly the token's state.
     */
    method VerifyLineage(head: Txid, tokenId: Bytes) returns (res: Result<LineageState, StateCoins.Error>)
      requires Valid()
      ensures forall recs :: OnChain(node.txs, ReadState(tokenId), head, recs) ==> res == LineageOf(k, recs)
      ensures (forall recs :: !OnChain(node.txs, ReadState(tokenId), head, recs)) ==> res.Err?
      ensures forall ls :: Verifies(node, k, head, tokenId, ls) <==> res == Ok(ls)
      ensures forall recs: seq<FieldRecord> :: OnChain(node.txs, ReadState(tokenId), head, recs) ==>
        (res.Ok? <==> forall rec <- recs ::
           && k.tagger(k.writerPriv, k.counterpartyPub, rec.message, rec.changeImage) == Ok(rec.tag)
           && ParseEvent(rec.changeImage).Some?)
      ensures forall o <- tokens :: o.txid == head && tokens[o].inst.tokenId == tokenId ==>
        res == Ok(StateOf(tokens[o])) && (res.value.entries - 1) % TWO_64 == tokens[o].inst.seqNo
    {
      hide LineageOf, OnChain, Told, FirstState, ParseEvent;
      var walked := WalkBack(node.txs, ReadState(tokenId), head);
      TokensOnChain(View(), head, tokenId);
      if walked.Err? {
        return Err(Walk(walked.error));
      }
      forall recs: seq<FieldRecord> | OnChain(node.txs, ReadState(tokenId), head, recs) ensures recs == Reverse(walked.value) {
        OnChainUnique(node.txs, ReadState(tokenId), head, recs, Reverse(walked.value));
      }
      LineageIff(k, Reverse(walked.value));
      res := ReplayEvents(walked.value);
    }
  }

  lemma InOrderParts(b: Books, sats: u64)
    requires InOrder(b)
    ensures SizedTagger(b.k.tagger) && ValidKey(b.wallet) && Spendable(b.node, b.wallet, b.coin)
    ensures sats <= b.coin.sats ==> (b.coin.sats - sats) % TWO_64 == b.coin.sats - sats
  {
  }

  /** A tracked token has its records as its lineage, and they verify to its state. */
  lemma TokensOnChain(b: Books, head: Txid, tokenId: Bytes)
    requires InOrder(b)
    ensures forall o <- b.tokens :: o.txid == head && b.tokens[o].inst.tokenId == tokenId ==>
      && OnChain(b.node.txs, ReadState(tokenId), head, b.tokens[o].recs)
      && LineageOf(b.k, b.tokens[o].recs) == Ok(StateOf(b.tokens[o]))
      && (|b.tokens[o].recs| - 1) % TWO_64 == b.tokens[o].inst.seqNo
  {
    hide OnChain, LineageOf, Plot, ToldAt, Legible, StateOf, Ledger.Valid, Names;
    forall o | o in b.tokens && o.txid == head && b.tokens[o].inst.tokenId == tokenId
      ensures OnChain(b.node.txs, ReadState(tokenId), head, b.tokens[o].recs)
      ensures LineageOf(b.k, b.tokens[o].recs) == Ok(StateOf(b.tokens[o]))
      ensures (|b.tokens[o].recs| - 1) % TWO_64 == b.tokens[o].inst.seqNo
    {
      TokenHeld(b, b.tokens[o].inst);
      StoryVerifies(b.k, b.tokens[o]);
    }
  }
}
