/**
 Objects kept as unspent outputs: a coin of the current state, whose transaction carries the state's record,
 is spent to make the next one, next to a fee coin.  Both the token and the document engine work this way.
 */
module StateCoins {
  import opened Wrappers
  import opened ByteStrings
  import opened Format
  import opened Ledger
  import opened Lineage
  import opened Keystone
  import Envelope
  import GoCodec

  /** A compressed public key and its hash. */
  datatype Keypair = Keypair(pub: Bytes, pkh: Bytes)

  ghost predicate ValidKey(k: Keypair) {
    |k.pub| == 33 && |k.pkh| == 20
  }

  function Lock(k: Keypair): Bytes {
    Envelope.P2pkh(k.pkh)
  }

  /** The fee output the engine controls. */
  datatype Coin = Coin(outpoint: Outpoint, sats: nat)

  ghost predicate Spendable(node: Node, wallet: Keypair, coin: Coin) {
    coin.sats < TWO_64 && coin.outpoint in node.utxos && node.utxos[coin.outpoint] == Output(coin.sats, Lock(wallet))
  }

  function CoinInput(wallet: Keypair, coin: Coin): Input {
    Input(coin.outpoint, Output(coin.sats, Lock(wallet)), wallet.pkh)
  }

  // ---------------------------------------------------------------- records of states

  datatype Error =
    | Crypto(e: Keystone.Error) | Codec(c: GoCodec.Error) | Script(s: Envelope.Error) | Rejected
    | Walk(w: WalkError) | BadImage | UnknownType | NoTransition

  /** The journalling writer's key and the counterparty's. */
  datatype Keys = Keys(tagger: Tagger, writerPriv: Bytes, counterpartyPub: Bytes)

  function TagOf(k: Keys, m: ChangeMessage, image: Bytes): Result<Bytes, Keystone.Error> {
    k.tagger(k.writerPriv, k.counterpartyPub, m, image)
  }

  function StateRecord(k: Keys, stream: Bytes, m: ChangeMessage, image: Bytes): Result<FieldRecord, Keystone.Error> {
    match TagOf(k, m, image)
    case Err(e) => Err(e)
    case Ok(tag) => Ok(FieldRecord(stream, m, IMAGE_PLAINTEXT, image, tag))
  }

  function EnvelopeOf(rec: FieldRecord, controller: Keypair): Bytes {
    Envelope.IfEnvelope(RecordBytes(rec), controller.pkh)
  }

  /** The record could be made and put in an envelope. */
  predicate Encodable(made: Result<FieldRecord, Keystone.Error>) {
    made.Ok? && LinkSize(made.value.message.prevTxid) && Fits(RecordBytes(made.value))
  }

  lemma IsMade(made: Result<FieldRecord, Keystone.Error>)
    requires Encodable(made)
    ensures made.Ok?
  {
  }

  /**
   Tag, record and envelope of a state.  Only the tag, a link of the wrong size or sheer length can fail; the check
   that the envelope is spendable never fires.
   */
  method MakeEnvelope(k: Keys, stream: Bytes, m: ChangeMessage, image: Bytes, controller: Keypair)
    returns (res: Result<Bytes, Error>)
    requires SizedTagger(k.tagger) && ValidKey(controller)
    ensures var made := StateRecord(k, stream, m, image);
      && (res.Ok? <==> Encodable(made))
      && (res.Ok? ==> res.value == EnvelopeOf(made.value, controller))
  {
    hide RecordBytes, Envelope.IfEnvelope;
    var tag := TagOf(k, m, image);
    if tag.Err? {
      return Err(Crypto(tag.error));
    }
    var rec := FieldRecord(stream, m, IMAGE_PLAINTEXT, image, tag.value);
    var encoded := GoCodec.EncodeRecord(rec);
    if encoded.Err? {
      return Err(Codec(encoded.error));
    }
    var env := Envelope.BuildEnvelopeIf(encoded.value, controller.pkh);
    if env.Err? {
      return Err(Script(env.error));
    }
    Envelope.IfEnvelopeRoundTrip(encoded.value, controller.pkh);
    var check := Envelope.AssertNativeSpendable(env.value);
    assert check == None;
    return Ok(env.value);
  }

  /** The record of a state, as the engines make it. */
  ghost predicate Stateful(rec: FieldRecord) {
    && rec.imageKind == IMAGE_PLAINTEXT && |rec.tag| == 32 && rec.message.op in {OP_INSERT, OP_UPDATE, OP_DELETE}
    && LinkSize(rec.message.prevTxid) && Fits(RecordBytes(rec))
  }

  /** The envelope names its controller, and gives the record back exactly when the record's names are text. */
  lemma EnvelopeReads(rec: FieldRecord, controller: Keypair, sats: nat)
    requires Stateful(rec) && ValidKey(controller)
    ensures var env := EnvelopeOf(rec, controller);
      && Names(env, controller.pkh)
      && OutputRecord(Output(sats, env)) == if TextMessage(rec.message) then Some(rec) else None
  {
    hide RecordBytes, Envelope.IfEnvelope, ParseRecord, TextMessage;
    Envelope.IfEnvelopeRoundTrip(RecordBytes(rec), controller.pkh);
    RecordLength(rec);
    PartsFit(rec);
    RecordReadsBack(rec);
  }

  /** The script is an envelope that the key can spend. */
  ghost predicate Names(script: Bytes, pkh: Bytes) {
    Envelope.ExtractEnvelopeData(script).Ok? && Envelope.EnvelopePubKeyHash(script) == Ok(pkh)
  }

  // ---------------------------------------------------------------- transactions

  /** Opens a lineage: the fee coin pays for the state output; the change is a 64-bit difference. */
  function OpenTx(wallet: Keypair, coin: Coin, env: Bytes, sats: nat): Tx {
    Tx([CoinInput(wallet, coin)], [Output(sats, env), Output((coin.sats - sats) % TWO_64, Lock(wallet))])
  }

  /** Replaces a state by the next, with the same satoshis; the fee coin passes through. */
  function StepTx(wallet: Keypair, coin: Coin, state: Input, env: Bytes): Tx {
    Tx([state, CoinInput(wallet, coin)], [Output(state.spent.sats, env), Output(coin.sats, Lock(wallet))])
  }

  /** Replaces two states at once. */
  function PairTx(wallet: Keypair, coin: Coin, a: Input, b: Input, envA: Bytes, envB: Bytes): Tx {
    Tx([a, b, CoinInput(wallet, coin)],
       [Output(a.spent.sats, envA), Output(b.spent.sats, envB), Output(coin.sats, Lock(wallet))])
  }

  predicate Fresh(node: Node, tx: Tx) {
    node.txidOf(tx) !in node.txs
  }

  lemma SumStep(o: Output, rest: seq<Output>)
    ensures Sum([o] + rest) == o.sats + Sum(rest)
  {
    assert ([o] + rest)[1..] == rest;
  }

  lemma SumOf(a: Output, b: Output, c: Output)
    ensures Sum([a]) == a.sats && Sum([a, b]) == a.sats + b.sats && Sum([a, b, c]) == a.sats + b.sats + c.sats
  {
    SumStep(a, []);
    SumStep(b, []);
    SumStep(c, []);
    SumStep(a, [b]);
    SumStep(b, [c]);
    SumStep(a, [b, c]);
    assert [a] + [] == [a] && [b] + [] == [b] && [c] + [] == [c] && [a] + [b] == [a, b] && [b] + [c] == [b, c];
    assert [a] + [b, c] == [a, b, c];
  }

  lemma CoinAuthorised(node: Node, wallet: Keypair, coin: Coin)
    requires ValidKey(wallet) && Spendable(node, wallet, coin)
    ensures Authorised(node.utxos, CoinInput(wallet, coin))
  {
    Envelope.P2pkhIsNoEnvelope(wallet.pkh);
  }

  lemma OpenAccepted(node: Node, wallet: Keypair, coin: Coin, env: Bytes, sats: nat)
    requires ValidKey(wallet) && Spendable(node, wallet, coin) && sats < TWO_64
    ensures var tx := OpenTx(wallet, coin, env, sats);
      && (Accepts(node, tx) <==> sats <= coin.sats && Fresh(node, tx))
      && (sats <= coin.sats ==> Sum(Spent(tx.inputs)) == Sum(tx.outputs))
  {
    var tx := OpenTx(wallet, coin, env, sats);
    CoinAuthorised(node, wallet, coin);
    SumOf(tx.outputs[0], tx.outputs[1], tx.outputs[0]);
    SumOf(tx.inputs[0].spent, tx.inputs[0].spent, tx.inputs[0].spent);
    assert Spent(tx.inputs) == [tx.inputs[0].spent];
  }

  lemma ChangeOf(wallet: Keypair, coin: Coin, env: Bytes, sats: nat)
    requires sats <= coin.sats < TWO_64
    ensures OpenTx(wallet, coin, env, sats).outputs == [Output(sats, env), Output(coin.sats - sats, Lock(wallet))]
  {
  }

  lemma StepAccepted(node: Node, wallet: Keypair, coin: Coin, state: Input, env: Bytes)
    requires ValidKey(wallet) && Spendable(node, wallet, coin)
    ensures var tx := StepTx(wallet, coin, state, env);
      && (Accepts(node, tx) <==>
           Authorised(node.utxos, state) && state.outpoint != coin.outpoint && Fresh(node, tx))
      && Sum(Spent(tx.inputs)) == Sum(tx.outputs)
  {
    hide Envelope.EnvelopePubKeyHash, Envelope.P2pkh;
    var tx := StepTx(wallet, coin, state, env);
    CoinAuthorised(node, wallet, coin);
    SumOf(tx.outputs[0], tx.outputs[1], tx.outputs[0]);
    SumOf(tx.inputs[0].spent, tx.inputs[1].spent, tx.inputs[0].spent);
    assert Spent(tx.inputs) == [tx.inputs[0].spent, tx.inputs[1].spent];
    assert Accepts(node, tx) ==> Authorised(node.utxos, tx.inputs[0]) && tx.inputs[0].outpoint != tx.inputs[1].outpoint;
  }

  lemma PairAccepted(node: Node, wallet: Keypair, coin: Coin, a: Input, b: Input, envA: Bytes, envB: Bytes)
    requires ValidKey(wallet) && Spendable(node, wallet, coin)
    ensures var tx := PairTx(wallet, coin, a, b, envA, envB);
      && (Accepts(node, tx) <==>
           && Authorised(node.utxos, a) && Authorised(node.utxos, b)
           && a.outpoint != b.outpoint && a.outpoint != coin.outpoint && b.outpoint != coin.outpoint
           && Fresh(node, tx))
      && Sum(Spent(tx.inputs)) == Sum(tx.outputs)
  {
    hide Envelope.EnvelopePubKeyHash, Envelope.P2pkh;
    var tx := PairTx(wallet, coin, a, b, envA, envB);
    CoinAuthorised(node, wallet, coin);
    SumOf(tx.outputs[0], tx.outputs[1], tx.outputs[2]);
    SumOf(a.spent, b.spent, tx.inputs[2].spent);
    assert Spent(tx.inputs) == [a.spent, b.spent, tx.inputs[2].spent];
    var ins := tx.inputs;
    assert Accepts(node, tx) ==>
      && Authorised(node.utxos, ins[0]) && Authorised(node.utxos, ins[1])
      && ins[0].outpoint != ins[1].outpoint && ins[0].outpoint != ins[2].outpoint && ins[1].outpoint != ins[2].outpoint;
  }

  // ---------------------------------------------------------------- what a transaction does

  ghost predicate Gone(node: Node, o: Outpoint) {
    o !in node.utxos && o.txid in node.txs
  }

  /** Spent outputs stay spent; unspent ones that are not inputs stay unspent. */
  lemma CoinsAfter(node: Node, tx: Tx)
    requires Ledger.Valid(node) && Accepts(node, tx)
    ensures var after := Apply(node, tx);
      && Ledger.Valid(after) && Extends(node, after)
      && (forall o :: Gone(node, o) ==> Gone(after, o))
      && (forall i :: 0 <= i < |tx.inputs| ==> Gone(after, tx.inputs[i].outpoint))
      && (forall o <- node.utxos :: o !in Outpoints(tx.inputs) ==> o in after.utxos && after.utxos[o] == node.utxos[o])
      && (forall k: nat :: k < |tx.outputs| ==>
           var o := Outpoint(node.txidOf(tx), k); o in after.utxos && after.utxos[o] == tx.outputs[k])
  {
    SendValid(node, tx);
    forall i | 0 <= i < |tx.inputs| ensures tx.inputs[i].outpoint in Outpoints(tx.inputs) {
    }
  }

  // ---------------------------------------------------------------- reading the state back

  lemma FirstOutput(o: Output, rest: seq<Output>, id: Bytes, rec: FieldRecord)
    requires OutputRecord(o) == Some(rec) && IsStateOf(rec, id)
    ensures FirstState([o] + rest, id) == Ok(rec)
  {
  }

  lemma LaterOutput(o: Output, rest: seq<Output>, id: Bytes)
    requires OutputRecord(o).Some? ==> !IsStateOf(OutputRecord(o).value, id)
    ensures FirstState([o] + rest, id) == FirstState(rest, id)
  {
    hide OutputRecord;
    assert ([o] + rest)[1..] == rest;
  }

  /** The fee output carries no state. */
  lemma NoState(wallet: Keypair, sats: nat, id: Bytes)
    requires ValidKey(wallet)
    ensures FirstState([Output(sats, Lock(wallet))], id) == Err(NoRecord)
  {
    Envelope.P2pkhIsNoEnvelope(wallet.pkh);
    LaterOutput(Output(sats, Lock(wallet)), [], id);
    assert [Output(sats, Lock(wallet))] + [] == [Output(sats, Lock(wallet))];
  }

  /** A transaction with one state: it is read back for its object exactly when its names are text. */
  lemma OneRead(o: Output, wallet: Keypair, change: nat, rec: FieldRecord, id: Bytes)
    requires ValidKey(wallet) && IsStateOf(rec, id)
    requires OutputRecord(o) == if TextMessage(rec.message) then Some(rec) else None
    ensures FirstState([o, Output(change, Lock(wallet))], id) == if TextMessage(rec.message) then Ok(rec) else Err(NoRecord)
  {
    hide OutputRecord, TextMessage;
    var fee := Output(change, Lock(wallet));
    NoState(wallet, change, id);
    assert [o, fee] == [o] + [fee];
    if TextMessage(rec.message) {
      FirstOutput(o, [fee], id, rec);
    } else {
      LaterOutput(o, [fee], id);
    }
  }

  /**
   A transaction with two states: the first is read back when it is text; the second when it is text and the first
   does not stand in its way, which takes the same id and another record.
   */
  lemma PairReads(a: Output, b: Output, rest: seq<Output>, recA: FieldRecord, recB: FieldRecord, idA: Bytes, idB: Bytes)
    requires OutputRecord(a) == (if TextMessage(recA.message) then Some(recA) else None) && IsStateOf(recA, idA)
    requires OutputRecord(b) == (if TextMessage(recB.message) then Some(recB) else None) && IsStateOf(recB, idB)
    ensures TextMessage(recA.message) ==> FirstState([a, b] + rest, idA) == Ok(recA)
    ensures TextMessage(recB.message) ==>
      (FirstState([a, b] + rest, idB) == Ok(recB) <==> idA != idB || !TextMessage(recA.message) || recA == recB)
  {
    hide OutputRecord, TextMessage;
    assert [a, b] + rest == [a] + ([b] + rest);
    if TextMessage(recA.message) {
      FirstOutput(a, [b] + rest, idA, recA);
    }
    if TextMessage(recB.message) && (idA != idB || !TextMessage(recA.message)) {
      LaterOutput(a, [b] + rest, idB);
      FirstOutput(b, rest, idB, recB);
    }
  }

  // ---------------------------------------------------------------- objects and their coins

  /** One object: its id, the hash of the key that controls it, its current output, and its records from genesis on. */
  datatype Held = Held(id: Bytes, pkh: Bytes, output: Output, recs: seq<FieldRecord>)

  ghost predicate HeldAt(node: Node, o: Outpoint, h: Held) {
    && o in node.utxos && node.utxos[o] == h.output && Names(h.output.script, h.pkh)
    && OnChain(node.txs, ReadState(h.id), o.txid, h.recs)
  }

  /** An object whose coin a transaction does not spend is as it was. */
  lemma HeldKept(node: Node, tx: Tx, o: Outpoint, h: Held)
    requires Ledger.Valid(node) && Accepts(node, tx) && HeldAt(node, o, h) && o !in Outpoints(tx.inputs)
    ensures HeldAt(Apply(node, tx), o, h)
  {
    hide Names, Outpoints;
    CoinsAfter(node, tx);
    OnChainExtends(node, Apply(node, tx), ReadState(h.id), o.txid, h.recs);
  }

  /** The state output of an accepted transaction continues the lineage its record names. */
  lemma HeldNext(node: Node, tx: Tx, vout: nat, h: Held, rec: FieldRecord)
    requires Ledger.Valid(node) && Accepts(node, tx) && vout < |tx.outputs|
    requires OnChain(node.txs, ReadState(h.id), rec.message.prevTxid, h.recs)
    requires FirstState(tx.outputs, h.id) == Ok(rec) && Names(tx.outputs[vout].script, h.pkh)
    ensures HeldAt(Apply(node, tx), Outpoint(node.txidOf(tx), vout), h.(output := tx.outputs[vout], recs := h.recs + [rec]))
  {
    hide FirstState, Names;
    var after, txid := Apply(node, tx), node.txidOf(tx);
    CoinsAfter(node, tx);
    OnChainExtends(node, after, ReadState(h.id), rec.message.prevTxid, h.recs);
    assert |txid| == 32;
    OnChainGrow(after.txs, ReadState(h.id), rec.message.prevTxid, h.recs, txid, rec);
  }

  lemma NothingYet(node: Node, id: Bytes)
    ensures OnChain(node.txs, ReadState(id), [], [])
  {
  }

  lemma TxOnChain(node: Node, tx: Tx)
    requires Ledger.Valid(node)
    ensures var txid := node.txidOf(tx); txid != [] && txid in Apply(node, tx).txs && Apply(node, tx).txs[txid] == tx
  {
    assert |node.txidOf(tx)| == 32;
  }

  /** What an engine has on the node: the fee coin, the objects by their current output, and the outputs it has spent. */
  datatype Till = Till(node: Node, coin: Coin, coins: map<Outpoint, Held>, spent: set<Outpoint>)

  ghost predicate Balances(wallet: Keypair, t: Till) {
    && ValidKey(wallet) && Ledger.Valid(t.node) && Spendable(t.node, wallet, t.coin)
    && (forall o <- t.coins :: HeldAt(t.node, o, t.coins[o]))
    && (forall o <- t.spent :: Gone(t.node, o))
  }

  /** The coins of an engine's objects, each known by the output that holds it. */
  function CoinsOf<T>(held: T -> Held, objects: map<Outpoint, T>): map<Outpoint, Held> {
    map o | o in objects :: held(objects[o])
  }

  lemma FeeCoinApart(wallet: Keypair, t: Till)
    requires Balances(wallet, t)
    ensures t.coin.outpoint !in t.coins
  {
    Envelope.P2pkhIsNoEnvelope(wallet.pkh);
  }

  /** An object's own coin can be spent by its key and by no other; a spent output can be spent by nobody. */
  lemma SpendAuthorised(wallet: Keypair, t: Till, state: Input)
    requires Balances(wallet, t)
    ensures (exists o <- t.coins :: o == state.outpoint && t.coins[o].output == state.spent && t.coins[o].pkh == state.signer) ==>
      Authorised(t.node.utxos, state) && state.outpoint != t.coin.outpoint
    ensures state.outpoint in t.spent ==> !Authorised(t.node.utxos, state)
    ensures state.outpoint in t.coins && t.coins[state.outpoint].pkh != state.signer ==> !Authorised(t.node.utxos, state)
  {
    hide OnChain;
    FeeCoinApart(wallet, t);
    if state.outpoint in t.coins {
      assert HeldAt(t.node, state.outpoint, t.coins[state.outpoint]);
    }
  }

  /** The till after a transaction: what it spends leaves, what it creates enters. */
  function Trade(t: Till, tx: Tx, coin: Coin, born: map<Outpoint, Held>): Till {
    Till(Apply(t.node, tx), coin, (t.coins - Outpoints(tx.inputs)) + born, t.spent + Outpoints(tx.inputs))
  }

  /** One accepted transaction keeps the till in balance, and all other objects as they were. */
  lemma TradeBalances(wallet: Keypair, t: Till, tx: Tx, coin: Coin, born: map<Outpoint, Held>)
    requires Balances(wallet, t) && Accepts(t.node, tx) && Spendable(Apply(t.node, tx), wallet, coin)
    requires forall o <- born :: o.txid == t.node.txidOf(tx) && HeldAt(Apply(t.node, tx), o, born[o])
    ensures Balances(wallet, Trade(t, tx, coin, born)) && born.Keys !! t.coins.Keys
  {
    hide HeldAt, Apply, Accepts, Outpoints, Spendable;
    var u := Trade(t, tx, coin, born);
    CoinsAfter(t.node, tx);
    forall o | o in u.coins ensures HeldAt(u.node, o, u.coins[o]) {
      if o !in born {
        HeldKept(t.node, tx, o, t.coins[o]);
      }
    }
    SpentGone(t.node, tx);
    forall o | o in t.coins ensures o !in born {
      HeldKnown(t.node, o, t.coins[o], tx);
    }
  }

  /** The same for the objects themselves, and whatever else is true of each of them. */
  lemma TradeKeeps<T(!new)>(
      wallet: Keypair, held: T -> Held, sound: (Outpoint, T) -> bool, t: Till, objects: map<Outpoint, T>,
      tx: Tx, coin: Coin, born: map<Outpoint, T>)
    requires Balances(wallet, t) && t.coins == CoinsOf(held, objects)
    requires Accepts(t.node, tx) && Spendable(Apply(t.node, tx), wallet, coin)
    requires forall o <- objects :: sound(o, objects[o])
    requires forall o <- born :: o.txid == t.node.txidOf(tx) && HeldAt(Apply(t.node, tx), o, held(born[o])) && sound(o, born[o])
    ensures var after := (objects - Outpoints(tx.inputs)) + born;
      && Balances(wallet, Till(Apply(t.node, tx), coin, CoinsOf(held, after), t.spent + Outpoints(tx.inputs)))
      && (forall o <- after :: sound(o, after[o])) && born.Keys !! objects.Keys
  {
    hide HeldAt, Apply, Accepts, Outpoints, Spendable, Balances;
    var gone := Outpoints(tx.inputs);
    TradeBalances(wallet, t, tx, coin, CoinsOf(held, born));
    assert CoinsOf(held, (objects - gone) + born) == (CoinsOf(held, objects) - gone) + CoinsOf(held, born);
    assert CoinsOf(held, born).Keys == born.Keys && t.coins.Keys == objects.Keys;
  }

  /** A balanced transaction neither makes nor loses a satoshi, and changes nothing on chain. */
  lemma TradeConserves(wallet: Keypair, t: Till, tx: Tx)
    requires Balances(wallet, t) && Accepts(t.node, tx) && Sum(Spent(tx.inputs)) == Sum(tx.outputs)
    ensures Total(Apply(t.node, tx).utxos) == Total(t.node.utxos) && Extends(t.node, Apply(t.node, tx))
  {
    hide HeldAt, Apply, Accepts, Total, Extends, Sum;
    TotalAfter(t.node, tx);
    CoinsAfter(t.node, tx);
  }

  lemma SpentGone(node: Node, tx: Tx)
    requires Ledger.Valid(node) && Accepts(node, tx)
    ensures forall o <- Outpoints(tx.inputs) :: Gone(Apply(node, tx), o)
  {
    hide Apply, Accepts;
    CoinsAfter(node, tx);
  }

  lemma HeldKnown(node: Node, o: Outpoint, h: Held, tx: Tx)
    requires Ledger.Valid(node) && HeldAt(node, o, h) && Accepts(node, tx)
    ensures o.txid != node.txidOf(tx)
  {
    hide OnChain, Names;
  }

  /** The fee coin that is left after each kind of transaction. */
  lemma CoinsLeft(node: Node, wallet: Keypair, tx: Tx, vout: nat, sats: nat)
    requires Ledger.Valid(node) && Accepts(node, tx) && sats < TWO_64
    requires vout < |tx.outputs| && tx.outputs[vout] == Output(sats, Lock(wallet))
    ensures Spendable(Apply(node, tx), wallet, Coin(Outpoint(node.txidOf(tx), vout), sats))
  {
    hide Apply, Accepts;
    CoinsAfter(node, tx);
  }

  /** sendrawtransaction: the node takes the transaction or stays as it is. */
  method Broadcast(node: Node, tx: Tx) returns (after: Node, r: Result<Txid, Error>)
    ensures r.Ok? <==> Accepts(node, tx)
    ensures r.Ok? ==> r.value == node.txidOf(tx) && after == Apply(node, tx)
    ensures r.Err? ==> after == node
  {
    var sent := Send(node, tx);
    after := sent.0;
    r := if sent.1.Ok? then Ok(sent.1.value) else Err(Error.Rejected);
  }
}
