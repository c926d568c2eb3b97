/**
 Hash-linked lineages: each transaction carries a record that names the transaction before it.  All the
 verifiers walk such a lineage from its head back to genesis.
 */
module Lineage {
  import opened Wrappers
  import opened ByteStrings
  import opened Format
  import opened Ledger
  import Envelope

  datatype WalkError = UnknownTx | NoRecord | BadRecord | Diverges

  /** How a verifier reads the record of a transaction. */
  type Read = Tx -> Result<FieldRecord, WalkError>

  // ---------------------------------------------------------------- reading a transaction

  /** The payload of the first output that is an envelope. */
  function FirstEnvelope(outputs: seq<Output>): Option<Bytes> {
    if outputs == [] then None
    else match Envelope.ExtractEnvelopeData(outputs[0].script)
      case Ok(data) => Some(data)
      case Err(_) => FirstEnvelope(outputs[1..])
  }

  /** The writer's verifiers take the first envelope, whatever it holds. */
  function ReadFirst(tx: Tx): Result<FieldRecord, WalkError> {
    match FirstEnvelope(tx.outputs)
    case None => Err(NoRecord)
    case Some(data) =>
      match ParseRecord(data)
      case None => Err(BadRecord)
      case Some(rec) => Ok(rec)
  }

  /** "state". */
  const STATE: Bytes := [0x73, 0x74, 0x61, 0x74, 0x65]

  predicate IsStateOf(rec: FieldRecord, id: Bytes) {
    rec.message.columnId == STATE && rec.message.rowId == id
  }

  /** The record of an output, if it carries one. */
  function OutputRecord(o: Output): Option<FieldRecord> {
    match Envelope.ExtractEnvelopeData(o.script)
    case Ok(data) => ParseRecord(data)
    case Err(_) => None
  }

  /** The token and document verifiers take the first state record of the object they follow. */
  function FirstState(outputs: seq<Output>, id: Bytes): Result<FieldRecord, WalkError> {
    if outputs == [] then Err(NoRecord)
    else match OutputRecord(outputs[0])
      case Some(rec) => if IsStateOf(rec, id) then Ok(rec) else FirstState(outputs[1..], id)
      case None => FirstState(outputs[1..], id)
  }

  function ReadState(id: Bytes): Read {
    (tx: Tx) => FirstState(tx.outputs, id)
  }

  /** An envelope output carries its record. */
  lemma EnvelopeCarries(rec: FieldRecord, pkh: Bytes, sats: nat)
    requires WellFormedRecord(rec) && Fits(RecordBytes(rec)) && |pkh| == 20
    ensures var o := Output(sats, Envelope.IfEnvelope(RecordBytes(rec), pkh));
      && Envelope.ExtractEnvelopeData(o.script) == Ok(RecordBytes(rec))
      && OutputRecord(o) == Some(rec)
      && Envelope.EnvelopePubKeyHash(o.script) == Ok(pkh)
      && Envelope.NativeSpendable(o.script)
  {
    Envelope.IfEnvelopeRoundTrip(RecordBytes(rec), pkh);
    RecordRoundTrip(rec);
  }

  // ---------------------------------------------------------------- lineages

  /** recs, from genesis on, is the lineage that ends at head; the empty head is the empty lineage. */
  ghost predicate OnChain(txs: map<Txid, Tx>, read: Read, head: Txid, recs: seq<FieldRecord>)
    decreases |recs|
  {
    if recs == [] then head == []
    else
      var n := |recs| - 1;
      && head != [] && head in txs && read(txs[head]) == Ok(recs[n])
      && OnChain(txs, read, recs[n].message.prevTxid, recs[..n])
  }

  lemma {:induction false} OnChainUnique(txs: map<Txid, Tx>, read: Read, head: Txid, a: seq<FieldRecord>, b: seq<FieldRecord>)
    requires OnChain(txs, read, head, a) && OnChain(txs, read, head, b)
    ensures a == b
    decreases |a|
  {
    if a != [] && b != [] {
      var m, n := |a| - 1, |b| - 1;
      OnChainUnique(txs, read, a[m].message.prevTxid, a[..m], b[..n]);
      assert a == a[..m] + [a[m]] && b == b[..n] + [b[n]];
    }
  }

  /** Appending transactions leaves every lineage in place. */
  lemma {:induction false} OnChainExtends(before: Node, after: Node, read: Read, head: Txid, recs: seq<FieldRecord>)
    requires Extends(before, after) && OnChain(before.txs, read, head, recs)
    ensures OnChain(after.txs, read, head, recs)
    decreases |recs|
  {
    if recs != [] {
      var n := |recs| - 1;
      OnChainExtends(before, after, read, recs[n].message.prevTxid, recs[..n]);
    }
  }

  lemma OnChainGrow(txs: map<Txid, Tx>, read: Read, prev: Txid, recs: seq<FieldRecord>, head: Txid, rec: FieldRecord)
    requires OnChain(txs, read, prev, recs) && rec.message.prevTxid == prev
    requires head != [] && head in txs && read(txs[head]) == Ok(rec)
    ensures OnChain(txs, read, head, recs + [rec])
  {
    assert (recs + [rec])[..|recs|] == recs;
  }

  // ---------------------------------------------------------------- the forward replay

  /** How a verifier applies one record to what it has rebuilt so far. */
  /** The walk of a stream reads the record in the first output that carries anything. */
  lemma {:induction false} FirstEnvelopeIff(outputs: seq<Output>, data: Bytes)
    ensures FirstEnvelope(outputs) == Some(data) <==> exists i ::
      && 0 <= i < |outputs| && Envelope.ExtractEnvelopeData(outputs[i].script) == Ok(data)
      && forall j :: 0 <= j < i ==> Envelope.ExtractEnvelopeData(outputs[j].script).Err?
  {
    hide Envelope.ExtractEnvelopeData;
    if outputs != [] {
      var rest := outputs[1..];
      FirstEnvelopeIff(rest, data);
      if Envelope.ExtractEnvelopeData(outputs[0].script).Err? {
        if FirstEnvelope(rest) == Some(data) {
          var i :| && 0 <= i < |rest| && Envelope.ExtractEnvelopeData(rest[i].script) == Ok(data)
                   && forall j :: 0 <= j < i ==> Envelope.ExtractEnvelopeData(rest[j].script).Err?;
          forall j | 0 <= j < i + 1 ensures Envelope.ExtractEnvelopeData(outputs[j].script).Err? {
            assert j > 0 ==> outputs[j] == rest[j - 1];
          }
          assert outputs[i + 1] == rest[i];
        }
        if i :| && 0 <= i < |outputs| && Envelope.ExtractEnvelopeData(outputs[i].script) == Ok(data)
                && forall j :: 0 <= j < i ==> Envelope.ExtractEnvelopeData(outputs[j].script).Err? {
          assert rest[i - 1] == outputs[i] && forall j :: 0 <= j < i - 1 ==> rest[j] == outputs[j + 1];
        }
      }
    }
  }

  lemma ReadFirstIff(tx: Tx, rec: FieldRecord)
    ensures ReadFirst(tx) == Ok(rec) <==> exists i ::
      && 0 <= i < |tx.outputs| && Envelope.ExtractEnvelopeData(tx.outputs[i].script).Ok?
      && ParseRecord(Envelope.ExtractEnvelopeData(tx.outputs[i].script).value) == Some(rec)
      && forall j :: 0 <= j < i ==> Envelope.ExtractEnvelopeData(tx.outputs[j].script).Err?
  {
    hide Envelope.ExtractEnvelopeData, ParseRecord, FirstEnvelope;
    if ReadFirst(tx) == Ok(rec) {
      FirstEnvelopeIff(tx.outputs, FirstEnvelope(tx.outputs).value);
    }
    if i :| && 0 <= i < |tx.outputs| && Envelope.ExtractEnvelopeData(tx.outputs[i].script).Ok?
            && ParseRecord(Envelope.ExtractEnvelopeData(tx.outputs[i].script).value) == Some(rec)
            && forall j :: 0 <= j < i ==> Envelope.ExtractEnvelopeData(tx.outputs[j].script).Err? {
      FirstEnvelopeIff(tx.outputs, Envelope.ExtractEnvelopeData(tx.outputs[i].script).value);
    }
  }

  /** Output o carries a record of column "state" and row id. */
  lemma StateOutputIff(o: Output, id: Bytes, rec: FieldRecord)
    ensures OutputRecord(o) == Some(rec) && IsStateOf(rec, id) <==>
      && Envelope.ExtractEnvelopeData(o.script).Ok? && ParseRecord(Envelope.ExtractEnvelopeData(o.script).value) == Some(rec)
      && rec.message.columnId == [0x73, 0x74, 0x61, 0x74, 0x65] && rec.message.rowId == id
  {
    hide Envelope.ExtractEnvelopeData, ParseRecord;
  }

  /** The engines' walk reads the first output with a record of the object's state, past all others. */
  lemma {:induction false} FirstStateIff(outputs: seq<Output>, id: Bytes, rec: FieldRecord)
    ensures FirstState(outputs, id) == Ok(rec) <==> exists i ::
      && 0 <= i < |outputs| && OutputRecord(outputs[i]) == Some(rec) && IsStateOf(rec, id)
      && forall j :: 0 <= j < i ==> OutputRecord(outputs[j]) == None || !IsStateOf(OutputRecord(outputs[j]).value, id)
  {
    hide OutputRecord, IsStateOf;
    if outputs != [] {
      var rest := outputs[1..];
      FirstStateIff(rest, id, rec);
      if OutputRecord(outputs[0]) == None || !IsStateOf(OutputRecord(outputs[0]).value, id) {
        if FirstState(rest, id) == Ok(rec) {
          var i :| && 0 <= i < |rest| && OutputRecord(rest[i]) == Some(rec) && IsStateOf(rec, id)
                   && forall j :: 0 <= j < i ==> OutputRecord(rest[j]) == None || !IsStateOf(OutputRecord(rest[j]).value, id);
          forall j | 0 <= j < i + 1 ensures OutputRecord(outputs[j]) == None || !IsStateOf(OutputRecord(outputs[j]).value, id) {
            assert j > 0 ==> outputs[j] == rest[j - 1];
          }
          assert outputs[i + 1] == rest[i];
        }
        if i :| && 0 <= i < |outputs| && OutputRecord(outputs[i]) == Some(rec) && IsStateOf(rec, id)
                && forall j :: 0 <= j < i ==> OutputRecord(outputs[j]) == None || !IsStateOf(OutputRecord(outputs[j]).value, id) {
          assert rest[i - 1] == outputs[i] && forall j :: 0 <= j < i - 1 ==> rest[j] == outputs[j + 1];
        }
      }
    }
  }

  /** The transaction that carries record i of a lineage that ends at head: the one the next record links to. */
  function CarrierOf(head: Txid, recs: seq<FieldRecord>, i: nat): Txid
    requires i < |recs|
  {
    if i == |recs| - 1 then head else recs[i + 1].message.prevTxid
  }

  /** A lineage, without recursion: the first record links to nothing, and each is read from the one linked to. */
  lemma {:induction false} OnChainIff(txs: map<Txid, Tx>, read: Read, head: Txid, recs: seq<FieldRecord>)
    requires recs != []
    ensures OnChain(txs, read, head, recs) <==>
      && recs[0].message.prevTxid == []
      && forall i :: 0 <= i < |recs| ==>
           var t := CarrierOf(head, recs, i); t != [] && t in txs && read(txs[t]) == Ok(recs[i])
    decreases |recs|
  {
    var n := |recs| - 1;
    if n == 0 {
      assert CarrierOf(head, recs, 0) == head;
    } else {
      var front, link := recs[..n], recs[n].message.prevTxid;
      OnChainIff(txs, read, link, front);
      assert forall i :: 0 <= i < n ==> CarrierOf(link, front, i) == CarrierOf(head, recs, i);
      assert CarrierOf(head, recs, n) == head;
    }
  }

  type Step<!S, !E> = (S, FieldRecord) -> Result<S, E>

  /** The second loop of every verifier, from genesis to head; the first failure ends it. */
  function Fold<S, E>(step: Step<S, E>, init: S, recs: seq<FieldRecord>): Result<S, E> {
    if recs == [] then Ok(init)
    else
      var state :- Fold(step, init, recs[..|recs| - 1]);
      step(state, recs[|recs| - 1])
  }

  lemma FoldNone<S, E>(step: Step<S, E>, init: S, recs: seq<FieldRecord>)
    ensures Fold(step, init, recs[..0]) == Ok(init)
  {
  }

  lemma FoldNext<S, E>(step: Step<S, E>, init: S, recs: seq<FieldRecord>, k: nat)
    requires k < |recs| && Fold(step, init, recs[..k]).Ok?
    ensures Fold(step, init, recs[..k + 1]) == step(Fold(step, init, recs[..k]).value, recs[k])
  {
    assert recs[..k + 1][..k] == recs[..k];
  }

  lemma {:induction false} FoldFails<S, E>(step: Step<S, E>, init: S, recs: seq<FieldRecord>, k: nat)
    requires k <= |recs| && Fold(step, init, recs[..k]).Err?
    ensures Fold(step, init, recs) == Fold(step, init, recs[..k])
    decreases |recs|
  {
    if k < |recs| {
      var n := |recs| - 1;
      assert recs[..n][..k] == recs[..k];
      FoldFails(step, init, recs[..n], k);
    } else {
      assert recs[..k] == recs;
    }
  }

  /** In a fold that succeeds, the last step does. */
  lemma FoldLast<S, E>(step: Step<S, E>, init: S, recs: seq<FieldRecord>) returns (before: S)
    requires recs != [] && Fold(step, init, recs).Ok?
    ensures step(before, recs[|recs| - 1]).Ok?
  {
    before := Fold(step, init, recs[..|recs| - 1]).value;
  }

  /** A fold whose steps succeed on good records only, whatever the state, succeeds exactly on good records. */
  lemma {:induction false} FoldOkIff<S(!new), E(!new)>(step: Step<S, E>, good: FieldRecord -> bool, init: S, recs: seq<FieldRecord>)
    requires forall s, r :: step(s, r).Ok? <==> good(r)
    ensures Fold(step, init, recs).Ok? <==> forall r <- recs :: good(r)
  {
    if recs != [] {
      var n := |recs| - 1;
      FoldOkIff(step, good, init, recs[..n]);
      assert recs == recs[..n] + [recs[n]];
    }
  }

  // ---------------------------------------------------------------- the backward walk

  function Reverse<T>(s: seq<T>): (r: seq<T>)
    ensures |r| == |s|
    ensures forall i :: 0 <= i < |s| ==> r[i] == s[|s| - 1 - i]
  {
    seq(|s|, i requires 0 <= i < |s| => s[|s| - 1 - i])
  }

  /** Every lineage of from continues, strictly shorter, to the lineage of to. */
  ghost predicate LeadsTo(txs: map<Txid, Tx>, read: Read, from: Txid, to: Txid) {
    forall recs :: OnChain(txs, read, from, recs) ==>
      exists k :: 0 <= k < |recs| && OnChain(txs, read, to, recs[..k])
  }

  lemma LeadsToSelf(txs: map<Txid, Tx>, read: Read, head: Txid)
    requires LeadsTo(txs, read, head, head)
    ensures forall recs :: !OnChain(txs, read, head, recs)
  {
    forall recs: seq<FieldRecord> | OnChain(txs, read, head, recs) ensures false {
      var k :| 0 <= k < |recs| && OnChain(txs, read, head, recs[..k]);
      OnChainUnique(txs, read, head, recs, recs[..k]);
    }
  }

  lemma LeadsToNext(txs: map<Txid, Tx>, read: Read, from: Txid, to: Txid)
    requires LeadsTo(txs, read, from, to) && to != [] && to in txs && read(txs[to]).Ok?
    ensures LeadsTo(txs, read, from, read(txs[to]).value.message.prevTxid)
  {
    var next := read(txs[to]).value.message.prevTxid;
    forall recs: seq<FieldRecord> | OnChain(txs, read, from, recs)
      ensures exists k :: 0 <= k < |recs| && OnChain(txs, read, next, recs[..k])
    {
      hide OnChain;
      var k :| 0 <= k < |recs| && OnChain(txs, read, to, recs[..k]);
      ShorterLineage(txs, read, to, recs, k);
    }
  }

  lemma StepLeadsTo(txs: map<Txid, Tx>, read: Read, head: Txid)
    requires head != [] && head in txs && read(txs[head]).Ok?
    ensures LeadsTo(txs, read, head, read(txs[head]).value.message.prevTxid)
  {
    forall recs: seq<FieldRecord> | OnChain(txs, read, head, recs)
      ensures exists k :: 0 <= k < |recs| && OnChain(txs, read, read(txs[head]).value.message.prevTxid, recs[..k])
    {
      assert OnChain(txs, read, recs[|recs| - 1].message.prevTxid, recs[..|recs| - 1]);
    }
  }

  /** A lineage of head is one of txid followed by what the walk has read. */
  ghost predicate Walked(txs: map<Txid, Tx>, read: Read, head: Txid, txid: Txid, rev: seq<FieldRecord>) {
    && (forall recs :: OnChain(txs, read, txid, recs) ==> OnChain(txs, read, head, recs + Reverse(rev)))
    && (forall recs :: OnChain(txs, read, head, recs) ==>
         exists k :: 0 <= k <= |recs| && OnChain(txs, read, txid, recs[..k]))
  }

  lemma WalkStart(txs: map<Txid, Tx>, read: Read, head: Txid)
    ensures Walked(txs, read, head, head, [])
  {
    forall recs: seq<FieldRecord> | OnChain(txs, read, head, recs)
      ensures OnChain(txs, read, head, recs + Reverse<FieldRecord>([]))
      ensures exists k :: 0 <= k <= |recs| && OnChain(txs, read, head, recs[..k])
    {
      assert recs + Reverse<FieldRecord>([]) == recs;
      assert recs[..|recs|] == recs;
    }
  }

  lemma WalkStep(txs: map<Txid, Tx>, read: Read, head: Txid, txid: Txid, rev: seq<FieldRecord>)
    requires Walked(txs, read, head, txid, rev) && txid != [] && txid in txs && read(txs[txid]).Ok?
    ensures var rec := read(txs[txid]).value;
      Walked(txs, read, head, rec.message.prevTxid, rev + [rec])
  {
    var rec := read(txs[txid]).value;
    var next := rec.message.prevTxid;
    forall recs: seq<FieldRecord> | OnChain(txs, read, next, recs) ensures OnChain(txs, read, head, recs + Reverse(rev + [rec])) {
      hide OnChain;
      OnChainGrow(txs, read, next, recs, txid, rec);
      ReverseNext(recs, rev, rec);
      assert OnChain(txs, read, head, (recs + [rec]) + Reverse(rev));
    }
    forall recs: seq<FieldRecord> | OnChain(txs, read, head, recs)
      ensures exists k :: 0 <= k <= |recs| && OnChain(txs, read, next, recs[..k])
    {
      hide OnChain;
      var k :| 0 <= k <= |recs| && OnChain(txs, read, txid, recs[..k]);
      ShorterLineage(txs, read, txid, recs, k);
    }
  }

  lemma ReverseNext(recs: seq<FieldRecord>, rev: seq<FieldRecord>, rec: FieldRecord)
    ensures recs + Reverse(rev + [rec]) == (recs + [rec]) + Reverse(rev)
  {
    assert Reverse(rev + [rec]) == [rec] + Reverse(rev);
  }

  lemma ShorterLineage(txs: map<Txid, Tx>, read: Read, txid: Txid, recs: seq<FieldRecord>, k: nat)
    requires k <= |recs| && OnChain(txs, read, txid, recs[..k]) && txid != []
    ensures k > 0 && txid in txs && read(txs[txid]) == Ok(recs[k - 1])
    ensures OnChain(txs, read, recs[k - 1].message.prevTxid, recs[..k - 1])
  {
    assert k > 0 ==> recs[..k][..k - 1] == recs[..k - 1];
  }

  /** The walk's invariant: what it has read, and that no transaction it has met comes round again. */
  ghost predicate Walking(txs: map<Txid, Tx>, read: Read, head: Txid, txid: Txid, rev: seq<FieldRecord>, visited: set<Txid>) {
    && visited <= txs.Keys
    && Walked(txs, read, head, txid, rev)
    && forall t <- visited :: LeadsTo(txs, read, t, txid)
  }

  lemma WalkOn(txs: map<Txid, Tx>, read: Read, head: Txid, txid: Txid, rev: seq<FieldRecord>, visited: set<Txid>)
    requires Walking(txs, read, head, txid, rev, visited)
    requires txid != [] && txid in txs && txid !in visited && read(txs[txid]).Ok?
    ensures var rec := read(txs[txid]).value;
      Walking(txs, read, head, rec.message.prevTxid, rev + [rec], visited + {txid})
    ensures |txs.Keys - (visited + {txid})| < |txs.Keys - visited|
  {
    var rec := read(txs[txid]).value;
    WalkStep(txs, read, head, txid, rev);
    StepLeadsTo(txs, read, txid);
    forall t | t in visited ensures LeadsTo(txs, read, t, rec.message.prevTxid) {
      LeadsToNext(txs, read, t, txid);
    }
    Smaller(txs.Keys, visited, txid);
  }

  /** Where the walk cannot go on, head has no lineage. */
  lemma WalkFails(txs: map<Txid, Tx>, read: Read, head: Txid, txid: Txid, rev: seq<FieldRecord>, visited: set<Txid>)
    requires Walking(txs, read, head, txid, rev, visited) && txid != []
    requires txid in visited || txid !in txs || read(txs[txid]).Err?
    ensures forall recs :: !OnChain(txs, read, head, recs)
  {
    if txid in visited {
      LeadsToSelf(txs, read, txid);
    }
  }

  /**
   The first loop of every verifier.  A transaction met twice means the walk repeats for ever; that is the
   outcome Diverges.  The walk succeeds exactly when head has a lineage, and then returns it backwards.
   */
  method WalkBack(txs: map<Txid, Tx>, read: Read, head: Txid) returns (r: Result<seq<FieldRecord>, WalkError>)
    ensures r.Ok? ==> OnChain(txs, read, head, Reverse(r.value))
    ensures r.Err? ==> forall recs :: !OnChain(txs, read, head, recs)
  {
    var rev: seq<FieldRecord> := [];
    var txid := head;
    var visited: set<Txid> := {};
    WalkStart(txs, read, head);
    while txid != []
      invariant Walking(txs, read, head, txid, rev, visited)
      decreases |txs.Keys - visited|
    {
      if txid in visited {
        WalkFails(txs, read, head, txid, rev, visited);
        return Err(Diverges);
      }
      if txid !in txs {
        WalkFails(txs, read, head, txid, rev, visited);
        return Err(UnknownTx);
      }
      var rec := read(txs[txid]);
      if rec.Err? {
        WalkFails(txs, read, head, txid, rev, visited);
        return Err(rec.error);
      }
      WalkOn(txs, read, head, txid, rev, visited);
      rev := rev + [rec.value];
      visited := visited + {txid};
      txid := rec.value.message.prevTxid;
    }
    assert OnChain(txs, read, [], []);
    assert [] + Reverse(rev) == Reverse(rev);
    return Ok(rev);
  }

  lemma Smaller<T>(all: set<T>, some: set<T>, x: T)
    requires x in all && x !in some
    ensures |all - (some + {x})| < |all - some|
  {
    assert all - some == (all - (some + {x})) + {x};
  }
}
