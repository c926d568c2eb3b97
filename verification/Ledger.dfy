/**
 The node: an append-only map of transactions and the set of unspent outputs.  It accepts a transaction
 whose inputs are distinct, unspent, correctly described and signed by the key their script names, and
 whose outputs are covered by its inputs.
 */
module Ledger {
  import opened Wrappers
  import opened ByteStrings
  import Envelope

  type Txid = Bytes

  datatype Outpoint = Outpoint(txid: Txid, vout: nat)

  datatype Output = Output(sats: nat, script: Bytes)

  /** An input states the script and value it spends, which its signature covers, and who signed. */
  datatype Input = Input(outpoint: Outpoint, spent: Output, signer: Bytes)

  datatype Tx = Tx(inputs: seq<Input>, outputs: seq<Output>)

  datatype Node = Node(txs: map<Txid, Tx>, utxos: map<Outpoint, Output>, txidOf: Tx -> Txid)

  datatype Error = Rejected

  /** Transaction ids have 32 octets, and every unspent output is one of a known transaction. */
  ghost predicate Valid(node: Node) {
    && (forall tx :: |node.txidOf(tx)| == 32)
    && forall o <- node.utxos ::
         o.txid in node.txs && o.vout < |node.txs[o.txid].outputs|
         && node.utxos[o] == node.txs[o.txid].outputs[o.vout]
  }

  function Sum(outs: seq<Output>): nat {
    if outs == [] then 0 else outs[0].sats + Sum(outs[1..])
  }

  function Spent(inputs: seq<Input>): (r: seq<Output>)
    ensures |r| == |inputs| && forall i :: 0 <= i < |inputs| ==> r[i] == inputs[i].spent
  {
    seq(|inputs|, i requires 0 <= i < |inputs| => inputs[i].spent)
  }

  predicate Distinct(inputs: seq<Input>) {
    forall i, j :: 0 <= i < j < |inputs| ==> inputs[i].outpoint != inputs[j].outpoint
  }

  predicate Authorised(utxos: map<Outpoint, Output>, input: Input) {
    && input.outpoint in utxos && utxos[input.outpoint] == input.spent
    && Envelope.EnvelopePubKeyHash(input.spent.script) == Ok(input.signer)
  }

  predicate Accepts(node: Node, tx: Tx) {
    && node.txidOf(tx) !in node.txs
    && tx.inputs != [] && Distinct(tx.inputs)
    && (forall i :: 0 <= i < |tx.inputs| ==> Authorised(node.utxos, tx.inputs[i]))
    && Sum(Spent(tx.inputs)) >= Sum(tx.outputs)
  }

  /** What acceptance guarantees: every input is an unspent output, once, as described, signed by the key its script names. */
  lemma AcceptedMeans(node: Node, tx: Tx, i: nat)
    requires Accepts(node, tx) && i < |tx.inputs|
    ensures var input := tx.inputs[i];
      && input.outpoint in node.utxos && node.utxos[input.outpoint] == input.spent
      && Envelope.EnvelopePubKeyHash(node.utxos[input.outpoint].script) == Ok(input.signer)
      && forall j :: 0 <= j < |tx.inputs| && j != i ==> tx.inputs[j].outpoint != input.outpoint
    ensures Sum(tx.outputs) <= Sum(Spent(tx.inputs)) && node.txidOf(tx) !in node.txs
  {
    hide Envelope.EnvelopePubKeyHash, Sum;
    assert Authorised(node.utxos, tx.inputs[i]);
  }

  function Outpoints(inputs: seq<Input>): set<Outpoint> {
    set i | 0 <= i < |inputs| :: inputs[i].outpoint
  }

  /** utxos with the outputs of transaction id. */
  function Create(utxos: map<Outpoint, Output>, id: Txid, outputs: seq<Output>): (r: map<Outpoint, Output>)
    ensures forall o :: o in r <==> o in utxos || (o.txid == id && o.vout < |outputs|)
    ensures forall o <- r :: r[o] == if o.txid == id && o.vout < |outputs| then outputs[o.vout] else utxos[o]
  {
    if outputs == [] then utxos
    else
      var n := |outputs| - 1;
      Create(utxos, id, outputs[..n])[Outpoint(id, n) := outputs[n]]
  }

  function Apply(node: Node, tx: Tx): Node {
    var id := node.txidOf(tx);
    node.(txs := node.txs[id := tx], utxos := Create(node.utxos - Outpoints(tx.inputs), id, tx.outputs))
  }

  /** sendrawtransaction. */
  function Send(node: Node, tx: Tx): (r: (Node, Result<Txid, Error>)) {
    if Accepts(node, tx) then (Apply(node, tx), Ok(node.txidOf(tx))) else (node, Err(Rejected))
  }

  lemma SendValid(node: Node, tx: Tx)
    requires Valid(node) && Accepts(node, tx)
    ensures Valid(Apply(node, tx))
  {
  }

  /** Nothing that was on chain is changed by a later transaction. */
  ghost predicate Extends(before: Node, after: Node) {
    && before.txidOf == after.txidOf
    && forall id <- before.txs :: id in after.txs && after.txs[id] == before.txs[id]
  }

  // ---------------------------------------------------------------- satoshis

  /** The value of all unspent outputs. */
  ghost function Total(utxos: map<Outpoint, Output>): nat {
    if utxos == map[] then 0
    else
      var o :| o in utxos;
      utxos[o].sats + Total(utxos - {o})
  }

  lemma {:induction false} TotalWithout(utxos: map<Outpoint, Output>, o: Outpoint)
    requires o in utxos
    ensures Total(utxos) == utxos[o].sats + Total(utxos - {o})
    decreases |utxos|
  {
    var p :| p in utxos && Total(utxos) == utxos[p].sats + Total(utxos - {p});
    if p != o {
      TotalWithout(utxos - {p}, o);
      TotalWithout(utxos - {o}, p);
      assert utxos - {p} - {o} == utxos - {o} - {p};
    }
  }

  lemma TotalWith(utxos: map<Outpoint, Output>, o: Outpoint, v: Output)
    requires o !in utxos
    ensures Total(utxos[o := v]) == Total(utxos) + v.sats
  {
    TotalWithout(utxos[o := v], o);
    assert utxos[o := v] - {o} == utxos;
  }

  lemma {:induction false} TotalSpent(utxos: map<Outpoint, Output>, inputs: seq<Input>)
    requires Distinct(inputs) && forall i :: 0 <= i < |inputs| ==>
      inputs[i].outpoint in utxos && utxos[inputs[i].outpoint] == inputs[i].spent
    ensures Total(utxos - Outpoints(inputs)) + Sum(Spent(inputs)) == Total(utxos)
  {
    if inputs == [] {
      assert utxos - Outpoints(inputs) == utxos;
    } else {
      var o := inputs[0].outpoint;
      TotalWithout(utxos, o);
      TotalSpent(utxos - {o}, inputs[1..]);
      assert Spent(inputs)[1..] == Spent(inputs[1..]);
      assert Outpoints(inputs) == {o} + Outpoints(inputs[1..]) by {
        forall p | p in Outpoints(inputs) ensures p == o || p in Outpoints(inputs[1..]) {
          var i :| 0 <= i < |inputs| && p == inputs[i].outpoint;
          if i > 0 {
            assert p == inputs[1..][i - 1].outpoint;
          }
        }
        forall p | p in Outpoints(inputs[1..]) ensures p in Outpoints(inputs) {
          var i :| 0 <= i < |inputs[1..]| && p == inputs[1..][i].outpoint;
          assert p == inputs[i + 1].outpoint;
        }
      }
      assert utxos - {o} - Outpoints(inputs[1..]) == utxos - Outpoints(inputs);
    }
  }

  lemma {:induction false} SumAppend(outs: seq<Output>, o: Output)
    ensures Sum(outs + [o]) == Sum(outs) + o.sats
  {
    if outs == [] {
      assert (outs + [o])[1..] == [];
    } else {
      SumAppend(outs[1..], o);
      assert (outs + [o])[1..] == outs[1..] + [o];
    }
  }

  lemma {:induction false} TotalCreate(utxos: map<Outpoint, Output>, id: Txid, outputs: seq<Output>)
    requires forall o <- utxos :: o.txid != id
    ensures Total(Create(utxos, id, outputs)) == Total(utxos) + Sum(outputs)
  {
    hide Total;
    if outputs != [] {
      var n := |outputs| - 1;
      TotalCreate(utxos, id, outputs[..n]);
      TotalWith(Create(utxos, id, outputs[..n]), Outpoint(id, n), outputs[n]);
      SumAppend(outputs[..n], outputs[n]);
      assert outputs == outputs[..n] + [outputs[n]];
    }
  }

  /** An accepted transaction takes its fee, and nothing else, from the unspent total. */
  lemma TotalAfter(node: Node, tx: Tx)
    requires Valid(node) && Accepts(node, tx)
    ensures Total(Apply(node, tx).utxos) + (Sum(Spent(tx.inputs)) - Sum(tx.outputs)) == Total(node.utxos)
  {
    TotalSpent(node.utxos, tx.inputs);
    TotalCreate(node.utxos - Outpoints(tx.inputs), node.txidOf(tx), tx.outputs);
  }
}
