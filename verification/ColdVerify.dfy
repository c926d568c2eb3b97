/** The cold verifiers of the writer, and the comparison of what they rebuild with the live database. */
module ColdVerify {
  import opened Wrappers
  import opened ByteStrings
  import opened Format
  import opened Capture
  import opened Ledger
  import opened Lineage
  import opened Keystone
  import opened TeWriter
  import GoCodec

  // ---------------------------------------------------------------- replaying records

  /** plaintextValue: the image is one length-prefixed value and nothing else. */
  function PlaintextValue(image: Bytes): Option<Bytes> {
    match TakePrefixed(image)
    case Some((v, rest)) => if rest == [] then Some(v) else None
    case None => None
  }

  method ReadPlaintext(image: Bytes) returns (v: Option<Bytes>)
    ensures v == PlaintextValue(image)
  {
    var rd := new GoCodec.Reader(image);
    var b := rd.Octets();
    var e := rd.End();
    return if e == None then Some(b) else None;
  }

  /** One verified record applied to the state. */
  function Absorb(tagger: Tagger, rel: Relationship, state: State, rec: FieldRecord): Result<State, TeWriter.Error> {
    match CheckTag(tagger, rel.writerPriv, rel.counterpartyPub, rec)
    case Some(e) => Err(Crypto(e))
    case None =>
      match PlaintextValue(rec.changeImage)
      case None => Err(BadImage)
      case Some(v) =>
        var k := CellKey(rec.message.tableId, rec.message.rowId, rec.message.columnId);
        Ok(if rec.message.op == OP_DELETE then state - {k} else state[k := v])
  }

  function Absorbing(tagger: Tagger, rel: Relationship): Step<State, TeWriter.Error> {
    (state: State, rec: FieldRecord) => Absorb(tagger, rel, state, rec)
  }

  function Rebuilt(tagger: Tagger, rel: Relationship, recs: seq<FieldRecord>): Result<State, TeWriter.Error> {
    Fold(Absorbing(tagger, rel), map[], recs)
  }

  /** An image is readable exactly when it is the length of a value and the value. */
  lemma PlaintextIff(image: Bytes, v: Bytes)
    ensures PlaintextValue(image) == Some(v) <==> |v| < TWO_32 && image == BigEndian(|v|, 4) + v
  {
    if |v| < TWO_32 && image == BigEndian(|v|, 4) + v {
      TakeLastPrefixed(v);
    }
    if PlaintextValue(image) == Some(v) {
      TakePrefixedInverse(image);
    }
  }

  /** The state after one record that verifies. */
  lemma AbsorbIff(tagger: Tagger, rel: Relationship, state: State, rec: FieldRecord)
    ensures Absorb(tagger, rel, state, rec).Ok? <==>
      && tagger(rel.writerPriv, rel.counterpartyPub, rec.message, rec.changeImage) == Ok(rec.tag)
      && exists v :: |v| < TWO_32 && rec.changeImage == BigEndian(|v|, 4) + v
  {
    hide PlaintextValue, BigEndian, CellKey;
    if PlaintextValue(rec.changeImage).Some? {
      PlaintextIff(rec.changeImage, PlaintextValue(rec.changeImage).value);
    }
    if v :| |v| < TWO_32 && rec.changeImage == BigEndian(|v|, 4) + v {
      PlaintextIff(rec.changeImage, v);
    }
  }

  /** A rebuild succeeds exactly when every tag verifies and every image is one value. */
  lemma RebuiltIff(tagger: Tagger, rel: Relationship, recs: seq<FieldRecord>)
    ensures Rebuilt(tagger, rel, recs).Ok? <==> forall rec <- recs ::
      && tagger(rel.writerPriv, rel.counterpartyPub, rec.message, rec.changeImage) == Ok(rec.tag)
      && exists v :: |v| < TWO_32 && rec.changeImage == BigEndian(|v|, 4) + v
  {
    hide Absorb, BigEndian;
    var good := (rec: FieldRecord) => Absorb(tagger, rel, map[], rec).Ok?;
    forall s, r ensures Absorbing(tagger, rel)(s, r).Ok? <==> good(r) {
      AbsorbIff(tagger, rel, s, r);
      AbsorbIff(tagger, rel, map[], r);
    }
    FoldOkIff(Absorbing(tagger, rel), good, map[], recs);
    forall rec | rec in recs
      ensures good(rec) <==>
        && tagger(rel.writerPriv, rel.counterpartyPub, rec.message, rec.changeImage) == Ok(rec.tag)
        && exists v :: |v| < TWO_32 && rec.changeImage == BigEndian(|v|, 4) + v
    {
      AbsorbIff(tagger, rel, map[], rec);
    }
  }

  /** What a rebuild finds in a cell is what the last record of the cell says: its value, or nothing after a delete. */
  lemma {:induction false} LastRecordWins(tagger: Tagger, rel: Relationship, recs: seq<FieldRecord>, i: nat, k: Bytes)
    requires Rebuilt(tagger, rel, recs).Ok? && i < |recs|
    requires var m := recs[i].message; k == m.tableId + ([0x7c] + (m.rowId + ([0x7c] + m.columnId)))
    requires forall j :: i < j < |recs| ==> var m := recs[j].message; k != CellKey(m.tableId, m.rowId, m.columnId)
    ensures var state := Rebuilt(tagger, rel, recs).value;
      && (k !in state <==> recs[i].message.op == 3)
      && (k in state ==> recs[i].changeImage == BigEndian(|state[k]|, 4) + state[k])
    decreases |recs|
  {
    hide PlaintextValue, BigEndian;
    var n := |recs| - 1;
    if i < n {
      LastRecordWins(tagger, rel, recs[..n], i, k);
    } else if recs[i].message.op != 3 {
      PlaintextIff(recs[i].changeImage, Rebuilt(tagger, rel, recs).value[k]);
    }
  }

  lemma {:induction false} NoRecordNoCell(tagger: Tagger, rel: Relationship, recs: seq<FieldRecord>, k: Bytes)
    requires Rebuilt(tagger, rel, recs).Ok?
    requires forall rec <- recs :: k != CellKey(rec.message.tableId, rec.message.rowId, rec.message.columnId)
    ensures k !in Rebuilt(tagger, rel, recs).value
  {
    hide PlaintextValue, CellKey;
    if recs != [] {
      var n := |recs| - 1;
      assert forall rec <- recs[..n] :: rec in recs;
      NoRecordNoCell(tagger, rel, recs[..n], k);
      assert recs[n] in recs;
    }
  }

  /** The body of the replay loop. */
  method AbsorbRecord(tagger: Tagger, rel: Relationship, state: State, e: FieldRecord) returns (res: Result<State, TeWriter.Error>)
    ensures res == Absorb(tagger, rel, state, e)
  {
    var bad := CheckTag(tagger, rel.writerPriv, rel.counterpartyPub, e);
    if bad.Some? {
      return Err(Crypto(bad.value));
    }
    var val := ReadPlaintext(e.changeImage);
    if val == None {
      return Err(BadImage);
    }
    var key := CellKey(e.message.tableId, e.message.rowId, e.message.columnId);
    if e.message.op == OP_DELETE {
      return Ok(state - {key});
    }
    return Ok(state[key := val.value]);
  }

  /** The replay loop: what the walk collected, from genesis to head. */
  method ReplayRecords(tagger: Tagger, rel: Relationship, rev: seq<FieldRecord>) returns (res: Result<State, TeWriter.Error>)
    ensures res == Rebuilt(tagger, rel, Reverse(rev))
  {
    hide Absorb, Fold;
    ghost var chain, step := Reverse(rev), Absorbing(tagger, rel);
    var state: State := map[];
    var i := |rev| - 1;
    FoldNone(step, state, chain);
    while i >= 0
      invariant -1 <= i < |rev|
      invariant Fold(step, map[], chain[..|rev| - 1 - i]) == Ok(state)
    {
      var next := AbsorbRecord(tagger, rel, state, rev[i]);
      FoldNext(step, map[], chain, |rev| - 1 - i);
      if next.Err? {
        FoldFails(step, map[], chain, |rev| - i);
        return next;
      }
      state := next.value;
      i := i - 1;
    }
    assert chain[..|rev|] == chain;
    return Ok(state);
  }

  /**
   Walks the stream back from its head, then verifies and replays it from genesis.  On a head that has a
   lineage the result is the fold of the lineage's records; on any other head it is an error.  So it succeeds exactly
   on a lineage whose tags all verify and whose images are all one value.
   */
  method ColdRebuild(tagger: Tagger, txs: map<Txid, Tx>, head: Txid, rel: Relationship)
    returns (res: Result<(State, nat), TeWriter.Error>)
    ensures forall recs :: OnChain(txs, ReadFirst, head, recs) ==>
      match Rebuilt(tagger, rel, recs)
      case Ok(state) => res == Ok((state, |recs|))
      case Err(e) => res == Err(e)
    ensures (forall recs :: !OnChain(txs, ReadFirst, head, recs)) ==> res.Err?
    ensures forall recs: seq<FieldRecord> :: OnChain(txs, ReadFirst, head, recs) ==>
      (res.Ok? <==> forall rec <- recs ::
         && tagger(rel.writerPriv, rel.counterpartyPub, rec.message, rec.changeImage) == Ok(rec.tag)
         && exists v :: |v| < TWO_32 && rec.changeImage == BigEndian(|v|, 4) + v)
  {
    hide Rebuilt, OnChain, BigEndian;
    var walked := WalkBack(txs, ReadFirst, head);
    if walked.Err? {
      return Err(Walk(walked.error));
    }
    var rev := walked.value;
    forall recs: seq<FieldRecord> | OnChain(txs, ReadFirst, head, recs) ensures recs == Reverse(rev) {
      OnChainUnique(txs, ReadFirst, head, recs, Reverse(rev));
    }
    RebuiltIff(tagger, rel, Reverse(rev));
    var state :- ReplayRecords(tagger, rel, rev);
    return Ok((state, |rev|));
  }

  // ---------------------------------------------------------------- confidential streams

  /** A commitment entry whose tag verifies. */
  ghost predicate Sealed(tagger: Tagger, rel: Relationship, rec: FieldRecord) {
    && rec.imageKind == IMAGE_COMMITMENT && |rec.changeImage| == 32
    && CheckTag(tagger, rel.writerPriv, rel.counterpartyPub, rec) == None
  }

  lemma SealedIff(tagger: Tagger, rel: Relationship, rec: FieldRecord)
    ensures Sealed(tagger, rel, rec) <==>
      && rec.imageKind == 1 && |rec.changeImage| == 32
      && tagger(rel.writerPriv, rel.counterpartyPub, rec.message, rec.changeImage) == Ok(rec.tag)
  {
  }

  /** The checks on one confidential entry. */
  method CheckSealed(tagger: Tagger, rel: Relationship, rec: FieldRecord) returns (e: Option<TeWriter.Error>)
    ensures e == None <==> Sealed(tagger, rel, rec)
  {
    if rec.imageKind != IMAGE_COMMITMENT || |rec.changeImage| != 32 {
      return Some(NotCommitment);
    }
    var bad := CheckTag(tagger, rel.writerPriv, rel.counterpartyPub, rec);
    return if bad.Some? then Some(Crypto(bad.value)) else None;
  }

  /** What the walk has read is the end of every lineage of head. */
  lemma WalkedSuffix(txs: map<Txid, Tx>, head: Txid, txid: Txid, rev: seq<FieldRecord>, recs: seq<FieldRecord>)
    requires Walked(txs, ReadFirst, head, txid, rev) && OnChain(txs, ReadFirst, head, recs)
    ensures exists k :: 0 <= k <= |recs| && OnChain(txs, ReadFirst, txid, recs[..k]) && recs == recs[..k] + Reverse(rev)
  {
    var k :| 0 <= k <= |recs| && OnChain(txs, ReadFirst, txid, recs[..k]);
    OnChainUnique(txs, ReadFirst, head, recs, recs[..k] + Reverse(rev));
  }

  /**
   Walks a confidential stream, checking each commitment as it goes.  On a head that has a lineage it
   counts the lineage exactly when every entry is a verified commitment.
   */
  method ColdVerifyConfidential(tagger: Tagger, txs: map<Txid, Tx>, head: Txid, rel: Relationship)
    returns (res: Result<nat, TeWriter.Error>)
    ensures forall recs :: OnChain(txs, ReadFirst, head, recs) ==>
      && (res.Ok? <==> forall rec <- recs :: Sealed(tagger, rel, rec))
      && (res.Ok? ==> res.value == |recs|)
    ensures (forall recs :: !OnChain(txs, ReadFirst, head, recs)) ==> res.Err?
  {
    hide OnChain, Sealed, Walked, LeadsTo;
    ghost var rev: seq<FieldRecord> := [];
    var n := 0;
    var txid := head;
    var visited: set<Txid> := {};
    WalkStart(txs, ReadFirst, head);
    while txid != []
      invariant n == |rev| && Walking(txs, ReadFirst, head, txid, rev, visited)
      invariant forall rec <- rev :: Sealed(tagger, rel, rec)
      decreases |txs.Keys - visited|
    {
      if txid in visited || txid !in txs || ReadFirst(txs[txid]).Err? {
        WalkFails(txs, ReadFirst, head, txid, rev, visited);
        return Err(Walk(
          if txid in visited then Diverges else if txid !in txs then UnknownTx else ReadFirst(txs[txid]).error));
      }
      var rec := ReadFirst(txs[txid]).value;
      var bad := CheckSealed(tagger, rel, rec);
      if bad.Some? {
        UnsealedEntry(tagger, rel, txs, head, txid, rev);
        return Err(bad.value);
      }
      WalkOn(txs, ReadFirst, head, txid, rev, visited);
      n, rev := n + 1, rev + [rec];
      visited := visited + {txid};
      txid := rec.message.prevTxid;
    }
    AllSealed(tagger, rel, txs, head, rev);
    return Ok(n);
  }

  lemma UnsealedEntry(tagger: Tagger, rel: Relationship, txs: map<Txid, Tx>, head: Txid, txid: Txid, rev: seq<FieldRecord>)
    requires Walked(txs, ReadFirst, head, txid, rev) && txid != [] && txid in txs && ReadFirst(txs[txid]).Ok?
    requires !Sealed(tagger, rel, ReadFirst(txs[txid]).value)
    ensures forall recs :: OnChain(txs, ReadFirst, head, recs) ==> exists rec <- recs :: !Sealed(tagger, rel, rec)
  {
    hide Sealed, ReadFirst;
    forall recs: seq<FieldRecord> | OnChain(txs, ReadFirst, head, recs)
      ensures exists rec <- recs :: !Sealed(tagger, rel, rec)
    {
      var k :| 0 <= k <= |recs| && OnChain(txs, ReadFirst, txid, recs[..k]);
      assert recs[..k][k - 1] == recs[k - 1] == ReadFirst(txs[txid]).value;
      assert recs[k - 1] in recs;
    }
  }

  lemma AllSealed(tagger: Tagger, rel: Relationship, txs: map<Txid, Tx>, head: Txid, rev: seq<FieldRecord>)
    requires Walked(txs, ReadFirst, head, [], rev) && forall rec <- rev :: Sealed(tagger, rel, rec)
    ensures OnChain(txs, ReadFirst, head, Reverse(rev))
    ensures forall recs :: OnChain(txs, ReadFirst, head, recs) ==>
      |recs| == |rev| && forall rec <- recs :: Sealed(tagger, rel, rec)
  {
    assert OnChain(txs, ReadFirst, [], []) && [] + Reverse(rev) == Reverse(rev);
    forall recs: seq<FieldRecord> | OnChain(txs, ReadFirst, head, recs)
      ensures |recs| == |rev| && forall rec <- recs :: Sealed(tagger, rel, rec)
    {
      WalkedSuffix(txs, head, [], rev, recs);
      var k :| 0 <= k <= |recs| && OnChain(txs, ReadFirst, [], recs[..k]) && recs == recs[..k] + Reverse(rev);
      assert k == 0;
      assert recs == Reverse(rev);
      forall rec | rec in recs ensures rec in rev {
        var i :| 0 <= i < |recs| && recs[i] == rec;
        assert rev[|rev| - 1 - i] == rec;
      }
    }
  }
}
