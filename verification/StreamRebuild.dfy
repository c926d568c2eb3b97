/**
 The ordered cold rebuild: a verifier that trusts the keys and nothing else.  The node is the list of its
 answers, in the order they are asked for; it may answer any request with any transaction.
 */
module StreamRebuild {
  import opened Wrappers
  import opened ByteStrings
  import opened Format
  import opened Ledger
  import opened Lineage
  import opened Capture
  import opened Keystone
  import Buri
  import Driver
  import Envelope
  import Script
  import TeWriter
  import opened ColdVerify

  datatype Error = NodeFailed | Walk(w: WalkError) | OutOfOrder | Crypto(e: Keystone.Error) | BadImage

  // ---------------------------------------------------------------- the walk

  /** What the walk reads, head first: one answer per request, until a record names no predecessor. */
  function Answered(answers: seq<Option<Tx>>, txid: Txid): Result<seq<FieldRecord>, Error> {
    if txid == [] then Ok([])
    else if answers == [] || answers[0] == None then Err(NodeFailed)
    else match ReadFirst(answers[0].value)
      case Err(w) => Err(Walk(w))
      case Ok(rec) =>
        var rest :- Answered(answers[1..], rec.message.prevTxid);
        Ok([rec] + rest)
  }

  method WalkAnswers(answers: seq<Option<Tx>>, head: Txid) returns (r: Result<seq<FieldRecord>, Error>)
    ensures r == Answered(answers, head)
  {
    var rev: seq<FieldRecord> := [];
    var txid, i := head, 0;
    assert answers[0..] == answers;
    assert Answered(answers, head).Ok? ==> rev + Answered(answers, head).value == Answered(answers, head).value;
    while txid != []
      invariant 0 <= i <= |answers|
      invariant Answered(answers, head) ==
        match Answered(answers[i..], txid)
        case Err(e) => Err(e)
        case Ok(rest) => Ok(rev + rest)
      decreases |answers| - i
    {
      if i == |answers| || answers[i] == None {
        return Err(NodeFailed);
      }
      var rec := ReadFirst(answers[i].value);
      if rec.Err? {
        return Err(Walk(rec.error));
      }
      assert answers[i..][1..] == answers[i + 1..];
      ghost var rest := Answered(answers[i + 1..], rec.value.message.prevTxid);
      assert rest.Ok? ==> rev + ([rec.value] + rest.value) == (rev + [rec.value]) + rest.value;
      rev := rev + [rec.value];
      txid, i := rec.value.message.prevTxid, i + 1;
    }
    assert rev + [] == rev;
    return Ok(rev);
  }

  /** Every record read came from one of the node's answers. */
  /** The transaction asked for in step i of a walk: the one that the record before links to. */
  function AskedFor(txid: Txid, recs: seq<FieldRecord>, i: nat): Txid
    requires i <= |recs|
  {
    if i == 0 then txid else recs[i - 1].message.prevTxid
  }

  /** What a walk reads, without recursion: every answer is a transaction with a record, until nothing more is linked to. */
  lemma {:induction false} AnsweredIff(answers: seq<Option<Tx>>, txid: Txid, recs: seq<FieldRecord>)
    ensures Answered(answers, txid) == Ok(recs) <==>
      && |recs| <= |answers| && AskedFor(txid, recs, |recs|) == []
      && forall i :: 0 <= i < |recs| ==>
           AskedFor(txid, recs, i) != [] && answers[i].Some? && ReadFirst(answers[i].value) == Ok(recs[i])
  {
    hide ReadFirst;
    if recs != [] {
      FirstAnswer(answers, txid, recs);
      if answers != [] {
        var link, rest, more := recs[0].message.prevTxid, answers[1..], recs[1..];
        AnsweredIff(rest, link, more);
        assert forall i :: 0 <= i <= |more| ==> AskedFor(link, more, i) == AskedFor(txid, recs, i + 1);
        assert forall i :: 0 < i < |recs| ==> AskedFor(txid, recs, i) == AskedFor(link, more, i - 1) && recs[i] == more[i - 1];
        assert forall i :: 0 < i < |answers| ==> answers[i] == rest[i - 1];
      }
    }
  }

  lemma FirstAnswer(answers: seq<Option<Tx>>, txid: Txid, recs: seq<FieldRecord>)
    requires recs != []
    ensures Answered(answers, txid) == Ok(recs) <==>
      && txid != [] && answers != [] && answers[0].Some? && ReadFirst(answers[0].value) == Ok(recs[0])
      && Answered(answers[1..], recs[0].message.prevTxid) == Ok(recs[1..])
  {
    hide ReadFirst;
    assert recs == [recs[0]] + recs[1..];
  }

  lemma {:induction false} ReadFromAnswers(answers: seq<Option<Tx>>, txid: Txid, rec: FieldRecord)
    requires Answered(answers, txid).Ok? && rec in Answered(answers, txid).value
    ensures exists a <- answers :: a.Some? && ReadFirst(a.value) == Ok(rec)
  {
    var first := ReadFirst(answers[0].value).value;
    if rec == first {
      assert answers[0] in answers;
    } else {
      ReadFromAnswers(answers[1..], first.message.prevTxid, rec);
      assert forall a <- answers[1..] :: a in answers;
    }
  }

  // ---------------------------------------------------------------- the ordered replay

  function Octets(s: string): (r: Bytes)
    requires forall c <- s :: c as int < 0x80
    ensures |r| == |s| && forall i :: 0 <= i < |s| ==> r[i] == s[i] as int
  {
    if s == "" then []
    else
      assert s[0] in s && forall c <- s[1..] :: c in s;
      var b: byte := s[0] as int;
      [b] + Octets(s[1..])
  }

  /** Lower-case hexadecimal, as octets. */
  function Hex(b: Bytes): Bytes {
    Octets(Buri.EncodeHex(b))
  }

  lemma HexInjective(a: Bytes, b: Bytes)
    requires Hex(a) == Hex(b)
    ensures a == b
  {
    var s, t := Buri.EncodeHex(a), Buri.EncodeHex(b);
    assert |s| == |Hex(a)| == |Hex(b)| == |t|;
    forall i | 0 <= i < |s| ensures s[i] == t[i] {
      assert Hex(a)[i] == Hex(b)[i];
    }
    Buri.HexInjective(a, b);
  }

  /** table|hex(row)|column. */
  function HexCellKey(m: ChangeMessage): Bytes {
    CellKey(m.tableId, Hex(m.rowId), m.columnId)
  }

  /** In hexadecimal a row id may hold pipes: two cells share a key only if they are the same cell. */
  lemma HexCellKeyInjective(m: ChangeMessage, m': ChangeMessage)
    requires PipeFree(m.tableId) && PipeFree(m.columnId) && PipeFree(m'.tableId) && PipeFree(m'.columnId)
    requires HexCellKey(m) == HexCellKey(m')
    ensures m.tableId == m'.tableId && m.rowId == m'.rowId && m.columnId == m'.columnId
  {
    CellKeyInjective(m.tableId, Hex(m.rowId), m.columnId, m'.tableId, Hex(m'.rowId), m'.columnId);
    HexInjective(m.rowId, m'.rowId);
  }

  /** A message and its image: what a tag covers. */
  type Pair = (ChangeMessage, Bytes)

  function PairOf(rec: FieldRecord): Pair {
    (rec.message, rec.changeImage)
  }

  function ApplyPair(state: State, p: Pair): State {
    var k := HexCellKey(p.0);
    if p.0.op == OP_DELETE then state - {k}
    else match PlaintextValue(p.1)
      case Some(v) => state[k := v]
      case None => state
  }

  /** The state a list of pairs stands for. */
  function FoldPairs(ps: seq<Pair>): State {
    if ps == [] then map[] else ApplyPair(FoldPairs(ps[..|ps| - 1]), ps[|ps| - 1])
  }

  /** The pairs of the records marked plaintext. */
  function PlaintextPairs(recs: seq<FieldRecord>): seq<Pair> {
    if recs == [] then []
    else
      var n := |recs| - 1;
      PlaintextPairs(recs[..n]) + if recs[n].imageKind == IMAGE_PLAINTEXT then [PairOf(recs[n])] else []
  }

  /** The k-th record from genesis is in order, authentic and, if marked plaintext, readable. */
  ghost predicate Sound(tagger: Tagger, priv: Bytes, pub: Bytes, rec: FieldRecord, k: nat) {
    && rec.message.seqNo == k
    && CheckTag(tagger, priv, pub, rec) == None
    && (rec.imageKind == IMAGE_PLAINTEXT ==> PlaintextValue(rec.changeImage).Some?)
  }

  /** In full: the number, the tag, and a plaintext image that is the length of a value and the value. */
  lemma SoundIff(tagger: Tagger, priv: Bytes, pub: Bytes, rec: FieldRecord, k: nat)
    ensures Sound(tagger, priv, pub, rec, k) <==>
      && rec.message.seqNo == k && tagger(priv, pub, rec.message, rec.changeImage) == Ok(rec.tag)
      && (rec.imageKind == 0 ==> exists v :: |v| < TWO_32 && rec.changeImage == BigEndian(|v|, 4) + v)
  {
    hide PlaintextValue, BigEndian;
    if PlaintextValue(rec.changeImage).Some? {
      PlaintextIff(rec.changeImage, PlaintextValue(rec.changeImage).value);
    }
    if v :| |v| < TWO_32 && rec.changeImage == BigEndian(|v|, 4) + v {
      PlaintextIff(rec.changeImage, v);
    }
  }

  ghost predicate AllSound(tagger: Tagger, priv: Bytes, pub: Bytes, recs: seq<FieldRecord>) {
    forall k :: 0 <= k < |recs| ==> Sound(tagger, priv, pub, recs[k], k)
  }

  /** The body of the second loop, for the k-th record. */
  method AbsorbOrdered(tagger: Tagger, priv: Bytes, pub: Bytes, state: State, e: FieldRecord, k: nat)
    returns (r: Result<State, Error>)
    ensures r.Ok? <==> Sound(tagger, priv, pub, e, k)
    ensures r.Ok? ==> r.value == if e.imageKind == IMAGE_PLAINTEXT then ApplyPair(state, PairOf(e)) else state
  {
    if e.message.seqNo != k {
      return Err(OutOfOrder);
    }
    var bad := CheckTag(tagger, priv, pub, e);
    if bad.Some? {
      return Err(Crypto(bad.value));
    }
    if e.imageKind != IMAGE_PLAINTEXT {
      return Ok(state);
    }
    var val := ReadPlaintext(e.changeImage);
    if val == None {
      return Err(BadImage);
    }
    var key := HexCellKey(e.message);
    return Ok(if e.message.op == OP_DELETE then state - {key} else state[key := val.value]);
  }

  lemma PairsNext(recs: seq<FieldRecord>, k: nat)
    requires k < |recs|
    ensures var before := FoldPairs(PlaintextPairs(recs[..k]));
      FoldPairs(PlaintextPairs(recs[..k + 1])) ==
        if recs[k].imageKind == IMAGE_PLAINTEXT then ApplyPair(before, PairOf(recs[k])) else before
  {
    var front, upTo := PlaintextPairs(recs[..k]), recs[..k + 1];
    assert upTo[..k] == recs[..k] && upTo[k] == recs[k];
    assert PlaintextPairs(upTo) == front + if recs[k].imageKind == IMAGE_PLAINTEXT then [PairOf(recs[k])] else [];
    assert (front + [PairOf(recs[k])])[..|front|] == front;
    assert front + [] == front;
  }

  /** The second loop: from genesis to head.  Succeeds exactly on records that are sound at their places. */
  method ReplayOrdered(tagger: Tagger, priv: Bytes, pub: Bytes, rev: seq<FieldRecord>) returns (r: Result<State, Error>)
    ensures r.Ok? <==> AllSound(tagger, priv, pub, Reverse(rev))
    ensures r.Ok? ==> r.value == FoldPairs(PlaintextPairs(Reverse(rev)))
  {
    hide Sound, FoldPairs, PlaintextPairs, ApplyPair;
    ghost var chain := Reverse(rev);
    var state: State := map[];
    var i := |rev| - 1;
    PairsNone(chain);
    while i >= 0
      invariant -1 <= i < |rev|
      invariant forall k :: 0 <= k < |rev| - 1 - i ==> Sound(tagger, priv, pub, chain[k], k)
      invariant state == FoldPairs(PlaintextPairs(chain[..|rev| - 1 - i]))
    {
      PairsNext(chain, |rev| - 1 - i);
      var next := AbsorbOrdered(tagger, priv, pub, state, rev[i], |rev| - 1 - i);
      if next.Err? {
        return next;
      }
      state := next.value;
      i := i - 1;
    }
    assert chain[..|rev|] == chain;
    return Ok(state);
  }

  lemma PairsNone(recs: seq<FieldRecord>)
    ensures FoldPairs(PlaintextPairs(recs[..0])) == map[]
  {
  }

  method ColdRebuildOrdered(tagger: Tagger, answers: seq<Option<Tx>>, head: Txid, priv: Bytes, pub: Bytes)
    returns (r: Result<(State, nat), Error>)
    ensures r.Ok? <==> Answered(answers, head).Ok? && AllSound(tagger, priv, pub, Reverse(Answered(answers, head).value))
    ensures r.Ok? ==>
      var recs := Reverse(Answered(answers, head).value);
      r.value == (FoldPairs(PlaintextPairs(recs)), |recs|)
  {
    var rev :- WalkAnswers(answers, head);
    var state :- ReplayOrdered(tagger, priv, pub, rev);
    return Ok((state, |rev|));
  }

  // ---------------------------------------------------------------- authenticity and order

  /** Ideal tags: a tag that verifies is one the writer made, so the pair it covers is one of the writer's. */
  ghost predicate IdealTags(tagger: Tagger, priv: Bytes, pub: Bytes, answers: seq<Option<Tx>>, written: seq<Pair>) {
    forall a, rec :: a in answers && a.Some? && ReadFirst(a.value) == Ok(rec) && CheckTag(tagger, priv, pub, rec) == None
      ==> PairOf(rec) in written
  }

  /** The writer makes one pair for each sequence number, counting from 0. */
  ghost predicate Numbered(written: seq<Pair>) {
    forall k :: 0 <= k < |written| ==> written[k].0.seqNo == k
  }

  function AllPairs(recs: seq<FieldRecord>): (r: seq<Pair>)
    ensures |r| == |recs| && forall k :: 0 <= k < |recs| ==> r[k] == PairOf(recs[k])
  {
    seq(|recs|, k requires 0 <= k < |recs| => PairOf(recs[k]))
  }

  /**
   Whatever the node answers, a rebuild that succeeds has read exactly the writer's first n pairs, in
   order.  If the writer's images are readable, the state is the fold of those pairs exactly when every entry
   not marked plaintext is harmless: a later entry writes its cell again, or it changes nothing where it stands.
   */
  lemma OrderedAgainstAnyNode(tagger: Tagger, priv: Bytes, pub: Bytes, answers: seq<Option<Tx>>, head: Txid, written: seq<Pair>)
    requires IdealTags(tagger, priv, pub, answers, written) && Numbered(written)
    requires Answered(answers, head).Ok? && AllSound(tagger, priv, pub, Reverse(Answered(answers, head).value))
    ensures var recs := Reverse(Answered(answers, head).value);
      && |recs| <= |written| && AllPairs(recs) == written[..|recs|]
      && ((forall p <- written :: PlaintextValue(p.1).Some?) ==>
           (FoldPairs(PlaintextPairs(recs)) == FoldPairs(written[..|recs|]) <==> Harmless(recs)))
  {
    hide Answered, PlaintextPairs, FoldPairs, ReadFirst, CheckTag, Harmless;
    var rev := Answered(answers, head).value;
    var recs := Reverse(rev);
    forall k | 0 <= k < |recs| ensures k < |written| && PairOf(recs[k]) == written[k] {
      assert Sound(tagger, priv, pub, recs[k], k);
      assert recs[k] == rev[|rev| - 1 - k];
      ReadFromAnswers(answers, head, recs[k]);
      var a :| a in answers && a.Some? && ReadFirst(a.value) == Ok(recs[k]);
      var j :| 0 <= j < |written| && written[j] == PairOf(recs[k]);
      assert written[j].0.seqNo == j;
    }
    if recs != [] {
      assert PairOf(recs[|recs| - 1]) == written[|recs| - 1];
    }
    assert AllPairs(recs) == written[..|recs|];
    if forall p <- written :: PlaintextValue(p.1).Some? {
      forall k | 0 <= k < |recs| ensures PlaintextValue(recs[k].changeImage).Some? {
        assert PairOf(recs[k]) == written[k] && written[k] in written;
      }
      HiddenIff(recs);
    }
  }

  // ---------------------------------------------------------------- entries the rebuild does not see

  function Lookup(state: State, k: Bytes): Option<Bytes> {
    if k in state then Some(state[k]) else None
  }

  /** What an entry leaves in its cell. */
  function Written(rec: FieldRecord): Option<Bytes> {
    if rec.message.op == OP_DELETE then None else PlaintextValue(rec.changeImage)
  }

  /** The state the rebuild has before entry i. */
  function SeenBefore(recs: seq<FieldRecord>, i: nat): State
    requires i <= |recs|
  {
    FoldPairs(PlaintextPairs(recs[..i]))
  }

  /** A later entry, marked plaintext or not, is for the same cell. */
  ghost predicate Overwritten(recs: seq<FieldRecord>, i: nat)
    requires i < |recs|
  {
    exists j :: i < j < |recs| && HexCellKey(recs[j].message) == HexCellKey(recs[i].message)
  }

  /** Every entry the rebuild passes over is overwritten, or would change nothing where it stands. */
  ghost predicate Harmless(recs: seq<FieldRecord>) {
    forall i :: 0 <= i < |recs| && recs[i].imageKind != IMAGE_PLAINTEXT ==>
      Overwritten(recs, i) || ApplyPair(SeenBefore(recs, i), PairOf(recs[i])) == SeenBefore(recs, i)
  }

  lemma ApplyLookup(state: State, rec: FieldRecord, k: Bytes)
    requires PlaintextValue(rec.changeImage).Some?
    ensures Lookup(ApplyPair(state, PairOf(rec)), k) ==
      if k == HexCellKey(rec.message) then Written(rec) else Lookup(state, k)
    ensures ApplyPair(state, PairOf(rec)) == state <==> Lookup(state, HexCellKey(rec.message)) == Written(rec)
  {
    hide HexCellKey, PlaintextValue;
    var k0 := HexCellKey(rec.message);
    if Lookup(state, k0) == Written(rec) {
      assert ApplyPair(state, PairOf(rec)) == state;
    }
  }

  lemma AllNext(recs: seq<FieldRecord>)
    requires recs != []
    ensures var n := |recs| - 1;
      FoldPairs(AllPairs(recs)) == ApplyPair(FoldPairs(AllPairs(recs[..n])), PairOf(recs[n]))
  {
    assert AllPairs(recs)[..|recs| - 1] == AllPairs(recs[..|recs| - 1]);
  }

  /** The last entry of a cell decides what is in it; the rebuild goes by the last one it sees. */
  lemma {:induction false} LastWrite(recs: seq<FieldRecord>, i: nat, k: Bytes)
    requires forall r <- recs :: PlaintextValue(r.changeImage).Some?
    requires i < |recs| && HexCellKey(recs[i].message) == k && !Overwritten(recs, i)
    ensures Lookup(FoldPairs(AllPairs(recs)), k) == Written(recs[i])
    ensures Lookup(FoldPairs(PlaintextPairs(recs)), k) ==
      if recs[i].imageKind == IMAGE_PLAINTEXT then Written(recs[i]) else Lookup(SeenBefore(recs, i), k)
    decreases |recs|
  {
    hide HexCellKey, PlaintextValue, ApplyPair, FoldPairs, Lookup, Written, PlaintextPairs;
    var n := |recs| - 1;
    var front := recs[..n];
    assert recs[n] in recs && forall r <- front :: r in recs;
    AllNext(recs);
    SeenNext(recs);
    ApplyLookup(FoldPairs(AllPairs(front)), recs[n], k);
    ApplyLookup(FoldPairs(PlaintextPairs(front)), recs[n], k);
    if i < n {
      assert HexCellKey(recs[n].message) != k;
      assert front[..i] == recs[..i] && front[i] == recs[i];
      assert !Overwritten(front, i);
      LastWrite(front, i, k);
    }
  }

  lemma SeenNext(recs: seq<FieldRecord>)
    requires recs != []
    ensures var n := |recs| - 1;
      var before := FoldPairs(PlaintextPairs(recs[..n]));
      FoldPairs(PlaintextPairs(recs)) ==
        if recs[n].imageKind == IMAGE_PLAINTEXT then ApplyPair(before, PairOf(recs[n])) else before
  {
    assert recs[..|recs|] == recs;
    PairsNext(recs, |recs| - 1);
  }

  lemma {:induction false} NeverWritten(recs: seq<FieldRecord>, k: Bytes)
    requires forall r <- recs :: PlaintextValue(r.changeImage).Some? && HexCellKey(r.message) != k
    ensures Lookup(FoldPairs(AllPairs(recs)), k) == Lookup(FoldPairs(PlaintextPairs(recs)), k) == None
  {
    hide HexCellKey, PlaintextValue, ApplyPair;
    if recs != [] {
      var n := |recs| - 1;
      assert recs[n] in recs && forall r <- recs[..n] :: r in recs;
      NeverWritten(recs[..n], k);
      AllNext(recs);
      SeenNext(recs);
      ApplyLookup(FoldPairs(AllPairs(recs[..n])), recs[n], k);
      ApplyLookup(FoldPairs(PlaintextPairs(recs[..n])), recs[n], k);
    }
  }

  /** The last entry for cell k. */
  lemma {:induction false} LastEntry(recs: seq<FieldRecord>, k: Bytes) returns (i: nat)
    requires exists r <- recs :: HexCellKey(r.message) == k
    ensures i < |recs| && HexCellKey(recs[i].message) == k && !Overwritten(recs, i)
  {
    hide HexCellKey;
    var n := |recs| - 1;
    i := n;
    if HexCellKey(recs[n].message) != k {
      var front := recs[..n];
      var r :| r in recs && HexCellKey(r.message) == k;
      assert recs == front + [recs[n]];
      assert r in front;
      i := LastEntry(front, k);
      assert forall j :: i < j < n ==> front[j] == recs[j];
    }
  }

  lemma SameCell(recs: seq<FieldRecord>, k: Bytes)
    requires (forall r <- recs :: PlaintextValue(r.changeImage).Some?) && Harmless(recs)
    ensures Lookup(FoldPairs(AllPairs(recs)), k) == Lookup(FoldPairs(PlaintextPairs(recs)), k)
  {
    hide HexCellKey, PlaintextValue, ApplyPair, FoldPairs, Lookup, Written, PlaintextPairs;
    if exists r <- recs :: HexCellKey(r.message) == k {
      var i := LastEntry(recs, k);
      LastWrite(recs, i, k);
      assert recs[i] in recs;
      ApplyLookup(SeenBefore(recs, i), recs[i], k);
    } else {
      NeverWritten(recs, k);
    }
  }

  /** The rebuild ends in the state of all the entries exactly when those it passes over are harmless. */
  lemma {:induction false} HiddenIff(recs: seq<FieldRecord>)
    requires forall k :: 0 <= k < |recs| ==> PlaintextValue(recs[k].changeImage).Some?
    ensures FoldPairs(PlaintextPairs(recs)) == FoldPairs(AllPairs(recs)) <==> Harmless(recs)
  {
    hide HexCellKey, PlaintextValue, ApplyPair, FoldPairs, Written, PlaintextPairs, Lookup;
    var all, seen := FoldPairs(AllPairs(recs)), FoldPairs(PlaintextPairs(recs));
    if Harmless(recs) {
      forall k ensures Lookup(all, k) == Lookup(seen, k) {
        SameCell(recs, k);
      }
      SameLookups(all, seen);
    }
    if seen == all {
      forall i | 0 <= i < |recs| && recs[i].imageKind != IMAGE_PLAINTEXT && !Overwritten(recs, i)
        ensures ApplyPair(SeenBefore(recs, i), PairOf(recs[i])) == SeenBefore(recs, i)
      {
        LastWrite(recs, i, HexCellKey(recs[i].message));
        ApplyLookup(SeenBefore(recs, i), recs[i], HexCellKey(recs[i].message));
      }
    }
  }

  lemma SameLookups(a: State, b: State)
    requires forall k :: Lookup(a, k) == Lookup(b, k)
    ensures a == b
  {
    forall k ensures (k in a <==> k in b) && (k in a ==> a[k] == b[k]) {
      assert Lookup(a, k) == Lookup(b, k);
    }
  }

  // ---------------------------------------------------------------- what a tag does not cover

  /** Another record under the same tag: stream id and kind of image may differ. */
  predicate SameTag(a: FieldRecord, b: FieldRecord) {
    a.message == b.message && a.changeImage == b.changeImage && a.tag == b.tag
  }

  /** Kind and stream id lie outside the tag: put in place of entry i, such a record is as sound as the entry. */
  lemma DisguiseIsSound(tagger: Tagger, priv: Bytes, pub: Bytes, recs: seq<FieldRecord>, i: nat, other: FieldRecord)
    requires i < |recs| && AllSound(tagger, priv, pub, recs) && SameTag(recs[i], other)
    ensures AllSound(tagger, priv, pub, recs[i := other])
      <==> (other.imageKind == IMAGE_PLAINTEXT ==> PlaintextValue(other.changeImage).Some?)
    ensures AllPairs(recs[i := other]) == AllPairs(recs)
    ensures other.imageKind == recs[i].imageKind ==> PlaintextPairs(recs[i := other]) == PlaintextPairs(recs)
  {
    hide PlaintextValue, PlaintextPairs;
    var disguised := recs[i := other];
    assert Sound(tagger, priv, pub, recs[i], i);
    forall k | 0 <= k < |recs| && k != i ensures Sound(tagger, priv, pub, disguised[k], k) {
      assert Sound(tagger, priv, pub, recs[k], k);
    }
    assert AllSound(tagger, priv, pub, disguised) ==> Sound(tagger, priv, pub, disguised[i], i);
    assert disguised == recs[..i] + [other] + recs[i + 1..] && recs == recs[..i] + [recs[i]] + recs[i + 1..];
    PlaintextSplit(recs[..i], other, recs[i + 1..]);
    PlaintextSplit(recs[..i], recs[i], recs[i + 1..]);
    assert AllPairs(disguised) == AllPairs(recs);
  }

  lemma PlaintextSplit(a: seq<FieldRecord>, rec: FieldRecord, b: seq<FieldRecord>)
    ensures PlaintextPairs(a + [rec] + b) ==
      PlaintextPairs(a) + (if rec.imageKind == IMAGE_PLAINTEXT then [PairOf(rec)] else []) + PlaintextPairs(b)
  {
    PlaintextAppend(a + [rec], b);
    PlaintextAppend(a, [rec]);
    assert [rec][..0] == [] && PlaintextPairs([rec][..0]) == [];
  }

  lemma {:induction false} PlaintextAppend(a: seq<FieldRecord>, b: seq<FieldRecord>)
    ensures PlaintextPairs(a + b) == PlaintextPairs(a) + PlaintextPairs(b)
  {
    if b == [] {
      assert a + b == a;
    } else {
      var n := |b| - 1;
      assert (a + b)[..|a + b| - 1] == a + b[..n];
      PlaintextAppend(a, b[..n]);
    }
  }

  /** A transaction that carries a record of the node's choice. */
  function Carrier(rec: FieldRecord): Tx {
    Tx([], [Output(0, Envelope.IfEnvelope(RecordBytes(rec), seq(20, _ => 0)))])
  }

  lemma CarrierReads(rec: FieldRecord)
    requires WellFormedRecord(rec) && Fits(RecordBytes(rec))
    ensures ReadFirst(Carrier(rec)) == Ok(rec)
  {
    hide Envelope.ExtractEnvelopeData, Envelope.IfEnvelope, RecordBytes;
    EnvelopeCarries(rec, seq(20, _ => 0), 0);
    RecordRoundTrip(rec);
  }

  /** A node can answer with another record under the same tag, and the walk reads it in its place. */
  lemma {:induction false} ForgedAnswers(answers: seq<Option<Tx>>, txid: Txid, j: nat, other: FieldRecord)
    returns (forged: seq<Option<Tx>>)
    requires Answered(answers, txid).Ok? && j < |Answered(answers, txid).value|
    requires SameTag(Answered(answers, txid).value[j], other) && WellFormedRecord(other) && Fits(RecordBytes(other))
    ensures |forged| == |answers| && Answered(forged, txid) == Ok(Answered(answers, txid).value[j := other])
    decreases |answers|
  {
    hide ReadFirst, RecordBytes, WellFormedRecord;
    var rev := Answered(answers, txid).value;
    var next := rev[0].message.prevTxid;
    if j == 0 {
      CarrierReads(other);
      forged := [Some(Carrier(other))] + answers[1..];
      assert forged[1..] == answers[1..];
      assert rev[0 := other] == [other] + rev[1..];
    } else {
      var rest := ForgedAnswers(answers[1..], next, j - 1, other);
      forged := [answers[0]] + rest;
      assert forged[1..] == rest;
      assert rev[j := other] == [rev[0]] + rev[1..][j - 1 := other];
    }
  }

  /** The entries of a successful walk, from genesis on. */
  function Entries(answers: seq<Option<Tx>>, head: Txid): seq<FieldRecord>
    requires Answered(answers, head).Ok?
  {
    Reverse(Answered(answers, head).value)
  }

  lemma ForgedEntry(answers: seq<Option<Tx>>, head: Txid, i: nat, other: FieldRecord) returns (forged: seq<Option<Tx>>)
    requires Answered(answers, head).Ok? && i < |Entries(answers, head)| && SameTag(Entries(answers, head)[i], other)
    requires WellFormedRecord(other) && Fits(RecordBytes(other))
    ensures Answered(forged, head).Ok? && Entries(forged, head) == Entries(answers, head)[i := other]
  {
    hide Answered, RecordBytes, WellFormedRecord;
    var rev := Answered(answers, head).value;
    var j := |rev| - 1 - i;
    assert Reverse(rev)[i] == rev[j];
    forged := ForgedAnswers(answers, head, j, other);
    assert Reverse(rev[j := other]) == Reverse(rev)[i := other];
  }

  /** Every entry came out of an envelope. */
  lemma EntryFits(answers: seq<Option<Tx>>, head: Txid, i: nat)
    requires Answered(answers, head).Ok? && i < |Entries(answers, head)|
    ensures WellFormedRecord(Entries(answers, head)[i]) && Fits(RecordBytes(Entries(answers, head)[i]))
  {
    hide Answered, RecordBytes, WellFormedRecord;
    var rev := Answered(answers, head).value;
    var rec := Reverse(rev)[i];
    assert rec == rev[|rev| - 1 - i];
    ReadFromAnswers(answers, head, rec);
    var a :| a in answers && a.Some? && ReadFirst(a.value) == Ok(rec);
    ReadFits(a.value, rec);
  }

  lemma ReadFits(tx: Tx, rec: FieldRecord)
    requires ReadFirst(tx) == Ok(rec)
    ensures WellFormedRecord(rec) && Fits(RecordBytes(rec))
  {
    hide RecordBytes, ParseRecord, WellFormedRecord;
    EnvelopeFits(tx.outputs);
    AcceptedIffEncoding(FirstEnvelope(tx.outputs).value, rec);
  }

  lemma {:induction false} EnvelopeFits(outputs: seq<Output>)
    requires FirstEnvelope(outputs).Some?
    ensures Fits(FirstEnvelope(outputs).value)
  {
    hide Script.Parse;
    match Envelope.ExtractEnvelopeData(outputs[0].script)
    case Ok(data) => Script.ParsedFits(outputs[0].script);
    case Err(_) => EnvelopeFits(outputs[1..]);
  }

  lemma Relabelled(rec: FieldRecord)
    requires WellFormedRecord(rec) && Fits(RecordBytes(rec))
    ensures var other := rec.(imageKind := IMAGE_COMMITMENT); WellFormedRecord(other) && Fits(RecordBytes(other))
  {
    hide RecordBytes, MessageBytes;
    RecordLength(rec);
    RecordLength(rec.(imageKind := IMAGE_COMMITMENT));
  }

  /**
   The failing input, for every rebuild that succeeds and every entry of it: the node answers one request with
   the same entry marked as a commitment.  The rebuild still succeeds and reads the same pairs, and its state is
   the one without the entry.
   */
  lemma KindIsNotAuthenticated(tagger: Tagger, priv: Bytes, pub: Bytes, answers: seq<Option<Tx>>, head: Txid, i: nat)
    returns (forged: seq<Option<Tx>>)
    requires Answered(answers, head).Ok? && i < |Entries(answers, head)|
    requires AllSound(tagger, priv, pub, Entries(answers, head))
    ensures Answered(forged, head).Ok?
    ensures var recs, relabelled := Entries(answers, head), Entries(forged, head);
      && relabelled == recs[i := recs[i].(imageKind := IMAGE_COMMITMENT)]
      && AllSound(tagger, priv, pub, relabelled) && AllPairs(relabelled) == AllPairs(recs)
      && PlaintextPairs(relabelled) == PlaintextPairs(recs[..i]) + PlaintextPairs(recs[i + 1..])
  {
    hide Answered, Entries, AllSound, RecordBytes, WellFormedRecord, PlaintextPairs;
    var recs := Entries(answers, head);
    var other := recs[i].(imageKind := IMAGE_COMMITMENT);
    EntryFits(answers, head, i);
    Relabelled(recs[i]);
    forged := ForgedEntry(answers, head, i, other);
    DisguiseIsSound(tagger, priv, pub, recs, i, other);
    assert recs[i := other] == recs[..i] + [other] + recs[i + 1..];
    PlaintextSplit(recs[..i], other, recs[i + 1..]);
    assert PlaintextPairs(recs[..i]) + [] == PlaintextPairs(recs[..i]);
  }

  lemma Reattributed(rec: FieldRecord, stream: Bytes)
    requires WellFormedRecord(rec) && Fits(RecordBytes(rec.(streamId := stream)))
    ensures WellFormedRecord(rec.(streamId := stream))
  {
    hide RecordBytes, MessageBytes;
    RecordLength(rec.(streamId := stream));
  }

  /** The same for the stream id: the node may claim any stream for any entry, and the rebuild does not notice. */
  lemma StreamIsNotAuthenticated(tagger: Tagger, priv: Bytes, pub: Bytes, answers: seq<Option<Tx>>, head: Txid, i: nat, stream: Bytes)
    returns (forged: seq<Option<Tx>>)
    requires Answered(answers, head).Ok? && i < |Entries(answers, head)|
    requires AllSound(tagger, priv, pub, Entries(answers, head))
    requires Fits(RecordBytes(Entries(answers, head)[i].(streamId := stream)))
    ensures Answered(forged, head).Ok?
    ensures var recs, claimed := Entries(answers, head), Entries(forged, head);
      && claimed == recs[i := recs[i].(streamId := stream)]
      && AllSound(tagger, priv, pub, claimed) && PlaintextPairs(claimed) == PlaintextPairs(recs)
  {
    hide Answered, Entries, RecordBytes, WellFormedRecord, PlaintextPairs;
    var recs := Entries(answers, head);
    var other := recs[i].(streamId := stream);
    EntryFits(answers, head, i);
    Reattributed(recs[i], stream);
    forged := ForgedEntry(answers, head, i, other);
    assert Sound(tagger, priv, pub, recs[i], i);
    DisguiseIsSound(tagger, priv, pub, recs, i, other);
  }

  // ---------------------------------------------------------------- an honest node

  /** The answers of a node that holds the writer's lineage. */
  lemma {:induction false} HonestAnswers(txs: map<Txid, Tx>, head: Txid, recs: seq<FieldRecord>)
    returns (answers: seq<Option<Tx>>)
    requires OnChain(txs, ReadFirst, head, recs)
    ensures |answers| == |recs| && Answered(answers, head) == Ok(Reverse(recs))
    ensures forall a <- answers :: a.Some? && a.value in txs.Values
    decreases |recs|
  {
    hide ReadFirst;
    if recs == [] {
      answers := [];
      assert Reverse(recs) == [];
    } else {
      var n := |recs| - 1;
      var rest := HonestAnswers(txs, recs[n].message.prevTxid, recs[..n]);
      answers := [Some(txs[head])] + rest;
      assert answers[1..] == rest;
      assert Reverse(recs) == [recs[n]] + Reverse(recs[..n]);
    }
  }

  /** Against an honest node, what the writer has posted to a stream is sound and read in full. */
  lemma HonestRebuild(s: TeWriter.Setup, b: TeWriter.Books, posted: seq<TeWriter.Posting>, st: Bytes)
    returns (answers: seq<Option<Tx>>)
    requires TeWriter.InOrder(s, b, posted) && forall p <- posted :: TeWriter.Encodable(p.row)
    requires st in s.rels
    ensures forall a <- answers :: a.Some? && a.value in b.node.txs.Values
    ensures var ps := TeWriter.StreamOf(posted, st);
      && Answered(answers, TeWriter.TxidAt(ps, |ps|)) == Ok(Reverse(Driver.Recs(ps)))
      && AllSound(s.tagger, s.rels[st].writerPriv, s.rels[st].counterpartyPub, Driver.Recs(ps))
  {
    hide TeWriter.InOrder, OnChain, Answered, Sound, TeWriter.LinkedAt, TeWriter.Encodable;
    var ps := TeWriter.StreamOf(posted, st);
    Driver.StreamOnChain(s, b, posted, st);
    TeWriter.StreamOfLength(posted, st);
    answers := HonestAnswers(b.node.txs, TeWriter.TxidAt(ps, |ps|), Driver.Recs(ps));
    forall k | 0 <= k < |ps| ensures Sound(s.tagger, s.rels[st].writerPriv, s.rels[st].counterpartyPub, ps[k].rec, k) {
      assert ps[k] in ps;
      assert TeWriter.LinkedAt(s, ps, k);
      PostedIsSound(s, ps, k);
    }
  }

  lemma PostedIsSound(s: TeWriter.Setup, ps: seq<TeWriter.Posting>, k: nat)
    requires k < |ps| && TeWriter.LinkedAt(s, ps, k) && TeWriter.Encodable(ps[k].row)
    ensures ps[k].row.stream in s.rels
    ensures var rel := s.rels[ps[k].row.stream]; Sound(s.tagger, rel.writerPriv, rel.counterpartyPub, ps[k].rec, k)
  {
    TakeLastPrefixed(Text(ps[k].row.value));
  }
}
