/** The writer's run: drain the outbox, then check every stream on chain against the live database. */
module Driver {
  import opened Wrappers
  import opened ByteStrings
  import opened Format
  import opened Capture
  import opened Ledger
  import opened Lineage
  import opened TeWriter
  import opened ColdVerify
  import Mirror

  // ---------------------------------------------------------------- what the drain leaves on chain

  function Recs(ps: seq<Posting>): (r: seq<FieldRecord>)
    ensures |r| == |ps| && forall i :: 0 <= i < |ps| ==> r[i] == ps[i].rec
  {
    seq(|ps|, i requires 0 <= i < |ps| => ps[i].rec)
  }

  lemma NothingOnChain(txs: map<Txid, Tx>)
    ensures OnChain(txs, ReadFirst, [], [])
  {
  }

  lemma LinkOf(s: Setup, ps: seq<Posting>, k: nat)
    requires k < |ps| && LinkedAt(s, ps, k)
    ensures ps[k].rec.message.prevTxid == TxidAt(ps, k) && ps[k].rec.message.seqNo == k
  {
  }

  /** The first k postings of a stream are the lineage of the k-th. */
  lemma {:induction false} PostingsOnChain(s: Setup, node: Node, ps: seq<Posting>, k: nat)
    requires Linked(s, ps) && Recorded(node, ps) && k <= |ps|
    ensures OnChain(node.txs, ReadFirst, TxidAt(ps, k), Recs(ps[..k]))
  {
    hide LinkedAt, ReadFirst, OnChain;
    if k == 0 {
      assert OnChain(node.txs, ReadFirst, [], []) by {
        NothingOnChain(node.txs);
      }
    } else {
      PostingsOnChain(s, node, ps, k - 1);
      assert LinkedAt(s, ps, k - 1);
      LinkOf(s, ps, k - 1);
      assert Recs(ps[..k]) == Recs(ps[..k - 1]) + [ps[k - 1].rec];
      OnChainGrow(node.txs, ReadFirst, TxidAt(ps, k - 1), Recs(ps[..k - 1]), TxidAt(ps, k), ps[k - 1].rec);
    }
  }

  /** After the drain, each stream's head has the stream's records as its lineage. */
  lemma StreamOnChain(s: Setup, b: Books, posted: seq<Posting>, st: Bytes)
    requires InOrder(s, b, posted)
    ensures var ps := StreamOf(posted, st);
      Linked(s, ps) && OnChain(b.node.txs, ReadFirst, TxidAt(ps, |ps|), Recs(ps))
  {
    hide StreamOf, Linked, Counted, Headed, Indexed, ReadFirst, OnChain, Ledger.Valid, ValidSetup, Holds;
    var ps := StreamOf(posted, st);
    assert Linked(s, ps);
    StreamOfLength(posted, st);
    RecordedPart(b.node, posted, ps);
    PostingsOnChain(s, b.node, ps, |ps|);
    assert ps[..|ps|] == ps;
  }

  lemma RecordedPart(node: Node, posted: seq<Posting>, ps: seq<Posting>)
    requires Recorded(node, posted) && forall p <- ps :: p in posted
    ensures Recorded(node, ps)
  {
    forall i | 0 <= i < |ps| ensures exists j :: 0 <= j < |posted| && posted[j] == ps[i] {
      assert ps[i] in posted;
    }
  }

  // ---------------------------------------------------------------- what the verifiers make of it

  /** A posting of stream st with the record the writer made of it, at some place of the stream. */
  ghost predicate MadeFor(s: Setup, st: Bytes, p: Posting) {
    && p.row.stream == st && |Text(p.row.value)| < TWO_32
    && exists k: u64, prev :: RecordFor(s, p.row, p.blind, k, prev) == Ok(p.rec)
  }

  lemma PlainPosting(s: Setup, st: Bytes, p: Posting, state: State)
    requires MadeFor(s, st, p) && !Confidential(s, p.row.table)
    ensures st in s.rels && Absorb(s.tagger, s.rels[st], state, p.rec) == Ok(ApplyChange(state, p.row))
  {
    var v := Text(p.row.value);
    assert p.rec.changeImage == Prefixed(v);
    TakeLastPrefixed(v);
  }

  /** A plaintext stream rebuilds to the replay of its rows. */
  lemma {:induction false} RebuiltIsReplay(s: Setup, st: Bytes, ps: seq<Posting>)
    requires st in s.rels
    requires forall p <- ps :: MadeFor(s, st, p) && !Confidential(s, p.row.table)
    ensures Rebuilt(s.tagger, s.rels[st], Recs(ps)) == Ok(Replay(map[], Rows(ps)))
  {
    if ps != [] {
      var n := |ps| - 1;
      RebuiltIsReplay(s, st, ps[..n]);
      assert Recs(ps)[..n] == Recs(ps[..n]) && Rows(ps)[..n] == Rows(ps[..n]);
      PlainPosting(s, st, ps[n], Replay(map[], Rows(ps[..n])));
    }
  }

  /** The confidential check passes exactly the postings of confidential tables. */
  lemma SealedPosting(s: Setup, st: Bytes, p: Posting)
    requires ValidSetup(s) && MadeFor(s, st, p)
    ensures st in s.rels && (Sealed(s.tagger, s.rels[st], p.rec) <==> Confidential(s, p.row.table))
  {
  }

  lemma SealedPostings(s: Setup, st: Bytes, ps: seq<Posting>)
    requires ValidSetup(s) && st in s.rels && forall p <- ps :: MadeFor(s, st, p)
    ensures (forall rec <- Recs(ps) :: Sealed(s.tagger, s.rels[st], rec)) <==> forall p <- ps :: Confidential(s, p.row.table)
  {
    forall p | p in ps
      ensures p.rec in Recs(ps) && (Sealed(s.tagger, s.rels[st], p.rec) <==> Confidential(s, p.row.table))
    {
      var i :| 0 <= i < |ps| && ps[i] == p;
      assert Recs(ps)[i] == p.rec;
      SealedPosting(s, st, p);
    }
    forall rec | rec in Recs(ps) ensures exists p <- ps :: p.rec == rec {
      var i :| 0 <= i < |ps| && Recs(ps)[i] == rec;
      assert ps[i] in ps;
    }
  }

  lemma PostingsMade(s: Setup, ps: seq<Posting>, st: Bytes)
    requires Linked(s, ps) && forall p <- ps :: p.row.stream == st && Encodable(p.row)
    ensures forall p <- ps :: MadeFor(s, st, p)
    ensures ps != [] ==> st in s.rels
  {
    forall p | p in ps ensures MadeFor(s, st, p) {
      var k :| 0 <= k < |ps| && ps[k] == p;
      assert LinkedAt(s, ps, k);
    }
    if ps != [] {
      assert LinkedAt(s, ps, 0);
    }
  }

  lemma {:induction false} StreamRows(posted: seq<Posting>, st: Bytes)
    ensures Rows(StreamOf(posted, st)) == OfStream(Rows(posted), st)
  {
    if posted != [] {
      var n := |posted| - 1;
      StreamRows(posted[..n], st);
      assert Rows(posted)[..n] == Rows(posted[..n]);
    }
  }

  // ---------------------------------------------------------------- the outbox and the catalog

  lemma {:induction false} ChangesTable(t: Table, name: Bytes, rid: Bytes, old_: Option<Row>, new_: Option<Row>, cols: seq<Bytes>)
    requires old_.Some? ==> forall c <- cols :: c in old_.value
    requires new_.Some? ==> forall c <- cols :: c in new_.value
    ensures forall r <- Changes(t, name, rid, old_, new_, cols) :: r.table == name && r.stream == t.stream
  {
    if cols != [] {
      ChangesTable(t, name, rid, old_, new_, cols[..|cols| - 1]);
    }
  }

  /** Every outbox row is of a journalled table and on that table's stream. */
  lemma {:induction false} OutboxTables(cat: Catalog, stmts: seq<Statement>)
    requires ValidCatalog(cat)
    ensures forall r <- Outbox(cat, stmts) :: r.table in cat && r.stream == cat[r.table].stream
  {
    if stmts != [] {
      var n := |stmts| - 1;
      var db, stmt := Run(cat, stmts[..n]), stmts[n];
      OutboxTables(cat, stmts[..n]);
      if Takes(cat, db, stmt) {
        var t := cat[stmt.table];
        match stmt
        case Insert(name, row) => ChangesTable(t, name, JoinPipes(KeyOf(t, row)), None, Some(row), t.columns);
        case Update(name, key, row) => ChangesTable(t, name, JoinPipes(KeyOf(t, row)), Some(db[name][key]), Some(row), t.columns);
        case Delete(name, key) => ChangesTable(t, name, JoinPipes(key), Some(db[name][key]), None, t.columns);
      }
    }
  }

  /** bool_or(confidential) over the tables of a stream. */
  predicate StreamConf(cat: Catalog, st: Bytes) {
    exists n | n in cat :: cat[n].stream == st && cat[n].confidential
  }

  /** The writer has read the catalog's confidentiality flags. */
  ghost predicate KnowsCatalog(s: Setup, cat: Catalog) {
    forall n <- cat :: Confidential(s, n) <==> cat[n].confidential
  }

  // ---------------------------------------------------------------- queries

  /** The indexed transaction at the highest position of the stream. */
  ghost predicate IsHead(index: map<(Bytes, nat), Txid>, st: Bytes, head: Txid) {
    exists k: nat :: (st, k) in index && head == index[(st, k)] && forall j: nat :: (st, j) in index ==> j <= k
  }

  /** SELECT txid ... ORDER BY seq DESC LIMIT 1. */
  method LatestTxid(index: map<(Bytes, nat), Txid>, st: Bytes) returns (r: Option<Txid>)
    ensures r == None <==> forall k: nat :: (st, k) !in index
    ensures r.Some? ==> IsHead(index, st, r.value)
  {
    var best: Option<nat> := None;
    var left := index.Keys;
    while left != {}
      invariant left <= index.Keys
      invariant best == None ==> forall k: nat :: (st, k) in index ==> (st, k) in left
      invariant best.Some? ==> (st, best.value) in index
      invariant best.Some? ==> forall k: nat :: (st, k) in index ==> (st, k) in left || k <= best.value
      decreases left
    {
      var e :| e in left;
      left := left - {e};
      if e.0 == st && (best == None || best.value < e.1) {
        best := Some(e.1);
      }
    }
    return if best == None then None else Some(index[(st, best.value)]);
  }

  /** With the books in order, the latest entry of a stream is its last posting. */
  lemma LatestIsHead(s: Setup, b: Books, posted: seq<Posting>, st: Bytes, r: Option<Txid>)
    requires InOrder(s, b, posted)
    requires r == None <==> forall k: nat :: (st, k) !in b.chainIndex
    requires r.Some? ==> IsHead(b.chainIndex, st, r.value)
    ensures var ps := StreamOf(posted, st); r == if ps == [] then None else Some(TxidAt(ps, |ps|))
  {
    hide StreamOf, Counted, Headed, AllLinked, Recorded, ValidSetup, Ledger.Valid, Holds;
    var ps, index := StreamOf(posted, st), b.chainIndex;
    assert Indexed(posted, index);
    if ps != [] {
      var last: nat := |ps| - 1;
      assert (st, last) in index && index[(st, last)] == ps[last].txid;
      var k: nat :| (st, k) in index && r.value == index[(st, k)] && forall j: nat :: (st, j) in index ==> j <= k;
      assert k < |ps|;
    } else {
      assert forall k: nat :: (st, k) !in index;
    }
  }

  // ---------------------------------------------------------------- the live cells

  /** The state holds exactly those live cells of the stream that are in done. */
  ghost predicate Covers(cat: Catalog, db: Database, st: Bytes, done: set<(Bytes, seq<Bytes>, Bytes)>, state: State) {
    && (forall n, key, c :: LiveCell(cat, db, st, n, key, c) && (n, key, c) in done ==>
         && CellKey(n, JoinPipes(key), c) in state
         && state[CellKey(n, JoinPipes(key), c)] == Text(db[n][key][c]))
    && (forall k <- state :: exists n, key, c ::
         LiveCell(cat, db, st, n, key, c) && (n, key, c) in done && k == CellKey(n, JoinPipes(key), c))
  }

  lemma CellOfOneKey(cat: Catalog, db: Database, st: Bytes, n: Bytes, key: seq<Bytes>, c: Bytes, n': Bytes, key': seq<Bytes>, c': Bytes)
    requires PlainNames(cat) && Mirror.PlainRows(cat, db)
    requires LiveCell(cat, db, st, n, key, c) && LiveCell(cat, db, st, n', key', c')
    requires CellKey(n', JoinPipes(key'), c') == CellKey(n, JoinPipes(key), c)
    ensures n' == n && key' == key && c' == c
  {
    if n' != n || key' != key {
      Mirror.OtherCells(cat, n, key, n', key', c, c');
    } else {
      Mirror.SameRowCells(n, JoinPipes(key), c, c');
    }
  }

  lemma CoverCell(cat: Catalog, db: Database, st: Bytes, done: set<(Bytes, seq<Bytes>, Bytes)>, state: State,
                  n: Bytes, key: seq<Bytes>, c: Bytes)
    requires PlainNames(cat) && Mirror.PlainRows(cat, db) && Covers(cat, db, st, done, state)
    requires LiveCell(cat, db, st, n, key, c)
    ensures Covers(cat, db, st, done + {(n, key, c)}, state[CellKey(n, JoinPipes(key), c) := Text(db[n][key][c])])
  {
    hide PlainNames, Mirror.PlainRows, CellKey, JoinPipes;
    var k := CellKey(n, JoinPipes(key), c);
    forall n', key', c' | LiveCell(cat, db, st, n', key', c') && CellKey(n', JoinPipes(key'), c') == k
      ensures n' == n && key' == key && c' == c
    {
      CellOfOneKey(cat, db, st, n, key, c, n', key', c');
    }
    var after := state[k := Text(db[n][key][c])];
    forall k' | k' in after
      ensures exists n', key', c' ::
        LiveCell(cat, db, st, n', key', c') && (n', key', c') in done + {(n, key, c)} && k' == CellKey(n', JoinPipes(key'), c')
    {
      if k' == k {
        assert (n, key, c) in done + {(n, key, c)};
      } else {
        var n', key', c' :| LiveCell(cat, db, st, n', key', c') && (n', key', c') in done && k' == CellKey(n', JoinPipes(key'), c');
        assert (n', key', c') in done + {(n, key, c)};
      }
    }
  }

  ghost function RowDone(t: Table, n: Bytes, key: seq<Bytes>, upTo: nat): set<(Bytes, seq<Bytes>, Bytes)>
    requires upTo <= |t.columns|
  {
    set c | c in t.columns[..upTo] && c !in t.pkColumns :: (n, key, c)
  }

  /** The cells of one row; None when one of them is NULL, which the query cannot scan into a string. */
  method RowCells(cat: Catalog, db: Database, st: Bytes, n: Bytes, key: seq<Bytes>, state: State,
                  ghost done: set<(Bytes, seq<Bytes>, Bytes)>)
    returns (r: Option<State>)
    requires PlainNames(cat) && Mirror.PlainRows(cat, db) && Covers(cat, db, st, done, state)
    requires n in cat && cat[n].stream == st && n in db && key in db[n]
    ensures r == None <==> exists c :: LiveCell(cat, db, st, n, key, c) && db[n][key][c] == None
    ensures r.Some? ==> Covers(cat, db, st, done + RowDone(cat[n], n, key, |cat[n].columns|), r.value)
  {
    hide CellKey, JoinPipes, PlainNames, Covers;
    var t, row := cat[n], db[n][key];
    var out := state;
    assert done + RowDone(t, n, key, 0) == done;
    for i := 0 to |t.columns|
      invariant Covers(cat, db, st, done + RowDone(t, n, key, i), out)
      invariant forall c <- t.columns[..i] :: c !in t.pkColumns ==> row[c] != None
    {
      var c := t.columns[i];
      assert t.columns[..i + 1] == t.columns[..i] + [c];
      if c in t.pkColumns {
        assert done + RowDone(t, n, key, i + 1) == done + RowDone(t, n, key, i);
      } else {
        assert LiveCell(cat, db, st, n, key, c);
        if row[c] == None {
          return None;
        }
        CoverCell(cat, db, st, done + RowDone(t, n, key, i), out, n, key, c);
        assert done + RowDone(t, n, key, i + 1) == done + RowDone(t, n, key, i) + {(n, key, c)};
        out := out[CellKey(n, JoinPipes(key), c) := row[c].value];
      }
    }
    assert t.columns[..|t.columns|] == t.columns;
    return Some(out);
  }

  ghost predicate NullCellAt(cat: Catalog, db: Database, st: Bytes, n: Bytes, key: seq<Bytes>) {
    exists c :: LiveCell(cat, db, st, n, key, c) && db[n][key][c] == None
  }

  /** Some live cell of the stream is NULL. */
  ghost predicate HasNull(cat: Catalog, db: Database, st: Bytes) {
    exists n, key :: NullCellAt(cat, db, st, n, key)
  }

  ghost predicate TableDone(cat: Catalog, db: Database, st: Bytes, n: Bytes, rows: set<seq<Bytes>>, done: set<(Bytes, seq<Bytes>, Bytes)>) {
    && (forall key <- rows :: !NullCellAt(cat, db, st, n, key))
    && forall key, c :: key in rows && LiveCell(cat, db, st, n, key, c) ==> (n, key, c) in done
  }

  method TableCells(cat: Catalog, db: Database, st: Bytes, n: Bytes, state: State, ghost done: set<(Bytes, seq<Bytes>, Bytes)>)
    returns (r: Option<State>, ghost all: set<(Bytes, seq<Bytes>, Bytes)>)
    requires PlainNames(cat) && Mirror.PlainRows(cat, db) && Covers(cat, db, st, done, state)
    requires n in cat && cat[n].stream == st && n in db
    ensures r == None <==> exists key :: NullCellAt(cat, db, st, n, key)
    ensures r.Some? ==> done <= all && Covers(cat, db, st, all, r.value) && TableDone(cat, db, st, n, db[n].Keys, all)
  {
    hide CellKey, JoinPipes, PlainNames, Mirror.PlainRows, Covers;
    var out, left := state, db[n].Keys;
    all := done;
    while left != {}
      invariant left <= db[n].Keys && done <= all && Covers(cat, db, st, all, out)
      invariant TableDone(cat, db, st, n, db[n].Keys - left, all)
      decreases left
    {
      var key :| key in left;
      var next := RowCells(cat, db, st, n, key, out, all);
      if next == None {
        assert NullCellAt(cat, db, st, n, key);
        return None, all;
      }
      ghost var t := cat[n];
      assert t.columns[..|t.columns|] == t.columns;
      all := all + RowDone(t, n, key, |t.columns|);
      left := left - {key};
      out := next.value;
    }
    return Some(out), all;
  }

  /**
   The projection the driver compares with: the cells of every non-key column of every table of the
   stream.  It fails exactly when one of them is NULL.
   */
  method LiveCells(cat: Catalog, db: Database, st: Bytes) returns (r: Option<State>)
    requires PlainNames(cat) && Mirror.PlainRows(cat, db) && db.Keys == cat.Keys
    ensures r == None <==> HasNull(cat, db, st)
    ensures r.Some? ==> Mirrors(cat, db, st, r.value)
  {
    hide CellKey, JoinPipes, PlainNames, Mirror.PlainRows;
    var out: State := map[];
    var left := cat.Keys;
    ghost var done: set<(Bytes, seq<Bytes>, Bytes)> := {};
    while left != {}
      invariant left <= cat.Keys && Covers(cat, db, st, done, out)
      invariant forall n <- cat.Keys - left :: cat[n].stream == st ==> TableDone(cat, db, st, n, db[n].Keys, done)
      decreases left
    {
      var n :| n in left;
      left := left - {n};
      if cat[n].stream == st {
        var next, all := TableCells(cat, db, st, n, out, done);
        if next == None {
          return None;
        }
        out, done := next.value, all;
      }
    }
    return Some(out);
  }

  // ---------------------------------------------------------------- the comparison

  /** What a Go map yields: the empty string for a missing key. */
  function OrEmpty(m: State, k: Bytes): Bytes {
    if k in m then m[k] else []
  }

  /** Equal sizes, and every live cell looked up in the rebuilt state. */
  method CompareCells(live: State, rebuilt: State) returns (ok: bool)
    ensures ok <==> |live| == |rebuilt| && forall k <- live :: OrEmpty(rebuilt, k) == live[k]
  {
    if |live| != |rebuilt| {
      return false;
    }
    var left := live.Keys;
    while left != {}
      invariant left <= live.Keys && forall k <- live.Keys - left :: OrEmpty(rebuilt, k) == live[k]
      decreases left
    {
      var k :| k in left;
      left := left - {k};
      if OrEmpty(rebuilt, k) != live[k] {
        return false;
      }
    }
    return true;
  }

  /** The comparison means equality exactly when the rebuilt state has every live cell that is empty. */
  lemma ComparisonIff(live: State, rebuilt: State)
    ensures live == rebuilt <==>
      && |live| == |rebuilt| && (forall k <- live :: OrEmpty(rebuilt, k) == live[k])
      && forall k <- live :: live[k] == [] ==> k in rebuilt
  {
    if |live| == |rebuilt| && (forall k <- live :: k in rebuilt && rebuilt[k] == live[k]) {
      SameKeys(live.Keys, rebuilt.Keys);
    }
  }

  lemma SameKeys<T>(a: set<T>, b: set<T>)
    requires a <= b && |a| == |b|
    ensures a == b
  {
    assert b == a + (b - a);
  }

  /** Without that, different states compare equal. */
  lemma ComparisonMissesEmptyCell(k: Bytes, k': Bytes, v: Bytes)
    requires k != k'
    ensures var live: State, rebuilt: State := map[k := []], map[k' := v];
      live != rebuilt && |live| == |rebuilt| && forall j <- live :: OrEmpty(rebuilt, j) == live[j]
  {
    assert k in map[k := v] && k !in map[k' := v];
  }

  // ---------------------------------------------------------------- one stream

  /** A stream is confidential as soon as one of its tables is. */
  lemma StreamConfIff(cat: Catalog, st: Bytes)
    ensures !StreamConf(cat, st) <==> forall n <- cat :: cat[n].stream == st ==> !cat[n].confidential
  {
  }

  /** When the driver is content with a stream. */
  ghost predicate Passes(s: Setup, cat: Catalog, db: Database, st: Bytes, ps: seq<Posting>) {
    if ps == [] then true
    else if StreamConf(cat, st) then forall p <- ps :: Confidential(s, p.row.table)
    else !HasNull(cat, db, st)
  }

  /** The state that the lineage of the stream's indexed head rebuilds to, under the stream's keys. */
  ghost predicate FromChain(s: Setup, b: Books, st: Bytes, state: State) {
    && st in s.rels
    && exists head, recs :: IsHead(b.chainIndex, st, head) && OnChain(b.node.txs, ReadFirst, head, recs)
         && Rebuilt(s.tagger, s.rels[st], recs) == Ok(state)
  }

  ghost predicate Drained(s: Setup, cat: Catalog, stmts: seq<Statement>, b: Books, posted: seq<Posting>)
    requires ValidCatalog(cat)
  {
    InOrder(s, b, posted) && Rows(posted) == Outbox(cat, stmts) && forall p <- posted :: Encodable(p.row)
  }

  /** Everything the verifiers need to know of one stream after the drain. */
  lemma StreamFacts(s: Setup, cat: Catalog, stmts: seq<Statement>, b: Books, posted: seq<Posting>, st: Bytes)
    requires ValidCatalog(cat) && KnowsCatalog(s, cat) && Drained(s, cat, stmts, b, posted)
    ensures var ps := StreamOf(posted, st);
      && OnChain(b.node.txs, ReadFirst, TxidAt(ps, |ps|), Recs(ps))
      && (forall p <- ps :: MadeFor(s, st, p) && p.row.table in cat && cat[p.row.table].stream == st)
      && (ps != [] ==> st in s.rels)
      && Rows(ps) == OfStream(Outbox(cat, stmts), st)
    ensures ValidSetup(s)
  {
    assert ValidSetup(s);
    hide InOrder, StreamOf, OnChain, MadeFor, OfStream, Outbox, Linked, Encodable;
    StreamOnChain(s, b, posted, st);
    StreamOfLength(posted, st);
    StreamRows(posted, st);
    OutboxTables(cat, stmts);
    var ps := StreamOf(posted, st);
    PostingsMade(s, ps, st);
    forall p | p in ps ensures p.row.table in cat && cat[p.row.table].stream == st {
      var i :| 0 <= i < |posted| && posted[i] == p;
      assert Rows(posted)[i] == p.row;
    }
  }

  /** A plaintext stream: what the cold rebuild yields from the head, and that it mirrors the database. */
  lemma PlainStream(s: Setup, cat: Catalog, stmts: seq<Statement>, b: Books, posted: seq<Posting>, st: Bytes)
    requires ValidCatalog(cat) && PlainNames(cat) && Mirror.Faithful(cat, stmts) && KnowsCatalog(s, cat)
    requires Drained(s, cat, stmts, b, posted) && st in s.rels && !StreamConf(cat, st)
    ensures var ps := StreamOf(posted, st);
      var state := Replay(map[], Rows(ps));
      && OnChain(b.node.txs, ReadFirst, TxidAt(ps, |ps|), Recs(ps))
      && Rebuilt(s.tagger, s.rels[st], Recs(ps)) == Ok(state)
      && Mirrors(cat, Run(cat, stmts), st, state)
  {
    var ps := StreamOf(posted, st);
    StreamFacts(s, cat, stmts, b, posted, st);
    forall p | p in ps ensures !Confidential(s, p.row.table) {
      assert p.row.table in cat;
    }
    RebuiltIsReplay(s, st, ps);
    Mirror.RunMirrors(cat, stmts, st);
  }

  /** So the chain holds the live cells of a plaintext stream, whether or not the comparison comes to run. */
  lemma ChainMirrors(s: Setup, cat: Catalog, stmts: seq<Statement>, b: Books, posted: seq<Posting>, st: Bytes)
    requires ValidCatalog(cat) && PlainNames(cat) && Mirror.Faithful(cat, stmts) && KnowsCatalog(s, cat)
    requires Drained(s, cat, stmts, b, posted) && st in s.rels && !StreamConf(cat, st) && StreamOf(posted, st) != []
    ensures exists state :: FromChain(s, b, st, state) && Mirrors(cat, Run(cat, stmts), st, state)
  {
    hide InOrder, StreamOf, OnChain, Mirrors, Rebuilt, Outbox, Run, Replay;
    var ps := StreamOf(posted, st);
    PlainStream(s, cat, stmts, b, posted, st);
    LastIsHead(s, b, posted, st);
    assert FromChain(s, b, st, Replay(map[], Rows(ps)));
  }

  lemma LastIsHead(s: Setup, b: Books, posted: seq<Posting>, st: Bytes)
    requires InOrder(s, b, posted) && StreamOf(posted, st) != []
    ensures var ps := StreamOf(posted, st); IsHead(b.chainIndex, st, TxidAt(ps, |ps|))
  {
    hide StreamOf, Counted, Headed, Blinded, AllLinked, Recorded, ValidSetup, Ledger.Valid, Holds;
    var ps, index := StreamOf(posted, st), b.chainIndex;
    assert Indexed(posted, index);
    var last: nat := |ps| - 1;
    assert (st, last) in index && index[(st, last)] == ps[last].txid;
    assert forall j: nat :: (st, j) in index ==> j <= last;
  }

  /**
   The check of one stream.  A plaintext stream always rebuilds, and what the lineage of its indexed head rebuilds
   to is exactly the live cells; the check as a whole passes unless a live cell is NULL, or the stream is called
   confidential but some entry is not.
   */
  method VerifyStream(s: Setup, cat: Catalog, db: Database, b: Books, st: Bytes, rel: Relationship,
                      ghost stmts: seq<Statement>, ghost posted: seq<Posting>)
    returns (e: Option<TeWriter.Error>, rebuilt: Option<State>)
    requires ValidCatalog(cat) && PlainNames(cat) && Mirror.Faithful(cat, stmts) && KnowsCatalog(s, cat)
    requires Drained(s, cat, stmts, b, posted) && db == Run(cat, stmts) && st in s.rels && rel == s.rels[st]
    ensures e == None <==> Passes(s, cat, db, st, StreamOf(posted, st))
    ensures rebuilt.Some? <==> StreamOf(posted, st) != [] && !StreamConf(cat, st)
    ensures rebuilt.Some? ==> FromChain(s, b, st, rebuilt.value) && Mirrors(cat, db, st, rebuilt.value)
  {
    hide InOrder, StreamOf, OnChain, MadeFor, Mirrors, HasNull, Rebuilt, Sealed, Outbox, Run, Linked, Replay, OfStream;
    hide IsHead;
    ghost var ps := StreamOf(posted, st);
    StreamFacts(s, cat, stmts, b, posted, st);
    var head := LatestTxid(b.chainIndex, st);
    LatestIsHead(s, b, posted, st, head);
    if head == None {
      return None, None;
    }
    if StreamConf(cat, st) {
      var n := ColdVerifyConfidential(s.tagger, b.node.txs, head.value, rel);
      SealedPostings(s, st, ps);
      return if n.Ok? then None else Some(n.error), None;
    }
    PlainStream(s, cat, stmts, b, posted, st);
    var got := ColdRebuild(s.tagger, b.node.txs, head.value, rel);
    var cells := got.value.0;
    rebuilt := Some(cells);
    assert FromChain(s, b, st, cells);
    Mirror.RunMirrors(cat, stmts, st);
    Mirror.RowsArePlain(cat, db);
    var live := LiveCells(cat, db, st);
    if live == None {
      return Some(NullCell), rebuilt;
    }
    MirrorUnique(cat, db, st, live.value, cells);
    var same := CompareCells(live.value, cells);
    assert same;
    return None, rebuilt;
  }

  /**
   The whole run on a fresh schema: the statements have filled the outbox, the writer drains it, and then checks
   every stream it has keys for.  If the drain completes, the chain holds exactly the live cells of every plaintext
   stream with an entry, and the run passes if and only if each stream does.
   */
  method RunWriter(s: Setup, cat: Catalog, db: Database, node: Node, utxo: Outpoint, sats: nat,
                   pending: seq<OutboxRow>, blinds: seq<Bytes>, ghost stmts: seq<Statement>)
    returns (e: Option<TeWriter.Error>, drained: bool, books: Books, rebuilt: map<Bytes, State>, ghost posted: seq<Posting>)
    requires ValidSetup(s) && Ledger.Valid(node) && Holds(s, node, utxo, sats)
    requires ValidCatalog(cat) && PlainNames(cat) && KnowsCatalog(s, cat) && Mirror.Faithful(cat, stmts)
    requires db == Run(cat, stmts) && pending == Outbox(cat, stmts)
    requires |pending| == |blinds| < TWO_64 && forall r <- pending :: Encodable(r)
    ensures InOrder(s, books, posted) && (drained ==> Rows(posted) == Outbox(cat, stmts)) && (e == None ==> drained)
    ensures drained ==> (e == None <==> forall st <- s.rels :: Passes(s, cat, db, st, StreamOf(posted, st)))
    ensures drained ==> forall st <- s.rels :: StreamOf(posted, st) != [] && !StreamConf(cat, st) ==>
      exists state :: FromChain(s, books, st, state) && Mirrors(cat, db, st, state)
    ensures e == None ==> forall st <- s.rels :: StreamOf(posted, st) != [] && !StreamConf(cat, st) ==>
      st in rebuilt && FromChain(s, books, st, rebuilt[st]) && Mirrors(cat, db, st, rebuilt[st])
  {
    hide *;
    rebuilt := map[];
    drained := false;
    e, books, posted := Drain(s, node, utxo, sats, pending, blinds);
    if e.Some? {
      return;
    }
    drained := true;
    PostedRows(posted, pending);
    DrainedIs(s, cat, stmts, books, posted);
    forall st | st in s.rels && StreamOf(posted, st) != [] && !StreamConf(cat, st)
      ensures exists state :: FromChain(s, books, st, state) && Mirrors(cat, db, st, state)
    {
      ChainMirrors(s, cat, stmts, books, posted, st);
    }
    var left := s.rels.Keys;
    while left != {}
      invariant left <= s.rels.Keys
      invariant forall st <- s.rels.Keys - left :: Passes(s, cat, db, st, StreamOf(posted, st))
      invariant forall st <- s.rels.Keys - left :: StreamOf(posted, st) != [] && !StreamConf(cat, st) ==>
        st in rebuilt && FromChain(s, books, st, rebuilt[st]) && Mirrors(cat, db, st, rebuilt[st])
      decreases left
    {
      var st :| st in left;
      left := left - {st};
      var cells: Option<State>;
      e, cells := VerifyStream(s, cat, db, books, st, s.rels[st], stmts, posted);
      if e.Some? {
        return;
      }
      if cells.Some? {
        rebuilt := rebuilt[st := cells.value];
      }
    }
    e := None;
  }

  lemma PostedRows(posted: seq<Posting>, pending: seq<OutboxRow>)
    requires Rows(posted) == pending && forall r <- pending :: Encodable(r)
    ensures forall p <- posted :: Encodable(p.row)
  {
    forall p | p in posted ensures p.row in pending {
      var i :| 0 <= i < |posted| && posted[i] == p;
      assert Rows(posted)[i] == p.row;
    }
  }

  lemma DrainedIs(s: Setup, cat: Catalog, stmts: seq<Statement>, b: Books, posted: seq<Posting>)
    requires ValidCatalog(cat) && InOrder(s, b, posted) && Rows(posted) == Outbox(cat, stmts)
    requires forall p <- posted :: Encodable(p.row)
    ensures Drained(s, cat, stmts, b, posted)
  {
  }
}
