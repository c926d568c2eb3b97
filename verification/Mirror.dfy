/** Replaying a stream's captured changes rebuilds the live cells of the stream. */
module Mirror {
  import opened Wrappers
  import opened ByteStrings
  import opened Capture

  lemma {:induction false} ReplayAppend(state: State, a: seq<OutboxRow>, b: seq<OutboxRow>)
    ensures Replay(state, a + b) == Replay(Replay(state, a), b)
  {
    if b == [] {
      assert a + b == a;
    } else {
      var n := |b| - 1;
      assert (a + b)[..|a + b| - 1] == a + b[..n];
      ReplayAppend(state, a, b[..n]);
    }
  }

  lemma {:induction false} OfStreamAppend(a: seq<OutboxRow>, b: seq<OutboxRow>, s: Bytes)
    ensures OfStream(a + b, s) == OfStream(a, s) + OfStream(b, s)
  {
    if b == [] {
      assert a + b == a;
    } else {
      var n := |b| - 1;
      assert (a + b)[..|a + b| - 1] == a + b[..n];
      OfStreamAppend(a, b[..n], s);
    }
  }

  lemma {:induction false} OfStreamAll(rows: seq<OutboxRow>, s: Bytes, t: Bytes)
    requires forall r <- rows :: r.stream == t
    ensures OfStream(rows, s) == if s == t then rows else []
  {
    if rows != [] {
      var n := |rows| - 1;
      var before := rows[..n];
      forall r | r in before ensures r.stream == t {
        assert r in rows;
      }
      OfStreamAll(before, s, t);
      assert rows[n] in rows;
      assert rows == before + [rows[n]];
    }
  }

  lemma {:induction false} ChangesStream(t: Table, name: Bytes, rid: Bytes, old_: Option<Row>, new_: Option<Row>, cols: seq<Bytes>)
    requires old_.Some? ==> forall c <- cols :: c in old_.value
    requires new_.Some? ==> forall c <- cols :: c in new_.value
    ensures forall r <- Changes(t, name, rid, old_, new_, cols) :: r.stream == t.stream
  {
    if cols != [] {
      var n := |cols| - 1;
      ChangesStream(t, name, rid, old_, new_, cols[..n]);
    }
  }

  /** A non-key column among the given ones. */
  ghost predicate Touches(t: Table, cols: seq<Bytes>, c: Bytes) {
    c in cols && c !in t.pkColumns
  }

  /** The cell holds what the row says, or is gone when there is no row. */
  ghost predicate CellIs(state: State, name: Bytes, rid: Bytes, row: Option<Row>, c: Bytes)
    requires row.Some? ==> c in row.value
  {
    var k := CellKey(name, rid, c);
    match row
    case None => k !in state
    case Some(r) => k in state && state[k] == Text(r[c])
  }

  lemma SameRowCells(name: Bytes, rid: Bytes, c: Bytes, c': Bytes)
    ensures CellKey(name, rid, c) == CellKey(name, rid, c') ==> c == c'
  {
    var k, k' := CellKey(name, rid, c), CellKey(name, rid, c');
    var at := |name| + 1 + |rid| + 1;
    assert k[at..] == c && k'[at..] == c';
  }

  /** The cells of the given columns hold the row; every other cell is as it was. */
  ghost predicate Effect(t: Table, name: Bytes, rid: Bytes, row: Option<Row>, cols: seq<Bytes>, before: State, after: State)
    requires row.Some? ==> forall c <- cols :: c in row.value
  {
    && (forall c :: Touches(t, cols, c) ==> CellIs(after, name, rid, row, c))
    && (forall k :: Untouched(t, name, rid, cols, k) ==> (k in after <==> k in before) && (k in before ==> after[k] == before[k]))
  }

  ghost predicate Untouched(t: Table, name: Bytes, rid: Bytes, cols: seq<Bytes>, k: Bytes) {
    forall c :: Touches(t, cols, c) ==> k != CellKey(name, rid, c)
  }

  lemma EffectStep(t: Table, name: Bytes, rid: Bytes, old_: Option<Row>, new_: Option<Row>,
                   front: seq<Bytes>, c0: Bytes, state: State, mid: State)
    requires old_.Some? ==> forall c <- front + [c0] :: c in old_.value
    requires new_.Some? ==> forall c <- front + [c0] :: c in new_.value
    requires c0 !in front && (c0 !in t.pkColumns ==> CellIs(state, name, rid, old_, c0))
    requires Effect(t, name, rid, new_, front, state, mid)
    ensures var change := ColumnChange(t, name, rid, old_, new_, c0);
      Effect(t, name, rid, new_, front + [c0], state, if change.Some? then ApplyChange(mid, change.value) else mid)
  {
    var cols := front + [c0];
    var change := ColumnChange(t, name, rid, old_, new_, c0);
    var after := if change.Some? then ApplyChange(mid, change.value) else mid;
    var k0 := CellKey(name, rid, c0);
    forall c | Touches(t, front, c) ensures k0 != CellKey(name, rid, c) {
      SameRowCells(name, rid, c0, c);
    }
    assert Untouched(t, name, rid, front, k0);
    forall c | Touches(t, cols, c) ensures CellIs(after, name, rid, new_, c) {
      if c != c0 {
        assert Touches(t, front, c);
      }
    }
    forall k | Untouched(t, name, rid, cols, k)
      ensures (k in after <==> k in state) && (k in state ==> after[k] == state[k])
    {
      if c0 !in t.pkColumns {
        assert Touches(t, cols, c0);
      }
      assert forall c :: Touches(t, front, c) ==> Touches(t, cols, c);
      assert Untouched(t, name, rid, front, k);
    }
  }

  /** Replaying the changes of one row brings its cells from the old row to the new, and nothing else. */
  lemma {:induction false} ReplayChanges(t: Table, name: Bytes, rid: Bytes, old_: Option<Row>, new_: Option<Row>,
                                         cols: seq<Bytes>, state: State)
    requires old_.Some? ==> forall c <- cols :: c in old_.value
    requires new_.Some? ==> forall c <- cols :: c in new_.value
    requires forall c :: Touches(t, cols, c) ==> CellIs(state, name, rid, old_, c)
    requires forall i, j :: 0 <= i < j < |cols| ==> cols[i] != cols[j]
    ensures Effect(t, name, rid, new_, cols, state, Replay(state, Changes(t, name, rid, old_, new_, cols)))
  {
    if cols != [] {
      var n := |cols| - 1;
      var c0, front := cols[n], cols[..n];
      assert cols == front + [c0];
      assert forall c :: Touches(t, front, c) ==> Touches(t, cols, c);
      assert c0 !in t.pkColumns ==> Touches(t, cols, c0);
      ReplayChanges(t, name, rid, old_, new_, front, state);
      var before := Changes(t, name, rid, old_, new_, front);
      EffectStep(t, name, rid, old_, new_, front, c0, state, Replay(state, before));
      var change := ColumnChange(t, name, rid, old_, new_, c0);
      if change.Some? {
        assert (before + [change.value])[..|before|] == before;
      }
    }
  }

  // ---------------------------------------------------------------- one statement

  ghost function RowAt(db: Database, n: Bytes, key: seq<Bytes>): Option<Row>
    requires n in db
  {
    if key in db[n] then Some(db[n][key]) else None
  }

  /** db with the row at key replaced, added or removed. */
  ghost function SetRow(db: Database, n: Bytes, key: seq<Bytes>, row: Option<Row>): Database
    requires n in db
  {
    db[n := if row.Some? then db[n][key := row.value] else db[n] - {key}]
  }

  /** Row keys are plain, as wide as the primary key, and the rows have the columns of their table. */
  ghost predicate PlainRows(cat: Catalog, db: Database) {
    forall n, key :: n in cat && n in db && key in db[n] ==>
      PlainKey(key) && |key| == |cat[n].pkColumns| && HasColumns(cat[n], db[n][key])
  }

  lemma RowsArePlain(cat: Catalog, db: Database)
    requires ValidCatalog(cat) && ValidDatabase(cat, db) && PlainKeys(cat, db)
    ensures PlainRows(cat, db)
  {
    forall n, key | n in cat && n in db && key in db[n] ensures |key| == |cat[n].pkColumns| {
      assert KeyOf(cat[n], db[n][key]) == key;
    }
  }

  lemma OtherCells(cat: Catalog, n: Bytes, key: seq<Bytes>, n': Bytes, key': seq<Bytes>, c: Bytes, c': Bytes)
    requires PlainNames(cat)
    requires n in cat && c in cat[n].columns && n' in cat && c' in cat[n'].columns
    requires PlainKey(key) && PlainKey(key') && (n == n' ==> |key| == |key'|)
    requires n != n' || key != key'
    ensures CellKey(n, JoinPipes(key), c) != CellKey(n', JoinPipes(key'), c')
  {
    if CellKey(n, JoinPipes(key), c) == CellKey(n', JoinPipes(key'), c') {
      CellKeyInjective(n, JoinPipes(key), c, n', JoinPipes(key'), c');
      RowIdInjective(key, key');
    }
  }

  /** A mirror holds the old row's cells before the change. */
  lemma MirrorBefore(cat: Catalog, db: Database, n: Bytes, key: seq<Bytes>, s: Bytes, state: State, c: Bytes)
    requires PlainNames(cat) && PlainRows(cat, db) && Mirrors(cat, db, s, state)
    requires n in cat && n in db && cat[n].stream == s && PlainKey(key) && |key| == |cat[n].pkColumns|
    requires Touches(cat[n], cat[n].columns, c)
    ensures RowAt(db, n, key).Some? ==> c in RowAt(db, n, key).value
    ensures CellIs(state, n, JoinPipes(key), RowAt(db, n, key), c)
  {
    var k := CellKey(n, JoinPipes(key), c);
    if key in db[n] {
      assert LiveCell(cat, db, s, n, key, c);
    } else if k in state {
      var n', key', c' :| LiveCell(cat, db, s, n', key', c') && k == CellKey(n', JoinPipes(key'), c');
      OtherCells(cat, n, key, n', key', c, c');
    }
  }

  lemma OtherUntouched(cat: Catalog, db: Database, n: Bytes, key: seq<Bytes>, s: Bytes, n': Bytes, key': seq<Bytes>, c': Bytes)
    requires PlainNames(cat) && PlainRows(cat, db) && n in cat && PlainKey(key) && |key| == |cat[n].pkColumns|
    requires LiveCell(cat, db, s, n', key', c') && (n' != n || key' != key)
    ensures Untouched(cat[n], n, JoinPipes(key), cat[n].columns, CellKey(n', JoinPipes(key'), c'))
  {
    forall c | Touches(cat[n], cat[n].columns, c) ensures CellKey(n', JoinPipes(key'), c') != CellKey(n, JoinPipes(key), c) {
      OtherCells(cat, n, key, n', key', c, c');
    }
  }

  /** A state with the effect of the row change mirrors the changed database. */
  lemma EffectMirrors(cat: Catalog, db: Database, n: Bytes, key: seq<Bytes>, row: Option<Row>, s: Bytes, state: State, after: State)
    requires PlainNames(cat) && PlainRows(cat, db) && Mirrors(cat, db, s, state)
    requires n in cat && n in db && cat[n].stream == s && PlainKey(key) && |key| == |cat[n].pkColumns|
    requires row.Some? ==> HasColumns(cat[n], row.value)
    requires Effect(cat[n], n, JoinPipes(key), row, cat[n].columns, state, after)
    ensures Mirrors(cat, SetRow(db, n, key, row), s, after)
  {
    forall n', key', c' | LiveCell(cat, SetRow(db, n, key, row), s, n', key', c')
      ensures CellKey(n', JoinPipes(key'), c') in after
      ensures after[CellKey(n', JoinPipes(key'), c')] == Text(SetRow(db, n, key, row)[n'][key'][c'])
    {
      EffectOnCell(cat, db, n, key, row, s, state, after, n', key', c');
    }
    forall k | k in after
      ensures exists n', key', c' ::
        LiveCell(cat, SetRow(db, n, key, row), s, n', key', c') && k == CellKey(n', JoinPipes(key'), c')
    {
      var n', key', c' := CellOfKey(cat, db, n, key, row, s, state, after, k);
    }
  }

  lemma EffectOnCell(cat: Catalog, db: Database, n: Bytes, key: seq<Bytes>, row: Option<Row>, s: Bytes,
                     state: State, after: State, n': Bytes, key': seq<Bytes>, c': Bytes)
    requires PlainNames(cat) && PlainRows(cat, db) && Mirrors(cat, db, s, state)
    requires n in cat && n in db && PlainKey(key) && |key| == |cat[n].pkColumns|
    requires row.Some? ==> HasColumns(cat[n], row.value)
    requires Effect(cat[n], n, JoinPipes(key), row, cat[n].columns, state, after)
    requires LiveCell(cat, SetRow(db, n, key, row), s, n', key', c')
    ensures CellKey(n', JoinPipes(key'), c') in after
    ensures after[CellKey(n', JoinPipes(key'), c')] == Text(SetRow(db, n, key, row)[n'][key'][c'])
  {
    if n' == n && key' == key {
      assert Touches(cat[n], cat[n].columns, c');
      assert CellIs(after, n, JoinPipes(key), row, c');
    } else {
      assert LiveCell(cat, db, s, n', key', c');
      OtherUntouched(cat, db, n, key, s, n', key', c');
    }
  }

  lemma CellOfKey(cat: Catalog, db: Database, n: Bytes, key: seq<Bytes>, row: Option<Row>, s: Bytes,
                  state: State, after: State, k: Bytes)
    returns (n': Bytes, key': seq<Bytes>, c': Bytes)
    requires Mirrors(cat, db, s, state)
    requires n in cat && n in db && cat[n].stream == s
    requires row.Some? ==> HasColumns(cat[n], row.value)
    requires Effect(cat[n], n, JoinPipes(key), row, cat[n].columns, state, after)
    requires k in after
    ensures LiveCell(cat, SetRow(db, n, key, row), s, n', key', c') && k == CellKey(n', JoinPipes(key'), c')
  {
    if Untouched(cat[n], n, JoinPipes(key), cat[n].columns, k) {
      n', key', c' :| LiveCell(cat, db, s, n', key', c') && k == CellKey(n', JoinPipes(key'), c');
      KeptCell(cat, db, n, key, row, s, n', key', c');
    } else {
      c' :| Touches(cat[n], cat[n].columns, c') && k == CellKey(n, JoinPipes(key), c');
      assert CellIs(after, n, JoinPipes(key), row, c');
      n', key' := n, key;
      assert row.Some?;
    }
  }

  lemma KeptCell(cat: Catalog, db: Database, n: Bytes, key: seq<Bytes>, row: Option<Row>, s: Bytes,
                 n': Bytes, key': seq<Bytes>, c': Bytes)
    requires n in cat && n in db && LiveCell(cat, db, s, n', key', c')
    requires Untouched(cat[n], n, JoinPipes(key), cat[n].columns, CellKey(n', JoinPipes(key'), c'))
    ensures LiveCell(cat, SetRow(db, n, key, row), s, n', key', c')
  {
    if n' == n && key' == key {
      assert Touches(cat[n], cat[n].columns, c');
    }
  }

  /** Changing one row and replaying its changes keeps the mirror. */
  lemma SetRowMirrors(cat: Catalog, db: Database, n: Bytes, key: seq<Bytes>, row: Option<Row>, s: Bytes, state: State)
    requires ValidCatalog(cat) && PlainNames(cat) && PlainRows(cat, db) && Mirrors(cat, db, s, state)
    requires n in cat && n in db && cat[n].stream == s && PlainKey(key) && |key| == |cat[n].pkColumns|
    requires row.Some? ==> HasColumns(cat[n], row.value)
    ensures var rows := Changes(cat[n], n, JoinPipes(key), RowAt(db, n, key), row, cat[n].columns);
      Mirrors(cat, SetRow(db, n, key, row), s, Replay(state, rows))
  {
    var t, rid, old_ := cat[n], JoinPipes(key), RowAt(db, n, key);
    forall c | Touches(t, t.columns, c) ensures CellIs(state, n, rid, old_, c) {
      MirrorBefore(cat, db, n, key, s, state, c);
    }
    ReplayChanges(t, n, rid, old_, row, t.columns, state);
    EffectMirrors(cat, db, n, key, row, s, state, Replay(state, Changes(t, n, rid, old_, row, t.columns)));
  }

  /** Does the statement leave the primary key of the row it changes alone? */
  ghost predicate KeepsKey(cat: Catalog, s: Statement)
    requires ValidCatalog(cat)
  {
    s.Update? && s.table in cat && HasColumns(cat[s.table], s.row) ==> KeyOf(cat[s.table], s.row) == s.key
  }

  /** Insert, key-preserving update and delete are all a change of one row. */
  lemma StatementSetsRow(cat: Catalog, db: Database, stmt: Statement) returns (key: seq<Bytes>, row: Option<Row>)
    requires ValidCatalog(cat) && ValidDatabase(cat, db) && Takes(cat, db, stmt) && KeepsKey(cat, stmt)
    ensures |key| == |cat[stmt.table].pkColumns|
    ensures row.Some? ==> HasColumns(cat[stmt.table], row.value) && KeyOf(cat[stmt.table], row.value) == key
    ensures stmt.Delete? ==> row == None && key in db[stmt.table]
    ensures !stmt.Delete? ==> row == Some(stmt.row)
    ensures Execute(cat, db, stmt) == SetRow(db, stmt.table, key, row)
    ensures RowAt(db, stmt.table, key).Some? ==> HasColumns(cat[stmt.table], RowAt(db, stmt.table, key).value)
    ensures var t := cat[stmt.table];
      Captured(cat, db, stmt) == Changes(t, stmt.table, JoinPipes(key), RowAt(db, stmt.table, key), row, t.columns)
  {
    var n := stmt.table;
    match stmt
    case Insert(_, r) =>
      key, row := KeyOf(cat[n], r), Some(r);
    case Update(_, k, r) =>
      key, row := k, Some(r);
      assert (db[n] - {key})[key := r] == db[n][key := r];
    case Delete(_, k) =>
      key, row := k, None;
      assert KeyOf(cat[n], db[n][key]) == key;
  }

  lemma PlainKeysKept(cat: Catalog, db: Database, n: Bytes, key: seq<Bytes>, row: Option<Row>)
    requires PlainKeys(cat, db) && n in db && PlainKey(key)
    ensures PlainKeys(cat, SetRow(db, n, key, row))
  {
  }

  /** One statement: the mirror survives it, on the stream of its table and on every other stream. */
  lemma StatementMirrors(cat: Catalog, db: Database, stmt: Statement, s: Bytes, state: State)
    requires ValidCatalog(cat) && ValidDatabase(cat, db) && PlainNames(cat) && PlainKeys(cat, db)
    requires PlainStatement(cat, stmt) && KeepsKey(cat, stmt)
    requires Mirrors(cat, db, s, state)
    ensures Mirrors(cat, Execute(cat, db, stmt), s, Replay(state, OfStream(Captured(cat, db, stmt), s)))
    ensures PlainKeys(cat, Execute(cat, db, stmt))
  {
    if Takes(cat, db, stmt) {
      var n := stmt.table;
      var t := cat[n];
      var key, row := StatementSetsRow(cat, db, stmt);
      RowsArePlain(cat, db);
      assert PlainKey(key);
      PlainKeysKept(cat, db, n, key, row);
      ChangesStream(t, n, JoinPipes(key), RowAt(db, n, key), row, t.columns);
      OfStreamAll(Captured(cat, db, stmt), s, t.stream);
      if t.stream == s {
        SetRowMirrors(cat, db, n, key, row, s, state);
      } else {
        OtherStream(cat, db, n, key, row, s, state);
      }
    }
  }

  lemma OtherStream(cat: Catalog, db: Database, n: Bytes, key: seq<Bytes>, row: Option<Row>, s: Bytes, state: State)
    requires n in cat && n in db && cat[n].stream != s && (row.Some? ==> HasColumns(cat[n], row.value))
    requires Mirrors(cat, db, s, state)
    ensures Mirrors(cat, SetRow(db, n, key, row), s, state)
  {
    hide Mirrors;
    var db' := SetRow(db, n, key, row);
    forall n', key', c' | LiveCell(cat, db', s, n', key', c') || LiveCell(cat, db, s, n', key', c')
      ensures n' != n && LiveCell(cat, db', s, n', key', c') && LiveCell(cat, db, s, n', key', c')
      ensures db'[n'][key'][c'] == db[n'][key'][c']
    {
    }
    SameLiveCells(cat, db, db', s, state);
  }

  // ---------------------------------------------------------------- whole runs

  ghost predicate Faithful(cat: Catalog, stmts: seq<Statement>)
    requires ValidCatalog(cat)
  {
    forall i :: 0 <= i < |stmts| ==> PlainStatement(cat, stmts[i]) && KeepsKey(cat, stmts[i])
  }

  /**
   After any run of statements over any tables and streams, replaying the outbox rows of one stream, in
   order, gives exactly the live cells of that stream.
   */
  lemma {:induction false} RunMirrors(cat: Catalog, stmts: seq<Statement>, s: Bytes)
    requires ValidCatalog(cat) && PlainNames(cat) && Faithful(cat, stmts)
    ensures Mirrors(cat, Run(cat, stmts), s, Replay(map[], OfStream(Outbox(cat, stmts), s)))
    ensures PlainKeys(cat, Run(cat, stmts))
  {
    if stmts != [] {
      var n := |stmts| - 1;
      var before, db := stmts[..n], Run(cat, stmts[..n]);
      RunMirrors(cat, before, s);
      var rows := Captured(cat, db, stmts[n]);
      OfStreamAppend(Outbox(cat, before), rows, s);
      ReplayAppend(map[], OfStream(Outbox(cat, before), s), OfStream(rows, s));
      StatementMirrors(cat, db, stmts[n], s, Replay(map[], OfStream(Outbox(cat, before), s)));
    }
  }

  /**
   A key update is where the trigger falls short: it files the changed columns under the new row id and
   leaves the old cells behind.  From a mirrored state, an update keeps the mirror exactly when it keeps
   the row id or the table has no other column.
   */
  lemma UpdateMirrorsIff(cat: Catalog, db: Database, n: Bytes, key: seq<Bytes>, row: Row, s: Bytes, state: State)
    requires ValidCatalog(cat) && ValidDatabase(cat, db) && PlainNames(cat) && PlainKeys(cat, db)
    requires Takes(cat, db, Update(n, key, row)) && cat[n].stream == s && PlainKey(KeyOf(cat[n], row))
    requires Mirrors(cat, db, s, state)
    ensures var stmt := Update(n, key, row);
      Mirrors(cat, Execute(cat, db, stmt), s, Replay(state, OfStream(Captured(cat, db, stmt), s)))
      <==> KeyOf(cat[n], row) == key || forall c <- cat[n].columns :: c in cat[n].pkColumns
  {
    var t := cat[n];
    RowsArePlain(cat, db);
    if KeyOf(t, row) == key {
      assert KeepsKey(cat, Update(n, key, row));
      StatementMirrors(cat, db, Update(n, key, row), s, state);
    } else {
      UpdateEffect(cat, db, n, key, row, s);
      if c :| c in t.columns && c !in t.pkColumns {
        StaleCell(cat, db, n, key, row, s, state, c);
      } else {
        OnlyKeyColumns(cat, db, n, key, row, s, state);
      }
    }
  }

  lemma UpdateEffect(cat: Catalog, db: Database, n: Bytes, key: seq<Bytes>, row: Row, s: Bytes)
    requires ValidCatalog(cat) && ValidDatabase(cat, db)
    requires Takes(cat, db, Update(n, key, row)) && cat[n].stream == s
    ensures var stmt, t, key' := Update(n, key, row), cat[n], KeyOf(cat[n], row);
      && HasColumns(t, db[n][key])
      && Execute(cat, db, stmt) == db[n := (db[n] - {key})[key' := row]]
      && OfStream(Captured(cat, db, stmt), s) == Changes(t, n, JoinPipes(key'), Some(db[n][key]), Some(row), t.columns)
  {
    var t, key' := cat[n], KeyOf(cat[n], row);
    assert KeyOf(t, db[n][key]) == key;
    ChangesStream(t, n, JoinPipes(key'), Some(db[n][key]), Some(row), t.columns);
    OfStreamAll(Captured(cat, db, Update(n, key, row)), s, s);
  }

  lemma OnlyKeyColumns(cat: Catalog, db: Database, n: Bytes, key: seq<Bytes>, row: Row, s: Bytes, state: State)
    requires ValidCatalog(cat) && Mirrors(cat, db, s, state) && n in cat && n in db && key in db[n]
    requires HasColumns(cat[n], row) && HasColumns(cat[n], db[n][key])
    requires forall c <- cat[n].columns :: c in cat[n].pkColumns
    ensures var t, key' := cat[n], KeyOf(cat[n], row);
      Mirrors(cat, db[n := (db[n] - {key})[key' := row]], s,
              Replay(state, Changes(t, n, JoinPipes(key'), Some(db[n][key]), Some(row), t.columns)))
  {
    hide Mirrors;
    var t, key' := cat[n], KeyOf(cat[n], row);
    NoChanges(t, n, JoinPipes(key'), Some(db[n][key]), Some(row), t.columns);
    var db' := db[n := (db[n] - {key})[key' := row]];
    forall n2, key2, c | LiveCell(cat, db', s, n2, key2, c) || LiveCell(cat, db, s, n2, key2, c)
      ensures n2 != n && LiveCell(cat, db', s, n2, key2, c) && LiveCell(cat, db, s, n2, key2, c)
      ensures db'[n2][key2][c] == db[n2][key2][c]
    {
    }
    SameLiveCells(cat, db, db', s, state);
  }

  lemma SameLiveCells(cat: Catalog, db: Database, db': Database, s: Bytes, state: State)
    requires Mirrors(cat, db, s, state)
    requires forall n, key, c :: LiveCell(cat, db', s, n, key, c) <==> LiveCell(cat, db, s, n, key, c)
    requires forall n, key, c :: LiveCell(cat, db, s, n, key, c) && LiveCell(cat, db', s, n, key, c) ==>
      db'[n][key][c] == db[n][key][c]
    ensures Mirrors(cat, db', s, state)
  {
    forall k | k in state
      ensures exists n', key', c' :: LiveCell(cat, db', s, n', key', c') && k == CellKey(n', JoinPipes(key'), c')
    {
      var n', key', c' :| LiveCell(cat, db, s, n', key', c') && k == CellKey(n', JoinPipes(key'), c');
      assert LiveCell(cat, db', s, n', key', c');
    }
  }

  /** After a key update the cell of the old row id is still there, and no live cell accounts for it. */
  lemma StaleCell(cat: Catalog, db: Database, n: Bytes, key: seq<Bytes>, row: Row, s: Bytes, state: State, c: Bytes)
    requires ValidCatalog(cat) && PlainNames(cat) && PlainRows(cat, db) && Mirrors(cat, db, s, state)
    requires n in cat && n in db && cat[n].stream == s && HasColumns(cat[n], row) && key in db[n]
    requires KeyOf(cat[n], row) != key && PlainKey(KeyOf(cat[n], row))
    requires Touches(cat[n], cat[n].columns, c)
    ensures var t, key' := cat[n], KeyOf(cat[n], row);
      !Mirrors(cat, db[n := (db[n] - {key})[key' := row]], s,
               Replay(state, Changes(t, n, JoinPipes(key'), Some(db[n][key]), Some(row), t.columns)))
  {
    var t, key' := cat[n], KeyOf(cat[n], row);
    var k := CellKey(n, JoinPipes(key), c);
    assert LiveCell(cat, db, s, n, key, c);
    forall c' | c' in t.columns ensures k != CellKey(n, JoinPipes(key'), c') {
      OtherCells(cat, n, key, n, key', c, c');
    }
    UntouchedCell(t, n, JoinPipes(key'), Some(db[n][key]), Some(row), t.columns, state, k);
    NoLiveCellAt(cat, db, n, key, key', row, s, c);
  }

  lemma NoLiveCellAt(cat: Catalog, db: Database, n: Bytes, key: seq<Bytes>, key': seq<Bytes>, row: Row, s: Bytes, c: Bytes)
    requires PlainNames(cat) && PlainRows(cat, db)
    requires n in cat && n in db && key in db[n] && c in cat[n].columns
    requires key' != key && PlainKey(key') && |key'| == |key|
    ensures forall n2, key2, c2 :: LiveCell(cat, db[n := (db[n] - {key})[key' := row]], s, n2, key2, c2) ==>
      CellKey(n, JoinPipes(key), c) != CellKey(n2, JoinPipes(key2), c2)
  {
    var db' := db[n := (db[n] - {key})[key' := row]];
    forall n2, key2, c2 | LiveCell(cat, db', s, n2, key2, c2)
      ensures CellKey(n, JoinPipes(key), c) != CellKey(n2, JoinPipes(key2), c2)
    {
      if n2 == n && key2 == key' {
        OtherCells(cat, n, key, n, key', c, c2);
      } else {
        OtherCells(cat, n, key, n2, key2, c, c2);
      }
    }
  }

  lemma {:induction false} UntouchedCell(t: Table, name: Bytes, rid: Bytes, old_: Option<Row>, new_: Option<Row>,
                                         cols: seq<Bytes>, state: State, k: Bytes)
    requires old_.Some? ==> forall c <- cols :: c in old_.value
    requires new_.Some? ==> forall c <- cols :: c in new_.value
    requires forall c <- cols :: k != CellKey(name, rid, c)
    ensures k in state <==> k in Replay(state, Changes(t, name, rid, old_, new_, cols))
  {
    hide CellKey;
    if cols != [] {
      var n := |cols| - 1;
      UntouchedCell(t, name, rid, old_, new_, cols[..n], state, k);
      var before := Changes(t, name, rid, old_, new_, cols[..n]);
      var change := ColumnChange(t, name, rid, old_, new_, cols[n]);
      if change.Some? {
        assert (before + [change.value])[..|before|] == before;
      }
    }
  }

  lemma {:induction false} NoChanges(t: Table, name: Bytes, rid: Bytes, old_: Option<Row>, new_: Option<Row>, cols: seq<Bytes>)
    requires old_.Some? ==> forall c <- cols :: c in old_.value
    requires new_.Some? ==> forall c <- cols :: c in new_.value
    requires forall c <- cols :: c in t.pkColumns
    ensures Changes(t, name, rid, old_, new_, cols) == []
  {
    if cols != [] {
      NoChanges(t, name, rid, old_, new_, cols[..|cols| - 1]);
    }
  }
}
