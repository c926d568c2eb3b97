/** The SQL surface: journalled tables, the capture trigger and its outbox. */
module Capture {
  import opened Wrappers
  import opened ByteStrings
  import opened Format

  /** A text value, None for NULL. */
  type Value = Option<Bytes>

  type Row = map<Bytes, Value>

  /** te.journalled, with the columns of the table in the order jsonb lists them. */
  datatype Table = Table(columns: seq<Bytes>, pkColumns: seq<Bytes>, stream: Bytes, confidential: bool)

  type Catalog = map<Bytes, Table>

  /** The live rows of each journalled table by primary key. */
  type Database = map<Bytes, map<seq<Bytes>, Row>>

  datatype OutboxRow = OutboxRow(stream: Bytes, table: Bytes, rowId: Bytes, column: Bytes, op: byte, value: Value)

  const PIPE: byte := 0x7c

  /** coalesce(v, ''), which is also what the writer makes of a NULL value. */
  function Text(v: Value): Bytes {
    match v
    case None => []
    case Some(t) => t
  }

  predicate HasColumns(t: Table, row: Row) {
    (forall c <- row :: c in t.columns) && (forall c <- t.columns :: c in row)
  }

  /** string_agg with '|': the values joined by pipes. */
  function JoinPipes(vs: seq<Bytes>): Bytes {
    if vs == [] then [] else if |vs| == 1 then vs[0] else vs[0] + [PIPE] + JoinPipes(vs[1..])
  }

  function KeyOf(t: Table, row: Row): (key: seq<Bytes>)
    requires HasColumns(t, row) && forall c <- t.pkColumns :: c in t.columns
    ensures |key| == |t.pkColumns|
  {
    seq(|t.pkColumns|, i requires 0 <= i < |t.pkColumns| =>
      assert t.pkColumns[i] in t.pkColumns; Text(row[t.pkColumns[i]]))
  }

  /** The row id, part by part: the texts of the key columns in the order of the key, NULL as nothing. */
  lemma KeyAt(t: Table, row: Row, i: nat)
    requires HasColumns(t, row) && (forall c <- t.pkColumns :: c in t.columns) && i < |t.pkColumns|
    ensures t.pkColumns[i] in t.pkColumns && t.pkColumns[i] in row
    ensures KeyOf(t, row)[i] == match row[t.pkColumns[i]] case None => [] case Some(text) => text
  {
    assert t.pkColumns[i] in t.pkColumns;
  }

  /** Joining two lists of values puts one pipe between what each gives. */
  lemma {:induction false} JoinPipesAppend(a: seq<Bytes>, b: seq<Bytes>)
    requires a != [] && b != []
    ensures JoinPipes(a + b) == JoinPipes(a) + ([0x7c] + JoinPipes(b))
    ensures |a| == 1 ==> JoinPipes(a) == a[0]
  {
    assert (a + b)[1..] == a[1..] + b;
    if |a| == 1 {
      assert a[1..] + b == b;
    } else {
      JoinPipesAppend(a[1..], b);
      var head, mid, tail := a[0] + [PIPE], JoinPipes(a[1..]), [0x7c] + JoinPipes(b);
      assert head + (mid + tail) == (head + mid) + tail;
    }
  }

  // ---------------------------------------------------------------- the trigger

  /** The outbox row one column of a changed row gives rise to. */
  function ColumnChange(t: Table, name: Bytes, rid: Bytes, old_: Option<Row>, new_: Option<Row>, c: Bytes)
    : Option<OutboxRow>
    requires old_.Some? ==> c in old_.value
    requires new_.Some? ==> c in new_.value
  {
    if c in t.pkColumns then None
    else if new_.None? then Some(OutboxRow(t.stream, name, rid, c, OP_DELETE, None))
    else if old_.None? then Some(OutboxRow(t.stream, name, rid, c, OP_INSERT, new_.value[c]))
    else if new_.value[c] == old_.value[c] then None
    else Some(OutboxRow(t.stream, name, rid, c, OP_UPDATE, new_.value[c]))
  }

  /** What the trigger writes for the given columns, in order. */
  function Changes(t: Table, name: Bytes, rid: Bytes, old_: Option<Row>, new_: Option<Row>, cols: seq<Bytes>)
    : seq<OutboxRow>
    requires old_.Some? ==> forall c <- cols :: c in old_.value
    requires new_.Some? ==> forall c <- cols :: c in new_.value
  {
    if cols == [] then []
    else
      var n := |cols| - 1;
      var before := Changes(t, name, rid, old_, new_, cols[..n]);
      match ColumnChange(t, name, rid, old_, new_, cols[n])
      case None => before
      case Some(r) => before + [r]
  }

  /** What an outbox row says of column c: deleted, inserted with its value, or changed to a new value. */
  ghost predicate Reports(old_: Option<Row>, new_: Option<Row>, c: Bytes, op: byte, value: Value)
    requires old_.Some? ==> c in old_.value
    requires new_.Some? ==> c in new_.value
  {
    || (op == OP_DELETE && new_ == None && value == None)
    || (op == OP_INSERT && old_ == None && new_.Some? && value == new_.value[c])
    || (op == OP_UPDATE && old_.Some? && new_.Some? && value == new_.value[c] && value != old_.value[c])
  }

  /** The trigger reports exactly the columns outside the key that were deleted, inserted or changed. */
  lemma {:induction false} ReportsExactly(t: Table, name: Bytes, rid: Bytes, old_: Option<Row>, new_: Option<Row>,
                                          cols: seq<Bytes>, r: OutboxRow)
    requires old_.Some? || new_.Some?
    requires old_.Some? ==> forall c <- cols :: c in old_.value
    requires new_.Some? ==> forall c <- cols :: c in new_.value
    ensures r in Changes(t, name, rid, old_, new_, cols) <==>
      && r.stream == t.stream && r.table == name && r.rowId == rid
      && r.column in cols && r.column !in t.pkColumns && Reports(old_, new_, r.column, r.op, r.value)
  {
    if cols != [] {
      var n := |cols| - 1;
      ReportsExactly(t, name, rid, old_, new_, cols[..n], r);
      assert r.column in cols <==> r.column in cols[..n] || r.column == cols[n];
    }
  }

  /** The rows come in the order of the columns. */
  lemma {:induction false} ChangesInOrder(t: Table, name: Bytes, rid: Bytes, old_: Option<Row>, new_: Option<Row>,
                                          a: seq<Bytes>, b: seq<Bytes>)
    requires old_.Some? ==> forall c <- a + b :: c in old_.value
    requires new_.Some? ==> forall c <- a + b :: c in new_.value
    ensures forall c <- a + b :: c in a || c in b
    ensures forall c :: c in a || c in b ==> c in a + b
    ensures Changes(t, name, rid, old_, new_, a + b) ==
      Changes(t, name, rid, old_, new_, a) + Changes(t, name, rid, old_, new_, b)
    ensures |a| == 1 ==> |Changes(t, name, rid, old_, new_, a)| <= 1
    decreases |b|
  {
    hide ColumnChange;
    if |a| == 1 {
      assert a[..0] == [] && Changes(t, name, rid, old_, new_, []) == [];
    }
    if b == [] {
      assert a + b == a;
    } else {
      var n := |b| - 1;
      assert (a + b)[..|a| + n] == a + b[..n] && (a + b)[|a| + n] == b[n];
      assert forall c <- a + b[..n] :: c in a + b;
      ChangesInOrder(t, name, rid, old_, new_, a, b[..n]);
    }
  }

  /** te.capture for a journalled table: NEW is absent on DELETE, OLD on INSERT. */
  method CaptureTrigger(t: Table, name: Bytes, old_: Option<Row>, new_: Option<Row>)
    returns (outbox: seq<OutboxRow>)
    requires old_.Some? || new_.Some?
    requires forall c <- t.pkColumns :: c in t.columns
    requires old_.Some? ==> HasColumns(t, old_.value)
    requires new_.Some? ==> HasColumns(t, new_.value)
    ensures outbox ==
      Changes(t, name, JoinPipes(KeyOf(t, if new_.Some? then new_.value else old_.value)), old_, new_, t.columns)
  {
    var rid := JoinPipes(KeyOf(t, if new_.Some? then new_.value else old_.value));
    outbox := [];
    if new_.None? {
      for i := 0 to |t.columns|
        invariant outbox == Changes(t, name, rid, old_, new_, t.columns[..i])
      {
        var k := t.columns[i];
        assert t.columns[..i + 1][..i] == t.columns[..i];
        if k !in t.pkColumns {
          outbox := outbox + [OutboxRow(t.stream, name, rid, k, OP_DELETE, None)];
        }
      }
      assert t.columns[..|t.columns|] == t.columns;
      return;
    }
    for i := 0 to |t.columns|
      invariant outbox == Changes(t, name, rid, old_, new_, t.columns[..i])
    {
      var k := t.columns[i];
      assert t.columns[..i + 1][..i] == t.columns[..i];
      if k in t.pkColumns {
        continue;
      }
      var newValue := new_.value[k];
      if old_.Some? {
        if newValue == old_.value[k] {
          continue;
        }
        outbox := outbox + [OutboxRow(t.stream, name, rid, k, OP_UPDATE, newValue)];
      } else {
        outbox := outbox + [OutboxRow(t.stream, name, rid, k, OP_INSERT, newValue)];
      }
    }
    assert t.columns[..|t.columns|] == t.columns;
  }

  // ---------------------------------------------------------------- statements

  datatype Statement =
    | Insert(table: Bytes, row: Row)
    | Update(table: Bytes, key: seq<Bytes>, row: Row)
    | Delete(table: Bytes, key: seq<Bytes>)

  /** A primary key names columns of the table, at least one, and no column occurs twice. */
  ghost predicate ValidTable(t: Table) {
    && t.pkColumns != []
    && (forall c <- t.pkColumns :: c in t.columns)
    && (forall i, j :: 0 <= i < j < |t.columns| ==> t.columns[i] != t.columns[j])
  }

  ghost predicate ValidCatalog(cat: Catalog) {
    forall n <- cat :: ValidTable(cat[n])
  }

  /** Every row sits under its own key and has the columns of its table. */
  ghost predicate ValidDatabase(cat: Catalog, db: Database)
    requires ValidCatalog(cat)
  {
    && db.Keys == cat.Keys
    && forall n <- db :: forall key <- db[n] :: HasColumns(cat[n], db[n][key]) && KeyOf(cat[n], db[n][key]) == key
  }

  /** Does the database take the statement?  Keys are unique; other statements fail and change nothing. */
  ghost predicate Takes(cat: Catalog, db: Database, s: Statement)
    requires ValidCatalog(cat) && ValidDatabase(cat, db)
  {
    && s.table in cat
    && match s
       case Insert(n, row) => HasColumns(cat[n], row) && KeyOf(cat[n], row) !in db[n]
       case Update(n, key, row) =>
         && HasColumns(cat[n], row) && key in db[n]
         && (KeyOf(cat[n], row) == key || KeyOf(cat[n], row) !in db[n])
       case Delete(n, key) => key in db[n]
  }

  ghost function Execute(cat: Catalog, db: Database, s: Statement): (r: Database)
    requires ValidCatalog(cat) && ValidDatabase(cat, db)
    ensures ValidDatabase(cat, r)
  {
    if !Takes(cat, db, s) then db
    else match s
      case Insert(n, row) => db[n := db[n][KeyOf(cat[n], row) := row]]
      case Update(n, key, row) => db[n := (db[n] - {key})[KeyOf(cat[n], row) := row]]
      case Delete(n, key) => db[n := db[n] - {key}]
  }

  /** The outbox rows committed with a statement; a table that is not journalled captures nothing. */
  ghost function Captured(cat: Catalog, db: Database, s: Statement): seq<OutboxRow>
    requires ValidCatalog(cat) && ValidDatabase(cat, db)
  {
    if !Takes(cat, db, s) then []
    else
      var t := cat[s.table];
      match s
      case Insert(n, row) => Changes(t, n, JoinPipes(KeyOf(t, row)), None, Some(row), t.columns)
      case Update(n, key, row) => Changes(t, n, JoinPipes(KeyOf(t, row)), Some(db[n][key]), Some(row), t.columns)
      case Delete(n, key) => Changes(t, n, JoinPipes(key), Some(db[n][key]), None, t.columns)
  }

  /** What each kind of statement leaves in the outbox, in the columns outside the key. */
  lemma CapturedIff(cat: Catalog, db: Database, s: Statement, r: OutboxRow)
    requires ValidCatalog(cat) && ValidDatabase(cat, db) && Takes(cat, db, s)
    ensures r in Captured(cat, db, s) <==>
      && r.table == s.table && r.stream == cat[s.table].stream
      && r.column in cat[s.table].columns && r.column !in cat[s.table].pkColumns
      && match s
         case Insert(n, row) => r.rowId == JoinPipes(KeyOf(cat[n], row)) && r.op == 1 && r.value == row[r.column]
         case Update(n, key, row) =>
           && r.rowId == JoinPipes(KeyOf(cat[n], row)) && r.op == 2
           && r.value == row[r.column] && r.value != db[n][key][r.column]
         case Delete(n, key) => r.rowId == JoinPipes(key) && r.op == 3 && r.value == None
  {
    hide JoinPipes, Changes;
    var t := cat[s.table];
    match s
    case Insert(n, row) => ReportsExactly(t, n, JoinPipes(KeyOf(t, row)), None, Some(row), t.columns, r);
    case Update(n, key, row) => ReportsExactly(t, n, JoinPipes(KeyOf(t, row)), Some(db[n][key]), Some(row), t.columns, r);
    case Delete(n, key) => ReportsExactly(t, n, JoinPipes(key), Some(db[n][key]), None, t.columns, r);
  }

  ghost function EmptyDatabase(cat: Catalog): (db: Database)
    requires ValidCatalog(cat)
    ensures ValidDatabase(cat, db)
  {
    map n | n in cat :: map[]
  }

  /** The database after a run of statements on an empty schema. */
  ghost function Run(cat: Catalog, stmts: seq<Statement>): (db: Database)
    requires ValidCatalog(cat)
    ensures ValidDatabase(cat, db)
  {
    if stmts == [] then EmptyDatabase(cat)
    else Execute(cat, Run(cat, stmts[..|stmts| - 1]), stmts[|stmts| - 1])
  }

  /** The outbox after the same run, in commit order. */
  ghost function Outbox(cat: Catalog, stmts: seq<Statement>): seq<OutboxRow>
    requires ValidCatalog(cat)
  {
    if stmts == [] then []
    else
      var n := |stmts| - 1;
      Outbox(cat, stmts[..n]) + Captured(cat, Run(cat, stmts[..n]), stmts[n])
  }

  // ---------------------------------------------------------------- cells

  type State = map<Bytes, Bytes>

  /** cellKey: table|row|column. */
  function CellKey(table: Bytes, rid: Bytes, column: Bytes): Bytes {
    table + ([PIPE] + (rid + ([PIPE] + column)))
  }

  /** Table, row id and column stand in a cell key one after the other, with pipes between them. */
  lemma CellKeyParts(table: Bytes, rid: Bytes, column: Bytes)
    ensures var k, m, n := CellKey(table, rid, column), |table|, |table| + 1 + |rid|;
      && |k| == n + 1 + |column|
      && k[..m] == table && k[m] == 0x7c && k[m + 1..n] == rid && k[n] == 0x7c && k[n + 1..] == column
  {
  }

  /** How a verifier applies one change. */
  function ApplyChange(state: State, r: OutboxRow): State {
    var k := CellKey(r.table, r.rowId, r.column);
    if r.op == OP_DELETE then state - {k} else state[k := Text(r.value)]
  }

  function Replay(state: State, rows: seq<OutboxRow>): State {
    if rows == [] then state else ApplyChange(Replay(state, rows[..|rows| - 1]), rows[|rows| - 1])
  }

  function OfStream(rows: seq<OutboxRow>, s: Bytes): seq<OutboxRow> {
    if rows == [] then []
    else
      var n := |rows| - 1;
      OfStream(rows[..n], s) + if rows[n].stream == s then [rows[n]] else []
  }

  /** A live cell of stream s: a non-key column of a row of one of its tables. */
  ghost predicate LiveCell(cat: Catalog, db: Database, s: Bytes, n: Bytes, key: seq<Bytes>, c: Bytes) {
    && n in cat && cat[n].stream == s
    && n in db && key in db[n] && c in db[n][key] && c in cat[n].columns && c !in cat[n].pkColumns
  }

  /** The state holds exactly the live cells of stream s, with NULL read as the empty string. */
  ghost predicate Mirrors(cat: Catalog, db: Database, s: Bytes, state: State) {
    && (forall n, key, c :: LiveCell(cat, db, s, n, key, c) ==>
         && CellKey(n, JoinPipes(key), c) in state
         && state[CellKey(n, JoinPipes(key), c)] == Text(db[n][key][c]))
    && (forall k <- state :: exists n, key, c :: LiveCell(cat, db, s, n, key, c) && k == CellKey(n, JoinPipes(key), c))
  }

  /** Two states that mirror one database are equal. */
  lemma MirrorUnique(cat: Catalog, db: Database, s: Bytes, a: State, b: State)
    requires Mirrors(cat, db, s, a) && Mirrors(cat, db, s, b)
    ensures a == b
  {
    hide LiveCell, CellKey, JoinPipes;
    forall k | k in a ensures k in b && a[k] == b[k] {
      var n, key, c :| LiveCell(cat, db, s, n, key, c) && k == CellKey(n, JoinPipes(key), c);
    }
    forall k | k in b ensures k in a {
      var n, key, c :| LiveCell(cat, db, s, n, key, c) && k == CellKey(n, JoinPipes(key), c);
    }
  }

  // ---------------------------------------------------------------- key encoding

  ghost predicate PipeFree(b: Bytes) {
    PIPE !in b
  }

  /** Names carry no pipe, so a cell key reads back. */
  ghost predicate PlainNames(cat: Catalog) {
    forall n <- cat :: PipeFree(n) && forall c <- cat[n].columns :: PipeFree(c)
  }

  /** A key reads back from its row id: it has one column, or no pipe in its values. */
  ghost predicate PlainKey(key: seq<Bytes>) {
    |key| == 1 || forall v <- key :: PipeFree(v)
  }

  ghost predicate PlainStatement(cat: Catalog, s: Statement) {
    s.table in cat ==> match s
      case Insert(n, row) => ValidTable(cat[n]) && HasColumns(cat[n], row) ==> PlainKey(KeyOf(cat[n], row))
      case Update(n, key, row) => ValidTable(cat[n]) && HasColumns(cat[n], row) ==> PlainKey(KeyOf(cat[n], row))
      case Delete(n, key) => true
  }

  ghost predicate PlainKeys(cat: Catalog, db: Database) {
    forall n <- db :: forall key <- db[n] :: PlainKey(key)
  }

  lemma PipeAt(a: Bytes, x: Bytes)
    ensures var s := a + ([PIPE] + x);
      s[|a|] == PIPE && s[..|a|] == a && s[|a| + 1..] == x
      && (forall i :: 0 <= i < |a| ==> s[i] == a[i]) && (forall i :: |a| < i < |s| ==> s[i] == x[i - |a| - 1])
  {
  }

  lemma SplitAtPipe(a: Bytes, x: Bytes, b: Bytes, y: Bytes)
    requires PipeFree(a) && PipeFree(b) && a + ([PIPE] + x) == b + ([PIPE] + y)
    ensures a == b && x == y
  {
    PipeAt(a, x);
    PipeAt(b, y);
    assert |a| == |b|;
  }

  lemma SplitAtLastPipe(x: Bytes, a: Bytes, y: Bytes, b: Bytes)
    requires PipeFree(a) && PipeFree(b) && x + ([PIPE] + a) == y + ([PIPE] + b)
    ensures a == b && x == y
  {
    PipeAt(x, a);
    PipeAt(y, b);
    assert |x| == |y|;
  }

  lemma CellKeyInjective(n: Bytes, rid: Bytes, c: Bytes, n': Bytes, rid': Bytes, c': Bytes)
    requires PipeFree(n) && PipeFree(c) && PipeFree(n') && PipeFree(c')
    requires CellKey(n, rid, c) == CellKey(n', rid', c')
    ensures n == n' && rid == rid' && c == c'
  {
    SplitAtPipe(n, rid + ([PIPE] + c), n', rid' + ([PIPE] + c'));
    SplitAtLastPipe(rid, c, rid', c');
  }

  lemma {:induction false} RowIdInjective(key: seq<Bytes>, key': seq<Bytes>)
    requires |key| == |key'| && PlainKey(key) && PlainKey(key') && JoinPipes(key) == JoinPipes(key')
    ensures key == key'
  {
    if |key| > 1 {
      assert key[0] in key && key'[0] in key';
      assert JoinPipes(key) == key[0] + ([PIPE] + JoinPipes(key[1..]));
      assert JoinPipes(key') == key'[0] + ([PIPE] + JoinPipes(key'[1..]));
      SplitAtPipe(key[0], JoinPipes(key[1..]), key'[0], JoinPipes(key'[1..]));
      assert forall v <- key[1..] :: v in key;
      assert forall v <- key'[1..] :: v in key';
      RowIdInjective(key[1..], key'[1..]);
      assert key == [key[0]] + key[1..] && key' == [key'[0]] + key'[1..];
    } else if |key| == 1 {
      assert key == [key[0]] && key' == [key'[0]];
    }
  }
}
