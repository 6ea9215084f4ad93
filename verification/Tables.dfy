/** Tables, the row writes PostgreSQL performs on them, and the three guarded
    statements an undo or a replay is made of. */
module Tables {
  import opened Options
  import opened JsonValues

  /** `blank` is the table's row of nulls, `required` are the NOT NULL columns; a
      key column is always one of them. */
  datatype Schema = Schema(blank: Row, pk: set<string>, required: set<string>) {
    const cols := blank.Keys

    predicate Valid() {
      pk <= required <= cols && forall c | c in blank :: blank[c] == Null
    }
  }

  /** The part of a row image in the given columns. */
  function Restrict(row: Row, cols: set<string>): (r: Row)
    ensures r.Keys == row.Keys * cols
    ensures forall c | c in r :: r[c] == row[c]
    ensures row.Keys <= cols ==> r == row
  {
    row - (row.Keys - cols)
  }

  type Catalog = map<string, Schema>

  /** One row's place: its table and its primary key image. */
  datatype Addr = Addr(table: string, key: Row)

  type Db = map<Addr, Row>

  /** The pk subset of a row image (`_extract_pk`). */
  function KeyOf(s: Schema, row: Row): Row {
    Restrict(row, s.pk)
  }

  function Place(cat: Catalog, table: string, row: Row): Addr
    requires table in cat
  {
    Addr(table, KeyOf(cat[table], row))
  }

  predicate WfRow(s: Schema, row: Row) {
    row.Keys == s.cols && forall c | c in s.required :: c in row && row[c] != Null
  }

  ghost predicate WfCatalog(cat: Catalog) {
    forall t | t in cat :: cat[t].Valid() && cat[t].pk != {}
  }

  /** Every row is complete, and is stored under its own key. */
  ghost predicate WfDb(cat: Catalog, db: Db) {
    forall a | a in db ::
      a.table in cat && WfRow(cat[a.table], db[a]) && a == Place(cat, a.table, db[a])
  }

  /** What one row write does: `before` is the row it replaces, `after` the row
      it leaves.  An insert has no `before` and a delete has no `after`. */
  datatype Write = Write(table: string, before: Option<Row>, after: Option<Row>) {
    function Inverse(): Write {
      Write(table, after, before)
    }

    predicate Shaped(cat: Catalog) {
      && table in cat
      && (before.Some? || after.Some?)
      && (before.Some? ==> WfRow(cat[table], before.value))
      && (after.Some? ==> WfRow(cat[table], after.value))
    }

    /** An update that moves the row to another primary key. */
    predicate MovesKey(cat: Catalog)
      requires table in cat
    {
      before.Some? && after.Some? && KeyOf(cat[table], before.value) != KeyOf(cat[table], after.value)
    }
  }

  /** PostgreSQL lets the write through: the old row is there and no other row
      holds the new key. */
  predicate Enabled(cat: Catalog, db: Db, w: Write) {
    && w.Shaped(cat)
    && (w.before.Some? ==>
          var a := Place(cat, w.table, w.before.value);
          a in db && db[a] == w.before.value)
    && (w.after.Some? ==>
          var b := Place(cat, w.table, w.after.value);
          b in db ==> w.before.Some? && Place(cat, w.table, w.before.value) == b)
  }

  function Perform(cat: Catalog, db: Db, w: Write): (r: Db)
    requires Enabled(cat, db, w)
  {
    var cleared := if w.before.Some? then db - {Place(cat, w.table, w.before.value)} else db;
    if w.after.Some? then cleared[Place(cat, w.table, w.after.value) := w.after.value] else cleared
  }

  /** The row at an address, if there is one. */
  function At(db: Db, a: Addr): Option<Row> {
    if a in db then Some(db[a]) else None
  }

  /** The addresses a write can change. */
  function Touched(cat: Catalog, w: Write): set<Addr>
    requires w.table in cat
  {
    (if w.before.Some? then {Place(cat, w.table, w.before.value)} else {}) +
    (if w.after.Some? then {Place(cat, w.table, w.after.value)} else {})
  }

  lemma PerformKeepsWf(cat: Catalog, db: Db, w: Write)
    requires WfDb(cat, db) && Enabled(cat, db, w)
    ensures WfDb(cat, Perform(cat, db, w))
  {
  }

  /** A write reads and changes only the addresses it touches. */
  lemma PerformFrame(cat: Catalog, db: Db, w: Write, a: Addr)
    requires Enabled(cat, db, w) && a !in Touched(cat, w)
    ensures At(Perform(cat, db, w), a) == At(db, a)
  {
  }

  /** The addresses a write can change hold what it leaves. */
  lemma PerformAt(cat: Catalog, db: Db, w: Write)
    requires Enabled(cat, db, w)
    ensures w.after.Some? ==> At(Perform(cat, db, w), Place(cat, w.table, w.after.value)) == w.after
    ensures w.before.Some? && (w.after.None? || w.MovesKey(cat)) ==>
      At(Perform(cat, db, w), Place(cat, w.table, w.before.value)) == None
  {
  }

  /** Performing a write enables its inverse, which restores every row. */
  lemma InverseRestores(cat: Catalog, db: Db, w: Write)
    requires WfDb(cat, db) && Enabled(cat, db, w)
    ensures Enabled(cat, Perform(cat, db, w), w.Inverse())
    ensures Perform(cat, Perform(cat, db, w), w.Inverse()) == db
  {
    var db' := Perform(cat, db, w);
    assert w.Inverse().Shaped(cat);
    var back := Perform(cat, db', w.Inverse());
    assert back.Keys == db.Keys;
    assert forall a | a in db :: back[a] == db[a];
  }

  // ---------------------------------------------------------------------
  // Statements
  // ---------------------------------------------------------------------

  /** The compensating statements.  `expected` is the guard; none means the
      captured image was NULL and the statement carries no guard. */
  datatype Stmt =
    | InsertRow(table: string, image: Row)
    | DeleteRow(table: string, key: Row, expected: Option<Row>)
    | UpdateRow(table: string, image: Row, key: Row, expected: Option<Row>)

  /** Executing a statement matches no row, writes one row, or raises and so
      aborts the whole transaction. */
  datatype Outcome = NoRow | Wrote(w: Write) | Raised

  /** `jsonb_populate_record(NULL::table, image)`: absent columns are null. */
  function Populate(s: Schema, image: Row): Row {
    s.blank + Restrict(image, s.cols)
  }

  predicate GuardPasses(live: Row, expected: Option<Row>) {
    expected.Some? ==> Holds(live, expected.value)
  }

  /** Constraint checks: NOT NULL first, then the primary key. */
  function Attempt(cat: Catalog, db: Db, w: Write): Outcome {
    if Enabled(cat, db, w) then Wrote(w) else Raised
  }

  function Execute(cat: Catalog, db: Db, s: Stmt): Outcome
    requires s.table in cat
  {
    match s
    case InsertRow(table, image) =>
      var row := Populate(cat[table], image);
      if !WfRow(cat[table], row) then Raised
      else if Place(cat, table, row) in db then NoRow      // ON CONFLICT DO NOTHING
      else Attempt(cat, db, Write(table, None, Some(row)))
    case DeleteRow(table, key, expected) =>
      var a := Addr(table, key);
      if a in db && GuardPasses(db[a], expected)
      then Attempt(cat, db, Write(table, Some(db[a]), None))
      else NoRow
    case UpdateRow(table, image, key, expected) =>
      var a := Addr(table, key);
      if a in db && GuardPasses(db[a], expected)
      then Attempt(cat, db, Write(table, Some(db[a]), Some(db[a] + image)))
      else NoRow
  }

  // What each statement does when nothing stands in its way.

  lemma ExecuteInsert(cat: Catalog, db: Db, s: Stmt, row: Row)
    requires s.InsertRow? && s.table in cat && row == Populate(cat[s.table], s.image)
    requires WfRow(cat[s.table], row) && Place(cat, s.table, row) !in db
    ensures var w := Write(s.table, None, Some(row));
      Enabled(cat, db, w) && Execute(cat, db, s) == Wrote(w)
  {
  }

  lemma ExecuteDelete(cat: Catalog, db: Db, s: Stmt, live: Row)
    requires s.DeleteRow? && s.table in cat && WfDb(cat, db)
    requires At(db, Addr(s.table, s.key)) == Some(live) && GuardPasses(live, s.expected)
    ensures var w := Write(s.table, Some(live), None);
      Enabled(cat, db, w) && Execute(cat, db, s) == Wrote(w)
      && Place(cat, s.table, live) == Addr(s.table, s.key)
  {
  }

  lemma ExecuteUpdate(cat: Catalog, db: Db, s: Stmt, live: Row)
    requires s.UpdateRow? && s.table in cat && WfDb(cat, db)
    requires At(db, Addr(s.table, s.key)) == Some(live) && GuardPasses(live, s.expected)
    ensures Execute(cat, db, s) == Attempt(cat, db, Write(s.table, Some(live), Some(live + s.image)))
    ensures Place(cat, s.table, live) == Addr(s.table, s.key) && WfRow(cat[s.table], live)
  {
  }

  /** The UPDATE goes through when it leaves a whole row and does not take
      another row's key. */
  lemma ExecuteUpdateWrites(cat: Catalog, db: Db, s: Stmt, live: Row)
    requires s.UpdateRow? && s.table in cat && WfDb(cat, db)
    requires At(db, Addr(s.table, s.key)) == Some(live) && GuardPasses(live, s.expected)
    requires WfRow(cat[s.table], live + s.image)
    requires var b := Place(cat, s.table, live + s.image); b == Addr(s.table, s.key) || b !in db
    ensures var w := Write(s.table, Some(live), Some(live + s.image));
      Enabled(cat, db, w) && Execute(cat, db, s) == Wrote(w)
  {
    ExecuteUpdate(cat, db, s, live);
  }

  lemma WroteIsEnabled(cat: Catalog, db: Db, s: Stmt)
    requires s.table in cat && Execute(cat, db, s).Wrote?
    ensures Enabled(cat, db, Execute(cat, db, s).w)
  {
  }
}
