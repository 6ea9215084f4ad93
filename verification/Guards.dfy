/** What a step's guard proves about the row it overwrites, in either direction. */
module Guards {
  import opened Options
  import opened JsonValues
  import opened Tables
  import opened Capture
  import opened Plans
  import opened Interleaving
  import opened ReplayTheorems

  // ---------------------------------------------------------------------
  // Rows built around an image
  // ---------------------------------------------------------------------

  /** A row with one value in all columns. */
  ghost function Fill(cols: set<string>, v: Json): (row: Row)
    ensures row.Keys == cols && forall c | c in row :: row[c] == v
  {
    if cols == {} then map[]
    else
      var c :| c in cols;
      Fill(cols - {c}, v)[c := v]
  }

  ghost predicate KeyFits(s: Schema, key: Row) {
    key.Keys == s.pk && forall c | c in key :: key[c] != Null && Scalar(key[c])
  }

  predicate NothingMissing(s: Schema, image: Row) {
    forall c | c in image && c in s.required :: image[c] != Null
  }

  /** An image of a row under this key: columns of the table, nothing missing that
      is required, and the key's own values. */
  ghost predicate ImageFitsKey(s: Schema, key: Row, image: Row) {
    && image.Keys <= s.cols
    && NothingMissing(s, image)
    && (forall c | c in image && c in key :: image[c] == key[c])
  }

  /** A whole row under the key that holds the image, and `v` everywhere else. */
  ghost function Filled(s: Schema, key: Row, image: Row, v: Json): Row {
    Fill(s.cols, v) + key + image
  }

  lemma FilledFits(s: Schema, key: Row, image: Row, v: Json)
    requires s.Valid() && KeyFits(s, key) && ImageFitsKey(s, key, image) && v != Null
    ensures var row := Filled(s, key, image, v);
      && WfRow(s, row) && KeyOf(s, row) == key && Matches(row, image) && Matches(row, key)
      && forall c | c in row && c !in image && c !in key :: row[c] == v
  {
    var row := Filled(s, key, image, v);
    assert row.Keys == s.cols;
    assert KeyOf(s, row).Keys == s.pk;
    forall c | c in key ensures KeyOf(s, row)[c] == key[c] {
      assert c in s.cols;
    }
  }

  lemma CellChanged(s: Schema, row: Row, c: string, v: Json)
    requires s.Valid() && WfRow(s, row) && c in s.cols - s.pk && v != Null
    ensures WfRow(s, row[c := v]) && KeyOf(s, row[c := v]) == KeyOf(s, row)
  {
  }

  function OtherValue(v: Json): (w: Json)
    ensures w != v && w != Null
  {
    if v == Num(0) then Num(1) else Num(0)
  }

  // ---------------------------------------------------------------------
  // The exact condition
  // ---------------------------------------------------------------------

  predicate HeldBy(db: Db, a: Addr, image: Row) {
    a in db && Matches(db[a], image)
  }

  /** In a table with that one row, the step writes if the row passes its guard. */
  lemma LoneRowIsWritten(cat: Catalog, x: Entry, dir: Direction, live: Row)
    requires WfCatalog(cat) && StmtFor(cat, x, dir).Ok? && x.op != InsertingOp(dir)
    requires WfRow(cat[x.table], live) && KeyOf(cat[x.table], live) == x.pk && GuardPasses(live, Expects(x, dir))
    requires x.op == U ==> Leaves(x, dir).Some? && NothingMissing(cat[x.table], Leaves(x, dir).value)
    ensures var db: Db := map[Home(x) := live];
      WfDb(cat, db) && Execute(cat, db, StmtFor(cat, x, dir).result).Wrote?
  {
    hide StmtFor, Contains;
    var db: Db := map[Home(x) := live];
    var s := StmtFor(cat, x, dir).result;
    StmtShape(cat, x, dir);
    assert At(db, Home(x)) == Some(live);
    if x.op == U {
      ExecuteUpdateWrites(cat, db, s, live);
    } else {
      ExecuteDelete(cat, db, s, live);
    }
  }

  /** A row that differs from the image and that the step still writes. */
  lemma UnguardedRow(cat: Catalog, x: Entry, dir: Direction, image: Row) returns (live: Row)
    requires WfCatalog(cat) && x.table in cat && KeyFits(cat[x.table], x.pk) && ImageFitsKey(cat[x.table], x.pk, image)
    requires Expects(x, dir) == None || (Expects(x, dir) == Some(image) && !Scalars(image))
    requires !(image.Keys <= cat[x.table].pk)
    ensures WfRow(cat[x.table], live) && KeyOf(cat[x.table], live) == x.pk
    ensures GuardPasses(live, Expects(x, dir)) && !Matches(live, image)
  {
    hide Contains, Filled, ImageFitsKey, WfRow, KeyOf;
    var s := cat[x.table];
    var row := Filled(s, x.pk, image, Num(0));
    FilledFits(s, x.pk, image, Num(0));
    var c := UnguardedColumn(s, x.pk, image, Expects(x, dir));
    assert row.Keys == s.cols && row[c] == image[c] by { RowColumns(s, row); }
    var other := if Expects(x, dir).None? then OtherValue(image[c]) else Num(0);
    if Expects(x, dir).Some? {
      other := ContainerHasLargerValue(image[c]);
    }
    live := row[c := other];
    CellChanged(s, row, c, other);
    if Expects(x, dir).Some? {
      LargerCellPasses(row, image, c, other);
    }
  }

  lemma RowColumns(s: Schema, row: Row)
    requires WfRow(s, row)
    ensures row.Keys == s.cols
  {
  }

  /** A column outside the key in which a row may differ and still be written. */
  lemma UnguardedColumn(s: Schema, key: Row, image: Row, expected: Option<Row>) returns (c: string)
    requires s.Valid() && KeyFits(s, key) && ImageFitsKey(s, key, image) && !(image.Keys <= s.pk)
    requires expected.Some? ==> !Scalars(image)
    ensures c in image && c in s.cols - s.pk && (expected.Some? ==> !Scalar(image[c]))
  {
    if expected.Some? {
      c :| c in image && !Scalar(image[c]);
      assert c !in key;
    } else {
      c :| c in image && c !in s.pk;
    }
  }

  lemma LargerCellPasses(row: Row, image: Row, c: string, larger: Json)
    requires Matches(row, image) && c in image && Contains(larger, image[c])
    ensures Holds(row[c := larger], image)
  {
    forall d | d in image ensures Contains(row[c := larger][d], image[d]) {
      ContainsReflexive(image[d]);
    }
  }

  /** A step that overwrites or deletes a row, and the image its change recorded or
      should have recorded of that row: writing proves the row held the image, in
      every state, if and only if the image is there and all its values are
      scalars, or it says nothing but the key.  This is the guard of an undone
      insert and of an update in either direction. */
  lemma StepIsGuardedIff(cat: Catalog, x: Entry, dir: Direction, image: Row)
    requires WfCatalog(cat) && StmtFor(cat, x, dir).Ok? && x.op != InsertingOp(dir)
    requires KeyFits(cat[x.table], x.pk) && ImageFitsKey(cat[x.table], x.pk, image)
    requires Expects(x, dir) == None || Expects(x, dir) == Some(image)
    requires x.op == U ==> Leaves(x, dir).Some? && NothingMissing(cat[x.table], Leaves(x, dir).value)
    ensures
      (forall db | WfDb(cat, db) && Execute(cat, db, StmtFor(cat, x, dir).result).Wrote? :: HeldBy(db, Home(x), image))
      <==> (Expects(x, dir).Some? && Scalars(image)) || image.Keys <= cat[x.table].pk
  {
    hide StmtFor, Execute, KeyFits, ImageFitsKey;
    var s := StmtFor(cat, x, dir).result;
    if (Expects(x, dir).Some? && Scalars(image)) || image.Keys <= cat[x.table].pk {
      forall db | WfDb(cat, db) && Execute(cat, db, s).Wrote? ensures HeldBy(db, Home(x), image) {
        WrittenRowHolds(cat, db, x, dir, image);
      }
    } else {
      var live := UnguardedRow(cat, x, dir, image);
      LoneRowIsWritten(cat, x, dir, live);
      var db: Db := map[Home(x) := live];
      assert !HeldBy(db, Home(x), image);
    }
  }

  lemma WrittenRowHolds(cat: Catalog, db: Db, x: Entry, dir: Direction, image: Row)
    requires WfDb(cat, db) && StmtFor(cat, x, dir).Ok? && x.op != InsertingOp(dir)
    requires KeyFits(cat[x.table], x.pk) && ImageFitsKey(cat[x.table], x.pk, image)
    requires Execute(cat, db, StmtFor(cat, x, dir).result).Wrote?
    requires (Expects(x, dir) == Some(image) && Scalars(image)) || image.Keys <= cat[x.table].pk
    ensures HeldBy(db, Home(x), image)
  {
    hide StmtFor, Execute, Contains;
    var s := StmtFor(cat, x, dir).result;
    var w := Execute(cat, db, s).w;
    StmtShape(cat, x, dir);
    GuardedRow(cat, db, s, w);
    var live := db[Home(x)];
    if image.Keys <= cat[x.table].pk {
      assert KeyOf(cat[x.table], live) == x.pk;
    } else {
      GuardIsExactIffScalar(image);
    }
  }

  /** Replaying an archived update, whose before image is the row it changed or is
      missing; missing, it overwrites whatever row has the key. */
  lemma ReplayedUpdateIsGuardedIff(cat: Catalog, x: Entry, was: Row)
    requires WfCatalog(cat) && x.op == U && StmtFor(cat, x, Replay).Ok? && KeyFits(cat[x.table], x.pk)
    requires x.before == None || x.before == Some(was)
    requires WfRow(cat[x.table], was) && KeyOf(cat[x.table], was) == x.pk
    requires x.after.Some? && NothingMissing(cat[x.table], x.after.value)
    ensures
      (forall db | WfDb(cat, db) && Execute(cat, db, StmtFor(cat, x, Replay).result).Wrote? :: HeldBy(db, Home(x), was))
      <==> (x.before.Some? && Scalars(was)) || cat[x.table].cols == cat[x.table].pk
    ensures x.before.None? && KeepsKey(cat, x) ==>
      forall db | WfDb(cat, db) && Home(x) in db && WfRow(cat[x.table], db[Home(x)] + x.after.value) ::
        Execute(cat, db, StmtFor(cat, x, Replay).result)
        == Wrote(Write(x.table, Some(db[Home(x)]), Some(db[Home(x)] + x.after.value)))
  {
    hide StmtFor, Execute, WfRow, WfDb;
    RowColumns(cat[x.table], was);
    WholeRowFitsKey(cat[x.table], x.pk, was);
    StepIsGuardedIff(cat, x, Replay, was);
    if x.before.None? && KeepsKey(cat, x) {
      forall db | WfDb(cat, db) && Home(x) in db && WfRow(cat[x.table], db[Home(x)] + x.after.value)
        ensures Execute(cat, db, StmtFor(cat, x, Replay).result)
          == Wrote(Write(x.table, Some(db[Home(x)]), Some(db[Home(x)] + x.after.value)))
      {
        UpdateWithoutBeforeIsUnguarded(cat, db, x);
      }
    }
  }

  lemma WholeRowFitsKey(s: Schema, key: Row, row: Row)
    requires s.Valid() && KeyFits(s, key) && WfRow(s, row) && KeyOf(s, row) == key
    ensures ImageFitsKey(s, key, row)
  {
    assert forall c | c in key :: KeyOf(s, row)[c] == row[c];
  }

  /** Undoing an insert, whose after image is the row it inserted or was erased;
      erased, it deletes whatever row has the key. */
  lemma UndoneInsertIsGuardedIff(cat: Catalog, x: Entry, was: Row)
    requires WfCatalog(cat) && x.op == I && StmtFor(cat, x, Undo).Ok? && KeyFits(cat[x.table], x.pk)
    requires x.after == None || x.after == Some(was)
    requires WfRow(cat[x.table], was) && KeyOf(cat[x.table], was) == x.pk
    ensures
      (forall db | WfDb(cat, db) && Execute(cat, db, StmtFor(cat, x, Undo).result).Wrote? :: HeldBy(db, Home(x), was))
      <==> (x.after.Some? && Scalars(was)) || cat[x.table].cols == cat[x.table].pk
    ensures x.before.None? && x.after.None? ==>
      forall db | WfDb(cat, db) && Home(x) in db ::
        Execute(cat, db, StmtFor(cat, x, Undo).result) == Wrote(Write(x.table, Some(db[Home(x)]), None))
  {
    hide StmtFor, Execute, WfRow, WfDb;
    RowColumns(cat[x.table], was);
    WholeRowFitsKey(cat[x.table], x.pk, was);
    StepIsGuardedIff(cat, x, Undo, was);
    if x.before.None? && x.after.None? {
      forall db | WfDb(cat, db) && Home(x) in db
        ensures Execute(cat, db, StmtFor(cat, x, Undo).result) == Wrote(Write(x.table, Some(db[Home(x)]), None))
      {
        ErasedInsertIsUndoneUnguarded(cat, db, x);
      }
    }
  }
}
