/** When a preview is exact: a selection whose previews never miss a conflict, in
    any state, is one whose later steps are determined by the earlier ones. */
module PreviewExact {
  import opened Options
  import opened JsonValues
  import opened Tables
  import opened Capture
  import opened Plans
  import opened UndoTheorems
  import opened Guards
  import opened PreviewTheorems

  function Img(image: Option<Row>): Row {
    if image.Some? then image.value else map[]
  }

  /** An unredacted entry whose images hold scalars only, fit the table as it is
      and keep the row's key; delta images are welcome. */
  ghost predicate Selectable(cat: Catalog, x: Entry) {
    && x.table in cat && x.op != T && KeyFits(cat[x.table], x.pk)
    && x.before.Some? == (x.op != I) && x.after.Some? == (x.op != D)
    && GoodImage(cat[x.table], x, x.before) && GoodImage(cat[x.table], x, x.after)
  }

  ghost predicate GoodImage(s: Schema, x: Entry, image: Option<Row>) {
    image.Some? ==>
      && ImageFitsKey(s, x.pk, image.value) && Scalars(image.value)
      && if x.op == U then image.value.Keys != {} else s.required <= image.value.Keys
  }

  ghost predicate AllSelectable(cat: Catalog, xs: seq<Entry>) {
    forall x | x in xs :: Selectable(cat, x)
  }

  // ---------------------------------------------------------------------
  // What the steps of a selection say of a row
  // ---------------------------------------------------------------------

  /** What is known of a row once the steps about it so far have applied. */
  datatype Knowledge = Gone | Cells(cells: Row)

  type Known = map<Addr, Knowledge>

  predicate Inserts(x: Entry, dir: Direction) {
    x.op == InsertingOp(dir)
  }

  /** The step expects no row where it inserts, and else a row with its image. */
  predicate Entails(k: Knowledge, x: Entry, dir: Direction) {
    if Inserts(x, dir) then k.Gone? else k.Cells? && Matches(k.cells, Img(Expects(x, dir)))
  }

  function CellsBefore(known: Known, x: Entry): Row {
    if Home(x) in known && known[Home(x)].Cells? then known[Home(x)].cells else x.pk
  }

  /** An applied step tells what it expected, and then what it left. */
  function Learn(cat: Catalog, known: Known, x: Entry, dir: Direction): Known
    requires x.table in cat
  {
    known[Home(x) :=
      if Inserts(x, dir) then Cells(Populate(cat[x.table], Img(Leaves(x, dir))))
      else if x.op == U then Cells(CellsBefore(known, x) + Img(Expects(x, dir)) + Img(Leaves(x, dir)))
      else Gone]
  }

  /** Every step about a row some step came before is determined by those: what
      they make known of the row is all that it expects. */
  ghost predicate Determined(cat: Catalog, known: Known, xs: seq<Entry>, dir: Direction)
    decreases |xs|
  {
    xs != [] ==>
      && xs[0].table in cat
      && (Home(xs[0]) in known ==> Entails(known[Home(xs[0])], xs[0], dir))
      && Determined(cat, Learn(cat, known, xs[0], dir), xs[1..], dir)
  }

  // ---------------------------------------------------------------------
  // One step
  // ---------------------------------------------------------------------

  predicate Passes(db: Db, x: Entry, dir: Direction) {
    if Inserts(x, dir) then Home(x) !in db else Home(x) in db && Matches(db[Home(x)], Img(Expects(x, dir)))
  }

  function RowAfter(cat: Catalog, x: Entry, dir: Direction, row: Option<Row>): Option<Row>
    requires x.table in cat
  {
    if Inserts(x, dir) then Some(Populate(cat[x.table], Img(Leaves(x, dir))))
    else if x.op == U && row.Some? then Some(row.value + Img(Leaves(x, dir)))
    else None
  }

  lemma PlannedStep(cat: Catalog, x: Entry, dir: Direction)
    requires WfCatalog(cat) && Selectable(cat, x)
    ensures StmtFor(cat, x, dir).Ok? && StaysHome(cat, x, dir)
    ensures Inserts(x, dir) ==> Leaves(x, dir).Some?
    ensures var s := StmtFor(cat, x, dir).result;
      if Inserts(x, dir) then s == InsertRow(x.table, Img(Leaves(x, dir)))
      else if x.op == U then s == UpdateRow(x.table, Img(Leaves(x, dir)), x.pk, Some(Img(Expects(x, dir))))
      else s == DeleteRow(x.table, x.pk, Some(Img(Expects(x, dir))))
  {
    var s := cat[x.table];
    if x.op == U {
      assert x.before.value.Keys * s.cols == x.before.value.Keys && x.after.value.Keys * s.cols == x.after.value.Keys;
    }
    if Inserts(x, dir) {
      InsertedRow(cat, x, dir);
    }
  }

  lemma InsertedRow(cat: Catalog, x: Entry, dir: Direction)
    requires WfCatalog(cat) && Selectable(cat, x) && Inserts(x, dir)
    ensures var s, row := cat[x.table], Populate(cat[x.table], Img(Leaves(x, dir)));
      WfRow(s, row) && KeyOf(s, row) == x.pk
  {
    var s, image := cat[x.table], Img(Leaves(x, dir));
    var row := Populate(s, image);
    assert Restrict(image, s.cols) == image;
    assert row.Keys == s.cols;
    forall c | c in s.required ensures c in row && row[c] != Null {
      assert c in image;
    }
    assert KeyOf(s, row).Keys == x.pk.Keys;
    forall c | c in x.pk ensures KeyOf(s, row)[c] == x.pk[c] {
      assert c in image && row[c] == image[c];
    }
  }

  lemma UpdatedRow(cat: Catalog, x: Entry, dir: Direction, row: Row)
    requires WfCatalog(cat) && Selectable(cat, x) && x.op == U
    requires WfRow(cat[x.table], row) && KeyOf(cat[x.table], row) == x.pk
    ensures var s, next := cat[x.table], row + Img(Leaves(x, dir));
      WfRow(s, next) && KeyOf(s, next) == x.pk
  {
    var s, image := cat[x.table], Img(Leaves(x, dir));
    var next := row + image;
    assert next.Keys == s.cols;
    forall c | c in x.pk ensures next[c] == x.pk[c] {
      assert KeyOf(s, row)[c] == row[c];
    }
    assert KeyOf(s, next) == x.pk;
  }

  lemma RowHome(cat: Catalog, db: Db, x: Entry)
    requires WfDb(cat, db) && x.table in cat && Home(x) in db
    ensures WfRow(cat[x.table], db[Home(x)]) && KeyOf(cat[x.table], db[Home(x)]) == x.pk
    ensures Matches(db[Home(x)], x.pk)
  {
    var s, row := cat[x.table], db[Home(x)];
    assert KeyOf(s, row) == x.pk;
    forall c | c in x.pk ensures c in row && row[c] == x.pk[c] { assert KeyOf(s, row)[c] == row[c]; }
  }

  lemma GuardIsMatch(cat: Catalog, x: Entry, dir: Direction, row: Row)
    requires Selectable(cat, x) && !Inserts(x, dir)
    ensures Expects(x, dir).Some? && (Holds(row, Expects(x, dir).value) <==> Matches(row, Img(Expects(x, dir))))
  {
    hide Contains;
    var image := Expects(x, dir).value;
    GuardIsExactIffScalar(image);
    if Matches(row, image) {
      MatchingRowPassesGuard(row, image);
    }
  }

  function Step(cat: Catalog, db: Db, x: Entry, dir: Direction): Progress
    requires StmtFor(cat, x, dir).Ok?
  {
    ApplyOne(cat, Going(db, [], []), StmtFor(cat, x, dir).result, dir, false)
  }

  /** A step applies exactly if its row is as it expects, and then leaves its own
      image there and every other row alone. */
  lemma StepAppliesIff(cat: Catalog, db: Db, x: Entry, dir: Direction)
    requires WfCatalog(cat) && WfDb(cat, db) && Selectable(cat, x)
    ensures StmtFor(cat, x, dir).Ok?
    ensures var q := Step(cat, db, x, dir);
      && ((q.Going? && q.statuses == [Applied]) <==> Passes(db, x, dir))
      && (q.Going? ==> |q.statuses| == 1)
      && (Passes(db, x, dir) ==> At(q.db, Home(x)) == RowAfter(cat, x, dir, At(db, Home(x))))
  {
    hide StmtFor, Execute, Enabled, Perform, WfDb, WfCatalog, Contains, Selectable, StaysHome, Populate;
    PlannedStep(cat, x, dir);
    var s := StmtFor(cat, x, dir).result;
    if Inserts(x, dir) {
      InsertStep(cat, db, x, dir);
    } else if Home(x) in db {
      GuardIsMatch(cat, x, dir, db[Home(x)]);
      if Passes(db, x, dir) {
        WrittenStep(cat, db, x, dir);
      } else {
        GuardFails(cat, db, s);
        UnwrittenStep(cat, db, s, dir);
      }
    } else {
      NothingThere(cat, db, s);
      UnwrittenStep(cat, db, s, dir);
    }
  }

  lemma UnwrittenStep(cat: Catalog, db: Db, s: Stmt, dir: Direction)
    requires s.table in cat && Execute(cat, db, s) == NoRow
    ensures var q := ApplyOne(cat, Going(db, [], []), s, dir, false);
      q.Going? ==> |q.statuses| == 1 && q.statuses != [Applied]
  {
    hide Execute;
    assert forall t: Status :: ([] + [t])[0] == t;
  }

  lemma NothingThere(cat: Catalog, db: Db, s: Stmt)
    requires !s.InsertRow? && s.table in cat && Addr(s.table, s.key) !in db
    ensures Execute(cat, db, s) == NoRow
  {
  }

  lemma GuardFails(cat: Catalog, db: Db, s: Stmt)
    requires !s.InsertRow? && s.table in cat && Addr(s.table, s.key) in db
    requires !GuardPasses(db[Addr(s.table, s.key)], s.expected)
    ensures Execute(cat, db, s) == NoRow
  {
  }

  lemma InsertStep(cat: Catalog, db: Db, x: Entry, dir: Direction)
    requires WfCatalog(cat) && WfDb(cat, db) && Selectable(cat, x) && Inserts(x, dir)
    ensures StmtFor(cat, x, dir).Ok?
    ensures var q := Step(cat, db, x, dir);
      && ((q.Going? && q.statuses == [Applied]) <==> Home(x) !in db)
      && (q.Going? ==> |q.statuses| == 1)
      && (Home(x) !in db ==> At(q.db, Home(x)) == RowAfter(cat, x, dir, None))
  {
    hide StmtFor, WfDb, WfCatalog, Selectable, StaysHome, Populate, WfRow, KeyOf;
    PlannedStep(cat, x, dir);
    InsertedRow(cat, x, dir);
    var s := StmtFor(cat, x, dir).result;
    var row := Populate(cat[x.table], s.image);
    if Home(x) !in db {
      ExecuteInsert(cat, db, s, row);
      PerformAt(cat, db, Write(x.table, None, Some(row)));
    }
  }

  lemma WrittenStep(cat: Catalog, db: Db, x: Entry, dir: Direction)
    requires WfCatalog(cat) && WfDb(cat, db) && Selectable(cat, x) && !Inserts(x, dir)
    requires Home(x) in db && Holds(db[Home(x)], Img(Expects(x, dir)))
    ensures StmtFor(cat, x, dir).Ok?
    ensures var q := Step(cat, db, x, dir);
      && q.Going? && q.statuses == [Applied]
      && At(q.db, Home(x)) == RowAfter(cat, x, dir, At(db, Home(x)))
  {
    hide StmtFor, Execute, WfCatalog, Selectable, StaysHome, Contains, WfRow, KeyOf, WfDb;
    PlannedStep(cat, x, dir);
    RowHome(cat, db, x);
    var s, live := StmtFor(cat, x, dir).result, db[Home(x)];
    if x.op == U {
      UpdatedRow(cat, x, dir, live);
      ExecuteUpdateWrites(cat, db, s, live);
      PerformAt(cat, db, Write(x.table, Some(live), Some(live + s.image)));
    } else {
      NotAnUpdate(cat, x, dir);
      ExecuteDelete(cat, db, s, live);
      PerformAt(cat, db, Write(x.table, Some(live), None));
    }
  }

  lemma NotAnUpdate(cat: Catalog, x: Entry, dir: Direction)
    requires Selectable(cat, x) && !Inserts(x, dir) && x.op != U
    ensures RowAfter(cat, x, dir, Some(map[])) == None
  {
  }

  lemma ProbeIsPasses(cat: Catalog, db: Db, x: Entry, dir: Direction)
    requires Selectable(cat, x)
    ensures Probe(db, x, dir) != Conflicting <==> Passes(db, x, dir)
  {
    hide Contains;
    if !Inserts(x, dir) && Home(x) in db {
      GuardIsMatch(cat, x, dir, db[Home(x)]);
    }
  }

  // ---------------------------------------------------------------------
  // Whole plans
  // ---------------------------------------------------------------------

  lemma SelectionIsPlannable(cat: Catalog, xs: seq<Entry>, dir: Direction)
    requires WfCatalog(cat) && AllSelectable(cat, xs)
    ensures Plannable(cat, xs, dir)
  {
    hide StmtFor, Selectable, StaysHome;
    forall x | x in xs ensures StmtFor(cat, x, dir).Ok? { PlannedStep(cat, x, dir); }
  }

  /** Every step of the plan applies. */
  ghost predicate AllApply(cat: Catalog, db: Db, xs: seq<Entry>, dir: Direction)
    requires Plannable(cat, xs, dir)
  {
    var r := Apply(cat, Going(db, [], []), Stmts(cat, xs, dir), dir, false);
    r.Going? && r.statuses == AllApplied(|xs|)
  }

  lemma AllApplyCons(cat: Catalog, db: Db, xs: seq<Entry>, dir: Direction)
    requires Plannable(cat, xs, dir) && xs != []
    ensures StmtFor(cat, xs[0], dir).Ok? && Plannable(cat, xs[1..], dir)
    ensures var q := Step(cat, db, xs[0], dir);
      (q.Going? ==> |q.statuses| == 1) ==>
        (AllApply(cat, db, xs, dir) <==> q.Going? && q.statuses == [Applied] && AllApply(cat, q.db, xs[1..], dir))
  {
    hide StmtFor, ApplyOne, Apply;
    ApplyPlan(cat, db, xs, dir, false);
    var q := Step(cat, db, xs[0], dir);
    if q.Going? && |q.statuses| == 1 {
      var r := Apply(cat, Going(q.db, [], []), Stmts(cat, xs[1..], dir), dir, false);
      if r.Going? {
        var all := q.statuses + r.statuses;
        assert all[0] == q.statuses[0] && all[1..] == r.statuses;
        assert AllApplied(|xs|)[1..] == AllApplied(|xs| - 1) && AllApplied(|xs|)[0] == Applied;
        assert q.statuses == [q.statuses[0]];
        if q.statuses == [Applied] && r.statuses == AllApplied(|xs| - 1) {
          assert [Applied] + AllApplied(|xs| - 1) == AllApplied(|xs|);
        }
      }
    }
  }

  // ---------------------------------------------------------------------
  // Determined selections: no flag, no conflict
  // ---------------------------------------------------------------------

  predicate Fits(row: Option<Row>, k: Knowledge) {
    if k.Gone? then row.None? else row.Some? && Matches(row.value, k.cells)
  }

  ghost predicate Agrees(db: Db, known: Known) {
    forall a | a in known :: Fits(At(db, a), known[a])
  }

  /** A step about a row not yet spoken of finds it as it expects. */
  ghost predicate FirstStepsPass(db: Db, known: Known, xs: seq<Entry>, dir: Direction) {
    forall i | 0 <= i < |xs| && FirstSeen(xs, i) && Home(xs[i]) !in known :: Passes(db, xs[i], dir)
  }

  lemma LearntRowFits(cat: Catalog, db: Db, known: Known, x: Entry, dir: Direction)
    requires WfDb(cat, db) && Selectable(cat, x) && Agrees(db, known) && Passes(db, x, dir)
    ensures Fits(RowAfter(cat, x, dir, At(db, Home(x))), Learn(cat, known, x, dir)[Home(x)])
  {
    hide Populate, WfDb;
    if x.op == U {
      RowHome(cat, db, x);
      assert Matches(db[Home(x)], CellsBefore(known, x));
    }
  }

  lemma SameRowPasses(db: Db, db': Db, x: Entry, dir: Direction)
    requires At(db, Home(x)) == At(db', Home(x))
    ensures Passes(db, x, dir) <==> Passes(db', x, dir)
  {
  }

  lemma RestPasses(cat: Catalog, db: Db, db': Db, known: Known, xs: seq<Entry>, dir: Direction)
    requires xs != [] && xs[0].table in cat && FirstStepsPass(db, known, xs, dir)
    requires forall a | a != Home(xs[0]) :: At(db', a) == At(db, a)
    ensures FirstStepsPass(db', Learn(cat, known, xs[0], dir), xs[1..], dir)
  {
    hide Passes;
    var rest, known' := xs[1..], Learn(cat, known, xs[0], dir);
    forall i | 0 <= i < |rest| && FirstSeen(rest, i) && Home(rest[i]) !in known' ensures Passes(db', rest[i], dir) {
      FirstSeenInRest(xs, i + 1);
      assert rest[i] == xs[i + 1];
      SameRowPasses(db, db', rest[i], dir);
    }
  }

  lemma StepLeavesOthers(cat: Catalog, db: Db, x: Entry, dir: Direction)
    requires WfCatalog(cat) && WfDb(cat, db) && Selectable(cat, x)
    ensures StmtFor(cat, x, dir).Ok?
    ensures var q := Step(cat, db, x, dir);
      q.Going? ==> WfDb(cat, q.db) && forall a | a != Home(x) :: At(q.db, a) == At(db, a)
  {
    hide StmtFor, ApplyOne, Selectable, StaysHome, WfDb, WfCatalog;
    PlannedStep(cat, x, dir);
    var q := Step(cat, db, x, dir);
    if q.Going? {
      StepChangesOnlyHome(cat, db, x, dir, false, Home(x));
      forall a | a != Home(x) ensures At(q.db, a) == At(db, a) {
        StepChangesOnlyHome(cat, db, x, dir, false, a);
      }
    }
  }

  lemma {:induction false} DeterminedApplies(cat: Catalog, db: Db, known: Known, xs: seq<Entry>, dir: Direction)
    requires WfCatalog(cat) && WfDb(cat, db) && AllSelectable(cat, xs)
    requires Agrees(db, known) && FirstStepsPass(db, known, xs, dir) && Determined(cat, known, xs, dir)
    ensures Plannable(cat, xs, dir) && AllApply(cat, db, xs, dir)
    decreases |xs|
  {
    hide StmtFor, ApplyOne, Selectable, StaysHome, WfDb, WfCatalog, Step, Fits, RowAfter, Learn, AllApply;
    SelectionIsPlannable(cat, xs, dir);
    if xs == [] {
      NothingToApply(cat, db, dir);
    } else {
      var x := xs[0];
      assert x in xs;
      FirstPasses(db, known, xs, dir);
      StepAppliesIff(cat, db, x, dir);
      StepLeavesOthers(cat, db, x, dir);
      AllApplyCons(cat, db, xs, dir);
      LearntRowFits(cat, db, known, x, dir);
      var q, known' := Step(cat, db, x, dir), Learn(cat, known, x, dir);
      LearnsOneRow(cat, known, x, dir);
      assert Agrees(q.db, known');
      RestPasses(cat, db, q.db, known, xs, dir);
      DeterminedApplies(cat, q.db, known', xs[1..], dir);
    }
  }

  lemma NothingToApply(cat: Catalog, db: Db, dir: Direction)
    ensures AllApply(cat, db, [], dir)
  {
  }

  lemma LearnsOneRow(cat: Catalog, known: Known, x: Entry, dir: Direction)
    requires x.table in cat
    ensures var known' := Learn(cat, known, x, dir);
      && (forall a :: a in known' <==> a in known || a == Home(x))
      && forall a | a in known && a != Home(x) :: known'[a] == known[a]
  {
  }

  lemma FirstPasses(db: Db, known: Known, xs: seq<Entry>, dir: Direction)
    requires xs != [] && Agrees(db, known) && FirstStepsPass(db, known, xs, dir)
    requires Home(xs[0]) in known ==> Entails(known[Home(xs[0])], xs[0], dir)
    ensures Passes(db, xs[0], dir)
  {
    if Home(xs[0]) !in known {
      assert FirstSeen(xs, 0);
    }
  }

  // ---------------------------------------------------------------------
  // Undetermined selections: a state where a conflict is missed
  // ---------------------------------------------------------------------

  /** A row of which nothing is known but these cells: `v` in all others. */
  ghost predicate OnlyKnown(s: Schema, row: Option<Row>, k: Knowledge, v: Json) {
    if k.Gone? then row.None?
    else
      && row.Some? && k.cells.Keys <= s.cols && row.value.Keys == s.cols
      && forall c | c in s.cols :: row.value[c] == if c in k.cells then k.cells[c] else v
  }

  ghost predicate Exactly(cat: Catalog, db: Db, known: Known, v: Json) {
    forall a | a in known :: a.table in cat && OnlyKnown(cat[a.table], At(db, a), known[a], v)
  }

  /** The row a first step is about, made of what it expects and `v`. */
  ghost function Initial(cat: Catalog, x: Entry, dir: Direction, v: Json): Option<Row> {
    if Inserts(x, dir) || x.table !in cat then None else Some(Filled(cat[x.table], x.pk, Img(Expects(x, dir)), v))
  }

  ghost predicate FirstRows(cat: Catalog, db: Db, known: Known, xs: seq<Entry>, dir: Direction, v: Json) {
    forall i | 0 <= i < |xs| && FirstSeen(xs, i) && Home(xs[i]) !in known ::
      At(db, Home(xs[i])) == Initial(cat, xs[i], dir, v)
  }

  /** No step expects the value. */
  ghost predicate Foreign(v: Json, xs: seq<Entry>, dir: Direction) {
    v != Null && forall x, c | x in xs && c in Img(Expects(x, dir)) :: Img(Expects(x, dir))[c] != v
  }

  lemma InitialPasses(cat: Catalog, db: Db, x: Entry, dir: Direction, v: Json)
    requires WfCatalog(cat) && Selectable(cat, x) && v != Null && At(db, Home(x)) == Initial(cat, x, dir, v)
    ensures Passes(db, x, dir)
  {
    hide Filled;
    if !Inserts(x, dir) {
      FilledFits(cat[x.table], x.pk, Img(Expects(x, dir)), v);
    }
  }

  lemma LearntRowIsExact(cat: Catalog, db: Db, known: Known, x: Entry, dir: Direction, v: Json)
    requires WfCatalog(cat) && WfDb(cat, db) && Selectable(cat, x) && v != Null && Passes(db, x, dir)
    requires Home(x) in known ==> OnlyKnown(cat[x.table], At(db, Home(x)), known[Home(x)], v)
    requires Home(x) !in known ==> At(db, Home(x)) == Initial(cat, x, dir, v)
    ensures OnlyKnown(cat[x.table], RowAfter(cat, x, dir, At(db, Home(x))), Learn(cat, known, x, dir)[Home(x)], v)
  {
    hide Filled, Populate, WfDb, WfCatalog, KeyFits, Scalars;
    if Inserts(x, dir) {
      InsertedRow(cat, x, dir);
      WholeRowKnown(cat[x.table], Populate(cat[x.table], Img(Leaves(x, dir))), v);
    } else if x.op == U {
      if Home(x) !in known {
        FreshRowKnown(cat, x, dir, v);
      } else {
        ExpectedKnown(cat[x.table], db[Home(x)], CellsBefore(known, x), Img(Expects(x, dir)), v);
      }
      UpdateKnown(cat[x.table], db[Home(x)], CellsBefore(known, x) + Img(Expects(x, dir)), Img(Leaves(x, dir)), v);
    }
  }

  lemma WholeRowKnown(s: Schema, row: Row, v: Json)
    requires WfRow(s, row)
    ensures OnlyKnown(s, Some(row), Cells(row), v)
  {
  }

  lemma FreshRowKnown(cat: Catalog, x: Entry, dir: Direction, v: Json)
    requires WfCatalog(cat) && Selectable(cat, x) && v != Null && !Inserts(x, dir)
    ensures OnlyKnown(cat[x.table], Initial(cat, x, dir, v), Cells(x.pk + Img(Expects(x, dir))), v)
  {
    hide Filled, Scalars;
    FilledFits(cat[x.table], x.pk, Img(Expects(x, dir)), v);
  }

  lemma UpdateKnown(s: Schema, row: Row, cells: Row, image: Row, v: Json)
    requires OnlyKnown(s, Some(row), Cells(cells), v) && image.Keys <= s.cols
    ensures OnlyKnown(s, Some(row + image), Cells(cells + image), v)
  {
  }

  lemma ExpectedKnown(s: Schema, row: Row, cells: Row, image: Row, v: Json)
    requires OnlyKnown(s, Some(row), Cells(cells), v) && Matches(row, image) && image.Keys <= s.cols
    ensures OnlyKnown(s, Some(row), Cells(cells + image), v)
  {
  }

  lemma RestRows(cat: Catalog, db: Db, db': Db, known: Known, xs: seq<Entry>, dir: Direction, v: Json)
    requires xs != [] && AllSelectable(cat, xs) && FirstRows(cat, db, known, xs, dir, v)
    requires forall a | a != Home(xs[0]) :: At(db', a) == At(db, a)
    ensures xs[0].table in cat && AllSelectable(cat, xs[1..])
    ensures FirstRows(cat, db', Learn(cat, known, xs[0], dir), xs[1..], dir, v)
  {
    hide Initial, Selectable;
    assert xs[0] in xs && Selectable(cat, xs[0]);
    InCatalog(cat, xs[0]);
    var rest, known' := xs[1..], Learn(cat, known, xs[0], dir);
    forall i | 0 <= i < |rest| && FirstSeen(rest, i) && Home(rest[i]) !in known'
      ensures At(db', Home(rest[i])) == Initial(cat, rest[i], dir, v)
    {
      FirstSeenInRest(xs, i + 1);
      assert rest[i] == xs[i + 1];
    }
  }

  lemma InCatalog(cat: Catalog, x: Entry)
    requires Selectable(cat, x)
    ensures x.table in cat
  {
  }

  /** Where nothing more is known of the row than the steps say, a step that is not
      determined by them does not apply. */
  lemma UndeterminedFails(cat: Catalog, db: Db, x: Entry, dir: Direction, k: Knowledge, v: Json)
    requires Selectable(cat, x) && OnlyKnown(cat[x.table], At(db, Home(x)), k, v) && !Entails(k, x, dir)
    requires Foreign(v, [x], dir)
    ensures !Passes(db, x, dir)
  {
    if !Inserts(x, dir) && k.Cells? {
      var image := Img(Expects(x, dir));
      var c :| c in image && !(c in k.cells && k.cells[c] == image[c]);
      assert x in [x] && image[c] != v;
      assert c in cat[x.table].cols;
    }
  }

  lemma {:induction false} UndeterminedIsMissed(
      cat: Catalog, db: Db, known: Known, xs: seq<Entry>, dir: Direction, v: Json)
    requires WfCatalog(cat) && WfDb(cat, db) && AllSelectable(cat, xs) && Foreign(v, xs, dir)
    requires Exactly(cat, db, known, v) && FirstRows(cat, db, known, xs, dir, v)
    requires !Determined(cat, known, xs, dir)
    ensures Plannable(cat, xs, dir) && !AllApply(cat, db, xs, dir)
    decreases |xs|
  {
    hide StmtFor, ApplyOne, Selectable, StaysHome, WfDb, WfCatalog, Step, RowAfter, Learn, AllApply, OnlyKnown, Initial,
         Entails, Passes;
    SelectionIsPlannable(cat, xs, dir);
    var x := xs[0];
    assert x in xs;
    InCatalog(cat, x);
    StepAppliesIff(cat, db, x, dir);
    AllApplyCons(cat, db, xs, dir);
    if Home(x) in known && !Entails(known[Home(x)], x, dir) {
      UndeterminedFails(cat, db, x, dir, known[Home(x)], v);
    } else if Passes(db, x, dir) {
      StepLeavesOthers(cat, db, x, dir);
      assert FirstSeen(xs, 0);
      LearntRowIsExact(cat, db, known, x, dir, v);
      var q, known' := Step(cat, db, x, dir), Learn(cat, known, x, dir);
      LearnsOneRow(cat, known, x, dir);
      assert Exactly(cat, q.db, known', v);
      RestRows(cat, db, q.db, known, xs, dir, v);
      UndeterminedIsMissed(cat, q.db, known', xs[1..], dir, v);
    }
  }

  // ---------------------------------------------------------------------
  // Building that state
  // ---------------------------------------------------------------------

  /** A state in which every first step finds its row, and `v` all around. */
  ghost function World(cat: Catalog, xs: seq<Entry>, dir: Direction, v: Json): Db {
    if xs == [] then map[]
    else
      var rest := World(cat, xs[1..], dir, v);
      var row := Initial(cat, xs[0], dir, v);
      if row.None? then rest - {Home(xs[0])} else rest[Home(xs[0]) := row.value]
  }

  lemma {:induction false} WorldFits(cat: Catalog, xs: seq<Entry>, dir: Direction, v: Json)
    requires WfCatalog(cat) && AllSelectable(cat, xs) && v != Null
    ensures WfDb(cat, World(cat, xs, dir, v))
    ensures FirstRows(cat, World(cat, xs, dir, v), map[], xs, dir, v)
  {
    hide Filled, WfRow, KeyOf, Selectable, FirstSeen, WfDb;
    if xs == [] {
      NoRowsFit(cat);
    } else {
      var x, db := xs[0], World(cat, xs, dir, v);
      assert x in xs;
      InCatalog(cat, x);
      WorldFits(cat, xs[1..], dir, v);
      OneMoreRowFits(cat, World(cat, xs[1..], dir, v), x, dir, v);
      forall i | 0 <= i < |xs| && FirstSeen(xs, i) ensures At(db, Home(xs[i])) == Initial(cat, xs[i], dir, v) {
        if i > 0 {
          FirstSeenInRest(xs, i);
          assert xs[1..][i - 1] == xs[i];
        }
      }
    }
  }

  lemma NoRowsFit(cat: Catalog)
    ensures WfDb(cat, map[])
  {
  }

  lemma OneMoreRowFits(cat: Catalog, db: Db, x: Entry, dir: Direction, v: Json)
    requires WfCatalog(cat) && WfDb(cat, db) && Selectable(cat, x) && v != Null
    ensures var row := Initial(cat, x, dir, v);
      WfDb(cat, if row.None? then db - {Home(x)} else db[Home(x) := row.value])
  {
    hide Filled, WfRow, KeyOf;
    if !Inserts(x, dir) {
      FilledFits(cat[x.table], x.pk, Img(Expects(x, dir)), v);
    }
  }

  function Strings(image: Row): set<string> {
    set c | c in image && image[c].Str? :: image[c].s
  }

  function ExpectedStrings(xs: seq<Entry>, dir: Direction): (r: set<string>)
    ensures forall x | x in xs :: Strings(Img(Expects(x, dir))) <= r
  {
    if xs == [] then {}
    else
      assert xs == [xs[0]] + xs[1..];
      Strings(Img(Expects(xs[0], dir))) + ExpectedStrings(xs[1..], dir)
  }

  lemma ForeignValue(xs: seq<Entry>, dir: Direction) returns (v: Json)
    ensures Foreign(v, xs, dir)
  {
    var n := FreshName(ExpectedStrings(xs, dir));
    v := Str(n);
    forall x, c | x in xs && c in Img(Expects(x, dir)) ensures Img(Expects(x, dir))[c] != v {
      if Img(Expects(x, dir))[c].Str? {
        assert Img(Expects(x, dir))[c].s in Strings(Img(Expects(x, dir)));
      }
    }
  }

  // ---------------------------------------------------------------------
  // The exact condition
  // ---------------------------------------------------------------------

  lemma NoFlagPasses(cat: Catalog, db: Db, xs: seq<Entry>, dir: Direction)
    requires AllSelectable(cat, xs)
    ensures NoFlag(db, xs, dir) <==> FirstStepsPass(db, map[], xs, dir)
  {
    hide Probe, Passes, Selectable;
    forall i | 0 <= i < |xs| && FirstSeen(xs, i)
      ensures Flagged(db, xs, i, dir) <==> !Passes(db, xs[i], dir)
    {
      assert xs[i] in xs;
      ProbeIsPasses(cat, db, xs[i], dir);
    }
    assert forall i | 0 <= i < |xs| && !FirstSeen(xs, i) :: !Flagged(db, xs, i, dir);
  }

  /** A preview of a key-stable selection with scalar images is exact, in every
      state and in either direction, if and only if each of its steps about a row
      that an earlier step is about is determined by the earlier ones.  The
      condition is read off the selection alone. */
  lemma PreviewIsExactIff(cat: Catalog, xs: seq<Entry>, dir: Direction)
    requires WfCatalog(cat) && AllSelectable(cat, xs)
    ensures Plannable(cat, xs, dir)
    ensures (forall db | WfDb(cat, db) && NoFlag(db, xs, dir) :: AllApply(cat, db, xs, dir))
      <==> Determined(cat, map[], xs, dir)
  {
    hide Selectable, AllApply, Determined, NoFlag, WfDb, WfCatalog;
    SelectionIsPlannable(cat, xs, dir);
    if Determined(cat, map[], xs, dir) {
      forall db | WfDb(cat, db) && NoFlag(db, xs, dir) ensures AllApply(cat, db, xs, dir) {
        NoFlagPasses(cat, db, xs, dir);
        DeterminedApplies(cat, db, map[], xs, dir);
      }
    } else {
      var db := MissedConflict(cat, xs, dir);
    }
  }

  /** A state in which a selection that is not determined shows no flag, and yet
      not every step applies. */
  lemma MissedConflict(cat: Catalog, xs: seq<Entry>, dir: Direction) returns (db: Db)
    requires WfCatalog(cat) && AllSelectable(cat, xs) && !Determined(cat, map[], xs, dir)
    ensures WfDb(cat, db) && NoFlag(db, xs, dir) && Plannable(cat, xs, dir) && !AllApply(cat, db, xs, dir)
  {
    hide Selectable, AllApply, Determined, NoFlag, WfDb, WfCatalog, Initial, Passes;
    var v := ForeignValue(xs, dir);
    db := World(cat, xs, dir, v);
    WorldFits(cat, xs, dir, v);
    UndeterminedIsMissed(cat, db, map[], xs, dir, v);
    forall i | 0 <= i < |xs| && FirstSeen(xs, i) ensures Passes(db, xs[i], dir) {
      assert xs[i] in xs;
      InitialPasses(cat, db, xs[i], dir, v);
    }
    NoFlagPasses(cat, db, xs, dir);
  }

  /** So a selection with one change to each row is previewed exactly, delta images
      or not. */
  lemma {:induction false} OneChangePerRow(cat: Catalog, known: Known, xs: seq<Entry>, dir: Direction)
    requires AllSelectable(cat, xs)
    requires forall i, j | 0 <= i < j < |xs| :: Home(xs[i]) != Home(xs[j])
    requires forall i | 0 <= i < |xs| :: Home(xs[i]) !in known
    ensures Determined(cat, known, xs, dir)
    decreases |xs|
  {
    hide Selectable, Learn;
    if xs != [] {
      assert xs[0] in xs;
      InCatalog(cat, xs[0]);
      LearnsOneRow(cat, known, xs[0], dir);
      OneChangePerRow(cat, Learn(cat, known, xs[0], dir), xs[1..], dir);
    }
  }

  /** An undo without skipping that is not refused has applied every step. */
  lemma {:induction false} StrictUndoAppliesAll(cat: Catalog, db: Db, xs: seq<Entry>)
    requires Plannable(cat, xs, Undo)
    ensures Apply(cat, Going(db, [], []), Stmts(cat, xs, Undo), Undo, false).Going? ==> AllApply(cat, db, xs, Undo)
    decreases |xs|
  {
    hide StmtFor, Execute;
    if xs != [] {
      ApplyPlan(cat, db, xs, Undo, false);
      AllApplyCons(cat, db, xs, Undo);
      var q := Step(cat, db, xs[0], Undo);
      if q.Going? {
        StrictUndoAppliesAll(cat, q.db, xs[1..]);
      }
    }
  }

  // The smallest case: the older of two updates to one row, of another column,
  // is not probed.

  const DELTA_SCHEMA := Schema(map["id" := Null, "a" := Null, "b" := Null], {"id"}, {"id"})
  const DELTA_KEY: Row := map["id" := Num(1)]
  const DELTA_NEWER := Entry(1, "t", U, DELTA_KEY, Some(map["b" := Num(1)]), Some(map["b" := Num(2)]))
  const DELTA_OLDER := Entry(0, "t", U, DELTA_KEY, Some(map["a" := Num(1)]), Some(map["a" := Num(2)]))

  lemma DeltaEntryIsSelectable(cat: Catalog, id: nat, c: string, m: int, n: int)
    requires cat == map["t" := DELTA_SCHEMA] && c in {"a", "b"}
    ensures WfCatalog(cat)
    ensures Selectable(cat, Entry(id, "t", U, DELTA_KEY, Some(map[c := Num(m)]), Some(map[c := Num(n)])))
  {
    var before: Row, after: Row := map[c := Num(m)], map[c := Num(n)];
    assert c in before && c in after && c in DELTA_SCHEMA.cols && c !in DELTA_KEY;
  }

  lemma DeltaIsSelectable(cat: Catalog)
    requires cat == map["t" := DELTA_SCHEMA]
    ensures WfCatalog(cat) && AllSelectable(cat, [DELTA_NEWER, DELTA_OLDER])
  {
    hide Selectable, WfCatalog;
    DeltaEntryIsSelectable(cat, 1, "b", 1, 2);
    DeltaEntryIsSelectable(cat, 0, "a", 1, 2);
  }

  lemma DeltaIsUndetermined(cat: Catalog)
    requires cat == map["t" := DELTA_SCHEMA]
    ensures !Determined(cat, map[], [DELTA_NEWER, DELTA_OLDER], Undo)
  {
    var known := Learn(cat, map[], DELTA_NEWER, Undo);
    assert known[Home(DELTA_NEWER)].cells.Keys == {"id", "b"};
    assert "a" in Img(Expects(DELTA_OLDER, Undo));
    assert !Entails(known[Home(DELTA_OLDER)], DELTA_OLDER, Undo);
    assert [DELTA_NEWER, DELTA_OLDER][1..] == [DELTA_OLDER];
  }

  lemma DeltaPreviewMissesConflict() returns (cat: Catalog, db: Db, xs: seq<Entry>)
    ensures WfCatalog(cat) && WfDb(cat, db) && Plannable(cat, xs, Undo)
    ensures NoFlag(db, xs, Undo)
    ensures Apply(cat, Going(db, [], []), Stmts(cat, xs, Undo), Undo, false) == Stopped
  {
    hide Selectable, AllApply, Determined, NoFlag, WfDb, WfCatalog, Apply;
    cat, xs := map["t" := DELTA_SCHEMA], [DELTA_NEWER, DELTA_OLDER];
    DeltaIsSelectable(cat);
    DeltaIsUndetermined(cat);
    db := MissedConflict(cat, xs, Undo);
    StrictUndoAppliesAll(cat, db, xs);
  }
}
