/** An undo or a replay running among other writers: its statements, one
    transaction, interleaved in any way with the row writes of other transactions. */
module Interleaving {
  import opened Options
  import opened JsonValues
  import opened Tables
  import opened Capture
  import opened Plans
  import opened Duality
  import opened ReplayTheorems

  type CellRef = (Addr, string)

  function CellAt(db: Db, c: CellRef): (r: Option<Json>)
    ensures r.Some? <==> c.0 in db && c.1 in db[c.0]
    ensures r.Some? ==> r.value == db[c.0][c.1]
  {
    match At(db, c.0)
    case None => None
    case Some(row) => if c.1 in row then Some(row[c.1]) else None
  }

  /** `db` is what the undo's next statement sees.  `base` is what the other
      writers alone have made of the tables.  `saved` holds the pre-image of
      every address the undo has written, so those rows stay locked until it
      ends, and `cells` every cell its applied steps assigned or deleted. */
  datatype World = World(
    db: Db, base: Db, saved: map<Addr, Option<Row>>, cells: set<CellRef>, next: nat, stopped: bool)

  datatype Move = Foreign(w: Write) | Step

  /** The cells a statement assigns, or removes with their row. */
  function Assigned(cat: Catalog, s: Stmt, w: Write): set<CellRef>
    requires w.table in cat
  {
    if s.UpdateRow? && w.before.Some? && !w.MovesKey(cat) then
      set c | c in s.image :: (Place(cat, w.table, w.before.value), c)
    else
      set a, c | a in Touched(cat, w) && c in cat[w.table].cols :: (a, c)
  }

  /** The first write to an address saves its pre-image. */
  function SaveOne(saved: map<Addr, Option<Row>>, db: Db, a: Addr): map<Addr, Option<Row>> {
    if a in saved then saved else saved[a := At(db, a)]
  }

  function Save(cat: Catalog, world: World, w: Write): (r: map<Addr, Option<Row>>)
    requires w.table in cat
    ensures r.Keys == world.saved.Keys + Touched(cat, w)
    ensures forall a | a in r :: r[a] == if a in world.saved then world.saved[a] else At(world.db, a)
  {
    var once := if w.before.Some? then SaveOne(world.saved, world.db, Place(cat, w.table, w.before.value)) else world.saved;
    if w.after.Some? then SaveOne(once, world.db, Place(cat, w.table, w.after.value)) else once
  }

  /** Whether a move can happen: another writer waits for rows the undo holds. */
  predicate Allowed(cat: Catalog, stmts: seq<Stmt>, world: World, m: Move) {
    !world.stopped &&
    match m
    case Foreign(w) => Enabled(cat, world.base, w) && Touched(cat, w) !! world.saved.Keys
    case Step => world.next < |stmts| && stmts[world.next].table in cat
  }

  /** Another writer's row write, seen by the undo's next statement as well. */
  function AfterForeign(cat: Catalog, world: World, w: Write): World
    requires Enabled(cat, world.base, w)
  {
    world.(base := Perform(cat, world.base, w),
           db := if Enabled(cat, world.db, w) then Perform(cat, world.db, w) else world.db)
  }

  /** A row write of the undo itself. */
  function AfterOwn(cat: Catalog, world: World, s: Stmt, w: Write): World
    requires Enabled(cat, world.db, w)
  {
    world.(db := Perform(cat, world.db, w),
           saved := Save(cat, world, w),
           cells := world.cells + Assigned(cat, s, w),
           next := world.next + 1)
  }

  function AfterStep(cat: Catalog, world: World, s: Stmt, dir: Direction, skip: bool): World
    requires s.table in cat
  {
    match Execute(cat, world.db, s)
    case Raised => world.(stopped := true)
    case NoRow => world.(next := world.next + 1, stopped := !skip && !GoalMet(world.db, s, dir))
    case Wrote(w) => AfterOwn(cat, world, s, w)
  }

  function Advance(cat: Catalog, stmts: seq<Stmt>, world: World, m: Move, dir: Direction, skip: bool): World
    requires Allowed(cat, stmts, world, m)
  {
    match m
    case Foreign(w) => AfterForeign(cat, world, w)
    case Step => AfterStep(cat, world, stmts[world.next], dir, skip)
  }

  predicate Trace(cat: Catalog, stmts: seq<Stmt>, world: World, ms: seq<Move>, dir: Direction, skip: bool)
    decreases |ms|
  {
    ms != [] ==>
      && Allowed(cat, stmts, world, ms[0])
      && Trace(cat, stmts, Advance(cat, stmts, world, ms[0], dir, skip), ms[1..], dir, skip)
  }

  function End(cat: Catalog, stmts: seq<Stmt>, world: World, ms: seq<Move>, dir: Direction, skip: bool): World
    requires Trace(cat, stmts, world, ms, dir, skip)
    decreases |ms|
  {
    if ms == [] then world
    else End(cat, stmts, Advance(cat, stmts, world, ms[0], dir, skip), ms[1..], dir, skip)
  }

  function Start(db: Db): World {
    World(db, db, map[], {}, 0, false)
  }

  function OwnSteps(n: nat): (ms: seq<Move>)
    ensures |ms| == n && forall m | m in ms :: m == Step
  {
    seq(n, i => Step)
  }

  lemma StepIsApplyOne(cat: Catalog, world: World, p: Progress, s: Stmt, dir: Direction, skip: bool)
    requires s.table in cat && !world.stopped && p.Going? && p.db == world.db
    ensures var world', p' := AfterStep(cat, world, s, dir, skip), ApplyOne(cat, p, s, dir, skip);
      if p'.Going? then !world'.stopped && world'.next == world.next + 1 && world'.db == p'.db else world'.stopped
  {
    hide Execute, Perform, Save, Assigned, Enabled;
    if Execute(cat, world.db, s).Wrote? {
      WroteIsEnabled(cat, world.db, s);
    }
  }

  /** With no other writer about, the interleaved loop is the apply loop: step by step
      it ends in the tables that loop ends in, or is stopped where that one stops. */
  lemma {:induction false} AloneIsApply(
      cat: Catalog, stmts: seq<Stmt>, world: World, p: Progress, dir: Direction, skip: bool)
    returns (n: nat)
    requires Runnable(cat, stmts) && !world.stopped && world.next <= |stmts|
    requires p.Going? && p.db == world.db
    ensures Trace(cat, stmts, world, OwnSteps(n), dir, skip)
    ensures var end, q := End(cat, stmts, world, OwnSteps(n), dir, skip), Apply(cat, p, stmts[world.next..], dir, skip);
      if q.Going? then !end.stopped && end.next == |stmts| == world.next + n && end.db == q.db else end.stopped
    decreases |stmts| - world.next
  {
    hide AfterStep, ApplyOne;
    n := 0;
    if world.next < |stmts| {
      var rest := stmts[world.next..];
      assert rest[0] == stmts[world.next] && rest[0] in stmts && rest[1..] == stmts[world.next + 1..];
      var world' := Advance(cat, stmts, world, Step, dir, skip);
      var p' := ApplyOne(cat, p, rest[0], dir, skip);
      StepIsApplyOne(cat, world, p, rest[0], dir, skip);
      if world'.stopped {
        StoppedStays(cat, rest[1..], dir, skip);
        n := 1;
        assert OwnSteps(1)[0] == Step && OwnSteps(1)[1..] == [];
      } else {
        var k := AloneIsApply(cat, stmts, world', p', dir, skip);
        n := k + 1;
        assert OwnSteps(n)[0] == Step && OwnSteps(n)[1..] == OwnSteps(k);
      }
    }
  }

  /** Rolling back puts every saved pre-image back and touches nothing else. */
  ghost predicate RollsBackTo(world: World, db: Db) {
    forall a :: At(db, a) == if a in world.saved then world.saved[a] else At(world.db, a)
  }

  /** What one more move makes of the tables the other writers alone leave. */
  function ForeignOne(cat: Catalog, db: Db, m: Move): Db {
    if m.Foreign? && Enabled(cat, db, m.w) then Perform(cat, db, m.w) else db
  }

  /** The tables the other writers alone would have left. */
  function ForeignOnly(cat: Catalog, db: Db, ms: seq<Move>): Db
    decreases |ms|
  {
    if ms == [] then db else ForeignOnly(cat, ForeignOne(cat, db, ms[0]), ms[1..])
  }

  ghost predicate Inv(cat: Catalog, world: World) {
    && WfDb(cat, world.db) && WfDb(cat, world.base)
    && (forall a | a !in world.saved :: At(world.db, a) == At(world.base, a))
    && (forall a | a in world.saved :: world.saved[a] == At(world.base, a))
    && (forall c | c !in world.cells :: CellAt(world.db, c) == CellAt(world.base, c))
  }

  /** A write another transaction may do is one the undo's view lets through
      too, and it has the same effect on both. */
  lemma ForeignSeenAlike(cat: Catalog, world: World, w: Write)
    requires Inv(cat, world) && Enabled(cat, world.base, w) && Touched(cat, w) !! world.saved.Keys
    ensures Enabled(cat, world.db, w)
    ensures forall a | a in Touched(cat, w) ::
      At(Perform(cat, world.db, w), a) == At(Perform(cat, world.base, w), a)
    ensures forall a | a !in Touched(cat, w) :: At(Perform(cat, world.db, w), a) == At(world.db, a)
    ensures forall a | a !in Touched(cat, w) :: At(Perform(cat, world.base, w), a) == At(world.base, a)
  {
    forall a | a in Touched(cat, w) ensures At(world.db, a) == At(world.base, a) { }
    if w.before.Some? {
      assert Place(cat, w.table, w.before.value) in Touched(cat, w);
    }
    if w.after.Some? {
      assert Place(cat, w.table, w.after.value) in Touched(cat, w);
    }
    forall a | a !in Touched(cat, w)
      ensures At(Perform(cat, world.db, w), a) == At(world.db, a)
      ensures At(Perform(cat, world.base, w), a) == At(world.base, a)
    {
      PerformFrame(cat, world.db, w, a);
      PerformFrame(cat, world.base, w, a);
    }
  }

  lemma ForeignCell(cat: Catalog, world: World, w: Write, c: CellRef)
    requires Inv(cat, world) && Enabled(cat, world.base, w) && Touched(cat, w) !! world.saved.Keys
    requires c !in world.cells
    ensures Enabled(cat, world.db, w)
    ensures CellAt(Perform(cat, world.db, w), c) == CellAt(Perform(cat, world.base, w), c)
  {
    ForeignSeenAlike(cat, world, w);
    assert CellAt(world.db, c) == CellAt(world.base, c);
  }

  lemma ForeignAddress(cat: Catalog, world: World, w: Write, a: Addr)
    requires Inv(cat, world) && Enabled(cat, world.base, w) && Touched(cat, w) !! world.saved.Keys
    ensures Enabled(cat, world.db, w)
    ensures a !in world.saved ==> At(Perform(cat, world.db, w), a) == At(Perform(cat, world.base, w), a)
    ensures a in world.saved ==> world.saved[a] == At(Perform(cat, world.base, w), a)
  {
    ForeignSeenAlike(cat, world, w);
  }

  lemma ForeignKeepsInv(cat: Catalog, world: World, w: Write)
    requires Inv(cat, world) && Enabled(cat, world.base, w) && Touched(cat, w) !! world.saved.Keys
    ensures Inv(cat, AfterForeign(cat, world, w))
  {
    PerformKeepsWf(cat, world.base, w);
    ForeignSeenAlike(cat, world, w);
    PerformKeepsWf(cat, world.db, w);
    var world' := AfterForeign(cat, world, w);
    assert world'.saved == world.saved && world'.cells == world.cells;
    forall a
      ensures a !in world'.saved ==> At(world'.db, a) == At(world'.base, a)
      ensures a in world'.saved ==> world'.saved[a] == At(world'.base, a)
    {
      ForeignAddress(cat, world, w, a);
    }
    forall c | c !in world'.cells ensures CellAt(world'.db, c) == CellAt(world'.base, c) {
      ForeignCell(cat, world, w, c);
    }
  }

  lemma SameRowSameCell(db: Db, db': Db, c: CellRef)
    requires At(db', c.0) == At(db, c.0)
    ensures CellAt(db', c) == CellAt(db, c)
  {
  }

  lemma NoSuchColumn(cat: Catalog, db: Db, c: CellRef)
    requires WfDb(cat, db) && c.0.table in cat && c.1 !in cat[c.0.table].cols
    ensures CellAt(db, c) == None
  {
  }

  /** An UPDATE that keeps the key changes only the columns of its image. */
  lemma UpdateFrame(cat: Catalog, db: Db, s: Stmt, w: Write, c: CellRef)
    requires WfDb(cat, db) && s.UpdateRow? && s.table in cat && Execute(cat, db, s) == Wrote(w)
    requires w.table in cat && !w.MovesKey(cat) && c.1 !in s.image
    requires Enabled(cat, db, w)
    ensures CellAt(Perform(cat, db, w), c) == CellAt(db, c)
  {
    var a := Addr(s.table, s.key);
    ExecuteUpdate(cat, db, s, db[a]);
    assert w == Write(s.table, Some(db[a]), Some(db[a] + s.image));
    if c.0 == a {
      PerformAt(cat, db, w);
    } else {
      PerformFrame(cat, db, w, c.0);
    }
  }

  /** An applied statement changes no cell outside those it assigns. */
  lemma StatementFrame(cat: Catalog, db: Db, s: Stmt, c: CellRef)
    requires WfCatalog(cat) && WfDb(cat, db) && s.table in cat && Execute(cat, db, s).Wrote?
    requires c !in Assigned(cat, s, Execute(cat, db, s).w)
    ensures Enabled(cat, db, Execute(cat, db, s).w)
    ensures CellAt(Perform(cat, db, Execute(cat, db, s).w), c) == CellAt(db, c)
  {
    hide Execute, WfDb, CellAt;
    var w := Execute(cat, db, s).w;
    WroteIsEnabled(cat, db, s);
    if c.0 !in Touched(cat, w) {
      PerformFrame(cat, db, w, c.0);
      SameRowSameCell(db, Perform(cat, db, w), c);
    } else if s.UpdateRow? && w.before.Some? && !w.MovesKey(cat) {
      if c.1 !in s.image {
        UpdateFrame(cat, db, s, w, c);
      }
    } else {
      PerformKeepsWf(cat, db, w);
      NoSuchColumn(cat, db, c);
      NoSuchColumn(cat, Perform(cat, db, w), c);
    }
  }

  lemma OwnWriteRows(cat: Catalog, world: World, s: Stmt, w: Write)
    requires Inv(cat, world) && Enabled(cat, world.db, w)
    ensures var world' := AfterOwn(cat, world, s, w);
      && WfDb(cat, world'.db)
      && (forall a | a !in world'.saved :: At(world'.db, a) == At(world'.base, a))
      && (forall a | a in world'.saved :: world'.saved[a] == At(world'.base, a))
  {
    hide Enabled, Perform, WfDb, Touched, Assigned, CellAt;
    PerformKeepsWf(cat, world.db, w);
    var world' := AfterOwn(cat, world, s, w);
    forall a | a !in world'.saved ensures At(world'.db, a) == At(world'.base, a) {
      PerformFrame(cat, world.db, w, a);
    }
  }

  lemma OwnWriteKeepsInv(cat: Catalog, world: World, s: Stmt, w: Write)
    requires WfCatalog(cat) && Inv(cat, world) && s.table in cat && Execute(cat, world.db, s) == Wrote(w)
    ensures Enabled(cat, world.db, w) && Inv(cat, AfterOwn(cat, world, s, w))
  {
    hide Execute, Enabled, Perform, WfDb, WfCatalog, Touched, Assigned, CellAt, Save;
    WroteIsEnabled(cat, world.db, s);
    OwnWriteRows(cat, world, s, w);
    var world' := AfterOwn(cat, world, s, w);
    forall c | c !in world'.cells ensures CellAt(world'.db, c) == CellAt(world'.base, c) {
      StatementFrame(cat, world.db, s, c);
    }
  }

  lemma SameTablesKeepInv(cat: Catalog, world: World, next: nat, stopped: bool)
    requires Inv(cat, world)
    ensures Inv(cat, world.(next := next, stopped := stopped))
  {
  }

  lemma StepKeepsInv(cat: Catalog, world: World, s: Stmt, dir: Direction, skip: bool)
    requires WfCatalog(cat) && Inv(cat, world) && s.table in cat
    ensures Inv(cat, AfterStep(cat, world, s, dir, skip))
    ensures AfterStep(cat, world, s, dir, skip).base == world.base
  {
    hide Inv, Execute, GoalMet, Enabled;
    var world' := AfterStep(cat, world, s, dir, skip);
    match Execute(cat, world.db, s)
    case Raised => SameTablesKeepInv(cat, world, world'.next, world'.stopped);
    case NoRow => SameTablesKeepInv(cat, world, world'.next, world'.stopped);
    case Wrote(w) => OwnWriteKeepsInv(cat, world, s, w);
  }

  lemma AdvanceKeepsInv(cat: Catalog, stmts: seq<Stmt>, world: World, m: Move, dir: Direction, skip: bool)
    requires WfCatalog(cat) && Inv(cat, world) && Allowed(cat, stmts, world, m)
    ensures Inv(cat, Advance(cat, stmts, world, m, dir, skip))
    ensures Advance(cat, stmts, world, m, dir, skip).base == ForeignOne(cat, world.base, m)
  {
    match m
    case Foreign(w) => ForeignKeepsInv(cat, world, w);
    case Step => StepKeepsInv(cat, world, stmts[world.next], dir, skip);
  }

  lemma {:induction false} TraceKeepsInv(cat: Catalog, stmts: seq<Stmt>, world: World, ms: seq<Move>, dir: Direction, skip: bool)
    requires WfCatalog(cat) && Inv(cat, world) && Trace(cat, stmts, world, ms, dir, skip)
    ensures Inv(cat, End(cat, stmts, world, ms, dir, skip))
    ensures End(cat, stmts, world, ms, dir, skip).base == ForeignOnly(cat, world.base, ms)
    decreases |ms|
  {
    if ms != [] {
      AdvanceKeepsInv(cat, stmts, world, ms[0], dir, skip);
      TraceKeepsInv(cat, stmts, Advance(cat, stmts, world, ms[0], dir, skip), ms[1..], dir, skip);
    }
  }

  lemma RollbackIsBase(cat: Catalog, world: World, db: Db)
    requires Inv(cat, world)
    ensures RollsBackTo(world, db) <==> db == world.base
  {
    forall a ensures At(world.base, a) == if a in world.saved then world.saved[a] else At(world.db, a) {
    }
    if RollsBackTo(world, db) {
      SameEverywhere(db, world.base);
    }
  }

  /** However an undo or a replay is interleaved with other writers, a refused one
      leaves the tables as the other writers alone would have left them, and one
      that ends leaves every cell that no applied step assigned as they would
      have left it. */
  lemma PlanAmongWriters(cat: Catalog, stmts: seq<Stmt>, db: Db, ms: seq<Move>, dir: Direction, skip: bool)
    requires WfCatalog(cat) && WfDb(cat, db) && Trace(cat, stmts, Start(db), ms, dir, skip)
    ensures var end := End(cat, stmts, Start(db), ms, dir, skip);
      var others := ForeignOnly(cat, db, ms);
      && (forall r :: RollsBackTo(end, r) <==> r == others)
      && (forall c | c !in end.cells :: CellAt(end.db, c) == CellAt(others, c))
      && (forall a | a !in end.saved :: At(end.db, a) == At(others, a))
  {
    TraceKeepsInv(cat, stmts, Start(db), ms, dir, skip);
    forall r {
      RollbackIsBase(cat, End(cat, stmts, Start(db), ms, dir, skip), r);
    }
  }

  // ---------------------------------------------------------------------
  // What an applied step overwrites
  // ---------------------------------------------------------------------

  /** An unredacted entry whose guard image holds only scalar values, over the
      columns the step restores or, where it deletes, over all of them. */
  ghost predicate ExactlyGuarded(cat: Catalog, x: Entry, dir: Direction) {
    && x.table in cat && Unredacted(x)
    && (Expects(x, dir).Some? ==> Scalars(Expects(x, dir).value))
    && (x.op == U ==> x.before.value.Keys == x.after.value.Keys)
    && (x.op != U && x.op != InsertingOp(dir) && Expects(x, dir).Some? ==>
          Expects(x, dir).value.Keys == cat[x.table].cols)
  }

  /** The value a step expects in a cell: what the change being undone left there,
      or what the change being replayed found there. */
  function ExpectedCell(x: Entry, dir: Direction, c: CellRef): Option<Json> {
    var image := Expects(x, dir);
    if image.Some? && c.0 == Home(x) && c.1 in image.value then Some(image.value[c.1]) else None
  }

  /** No lost update: at the instant a step is applied, whatever other writers did
      before, every cell whose value it changes or removes held exactly the value
      its guard image has for it. */
  lemma AppliedStepOverwritesOnlyCaptured(cat: Catalog, db: Db, x: Entry, dir: Direction, c: CellRef)
    requires WfCatalog(cat) && WfDb(cat, db) && ExactlyGuarded(cat, x, dir)
    requires StmtFor(cat, x, dir).Ok? && Execute(cat, db, StmtFor(cat, x, dir).result).Wrote?
    requires CellAt(db, c).Some?
    ensures OverwritesOnlyExpected(cat, db, x, dir, c)
  {
    hide StmtFor, Execute, WfDb, WfCatalog, Contains, Populate;
    var s := StmtFor(cat, x, dir).result;
    var w := Execute(cat, db, s).w;
    WroteIsEnabled(cat, db, s);
    StmtShape(cat, x, dir);
    if c.0 !in Touched(cat, w) {
      PerformFrame(cat, db, w, c.0);
    } else if x.op == InsertingOp(dir) {
      InsertOverwritesNothing(cat, db, s, w);
    } else {
      GuardedRow(cat, db, s, w);
      GuardIsExactIffScalar(Expects(x, dir).value);
      assert Matches(w.before.value, Expects(x, dir).value);
    }
  }

  /** The cell keeps its value, or had the expected one, or its row moves to
      another key and takes it along. */
  ghost predicate OverwritesOnlyExpected(cat: Catalog, db: Db, x: Entry, dir: Direction, c: CellRef)
    requires StmtFor(cat, x, dir).Ok? && Execute(cat, db, StmtFor(cat, x, dir).result).Wrote?
  {
    var w := Execute(cat, db, StmtFor(cat, x, dir).result).w;
    assert Enabled(cat, db, w) by { WroteIsEnabled(cat, db, StmtFor(cat, x, dir).result); }
    || CellAt(Perform(cat, db, w), c) == CellAt(db, c)
    || CellAt(db, c) == ExpectedCell(x, dir, c)
    || (w.MovesKey(cat) && c.0 == Home(x)
        && CellAt(Perform(cat, db, w), (Place(cat, w.table, w.after.value), c.1)) == CellAt(db, c))
  }

  lemma {:induction false} TracePrefix(
      cat: Catalog, stmts: seq<Stmt>, world: World, ms: seq<Move>, k: nat, dir: Direction, skip: bool)
    requires Trace(cat, stmts, world, ms, dir, skip) && k < |ms|
    ensures Trace(cat, stmts, world, ms[..k], dir, skip)
    ensures Allowed(cat, stmts, End(cat, stmts, world, ms[..k], dir, skip), ms[k])
    decreases k
  {
    hide Allowed, Advance;
    if k > 0 {
      TracePrefix(cat, stmts, Advance(cat, stmts, world, ms[0], dir, skip), ms[1..], k - 1, dir, skip);
      assert ms[..k][1..] == ms[1..][..k - 1];
    }
  }

  /** In every run among other writers, whichever of its moves is a step of the
      plan: if that step writes, every cell it changes or removes held exactly the
      expected value at that instant. */
  lemma NoLostUpdateAmongWriters(
      cat: Catalog, xs: seq<Entry>, db: Db, ms: seq<Move>, k: nat, dir: Direction, skip: bool, c: CellRef)
    requires WfCatalog(cat) && WfDb(cat, db) && Plannable(cat, xs, dir)
    requires forall x | x in xs :: ExactlyGuarded(cat, x, dir)
    requires Trace(cat, Stmts(cat, xs, dir), Start(db), ms, dir, skip) && k < |ms| && ms[k].Step?
    ensures Trace(cat, Stmts(cat, xs, dir), Start(db), ms[..k], dir, skip)
    ensures var world := End(cat, Stmts(cat, xs, dir), Start(db), ms[..k], dir, skip);
      && world.next < |xs| && StmtFor(cat, xs[world.next], dir).Ok?
      && (Execute(cat, world.db, StmtFor(cat, xs[world.next], dir).result).Wrote? && CellAt(world.db, c).Some? ==>
            OverwritesOnlyExpected(cat, world.db, xs[world.next], dir, c))
  {
    hide StmtFor, Execute, ExactlyGuarded, OverwritesOnlyExpected, WfDb, WfCatalog, Trace, End;
    var stmts := Stmts(cat, xs, dir);
    TracePrefix(cat, stmts, Start(db), ms, k, dir, skip);
    StartInv(cat, db);
    TraceKeepsInv(cat, stmts, Start(db), ms[..k], dir, skip);
    var world := End(cat, stmts, Start(db), ms[..k], dir, skip);
    assert xs[world.next] in xs;
    if Execute(cat, world.db, StmtFor(cat, xs[world.next], dir).result).Wrote? && CellAt(world.db, c).Some? {
      AppliedStepOverwritesOnlyCaptured(cat, world.db, xs[world.next], dir, c);
    }
  }

  lemma StartInv(cat: Catalog, db: Db)
    requires WfDb(cat, db)
    ensures Inv(cat, Start(db))
  {
  }

  lemma InsertOverwritesNothing(cat: Catalog, db: Db, s: Stmt, w: Write)
    requires s.InsertRow? && s.table in cat && Execute(cat, db, s) == Wrote(w)
    ensures w.table in cat && forall a | a in Touched(cat, w) :: a !in db
  {
  }

  /** A guarded DELETE or UPDATE wrote the one row it names, which passed. */
  lemma GuardedRow(cat: Catalog, db: Db, s: Stmt, w: Write)
    requires !s.InsertRow? && s.table in cat && WfDb(cat, db) && Execute(cat, db, s) == Wrote(w)
    ensures w.table == s.table && w.before.Some? && At(db, Addr(s.table, s.key)) == w.before
    ensures Place(cat, s.table, w.before.value) == Addr(s.table, s.key)
    ensures GuardPasses(w.before.value, s.expected)
    ensures w.after == if s.UpdateRow? then Some(w.before.value + s.image) else None
  {
  }

  /** A row that differs from a captured one in a non-key column, is still a row
      of the table under the same key, and yet passes the guard. */
  lemma DifferentRowPassesGuard(s: Schema, after: Row, c: string) returns (live: Row)
    requires WfRow(s, after) && c in after && c !in s.pk && !Scalar(after[c])
    ensures WfRow(s, live) && KeyOf(s, live) == KeyOf(s, after)
    ensures Holds(live, after) && !Matches(live, after)
  {
    var larger := ContainerHasLargerValue(after[c]);
    live := after[c := larger];
    forall d | d in after ensures Contains(live[d], after[d]) { ContainsReflexive(after[d]); }
  }

  /** The same promise, exactly: for a captured update of a whole row, an applied
      undo proves the row still held the captured values, in every state, if and
      only if those values are all scalars. */
  lemma NoLostUpdateIffScalar(cat: Catalog, x: Entry)
    requires WfCatalog(cat) && x.op == U && x.table in cat && x.before.Some? && x.after.Some?
    requires WfRow(cat[x.table], x.before.value) && WfRow(cat[x.table], x.after.value)
    requires x.pk == KeyOf(cat[x.table], x.after.value) && x.pk == KeyOf(cat[x.table], x.before.value)
    requires forall c | c in cat[x.table].pk :: Scalar(x.after.value[c])
    ensures StmtFor(cat, x, Undo).Ok?
    ensures
      (forall db | WfDb(cat, db) && Execute(cat, db, StmtFor(cat, x, Undo).result).Wrote? ::
         Matches(db[Addr(x.table, x.pk)], x.after.value))
      <==> Scalars(x.after.value)
  {
    var s := cat[x.table];
    var after := x.after.value;
    var a := Addr(x.table, x.pk);
    var k :| k in s.pk;
    assert k in x.before.value.Keys * s.cols;
    var stmt := StmtFor(cat, x, Undo).result;
    if Scalars(after) {
      GuardIsExactIffScalar(after);
    } else {
      var c :| c in after && !Scalar(after[c]);
      var live := DifferentRowPassesGuard(s, after, c);
      var db: Db := map[a := live];
      assert WfDb(cat, db);
      assert Restrict(x.before.value, s.cols) == x.before.value;
      assert live + x.before.value == x.before.value;
      assert Execute(cat, db, stmt) == Wrote(Write(x.table, Some(live), x.before));
      assert !Matches(db[a], after);
    }
  }

  /** An erased insert has lost its guard: undoing it deletes whatever row now
      has that key. */
  lemma ErasedInsertIsUndoneUnguarded(cat: Catalog, db: Db, x: Entry)
    requires WfCatalog(cat) && WfDb(cat, db) && x.table in cat
    requires x.op == I && x.before.None? && x.after.None? && Addr(x.table, x.pk) in db
    ensures StmtFor(cat, x, Undo).Ok?
    ensures Execute(cat, db, StmtFor(cat, x, Undo).result)
         == Wrote(Write(x.table, Some(db[Addr(x.table, x.pk)]), None))
  {
  }
}
