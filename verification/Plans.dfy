/** Plans: which compensating statement each selected change is paired with, and
    what applying a plan does. */
module Plans {
  import opened Options
  import opened JsonValues
  import opened Tables
  import opened Capture

  datatype Direction = Undo | Replay

  datatype PlanError =
    | UncapturedTruncate
    | TableGone
    | NoPrimaryKey
    | NoImage
    | ShapeChanged
    | NoColumns

  predicate ImageFits(s: Schema, image: Option<Row>, complete: bool) {
    image.Some? ==> image.value.Keys <= s.cols && (complete ==> s.required <= image.value.Keys)
  }

  function Coalesce(a: Option<Row>, b: Option<Row>): Option<Row> {
    if a.Some? then a else b
  }

  /** The image a replay writes. */
  function ReplayImage(e: Entry): Option<Row> {
    if e.op == D then e.before else e.after
  }

  /** The UPDATE for an image; an image with no assignable column is refused. */
  function UpdateStmt(s: Schema, e: Entry, image: Option<Row>, expected: Option<Row>): Result<Stmt, PlanError> {
    if image.None? || image.value.Keys * s.cols == {} then Err(NoColumns)
    else Ok(UpdateRow(e.table, Restrict(image.value, s.cols), e.pk, expected))
  }

  /** The INSERT for an image; a NULL image populates a row of nulls. */
  function InsertStmt(e: Entry, image: Option<Row>): Stmt {
    InsertRow(e.table, if image.Some? then image.value else map[])
  }

  /** The statement `_plan` pairs with one change. */
  function StmtFor(cat: Catalog, e: Entry, dir: Direction): (r: Result<Stmt, PlanError>)
    ensures r.Ok? ==> r.result.table in cat && r.result.table == e.table
  {
    if e.op == T then Err(UncapturedTruncate)
    else if e.table !in cat then Err(TableGone)
    else
      var s := cat[e.table];
      if s.pk == {} then Err(NoPrimaryKey)
      else match dir
      case Replay =>
        if ReplayImage(e).None? then Err(NoImage)
        else if !ImageFits(s, ReplayImage(e), e.op != U) then Err(ShapeChanged)
        else (match e.op
        case I => Ok(InsertStmt(e, e.after))
        case D => Ok(DeleteRow(e.table, e.pk, e.before))
        case _ => UpdateStmt(s, e, e.after, e.before))
      case Undo =>
        if e.op == U then
          if !ImageFits(s, e.before, false) then Err(ShapeChanged)
          else UpdateStmt(s, e, e.before, e.after)
        else if !ImageFits(s, Coalesce(e.before, e.after), true) then Err(ShapeChanged)
        else if e.op == I then Ok(DeleteRow(e.table, e.pk, e.after))
        else Ok(InsertStmt(e, e.before))
  }

  function Home(x: Entry): Addr {
    Addr(x.table, x.pk)
  }

  /** The image a step's row must still hold; none if the row must be absent. */
  function Expects(x: Entry, dir: Direction): Option<Row> {
    if dir == Undo then x.after else x.before
  }

  /** The image a step leaves; none if it leaves no row. */
  function Leaves(x: Entry, dir: Direction): Option<Row> {
    if dir == Undo then x.before else x.after
  }

  /** The operation that inserts when the plan runs in this direction. */
  function InsertingOp(dir: Direction): Op {
    if dir == Undo then D else I
  }

  /** The one statement a change is paired with, read without its error cases. */
  lemma StmtShape(cat: Catalog, x: Entry, dir: Direction)
    requires StmtFor(cat, x, dir).Ok?
    ensures x.table in cat && x.op != T
    ensures var s := StmtFor(cat, x, dir).result;
      if x.op == InsertingOp(dir) then
        s == InsertRow(x.table, if Leaves(x, dir).Some? then Leaves(x, dir).value else map[])
      else if x.op == U then
        Leaves(x, dir).Some? && Leaves(x, dir).value.Keys <= cat[x.table].cols
        && s == UpdateRow(x.table, Leaves(x, dir).value, x.pk, Expects(x, dir))
      else s == DeleteRow(x.table, x.pk, Expects(x, dir))
  {
  }

  /** The image a planned change is checked against: the one it writes, or, when it
      deletes, the one of the row to go. */
  function Checked(x: Entry, dir: Direction): Option<Row> {
    Coalesce(Leaves(x, dir), if x.op == U then None else Expects(x, dir))
  }

  /** Inserts have no before image and deletes no after image. */
  predicate TwoSided(x: Entry) {
    (x.op == I ==> x.before.None?) && (x.op == D ==> x.after.None?)
  }

  /** When a change with an image can be planned under the table's present columns:
      none that was captured is gone, and, but for an update, none that is required
      was not captured. */
  lemma PlannedIffShapeFits(cat: Catalog, x: Entry, dir: Direction)
    requires x.op != T && x.table in cat && cat[x.table].pk != {} && TwoSided(x) && Checked(x, dir).Some?
    ensures var image, s := Checked(x, dir).value, cat[x.table];
      StmtFor(cat, x, dir).Ok? <==>
        && (forall c | c in image :: c in s.cols)
        && (if x.op == U then exists c :: c in image else forall c | c in s.required :: c in image)
  {
    var image, s := Checked(x, dir).value, cat[x.table];
    assert image.Keys <= s.cols <==> forall c | c in image :: c in s.cols;
    assert s.required <= image.Keys <==> forall c | c in s.required :: c in image;
    if image.Keys <= s.cols {
      assert image.Keys * s.cols == image.Keys;
      assert image.Keys == {} <==> !exists c :: c in image;
    }
  }

  /** What the other changes are refused with, or allowed without an image: an erased
      insert can still be undone and an erased delete undone to a row of nulls, but
      nothing can be replayed without its image. */
  lemma PlannedWithoutImage(cat: Catalog, x: Entry, dir: Direction)
    ensures x.op == T ==> StmtFor(cat, x, dir) == Err(UncapturedTruncate)
    ensures x.op != T && x.table !in cat ==> StmtFor(cat, x, dir) == Err(TableGone)
    ensures x.op != T && x.table in cat && cat[x.table].pk == {} ==> StmtFor(cat, x, dir) == Err(NoPrimaryKey)
    ensures x.op != T && x.table in cat && cat[x.table].pk != {} && TwoSided(x) && Checked(x, dir).None? ==>
      StmtFor(cat, x, dir) == match (dir, x.op)
        case (Replay, _) => Err(NoImage)
        case (Undo, U) => Err(NoColumns)
        case (Undo, I) => Ok(DeleteRow(x.table, x.pk, None))
        case (Undo, _) => Ok(InsertRow(x.table, map[]))
  {
  }

  ghost predicate Plannable(cat: Catalog, xs: seq<Entry>, dir: Direction) {
    forall x | x in xs :: StmtFor(cat, x, dir).Ok?
  }

  ghost predicate Runnable(cat: Catalog, stmts: seq<Stmt>) {
    forall s | s in stmts :: s.table in cat
  }

  /** The statements of a plan, in the order they are applied. */
  function Stmts(cat: Catalog, xs: seq<Entry>, dir: Direction): (r: seq<Stmt>)
    requires Plannable(cat, xs, dir)
    ensures |r| == |xs| && Runnable(cat, r)
  {
    seq(|xs|, i requires 0 <= i < |xs| => StmtFor(cat, xs[i], dir).result)
  }

  function Reverse<A(!new)>(xs: seq<A>): (r: seq<A>)
    ensures |r| == |xs|
    ensures forall i | 0 <= i < |xs| :: r[i] == xs[|xs| - 1 - i]
    ensures forall x :: x in r <==> x in xs
  {
    if xs == [] then []
    else
      assert xs == [xs[0]] + xs[1..];
      Reverse(xs[1..]) + [xs[0]]
  }

  /** A selection in the order its plan applies it: newest first to undo, oldest
      first to replay. */
  function InOrder(xs: seq<Entry>, dir: Direction): (r: seq<Entry>)
    ensures |r| == |xs|
    ensures forall x :: x in r <==> x in xs
  {
    if dir == Undo then Reverse(xs) else xs
  }

  // ---------------------------------------------------------------------
  // Applying
  // ---------------------------------------------------------------------

  datatype Status = Applied | Skipped | Satisfied

  /** How far an apply loop has come.  A stopped loop has raised, so the whole
      transaction is rolled back. */
  datatype Progress =
    | Going(db: Db, statuses: seq<Status>, writes: seq<Write>)
    | Stopped

  /** A replayed delete that matched nothing because its row is already gone. */
  predicate GoalMet(db: Db, s: Stmt, dir: Direction) {
    dir == Replay && s.DeleteRow? && Addr(s.table, s.key) !in db
  }

  function ApplyOne(cat: Catalog, p: Progress, s: Stmt, dir: Direction, skip: bool): Progress
    requires s.table in cat
  {
    match p
    case Stopped => Stopped
    case Going(db, statuses, writes) =>
      match Execute(cat, db, s)
      case Raised => Stopped
      case Wrote(w) =>
        assert Enabled(cat, db, w);
        Going(Perform(cat, db, w), statuses + [Applied], writes + [w])
      case NoRow =>
        if GoalMet(db, s, dir) then Going(db, statuses + [Satisfied], writes)
        else if skip then Going(db, statuses + [Skipped], writes)
        else Stopped
  }

  /** What a step's status says. */
  lemma StatusTells(cat: Catalog, db: Db, x: Entry, dir: Direction, skip: bool)
    requires StmtFor(cat, x, dir).Ok?
    ensures var outcome := Execute(cat, db, StmtFor(cat, x, dir).result);
      var gone := dir == Replay && x.op == D && Addr(x.table, x.pk) !in db;
      match ApplyOne(cat, Going(db, [], []), StmtFor(cat, x, dir).result, dir, skip)
      case Stopped => outcome.Raised? || (outcome.NoRow? && !skip && !gone)
      case Going(db', statuses, writes) =>
        && |statuses| == 1
        && (statuses[0] == Applied <==> outcome.Wrote?) && (statuses[0] == Satisfied <==> gone)
        && (statuses[0] == Skipped <==> outcome.NoRow? && skip && !gone)
        && (statuses[0] == Applied ==> writes == [outcome.w])
        && (statuses[0] != Applied ==> db' == db && writes == [])
  {
    StmtShape(cat, x, dir);
  }

  function Apply(cat: Catalog, p: Progress, stmts: seq<Stmt>, dir: Direction, skip: bool): Progress
    requires Runnable(cat, stmts)
    decreases |stmts|
  {
    if stmts == [] then p
    else Apply(cat, ApplyOne(cat, p, stmts[0], dir, skip), stmts[1..], dir, skip)
  }

  lemma {:induction false} StoppedStays(cat: Catalog, stmts: seq<Stmt>, dir: Direction, skip: bool)
    requires Runnable(cat, stmts)
    ensures Apply(cat, Stopped, stmts, dir, skip) == Stopped
    decreases |stmts|
  {
    if stmts != [] {
      StoppedStays(cat, stmts[1..], dir, skip);
    }
  }

  lemma {:induction false} ApplyConcat(
      cat: Catalog, p: Progress, a: seq<Stmt>, b: seq<Stmt>, dir: Direction, skip: bool)
    requires Runnable(cat, a) && Runnable(cat, b)
    ensures Runnable(cat, a + b)
    ensures Apply(cat, p, a + b, dir, skip) == Apply(cat, Apply(cat, p, a, dir, skip), b, dir, skip)
    decreases |a|
  {
    if a == [] {
      assert a + b == b;
    } else {
      assert (a + b)[0] == a[0] && (a + b)[1..] == a[1..] + b;
      ApplyConcat(cat, ApplyOne(cat, p, a[0], dir, skip), a[1..], b, dir, skip);
    }
  }

  /** Progress `q`, made from scratch, recorded after what `p` had recorded. */
  function Onto(p: Progress, q: Progress): Progress
    requires p.Going?
  {
    if q.Stopped? then Stopped else Going(q.db, p.statuses + q.statuses, p.writes + q.writes)
  }

  lemma ApplyOneShift(cat: Catalog, p: Progress, s: Stmt, dir: Direction, skip: bool)
    requires s.table in cat && p.Going?
    ensures ApplyOne(cat, p, s, dir, skip) == Onto(p, ApplyOne(cat, Going(p.db, [], []), s, dir, skip))
  {
    assert p.writes + [] == p.writes;
    assert forall x :: [] + [x] == [x] && p.statuses + ([] + [x]) == p.statuses + [x];
  }

  lemma OntoAssociative(p: Progress, q: Progress, r: Progress)
    requires p.Going? && q.Going?
    ensures Onto(Onto(p, q), r) == Onto(p, Onto(q, r))
  {
    if r.Going? {
      assert (p.statuses + q.statuses) + r.statuses == p.statuses + (q.statuses + r.statuses);
      assert (p.writes + q.writes) + r.writes == p.writes + (q.writes + r.writes);
    }
  }

  /** What later steps do to the database does not depend on what was recorded
      before them. */
  lemma {:induction false} ApplyShift(cat: Catalog, p: Progress, stmts: seq<Stmt>, dir: Direction, skip: bool)
    requires Runnable(cat, stmts) && p.Going?
    ensures Apply(cat, p, stmts, dir, skip) == Onto(p, Apply(cat, Going(p.db, [], []), stmts, dir, skip))
    decreases |stmts|
  {
    if stmts == [] {
      assert p.statuses + [] == p.statuses && p.writes + [] == p.writes;
    } else {
      var start := Going(p.db, [], []);
      var q := ApplyOne(cat, start, stmts[0], dir, skip);
      ApplyOneShift(cat, p, stmts[0], dir, skip);
      if q.Stopped? {
        StoppedStays(cat, stmts[1..], dir, skip);
      } else {
        var r := Apply(cat, Going(q.db, [], []), stmts[1..], dir, skip);
        ApplyShift(cat, Onto(p, q), stmts[1..], dir, skip);
        ApplyShift(cat, q, stmts[1..], dir, skip);
        OntoAssociative(p, q, r);
      }
    }
  }
}
