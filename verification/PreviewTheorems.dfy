/** Preview: the conflicts reported before anything runs, against what running
    the plan does. */
module PreviewTheorems {
  import opened Options
  import opened JsonValues
  import opened Tables
  import opened Capture
  import opened Plans
  import opened UndoTheorems
  import opened ReplayTheorems

  /** The conflict column: true, false, or NULL when the guard image is NULL. */
  datatype Verdict = Conflicting | Clear | Unknown

  function Judge(conflict: bool): Verdict {
    if conflict then Conflicting else Clear
  }

  /** Probing the live row. */
  function Probe(db: Db, x: Entry, dir: Direction): Verdict {
    var live := At(db, Home(x));
    if x.op == InsertingOp(dir) then Judge(live.Some?)
    else if live.None? then Conflicting
    else if Expects(x, dir).None? then Unknown
    else Judge(!Holds(live.value, Expects(x, dir).value))
  }

  /** No earlier step, in application order, is about the same row. */
  predicate FirstSeen(xs: seq<Entry>, i: nat)
    requires i < |xs|
  {
    forall j | 0 <= j < i :: Home(xs[j]) != Home(xs[i])
  }

  /** The conflict column of a previewed step. */
  function Conflict(db: Db, xs: seq<Entry>, i: nat, dir: Direction): Verdict
    requires i < |xs|
  {
    if FirstSeen(xs, i) then Probe(db, xs[i], dir) else Clear
  }

  predicate Flagged(db: Db, xs: seq<Entry>, i: nat, dir: Direction)
    requires i < |xs|
  {
    Conflict(db, xs, i, dir) == Conflicting
  }

  // ---------------------------------------------------------------------
  // On a key-stable selection a flag is never a false alarm
  // ---------------------------------------------------------------------

  /** The image a step writes belongs at the key the step is about. */
  ghost predicate StaysHome(cat: Catalog, x: Entry, dir: Direction) {
    && x.table in cat
    && Leaves(x, dir).Some?
    ==>
      var image := Leaves(x, dir).value;
      && (x.op == InsertingOp(dir) ==> KeyOf(cat[x.table], Populate(cat[x.table], image)) == x.pk)
      && (x.op == U ==> forall c | c in cat[x.table].pk && c in image :: c in x.pk && image[c] == x.pk[c])
  }

  lemma WriteStaysHome(cat: Catalog, db: Db, x: Entry, dir: Direction, w: Write)
    requires WfCatalog(cat) && WfDb(cat, db) && StmtFor(cat, x, dir).Ok? && StaysHome(cat, x, dir)
    requires x.op == InsertingOp(dir) ==> Leaves(x, dir).Some?
    requires Execute(cat, db, StmtFor(cat, x, dir).result) == Wrote(w)
    ensures w.table in cat && Touched(cat, w) <= {Home(x)}
  {
    StmtShape(cat, x, dir);
    if x.op == U {
      var live := db[Home(x)];
      ExecuteUpdate(cat, db, StmtFor(cat, x, dir).result, live);
      assert KeyOf(cat[x.table], live) == x.pk;
      assert KeyOf(cat[x.table], live + Leaves(x, dir).value) == x.pk;
    }
  }

  /** An applied step of a key-stable plan changes only its own row. */
  lemma StepChangesOnlyHome(cat: Catalog, db: Db, x: Entry, dir: Direction, skip: bool, a: Addr)
    requires WfCatalog(cat) && WfDb(cat, db) && StmtFor(cat, x, dir).Ok? && StaysHome(cat, x, dir)
    requires x.op == InsertingOp(dir) ==> Leaves(x, dir).Some?
    requires ApplyOne(cat, Going(db, [], []), StmtFor(cat, x, dir).result, dir, skip).Going?
    ensures var q := ApplyOne(cat, Going(db, [], []), StmtFor(cat, x, dir).result, dir, skip);
      WfDb(cat, q.db) && (a != Home(x) ==> At(q.db, a) == At(db, a))
  {
    hide StmtFor, Execute, Enabled, Perform, WfDb, StaysHome;
    match Execute(cat, db, StmtFor(cat, x, dir).result) {
      case NoRow =>
      case Raised =>
      case Wrote(w) =>
        WroteIsEnabled(cat, db, StmtFor(cat, x, dir).result);
        WriteStaysHome(cat, db, x, dir, w);
        PerformKeepsWf(cat, db, w);
        if a != Home(x) {
          PerformFrame(cat, db, w, a);
        }
    }
  }

  /** Applying a plan is applying its first step, then the plan of the rest. */
  lemma ApplyPlan(cat: Catalog, db: Db, xs: seq<Entry>, dir: Direction, skip: bool)
    requires xs != [] && Plannable(cat, xs, dir)
    ensures StmtFor(cat, xs[0], dir).Ok? && Plannable(cat, xs[1..], dir)
    ensures var p := ApplyOne(cat, Going(db, [], []), StmtFor(cat, xs[0], dir).result, dir, skip);
      Apply(cat, Going(db, [], []), Stmts(cat, xs, dir), dir, skip) ==
        if p.Stopped? then Stopped
        else Onto(p, Apply(cat, Going(p.db, [], []), Stmts(cat, xs[1..], dir), dir, skip))
  {
    assert xs[0] in xs;
    var s, more := StmtFor(cat, xs[0], dir).result, Stmts(cat, xs[1..], dir);
    assert Stmts(cat, xs, dir) == [s] + more;
    ApplyCons(cat, Going(db, [], []), s, more, dir, skip);
    var p := ApplyOne(cat, Going(db, [], []), s, dir, skip);
    if p.Stopped? {
      StoppedStays(cat, more, dir, skip);
    } else {
      ApplyShift(cat, p, more, dir, skip);
    }
  }

  /** A replayed delete of an absent row is flagged, yet counts as satisfied. */
  predicate MayBeSatisfied(x: Entry, dir: Direction) {
    dir == Replay && x.op == D
  }

  /** Inserting from an erased image inserts nulls, which the key refuses. */
  lemma RedactedInsertStops(cat: Catalog, db: Db, x: Entry, dir: Direction)
    requires WfCatalog(cat) && StmtFor(cat, x, dir).Ok? && x.op == InsertingOp(dir) && Leaves(x, dir).None?
    ensures ApplyOne(cat, Going(db, [], []), StmtFor(cat, x, dir).result, dir, false) == Stopped
  {
    var s := cat[x.table];
    StmtShape(cat, x, dir);
    var k :| k in s.pk;
    assert k in s.required && Populate(s, map[])[k] == Null;
    assert !WfRow(s, Populate(s, map[]));
  }

  lemma FlaggedStepStops(cat: Catalog, db: Db, x: Entry, dir: Direction)
    requires StmtFor(cat, x, dir).Ok? && Probe(db, x, dir) == Conflicting && !MayBeSatisfied(x, dir)
    requires x.op == InsertingOp(dir) ==> StaysHome(cat, x, dir) && Leaves(x, dir).Some?
    ensures ApplyOne(cat, Going(db, [], []), StmtFor(cat, x, dir).result, dir, false) == Stopped
  {
  }

  lemma SameRowSameProbe(db: Db, db': Db, x: Entry, dir: Direction)
    requires At(db', Home(x)) == At(db, Home(x))
    ensures Probe(db', x, dir) == Probe(db, x, dir)
  {
  }

  /** A step that a preview flags makes the plan refuse, whatever the steps
      before it do: for every key-stable selection, in both directions, except
      for a replayed delete whose row is already gone.  A redacted row to insert
      stops the plan by itself. */
  lemma {:induction false} FlagMeansRefusal(cat: Catalog, db: Db, xs: seq<Entry>, i: nat, dir: Direction)
    requires WfCatalog(cat) && WfDb(cat, db) && Plannable(cat, xs, dir)
    requires forall x | x in xs :: StaysHome(cat, x, dir)
    requires i < |xs| && Flagged(db, xs, i, dir) && !MayBeSatisfied(xs[i], dir)
    ensures Apply(cat, Going(db, [], []), Stmts(cat, xs, dir), dir, false) == Stopped
    decreases |xs|
  {
    hide StmtFor, Execute, ApplyOne, Probe, StaysHome, FullImages;
    var x, rest := xs[0], xs[1..];
    assert x in xs;
    ApplyPlan(cat, db, xs, dir, false);
    if x.op == InsertingOp(dir) && Leaves(x, dir).None? {
      RedactedInsertStops(cat, db, x, dir);
    } else if i == 0 {
      FlaggedStepStops(cat, db, x, dir);
    } else {
      var p := ApplyOne(cat, Going(db, [], []), StmtFor(cat, x, dir).result, dir, false);
      if p.Going? {
        FirstSeenInRest(xs, i);
        StepChangesOnlyHome(cat, db, x, dir, false, Home(xs[i]));
        SameRowSameProbe(db, p.db, xs[i], dir);
        FlagMeansRefusal(cat, p.db, rest, i - 1, dir);
      }
    }
  }

  lemma FirstSeenInRest(xs: seq<Entry>, i: nat)
    requires 0 < i < |xs|
    ensures FirstSeen(xs, i) <==> Home(xs[0]) != Home(xs[i]) && FirstSeen(xs[1..], i - 1)
  {
    forall j | 0 < j < i ensures xs[j] == xs[1..][j - 1] { }
    if FirstSeen(xs[1..], i - 1) && Home(xs[0]) != Home(xs[i]) {
      forall j | 0 <= j < i ensures Home(xs[j]) != Home(xs[i]) {
        if j > 0 { assert Home(xs[1..][j - 1]) != Home(xs[1..][i - 1]); }
      }
    }
    if FirstSeen(xs, i) {
      forall j | 0 <= j < i - 1 ensures Home(xs[1..][j]) != Home(xs[1..][i - 1]) { assert xs[1..][j] == xs[j + 1]; }
    }
  }

  // ---------------------------------------------------------------------
  // With whole rows and no gaps, no flag means no refusal
  // ---------------------------------------------------------------------

  /** The entry carries whole row images, all under its own key. */
  ghost predicate FullImages(cat: Catalog, x: Entry) {
    && x.table in cat && x.op != T
    && x.before.Some? == (x.op != I) && x.after.Some? == (x.op != D)
    && (x.before.Some? ==> WfRow(cat[x.table], x.before.value) && KeyOf(cat[x.table], x.before.value) == x.pk)
    && (x.after.Some? ==> WfRow(cat[x.table], x.after.value) && KeyOf(cat[x.table], x.after.value) == x.pk)
  }

  /** No change to a selected row is missing between two selected ones: each step
      leaves what the next step about the same row expects. */
  ghost predicate GapFree(xs: seq<Entry>, dir: Direction) {
    forall i, j | 0 <= i < j < |xs| && Home(xs[i]) == Home(xs[j])
      && (forall k | i < k < j :: Home(xs[k]) != Home(xs[i])) ::
      Leaves(xs[i], dir) == Expects(xs[j], dir)
  }

  ghost predicate NoFlag(db: Db, xs: seq<Entry>, dir: Direction) {
    forall i | 0 <= i < |xs| :: !Flagged(db, xs, i, dir)
  }

  lemma FullImagesPlan(cat: Catalog, x: Entry, dir: Direction)
    requires WfCatalog(cat) && FullImages(cat, x)
    ensures StmtFor(cat, x, dir).Ok? && StaysHome(cat, x, dir)
    ensures x.op == InsertingOp(dir) ==> Leaves(x, dir).Some?
    ensures x.op == U ==> StmtFor(cat, x, dir) == Ok(UpdateRow(x.table, Leaves(x, dir).value, x.pk, Expects(x, dir)))
  {
    var s := cat[x.table];
    var k :| k in s.pk;
    if x.op == U {
      UpdateStmts(cat, x);
    }
    if x.op == InsertingOp(dir) {
      assert Populate(s, Leaves(x, dir).value) == Leaves(x, dir).value;
    }
  }

  lemma FullImagesProbe(cat: Catalog, db: Db, x: Entry, dir: Direction)
    requires FullImages(cat, x)
    ensures Probe(db, x, dir) != Unknown
  {
  }

  /** An unflagged step applies and leaves exactly its image. */
  lemma UnflaggedStepApplies(cat: Catalog, db: Db, x: Entry, dir: Direction, skip: bool)
    requires WfCatalog(cat) && WfDb(cat, db) && FullImages(cat, x) && Probe(db, x, dir) == Clear
    ensures StmtFor(cat, x, dir).Ok?
    ensures var q := ApplyOne(cat, Going(db, [], []), StmtFor(cat, x, dir).result, dir, skip);
      q.Going? && q.statuses == [Applied] && At(q.db, Home(x)) == Leaves(x, dir)
  {
    hide StmtFor, Execute, Enabled, Perform, WfDb;
    FullImagesPlan(cat, x, dir);
    StmtShape(cat, x, dir);
    hide StaysHome;
    var s := StmtFor(cat, x, dir).result;
    if x.op == InsertingOp(dir) {
      var row := Leaves(x, dir).value;
      assert Populate(cat[x.table], row) == row;
      ExecuteInsert(cat, db, s, row);
      PerformAt(cat, db, Write(x.table, None, Some(row)));
    } else if x.op == U {
      var live, row := db[Home(x)], Leaves(x, dir).value;
      ExecuteUpdate(cat, db, s, live);
      assert live + row == row;
      ExecuteUpdateWrites(cat, db, s, live);
      PerformAt(cat, db, Write(x.table, Some(live), Some(row)));
    } else {
      var live := db[Home(x)];
      ExecuteDelete(cat, db, s, live);
      PerformAt(cat, db, Write(x.table, Some(live), None));
    }
  }

  /** Without a flag and without gaps the first step applies, and leaves a plan
      without a flag and without gaps. */
  lemma FirstApplies(cat: Catalog, db: Db, xs: seq<Entry>, dir: Direction, skip: bool)
    requires WfCatalog(cat) && WfDb(cat, db) && GapFree(xs, dir) && NoFlag(db, xs, dir) && xs != []
    requires forall x | x in xs :: FullImages(cat, x)
    ensures StmtFor(cat, xs[0], dir).Ok?
    ensures var p := ApplyOne(cat, Going(db, [], []), StmtFor(cat, xs[0], dir).result, dir, skip);
      && p.Going? && p.statuses == [Applied] && WfDb(cat, p.db)
      && GapFree(xs[1..], dir) && NoFlag(p.db, xs[1..], dir)
  {
    hide StmtFor, Execute, ApplyOne, Probe, StaysHome, FullImages, GapFree, WfDb;
    var x := xs[0];
    assert x in xs && !Flagged(db, xs, 0, dir) && FirstSeen(xs, 0);
    FullImagesProbe(cat, db, x, dir);
    UnflaggedStepApplies(cat, db, x, dir, skip);
    FullImagesPlan(cat, x, dir);
    StepChangesOnlyHome(cat, db, x, dir, skip, Home(x));
    RestGapFree(xs, dir);
    var p := ApplyOne(cat, Going(db, [], []), StmtFor(cat, x, dir).result, dir, skip);
    forall i: nat | i < |xs[1..]| ensures !Flagged(p.db, xs[1..], i, dir) {
      assert xs[i + 1] in xs;
      RestUnflagged(cat, db, xs, dir, skip, i);
    }
  }

  lemma {:induction false} NoFlagMeansApplied(cat: Catalog, db: Db, xs: seq<Entry>, dir: Direction, skip: bool)
    requires WfCatalog(cat) && WfDb(cat, db) && GapFree(xs, dir) && NoFlag(db, xs, dir)
    requires forall x | x in xs :: FullImages(cat, x)
    ensures Plannable(cat, xs, dir)
    ensures var r := Apply(cat, Going(db, [], []), Stmts(cat, xs, dir), dir, skip);
      r.Going? && r.statuses == AllApplied(|xs|)
    decreases |xs|
  {
    hide StmtFor, ApplyOne, FullImages, GapFree, WfDb, NoFlag;
    forall x | x in xs ensures StmtFor(cat, x, dir).Ok? { FullImagesPlan(cat, x, dir); }
    if xs != [] {
      FirstApplies(cat, db, xs, dir, skip);
      var p := ApplyOne(cat, Going(db, [], []), StmtFor(cat, xs[0], dir).result, dir, skip);
      NoFlagMeansApplied(cat, p.db, xs[1..], dir, skip);
      ApplyPlan(cat, db, xs, dir, skip);
      assert [Applied] + AllApplied(|xs| - 1) == AllApplied(|xs|);
    }
  }

  lemma RestGapFree(xs: seq<Entry>, dir: Direction)
    requires GapFree(xs, dir) && xs != []
    ensures GapFree(xs[1..], dir)
  {
    var rest := xs[1..];
    forall i, j | 0 <= i < j < |rest| && Home(rest[i]) == Home(rest[j])
      && (forall k | i < k < j :: Home(rest[k]) != Home(rest[i]))
      ensures Leaves(rest[i], dir) == Expects(rest[j], dir)
    {
      forall k | i + 1 < k < j + 1 ensures Home(xs[k]) != Home(xs[i + 1]) { assert xs[k] == rest[k - 1]; }
      assert rest[i] == xs[i + 1] && rest[j] == xs[j + 1];
    }
  }

  /** Between a step and the next one about the same row there is no gap. */
  lemma NextExpectsFirst(xs: seq<Entry>, i: nat, dir: Direction)
    requires GapFree(xs, dir) && 0 < i < |xs| && FirstSeen(xs[1..], i - 1) && Home(xs[0]) == Home(xs[i])
    ensures Leaves(xs[0], dir) == Expects(xs[i], dir)
  {
    forall k | 0 < k < i ensures Home(xs[k]) != Home(xs[0]) {
      assert Home(xs[1..][k - 1]) != Home(xs[1..][i - 1]);
    }
  }

  /** After the first step applies, nothing that remains is flagged. */
  lemma RestUnflagged(cat: Catalog, db: Db, xs: seq<Entry>, dir: Direction, skip: bool, i: nat)
    requires WfCatalog(cat) && WfDb(cat, db) && GapFree(xs, dir) && NoFlag(db, xs, dir)
    requires xs != [] && i < |xs[1..]| && FullImages(cat, xs[0]) && FullImages(cat, xs[i + 1])
    requires StmtFor(cat, xs[0], dir).Ok?
    requires ApplyOne(cat, Going(db, [], []), StmtFor(cat, xs[0], dir).result, dir, skip).Going?
    requires At(ApplyOne(cat, Going(db, [], []), StmtFor(cat, xs[0], dir).result, dir, skip).db, Home(xs[0])) == Leaves(xs[0], dir)
    ensures !Flagged(ApplyOne(cat, Going(db, [], []), StmtFor(cat, xs[0], dir).result, dir, skip).db, xs[1..], i, dir)
  {
    hide StmtFor, Execute, ApplyOne, Probe, FullImages, StaysHome, GapFree, WfDb, Leaves, Expects;
    var db1 := ApplyOne(cat, Going(db, [], []), StmtFor(cat, xs[0], dir).result, dir, skip).db;
    var x, y := xs[0], xs[i + 1];
    assert xs[1..][i] == y;
    FirstSeenInRest(xs, i + 1);
    if FirstSeen(xs[1..], i) {
      FullImagesPlan(cat, x, dir);
      if Home(x) == Home(y) {
        NextExpectsFirst(xs, i + 1, dir);
        LeftRowUnflagged(cat, db1, y, dir);
      } else {
        StepChangesOnlyHome(cat, db, x, dir, skip, Home(y));
        SameRowSameProbe(db, db1, y, dir);
        assert !Flagged(db, xs, i + 1, dir);
      }
    }
  }

  lemma LeftRowUnflagged(cat: Catalog, db: Db, y: Entry, dir: Direction)
    requires FullImages(cat, y) && At(db, Home(y)) == Expects(y, dir)
    ensures Probe(db, y, dir) == Clear
  {
    if Expects(y, dir).Some? {
      ContainsReflexive(Obj(Expects(y, dir).value));
    }
  }

  /** With whole-row images and no gaps a preview is exact: an undo without
      skipping applies every step if and only if no step is flagged. */
  lemma PreviewIsExact(cat: Catalog, db: Db, xs: seq<Entry>)
    requires WfCatalog(cat) && WfDb(cat, db) && GapFree(xs, Undo)
    requires forall x | x in xs :: FullImages(cat, x)
    ensures Plannable(cat, xs, Undo)
    ensures NoFlag(db, xs, Undo) <==>
      Apply(cat, Going(db, [], []), Stmts(cat, xs, Undo), Undo, false).Going?
  {
    forall x | x in xs
      ensures StmtFor(cat, x, Undo).Ok? && StaysHome(cat, x, Undo) && (x.op == InsertingOp(Undo) ==> Leaves(x, Undo).Some?)
    {
      FullImagesPlan(cat, x, Undo);
    }
    if NoFlag(db, xs, Undo) {
      NoFlagMeansApplied(cat, db, xs, Undo, false);
    } else {
      var i: nat :| i < |xs| && Flagged(db, xs, i, Undo);
      FlagMeansRefusal(cat, db, xs, i, Undo);
    }
  }
}
