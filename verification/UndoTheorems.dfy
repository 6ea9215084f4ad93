/** Undo inverts capture, and an undo can itself be undone. */
module UndoTheorems {
  import opened Options
  import opened JsonValues
  import opened Tables
  import opened Capture
  import opened Plans

  /** One change: right after the write, the undo statement of the entry it left
      is exactly the inverse write, whatever was captured of it. */
  lemma UndoStmtInvertsWrite(cat: Catalog, db: Db, e: Event, id: nat)
    requires WfCatalog(cat) && WfDb(cat, db) && Enabled(cat, db, e.w)
    ensures Captured(cat, e, id).None? ==> Perform(cat, db, e.w) == db
    ensures Captured(cat, e, id).Some? ==>
      var r := StmtFor(cat, Captured(cat, e, id).value, Undo);
      r.Ok? && Execute(cat, Perform(cat, db, e.w), r.result) == Wrote(e.w.Inverse())
  {
    var s := cat[e.w.table];
    var db1 := Perform(cat, db, e.w);
    InverseRestores(cat, db, e.w);
    match (e.w.before, e.w.after)
    case (None, Some(next)) =>
      MatchingRowPassesGuard(next, next);
    case (Some(prior), None) =>
      assert Populate(s, prior) == prior;
    case (Some(prior), Some(next)) =>
      UndoUpdateInverts(cat, db, e, id);
    case _ =>
  }

  /** The update case: the captured columns, delta or whole row, are enough to
      rebuild the earlier row, key-changing updates included. */
  lemma UndoUpdateInverts(cat: Catalog, db: Db, e: Event, id: nat)
    requires WfCatalog(cat) && WfDb(cat, db) && Enabled(cat, db, e.w)
    requires e.w.before.Some? && e.w.after.Some?
    ensures Captured(cat, e, id).None? ==> Perform(cat, db, e.w) == db
    ensures Captured(cat, e, id).Some? ==>
      var r := StmtFor(cat, Captured(cat, e, id).value, Undo);
      r.Ok? && Execute(cat, Perform(cat, db, e.w), r.result) == Wrote(e.w.Inverse())
  {
    hide StmtFor, Captured, Execute, WfRow, Perform;
    var prior, next := e.w.before.value, e.w.after.value;
    var db1 := Perform(cat, db, e.w);
    InverseRestores(cat, db, e.w);
    if Captured(cat, e, id).None? {
      UncapturedIsNoOp(cat, db, e, id);
    } else {
      var x := Captured(cat, e, id).value;
      CapturedImages(cat, e, id);
      UpdateStmts(cat, x);
      MatchingRowPassesGuard(next, x.after.value);
      var stmt := UpdateRow(x.table, x.before.value, x.pk, x.after);
      assert At(db1, Addr(x.table, x.pk)) == Some(next);
      PerformKeepsWf(cat, db, e.w);
      ExecuteUpdate(cat, db1, stmt, next);
      assert Write(x.table, Some(next), Some(next + x.before.value)) == e.w.Inverse();
    }
  }

  /** Only a write that leaves its row as it was goes uncaptured. */
  lemma UncapturedIsNoOp(cat: Catalog, db: Db, e: Event, id: nat)
    requires WfDb(cat, db) && Enabled(cat, db, e.w) && Captured(cat, e, id).None?
    ensures e.w.before.Some? && e.w.after == e.w.before && !e.w.MovesKey(cat)
    ensures Perform(cat, db, e.w) == db
  {
    var prior, next := e.w.before.value, e.w.after.value;
    assert forall c | c in next :: c !in Changed(prior, next);
    assert prior == next;
  }

  /** The statements planned for an update that carries both images. */
  lemma UpdateStmts(cat: Catalog, x: Entry)
    requires x.op == U && x.table in cat && cat[x.table].pk != {} && x.before.Some? && x.after.Some?
    requires x.before.value.Keys == x.after.value.Keys <= cat[x.table].cols && x.before.value.Keys != {}
    ensures StmtFor(cat, x, Undo) == Ok(UpdateRow(x.table, x.before.value, x.pk, x.after))
    ensures StmtFor(cat, x, Replay) == Ok(UpdateRow(x.table, x.after.value, x.pk, x.before))
  {
    var s := cat[x.table];
    assert x.before.value.Keys * s.cols == x.before.value.Keys;
  }

  /** What a captured update carries: non-empty before and after images over the
      same columns, true of the row then, that turn either row into the other. */
  lemma CapturedImages(cat: Catalog, e: Event, id: nat)
    requires WfCatalog(cat) && e.w.Shaped(cat) && e.w.before.Some? && e.w.after.Some?
    requires Captured(cat, e, id).Some?
    ensures var x := Captured(cat, e, id).value;
      && x.op == U && x.table == e.w.table && x.pk == KeyOf(cat[e.w.table], e.w.after.value)
      && x.before.Some? && x.after.Some?
      && x.before.value.Keys == x.after.value.Keys <= cat[e.w.table].cols
      && x.before.value.Keys != {}
      && Matches(e.w.before.value, x.before.value)
      && Matches(e.w.after.value, x.after.value)
      && e.w.after.value + x.before.value == e.w.before.value
      && e.w.before.value + x.after.value == e.w.after.value
  {
    var s := cat[e.w.table];
    var prior, next := e.w.before.value, e.w.after.value;
    var changed := Changed(prior, next);
    var k :| k in s.pk;
    assert k in prior;
    assert changed <= s.cols;
    assert Restrict(prior, changed).Keys == changed == Restrict(next, changed).Keys;
    assert next + Restrict(prior, changed) == prior;
    assert prior + Restrict(next, changed) == next;
    assert next + prior == prior && prior + next == next;
  }

  /** The plan that undoes exactly what a run left in the history. */
  function UndoOf(cat: Catalog, run: seq<Event>, id: nat): (r: seq<Stmt>)
    requires AllShaped(cat, run)
    requires Plannable(cat, Reverse(LogOf(cat, run, id)), Undo)
    ensures Runnable(cat, r)
  {
    Stmts(cat, Reverse(LogOf(cat, run, id)), Undo)
  }

  function AllApplied(n: nat): (r: seq<Status>)
    ensures |r| == n
  {
    seq(n, i => Applied)
  }

  lemma {:induction false} CapturedIsPlannable(cat: Catalog, db: Db, run: seq<Event>, id: nat)
    requires WfCatalog(cat) && WfDb(cat, db) && Possible(cat, db, run)
    ensures AllShaped(cat, run)
    ensures Plannable(cat, LogOf(cat, run, id), Undo)
    decreases |run|
  {
    PossibleIsShaped(cat, db, run);
    if run != [] {
      var db1 := Perform(cat, db, run[0].w);
      UndoStmtInvertsWrite(cat, db, run[0], id);
      PerformKeepsWf(cat, db, run[0].w);
      CapturedIsPlannable(cat, db1, run[1..], id);
      CapturedIsPlannable(cat, db1, run[1..], id + 1);
    }
  }

  /** Undoing a history with one more change in front: first everything after
      it, then that change. */
  lemma UndoOfCons(cat: Catalog, e: Event, rest: seq<Event>, id: nat)
    requires AllShaped(cat, [e] + rest) && AllShaped(cat, rest) && Captured(cat, e, id).Some?
    requires Plannable(cat, Reverse(LogOf(cat, [e] + rest, id)), Undo)
    requires Plannable(cat, Reverse(LogOf(cat, rest, id + 1)), Undo)
    ensures var x := Captured(cat, e, id).value;
      && StmtFor(cat, x, Undo).Ok?
      && UndoOf(cat, [e] + rest, id) == UndoOf(cat, rest, id + 1) + [StmtFor(cat, x, Undo).result]
  {
    hide StmtFor, Captured;
    var x := Captured(cat, e, id).value;
    var later := LogOf(cat, rest, id + 1);
    assert ([e] + rest)[1..] == rest;
    assert LogOf(cat, [e] + rest, id) == [x] + later;
    assert ([x] + later)[1..] == later;
    assert Reverse([x] + later) == Reverse(later) + [x];
    assert x in Reverse([x] + later);
  }

  lemma ApplyLast(cat: Catalog, p: Progress, s: Stmt, dir: Direction, skip: bool)
    requires s.table in cat
    ensures Apply(cat, p, [s], dir, skip) == ApplyOne(cat, p, s, dir, skip)
  {
    assert [s][1..] == [];
  }

  /** The last step of an undo, once everything after the change is undone. */
  lemma UndoLastStep(cat: Catalog, db: Db, e: Event, id: nat, p: Progress, skip: bool)
    requires WfCatalog(cat) && WfDb(cat, db) && Enabled(cat, db, e.w) && Captured(cat, e, id).Some?
    requires p.Going? && p.db == Perform(cat, db, e.w)
    ensures StmtFor(cat, Captured(cat, e, id).value, Undo).Ok?
    ensures var r := ApplyOne(cat, p, StmtFor(cat, Captured(cat, e, id).value, Undo).result, Undo, skip);
      r.Going? && r.db == db && r.statuses == p.statuses + [Applied]
  {
    UndoStmtInvertsWrite(cat, db, e, id);
    InverseRestores(cat, db, e.w);
  }

  /** For every start state and every run of inserts, updates (key-changing ones
      included) and deletes, captured under any mix of settings, undoing exactly
      the captured log finds no conflict, applies every step and returns the
      start state. */
  lemma {:induction false} UndoInvertsCapture(cat: Catalog, db: Db, run: seq<Event>, id: nat, skip: bool)
    requires WfCatalog(cat) && WfDb(cat, db) && Possible(cat, db, run)
    ensures AllShaped(cat, run)
    ensures Plannable(cat, Reverse(LogOf(cat, run, id)), Undo)
    ensures var r := Apply(cat, Going(After(cat, db, run), [], []), UndoOf(cat, run, id), Undo, skip);
      r.Going? && r.db == db && r.statuses == AllApplied(|LogOf(cat, run, id)|)
    decreases |run|
  {
    hide Captured, StmtFor, ApplyOne, WfDb, WfCatalog, Enabled, Perform;
    CapturedIsPlannable(cat, db, run, id);
    if run != [] {
      var e, rest := run[0], run[1..];
      assert run == [e] + rest;
      PerformKeepsWf(cat, db, e.w);
      if Captured(cat, e, id).None? {
        UndoStmtInvertsWrite(cat, db, e, id);
        UndoInvertsCapture(cat, db, rest, id, skip);
      } else {
        UndoInvertsCapture(cat, Perform(cat, db, e.w), rest, id + 1, skip);
        UndoOneMore(cat, db, e, rest, id, Going(After(cat, db, run), [], []), skip);
      }
    }
  }

  lemma UndoOneMore(cat: Catalog, db: Db, e: Event, rest: seq<Event>, id: nat, start: Progress, skip: bool)
    requires WfCatalog(cat) && WfDb(cat, db) && Enabled(cat, db, e.w) && Captured(cat, e, id).Some?
    requires AllShaped(cat, [e] + rest) && AllShaped(cat, rest)
    requires Plannable(cat, Reverse(LogOf(cat, [e] + rest, id)), Undo)
    requires Plannable(cat, Reverse(LogOf(cat, rest, id + 1)), Undo)
    requires var r := Apply(cat, start, UndoOf(cat, rest, id + 1), Undo, skip);
      r.Going? && r.db == Perform(cat, db, e.w) && r.statuses == AllApplied(|LogOf(cat, rest, id + 1)|)
    ensures var r := Apply(cat, start, UndoOf(cat, [e] + rest, id), Undo, skip);
      r.Going? && r.db == db && r.statuses == AllApplied(|LogOf(cat, [e] + rest, id)|)
  {
    hide Captured, StmtFor, ApplyOne, Apply, LogOf, Enabled, Perform, WfDb, WfCatalog;
    var done := UndoOf(cat, rest, id + 1);
    var n := |done|;
    UndoOfCons(cat, e, rest, id);
    UndoLastStep(cat, db, e, id, Apply(cat, start, done, Undo, skip), skip);
    var last := StmtFor(cat, Captured(cat, e, id).value, Undo).result;
    AppliedThenOne(cat, start, done, last, skip);
    assert |LogOf(cat, [e] + rest, id)| == |UndoOf(cat, [e] + rest, id)| == n + 1;
    assert AllApplied(n) + [Applied] == AllApplied(n + 1);
  }

  lemma AppliedThenOne(cat: Catalog, start: Progress, done: seq<Stmt>, last: Stmt, skip: bool)
    requires Runnable(cat, done) && last.table in cat
    ensures Runnable(cat, done + [last])
    ensures Apply(cat, start, done + [last], Undo, skip) == ApplyOne(cat, Apply(cat, start, done, Undo, skip), last, Undo, skip)
  {
    hide ApplyOne, Apply;
    ApplyConcat(cat, start, done, [last], Undo, skip);
    ApplyLast(cat, Apply(cat, start, done, Undo, skip), last, Undo, skip);
  }

  // ---------------------------------------------------------------------
  // Undo of an undo
  // ---------------------------------------------------------------------

  type Settings = string -> Mode

  /** The trigger events of an undo's own writes. */
  function EventsOf(ws: seq<Write>, settings: Settings): (r: seq<Event>)
    ensures |r| == |ws|
  {
    seq(|ws|, i requires 0 <= i < |ws| => Event(ws[i], settings(ws[i].table)))
  }

  /** One step that did not stop performed no write, or exactly one. */
  lemma ApplyOneWrites(cat: Catalog, db: Db, s: Stmt, dir: Direction, skip: bool)
    requires s.table in cat && ApplyOne(cat, Going(db, [], []), s, dir, skip).Going?
    ensures var p := ApplyOne(cat, Going(db, [], []), s, dir, skip);
      || (p.writes == [] && p.db == db)
      || (|p.writes| == 1 && Enabled(cat, db, p.writes[0]) && p.db == Perform(cat, db, p.writes[0]))
  {
  }

  lemma EventsOfConcat(a: seq<Write>, b: seq<Write>, settings: Settings)
    ensures EventsOf(a + b, settings) == EventsOf(a, settings) + EventsOf(b, settings)
  {
  }

  lemma SingleRun(cat: Catalog, db: Db, e: Event)
    requires Enabled(cat, db, e.w)
    ensures Possible(cat, db, [e]) && After(cat, db, [e]) == Perform(cat, db, e.w)
  {
    assert [e][1..] == [];
  }

  /** Whatever a plan is and however it ends, the writes it performed are a run
      that leads from the state before to the state after. */
  lemma {:induction false} AppliedWritesAreARun(
      cat: Catalog, db: Db, stmts: seq<Stmt>, dir: Direction, skip: bool, settings: Settings)
    requires Runnable(cat, stmts)
    requires Apply(cat, Going(db, [], []), stmts, dir, skip).Going?
    ensures var r := Apply(cat, Going(db, [], []), stmts, dir, skip);
      && Possible(cat, db, EventsOf(r.writes, settings))
      && After(cat, db, EventsOf(r.writes, settings)) == r.db
    decreases |stmts|
  {
    if stmts != [] {
      var p := ApplyOne(cat, Going(db, [], []), stmts[0], dir, skip);
      if p.Stopped? {
        StoppedStays(cat, stmts[1..], dir, skip);
        assert false;
      } else {
        ApplyShift(cat, p, stmts[1..], dir, skip);
        AppliedWritesAreARun(cat, p.db, stmts[1..], dir, skip, settings);
        var q := Apply(cat, Going(p.db, [], []), stmts[1..], dir, skip);
        ApplyOneWrites(cat, db, stmts[0], dir, skip);
        EventsOfConcat(p.writes, q.writes, settings);
        if p.writes != [] {
          var e := Event(p.writes[0], settings(p.writes[0].table));
          assert EventsOf(p.writes, settings) == [e];
          SingleRun(cat, db, e);
        }
        RunConcat(cat, db, EventsOf(p.writes, settings), EventsOf(q.writes, settings));
      }
    }
  }

  /** An undo or a replay, of any plan over any history and with either setting
      of skip_conflicts, is itself captured; undoing exactly what it captured
      restores the state before it, every row of it. */
  lemma UndoOfAnUndo(
      cat: Catalog, db: Db, stmts: seq<Stmt>, dir: Direction, skip: bool, settings: Settings, id: nat, skip': bool)
    requires WfCatalog(cat) && WfDb(cat, db) && Runnable(cat, stmts)
    requires Apply(cat, Going(db, [], []), stmts, dir, skip).Going?
    ensures var first := Apply(cat, Going(db, [], []), stmts, dir, skip);
      var own := EventsOf(first.writes, settings);
      && AllShaped(cat, own)
      && Plannable(cat, Reverse(LogOf(cat, own, id)), Undo)
      && var second := Apply(cat, Going(first.db, [], []), UndoOf(cat, own, id), Undo, skip');
         second.Going? && second.db == db && second.statuses == AllApplied(|LogOf(cat, own, id)|)
  {
    var first := Apply(cat, Going(db, [], []), stmts, dir, skip);
    AppliedWritesAreARun(cat, db, stmts, dir, skip, settings);
    UndoInvertsCapture(cat, db, EventsOf(first.writes, settings), id, skip');
  }
}
