/** Undo and replay are mirror images: one plan builder, one guard, one loop. */
module Duality {
  import opened Options
  import opened Tables
  import opened Capture
  import opened Plans

  /** The change read backwards: inserts and deletes swapped, images exchanged. */
  function Mirror(x: Entry): Entry {
    var op := match x.op case I => D case D => I case U => U case T => T;
    Entry(x.id, x.table, op, x.pk, x.after, x.before)
  }

  function MirrorLog(xs: seq<Entry>): (r: seq<Entry>)
    ensures |r| == |xs|
  {
    seq(|xs|, i requires 0 <= i < |xs| => Mirror(xs[i]))
  }

  /** No image has been erased from the entry. */
  predicate Unredacted(x: Entry) {
    match x.op
    case I => x.before.None? && x.after.Some?
    case D => x.before.Some? && x.after.None?
    case U => x.before.Some? && x.after.Some?
    case T => true
  }

  lemma MirrorTwice(x: Entry)
    requires Unredacted(x)
    ensures Unredacted(Mirror(x)) && Mirror(Mirror(x)) == x
  {
  }

  lemma UndoStmtIsMirroredReplayStmt(cat: Catalog, x: Entry)
    requires Unredacted(x)
    ensures StmtFor(cat, x, Undo) == StmtFor(cat, Mirror(x), Replay)
  {
  }

  /** The undo plan of a history is, statement for statement and error for
      error, the replay plan of the reversed history read backwards. */
  lemma UndoPlanIsMirroredReplayPlan(cat: Catalog, xs: seq<Entry>)
    requires forall x | x in xs :: Unredacted(x)
    ensures forall i | 0 <= i < |xs| ::
      StmtFor(cat, InOrder(xs, Undo)[i], Undo) == StmtFor(cat, MirrorLog(Reverse(xs))[i], Replay)
    ensures Plannable(cat, InOrder(xs, Undo), Undo) <==> Plannable(cat, MirrorLog(Reverse(xs)), Replay)
    ensures Plannable(cat, InOrder(xs, Undo), Undo) ==>
      Stmts(cat, InOrder(xs, Undo), Undo) == Stmts(cat, MirrorLog(Reverse(xs)), Replay)
  {
    var rs := Reverse(xs);
    var ms := MirrorLog(rs);
    forall i | 0 <= i < |rs| ensures StmtFor(cat, rs[i], Undo) == StmtFor(cat, ms[i], Replay) {
      assert rs[i] in xs;
      UndoStmtIsMirroredReplayStmt(cat, rs[i]);
    }
    SamePlans(cat, rs, Undo, ms, Replay);
  }

  lemma MirrorOfMirror(xs: seq<Entry>)
    requires forall x | x in xs :: Unredacted(x)
    ensures MirrorLog(MirrorLog(xs)) == xs && InOrder(MirrorLog(Reverse(xs)), Undo) == MirrorLog(xs)
    ensures forall x | x in MirrorLog(xs) :: Unredacted(x)
  {
    hide Mirror, Unredacted;
    forall i | 0 <= i < |xs| ensures Mirror(Mirror(xs[i])) == xs[i] && Unredacted(Mirror(xs[i])) {
      assert xs[i] in xs;
      MirrorTwice(xs[i]);
    }
    assert Reverse(MirrorLog(Reverse(xs))) == MirrorLog(xs);
  }

  /** And the other way round: the replay plan is the undo plan of the mirror
      image. */
  lemma ReplayPlanIsMirroredUndoPlan(cat: Catalog, xs: seq<Entry>)
    requires forall x | x in xs :: Unredacted(x)
    ensures forall i | 0 <= i < |xs| ::
      StmtFor(cat, xs[i], Replay) == StmtFor(cat, InOrder(MirrorLog(Reverse(xs)), Undo)[i], Undo)
    ensures var mirrored := InOrder(MirrorLog(Reverse(xs)), Undo);
      && (Plannable(cat, xs, Replay) <==> Plannable(cat, mirrored, Undo))
      && (Plannable(cat, xs, Replay) ==> Stmts(cat, xs, Replay) == Stmts(cat, mirrored, Undo))
  {
    hide StmtFor, Mirror, Unredacted, InOrder;
    MirrorOfMirror(xs);
    var ms := MirrorLog(xs);
    forall i | 0 <= i < |xs| ensures StmtFor(cat, xs[i], Replay) == StmtFor(cat, ms[i], Undo) {
      assert ms[i] in ms;
      UndoStmtIsMirroredReplayStmt(cat, ms[i]);
      assert MirrorLog(ms)[i] == xs[i];
    }
    SamePlans(cat, xs, Replay, ms, Undo);
  }

  lemma SamePlans(cat: Catalog, xs: seq<Entry>, d: Direction, ys: seq<Entry>, e: Direction)
    requires |xs| == |ys|
    requires forall i | 0 <= i < |xs| :: StmtFor(cat, xs[i], d) == StmtFor(cat, ys[i], e)
    ensures Plannable(cat, xs, d) <==> Plannable(cat, ys, e)
    ensures Plannable(cat, xs, d) ==> Stmts(cat, xs, d) == Stmts(cat, ys, e)
  {
    if Plannable(cat, xs, d) {
      forall y | y in ys ensures StmtFor(cat, y, e).Ok? {
        var i :| 0 <= i < |ys| && ys[i] == y;
        assert xs[i] in xs;
      }
      assert Stmts(cat, xs, d) == Stmts(cat, ys, e);
    }
    if Plannable(cat, ys, e) {
      forall x | x in xs ensures StmtFor(cat, x, d).Ok? {
        var i :| 0 <= i < |xs| && xs[i] == x;
        assert ys[i] in ys;
      }
    }
  }

  function SatisfiedAsSkipped(ss: seq<Status>): (r: seq<Status>)
    ensures |r| == |ss|
  {
    seq(|ss|, i requires 0 <= i < |ss| => if ss[i] == Satisfied then Skipped else ss[i])
  }

  /** The same statements run in either direction perform the same writes; the
      only difference is the replayed delete of a row that is already gone. */
  lemma {:induction false} DirectionsDiffer(cat: Catalog, p: Progress, q: Progress, stmts: seq<Stmt>, skip: bool)
    requires Runnable(cat, stmts)
    requires p.Going? && q.Going? && q.db == p.db && q.writes == p.writes
    requires p.statuses == SatisfiedAsSkipped(q.statuses)
    ensures var u := Apply(cat, p, stmts, Undo, skip);
      var r := Apply(cat, q, stmts, Replay, skip);
      && (skip ==> u.Going? == r.Going?)
      && (u.Going? ==> r.Going? && r.db == u.db && r.writes == u.writes && u.statuses == SatisfiedAsSkipped(r.statuses))
      && (r.Going? ==> |q.statuses| <= |r.statuses| && r.statuses[..|q.statuses|] == q.statuses)
      && (r.Going? && u.Stopped? ==> Satisfied in r.statuses[|q.statuses|..])
    decreases |stmts|
  {
    hide Execute;
    if stmts != [] {
      var s, rest := stmts[0], stmts[1..];
      var p1, q1 := ApplyOne(cat, p, s, Undo, skip), ApplyOne(cat, q, s, Replay, skip);
      if p1.Stopped? {
        StoppedStays(cat, rest, Undo, skip);
        if q1.Stopped? {
          StoppedStays(cat, rest, Replay, skip);
        } else {
          assert q1 == Going(q.db, q.statuses + [Satisfied], q.writes);
          KeepsStatuses(cat, q1, rest, Replay, skip);
          var r := Apply(cat, q1, rest, Replay, skip);
          if r.Going? {
            assert r.statuses[|q.statuses|] == q1.statuses[|q.statuses|] == Satisfied;
          }
        }
      } else {
        assert p1.statuses == SatisfiedAsSkipped(q1.statuses);
        DirectionsDiffer(cat, p1, q1, rest, skip);
        var r := Apply(cat, q1, rest, Replay, skip);
        if r.Going? {
          assert r.statuses[..|q.statuses|] == r.statuses[..|q1.statuses|][..|q.statuses|] == q.statuses;
          assert r.statuses[|q1.statuses|..] == r.statuses[|q.statuses|..][1..];
        }
      }
    }
  }

  lemma KeepsStatuses(cat: Catalog, p: Progress, stmts: seq<Stmt>, dir: Direction, skip: bool)
    requires Runnable(cat, stmts) && p.Going?
    ensures var r := Apply(cat, p, stmts, dir, skip);
      r.Going? ==> |p.statuses| <= |r.statuses| && r.statuses[..|p.statuses|] == p.statuses
  {
    ApplyShift(cat, p, stmts, dir, skip);
  }

  /** Undoing a history and replaying its mirror image from the same state end in
      the same state with the same writes; without skipping, the replay may only
      succeed where the undo refuses by finding some delete already done. */
  lemma UndoIsMirroredReplay(cat: Catalog, db: Db, xs: seq<Entry>, skip: bool)
    requires forall x | x in xs :: Unredacted(x)
    requires Plannable(cat, InOrder(xs, Undo), Undo)
    ensures Plannable(cat, MirrorLog(Reverse(xs)), Replay)
    ensures var u := Apply(cat, Going(db, [], []), Stmts(cat, InOrder(xs, Undo), Undo), Undo, skip);
      var r := Apply(cat, Going(db, [], []), Stmts(cat, MirrorLog(Reverse(xs)), Replay), Replay, skip);
      && (u.Going? ==> r.Going? && r.db == u.db && r.writes == u.writes && u.statuses == SatisfiedAsSkipped(r.statuses))
      && (r.Going? && Satisfied !in r.statuses ==> u.Going?)
      && (skip && r.Going? ==> u.Going?)
  {
    UndoPlanIsMirroredReplayPlan(cat, xs);
    var stmts := Stmts(cat, InOrder(xs, Undo), Undo);
    DirectionsDiffer(cat, Going(db, [], []), Going(db, [], []), stmts, skip);
    var r := Apply(cat, Going(db, [], []), stmts, Replay, skip);
    if r.Going? {
      assert r.statuses[0..] == r.statuses;
    }
  }
}
