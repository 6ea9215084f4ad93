/** Replay carries a database forward: from the state a history was captured
    from it reaches the state it was captured to, exactly when no update moved a
    row to another key; and from any state it can only end in agreement with it. */
module ReplayTheorems {
  import opened Options
  import opened JsonValues
  import opened Tables
  import opened Capture
  import opened Plans
  import opened UndoTheorems

  /** One change: before the write, the replay statement of the entry it leaves
      is exactly that write again, unless the update moved the key.  Then the
      statement looks for the row under its later key and finds nothing. */
  lemma ReplayStmtRepeatsWrite(cat: Catalog, db: Db, e: Event, id: nat)
    requires WfCatalog(cat) && WfDb(cat, db) && Enabled(cat, db, e.w)
    ensures Captured(cat, e, id).None? ==> Perform(cat, db, e.w) == db && !e.w.MovesKey(cat)
    ensures Captured(cat, e, id).Some? ==>
      var r := StmtFor(cat, Captured(cat, e, id).value, Replay);
      r.Ok? && Execute(cat, db, r.result) == if e.w.MovesKey(cat) then NoRow else Wrote(e.w)
    ensures Captured(cat, e, id).Some? && e.w.MovesKey(cat) ==>
      StmtFor(cat, Captured(cat, e, id).value, Replay).result.UpdateRow?
  {
    var s := cat[e.w.table];
    match (e.w.before, e.w.after)
    case (None, Some(next)) =>
      assert Populate(s, next) == next;
    case (Some(prior), None) =>
      MatchingRowPassesGuard(prior, prior);
    case (Some(prior), Some(next)) =>
      ReplayUpdateRepeats(cat, db, e, id);
    case _ =>
  }

  lemma ReplayUpdateRepeats(cat: Catalog, db: Db, e: Event, id: nat)
    requires WfCatalog(cat) && WfDb(cat, db) && Enabled(cat, db, e.w)
    requires e.w.before.Some? && e.w.after.Some?
    ensures Captured(cat, e, id).None? ==> Perform(cat, db, e.w) == db && !e.w.MovesKey(cat)
    ensures Captured(cat, e, id).Some? ==>
      var r := StmtFor(cat, Captured(cat, e, id).value, Replay);
      r.Ok? && r.result.UpdateRow?
      && Execute(cat, db, r.result) == if e.w.MovesKey(cat) then NoRow else Wrote(e.w)
  {
    hide StmtFor, Captured;
    var prior, next := e.w.before.value, e.w.after.value;
    if Captured(cat, e, id).None? {
      UncapturedIsNoOp(cat, db, e, id);
    } else {
      var x := Captured(cat, e, id).value;
      CapturedImages(cat, e, id);
      UpdateStmts(cat, x);
      var stmt := UpdateRow(x.table, x.after.value, x.pk, x.before);
      if e.w.MovesKey(cat) {
        assert Addr(x.table, x.pk) !in db;
      } else {
        MatchingRowPassesGuard(prior, x.before.value);
        ExecuteUpdateWrites(cat, db, stmt, prior);
        assert Write(x.table, Some(prior), Some(prior + x.after.value)) == e.w;
      }
    }
  }

  ghost predicate KeyStable(cat: Catalog, run: seq<Event>) {
    forall e | e in run :: e.w.table in cat && !e.w.MovesKey(cat)
  }

  lemma {:induction false} CapturedIsReplayable(cat: Catalog, db: Db, run: seq<Event>, id: nat)
    requires WfCatalog(cat) && WfDb(cat, db) && Possible(cat, db, run)
    ensures AllShaped(cat, run)
    ensures Plannable(cat, LogOf(cat, run, id), Replay)
    decreases |run|
  {
    PossibleIsShaped(cat, db, run);
    if run != [] {
      var db1 := Perform(cat, db, run[0].w);
      ReplayStmtRepeatsWrite(cat, db, run[0], id);
      PerformKeepsWf(cat, db, run[0].w);
      CapturedIsReplayable(cat, db1, run[1..], id);
      CapturedIsReplayable(cat, db1, run[1..], id + 1);
    }
  }

  /** The plan that replays exactly what a run left in the history. */
  function ReplayOf(cat: Catalog, run: seq<Event>, id: nat): (r: seq<Stmt>)
    requires AllShaped(cat, run)
    requires Plannable(cat, LogOf(cat, run, id), Replay)
    ensures Runnable(cat, r)
  {
    Stmts(cat, LogOf(cat, run, id), Replay)
  }

  lemma ReplayOfCons(cat: Catalog, e: Event, rest: seq<Event>, id: nat)
    requires AllShaped(cat, [e] + rest) && AllShaped(cat, rest) && Captured(cat, e, id).Some?
    requires Plannable(cat, LogOf(cat, [e] + rest, id), Replay) && Plannable(cat, LogOf(cat, rest, id + 1), Replay)
    ensures var x := Captured(cat, e, id).value;
      && StmtFor(cat, x, Replay).Ok?
      && ReplayOf(cat, [e] + rest, id) == [StmtFor(cat, x, Replay).result] + ReplayOf(cat, rest, id + 1)
  {
    hide StmtFor, Captured;
    var x := Captured(cat, e, id).value;
    assert ([e] + rest)[1..] == rest;
    assert LogOf(cat, [e] + rest, id) == [x] + LogOf(cat, rest, id + 1);
    assert x in LogOf(cat, [e] + rest, id);
  }

  /** Replaying a captured run onto the state it started from, without skipping:
      if and only if no update moved a key, every step applies and the result is
      the state the run ended in; otherwise the replay refuses. */
  lemma {:induction false} ReplayRecoversIffKeyStable(cat: Catalog, db: Db, run: seq<Event>, id: nat)
    requires WfCatalog(cat) && WfDb(cat, db) && Possible(cat, db, run)
    ensures AllShaped(cat, run)
    ensures Plannable(cat, LogOf(cat, run, id), Replay)
    ensures var r := Apply(cat, Going(db, [], []), ReplayOf(cat, run, id), Replay, false);
      if KeyStable(cat, run)
      then r.Going? && r.db == After(cat, db, run) && r.statuses == AllApplied(|LogOf(cat, run, id)|)
      else r.Stopped?
    decreases |run|
  {
    hide Captured, StmtFor, ApplyOne, WfDb, WfCatalog, Enabled, Perform;
    CapturedIsReplayable(cat, db, run, id);
    if run != [] {
      var e, rest := run[0], run[1..];
      assert run == [e] + rest;
      assert KeyStable(cat, run) <==> !e.w.MovesKey(cat) && KeyStable(cat, rest);
      PerformKeepsWf(cat, db, e.w);
      if Captured(cat, e, id).None? {
        ReplayStmtRepeatsWrite(cat, db, e, id);
        ReplayRecoversIffKeyStable(cat, Perform(cat, db, e.w), rest, id);
      } else {
        ReplayRecoversIffKeyStable(cat, Perform(cat, db, e.w), rest, id + 1);
        ReplayOneMore(cat, db, e, rest, id);
      }
    }
  }

  /** The first step of a replay, from the state its change was captured in. */
  lemma ReplayFirstStep(cat: Catalog, db: Db, e: Event, id: nat)
    requires WfCatalog(cat) && WfDb(cat, db) && Enabled(cat, db, e.w) && Captured(cat, e, id).Some?
    ensures StmtFor(cat, Captured(cat, e, id).value, Replay).Ok?
    ensures ApplyOne(cat, Going(db, [], []), StmtFor(cat, Captured(cat, e, id).value, Replay).result, Replay, false)
         == if e.w.MovesKey(cat) then Stopped else Going(Perform(cat, db, e.w), [Applied], [e.w])
  {
    hide StmtFor, Captured, Execute, WfDb, WfCatalog;
    ReplayStmtRepeatsWrite(cat, db, e, id);
  }

  lemma ApplyCons(cat: Catalog, p: Progress, s: Stmt, rest: seq<Stmt>, dir: Direction, skip: bool)
    requires s.table in cat && Runnable(cat, rest)
    ensures Runnable(cat, [s] + rest)
    ensures Apply(cat, p, [s] + rest, dir, skip) == Apply(cat, ApplyOne(cat, p, s, dir, skip), rest, dir, skip)
  {
    assert ([s] + rest)[1..] == rest;
  }

  lemma ReplayOneMore(cat: Catalog, db: Db, e: Event, rest: seq<Event>, id: nat)
    requires WfCatalog(cat) && WfDb(cat, db) && Enabled(cat, db, e.w) && Captured(cat, e, id).Some?
    requires AllShaped(cat, [e] + rest) && AllShaped(cat, rest)
    requires Plannable(cat, LogOf(cat, [e] + rest, id), Replay) && Plannable(cat, LogOf(cat, rest, id + 1), Replay)
    ensures var r := Apply(cat, Going(db, [], []), ReplayOf(cat, [e] + rest, id), Replay, false);
      var q := Apply(cat, Going(Perform(cat, db, e.w), [], []), ReplayOf(cat, rest, id + 1), Replay, false);
      if e.w.MovesKey(cat) then r == Stopped
      else r == Onto(Going(Perform(cat, db, e.w), [Applied], [e.w]), q)
  {
    hide Captured, StmtFor, ApplyOne, Apply, LogOf, Enabled, Perform, WfDb, WfCatalog;
    ReplayFirstStep(cat, db, e, id);
    ReplayOfCons(cat, e, rest, id);
    var s := StmtFor(cat, Captured(cat, e, id).value, Replay).result;
    var more := ReplayOf(cat, rest, id + 1);
    ApplyCons(cat, Going(db, [], []), s, more, Replay, false);
    if e.w.MovesKey(cat) {
      StoppedStays(cat, more, Replay, false);
    } else {
      ApplyShift(cat, Going(Perform(cat, db, e.w), [Applied], [e.w]), more, Replay, false);
    }
  }

  // ---------------------------------------------------------------------
  // Replaying from another state
  // ---------------------------------------------------------------------

  predicate About(x: Entry, a: Addr) {
    Addr(x.table, x.pk) == a
  }

  /** What a key-stable history says about one address, applied to a row there. */
  function Told(xs: seq<Entry>, a: Addr, base: Option<Row>): Option<Row>
    decreases |xs|
  {
    if xs == [] then base
    else Told(xs[1..], a, if About(xs[0], a) then ToldOne(xs[0], base) else base)
  }

  function ToldOne(x: Entry, base: Option<Row>): Option<Row> {
    if x.op == D then None
    else if x.op == I then x.after
    else if base.Some? && x.after.Some? then Some(base.value + x.after.value)
    else base
  }

  /** Every update about an address meets a row there. */
  predicate Meets(xs: seq<Entry>, a: Addr, base: Option<Row>)
    decreases |xs|
  {
    xs != [] ==>
      && (About(xs[0], a) && xs[0].op == U ==> base.Some?)
      && Meets(xs[1..], a, if About(xs[0], a) then ToldOne(xs[0], base) else base)
  }

  /** The whole row is written: some insert or delete is about the address. */
  predicate WholeRow(xs: seq<Entry>, a: Addr) {
    exists x | x in xs :: About(x, a) && x.op != U
  }

  predicate WritesCell(xs: seq<Entry>, a: Addr, c: string) {
    exists x | x in xs :: About(x, a) && x.op == U && x.after.Some? && c in x.after.value
  }

  predicate Mentions(xs: seq<Entry>, a: Addr) {
    exists x | x in xs :: About(x, a)
  }

  /** Entries of the shape a row trigger captures. */
  predicate Imaged(x: Entry) {
    x.op != T && (x.op != D ==> x.after.Some?)
  }

  /** One cell of a row that may be absent. */
  function Cell(r: Option<Row>, c: string): Option<Json> {
    if r.Some? && c in r.value then Some(r.value[c]) else None
  }

  lemma HistoryCons(x: Entry, rest: seq<Entry>, a: Addr, c: string)
    ensures Mentions([x] + rest, a) <==> About(x, a) || Mentions(rest, a)
    ensures WholeRow([x] + rest, a) <==> (About(x, a) && x.op != U) || WholeRow(rest, a)
    ensures WritesCell([x] + rest, a, c) <==>
      (About(x, a) && x.op == U && x.after.Some? && c in x.after.value) || WritesCell(rest, a, c)
  {
    assert forall y :: y in [x] + rest <==> y == x || y in rest;
    assert x in [x] + rest;
  }

  /** Two states that go through the same history agree on all it writes, and
      each keeps what it does not write. */
  lemma {:induction false} ToldAgrees(xs: seq<Entry>, a: Addr, b1: Option<Row>, b2: Option<Row>, c: string)
    requires Meets(xs, a, b1) && Meets(xs, a, b2)
    requires forall x | x in xs :: Imaged(x)
    ensures !Mentions(xs, a) ==> Told(xs, a, b1) == b1 && Told(xs, a, b2) == b2
    ensures WholeRow(xs, a) ==> Told(xs, a, b1) == Told(xs, a, b2)
    ensures Mentions(xs, a) && !WholeRow(xs, a) ==>
      && b1.Some? && b2.Some? && Told(xs, a, b1).Some? && Told(xs, a, b2).Some?
      && if WritesCell(xs, a, c) then Cell(Told(xs, a, b1), c).Some? && Cell(Told(xs, a, b1), c) == Cell(Told(xs, a, b2), c)
         else Cell(Told(xs, a, b1), c) == Cell(b1, c) && Cell(Told(xs, a, b2), c) == Cell(b2, c)
    decreases |xs|
  {
    if xs != [] {
      var x, rest := xs[0], xs[1..];
      assert xs == [x] + rest;
      HistoryCons(x, rest, a, c);
      assert Imaged(x);
      if About(x, a) {
        ToldAgrees(rest, a, ToldOne(x, b1), ToldOne(x, b2), c);
      } else {
        ToldAgrees(rest, a, b1, b2, c);
      }
    }
  }

  /** An entry as captured from a write that keeps the row's key. */
  ghost predicate KeepsKey(cat: Catalog, x: Entry) {
    && x.table in cat && Imaged(x)
    && (x.op == I ==> WfRow(cat[x.table], x.after.value) && x.pk == KeyOf(cat[x.table], x.after.value))
    && (x.op == U ==> forall c | c in cat[x.table].pk && c in x.after.value ::
          c in x.pk && x.after.value[c] == x.pk[c])
  }

  /** One replayed step that does not stop does to every address what its entry
      says, whether it wrote a row or found its delete already done. */
  lemma ReplayStepTells(cat: Catalog, db: Db, x: Entry, a: Addr)
    requires WfCatalog(cat) && WfDb(cat, db) && KeepsKey(cat, x) && StmtFor(cat, x, Replay).Ok?
    requires ApplyOne(cat, Going(db, [], []), StmtFor(cat, x, Replay).result, Replay, false).Going?
    ensures var q := ApplyOne(cat, Going(db, [], []), StmtFor(cat, x, Replay).result, Replay, false);
      && WfDb(cat, q.db)
      && At(q.db, a) == (if About(x, a) then ToldOne(x, At(db, a)) else At(db, a))
      && (About(x, a) && x.op == U ==> At(db, a).Some?)
  {
    hide Enabled, Perform, ToldOne, WfDb, WfCatalog, KeepsKey;
    var stmt := StmtFor(cat, x, Replay).result;
    match Execute(cat, db, stmt) {
      case NoRow =>
        AlreadyGoneTells(cat, db, x, a);
      case Raised =>
      case Wrote(w) =>
        ReplayedWriteTells(cat, db, x, w, a);
    }
  }

  lemma AlreadyGoneTells(cat: Catalog, db: Db, x: Entry, a: Addr)
    requires StmtFor(cat, x, Replay).Ok? && GoalMet(db, StmtFor(cat, x, Replay).result, Replay)
    ensures x.op == D && At(db, a) == if About(x, a) then ToldOne(x, At(db, a)) else At(db, a)
  {
  }

  lemma ReplayedWriteTells(cat: Catalog, db: Db, x: Entry, w: Write, a: Addr)
    requires WfCatalog(cat) && WfDb(cat, db) && KeepsKey(cat, x) && StmtFor(cat, x, Replay).Ok?
    requires Execute(cat, db, StmtFor(cat, x, Replay).result) == Wrote(w)
    ensures Enabled(cat, db, w) && WfDb(cat, Perform(cat, db, w))
    ensures At(Perform(cat, db, w), a) == if About(x, a) then ToldOne(x, At(db, a)) else At(db, a)
    ensures About(x, a) && x.op == U ==> At(db, a).Some?
  {
    hide WfDb, WfCatalog, WfRow;
    PerformKeepsWf(cat, db, w);
    if x.op == U {
      ReplayedUpdateTells(cat, db, x, w);
    } else if x.op == I {
      assert w == Write(x.table, None, x.after) by { ReplayedInsertWrites(cat, db, x, w); }
    } else {
      assert w.before == At(db, Addr(x.table, x.pk)) && w.after.None?;
    }
    if !About(x, a) {
      TouchesHome(cat, db, x, w);
      PerformFrame(cat, db, w, a);
    }
  }

  lemma ReplayedInsertWrites(cat: Catalog, db: Db, x: Entry, w: Write)
    requires WfCatalog(cat) && KeepsKey(cat, x) && x.op == I && StmtFor(cat, x, Replay).Ok?
    requires Execute(cat, db, StmtFor(cat, x, Replay).result) == Wrote(w)
    ensures w == Write(x.table, None, x.after)
  {
    assert Populate(cat[x.table], x.after.value) == x.after.value;
  }

  /** A replayed entry that keeps its key touches its own address only. */
  lemma TouchesHome(cat: Catalog, db: Db, x: Entry, w: Write)
    requires WfCatalog(cat) && WfDb(cat, db) && KeepsKey(cat, x) && StmtFor(cat, x, Replay).Ok?
    requires Execute(cat, db, StmtFor(cat, x, Replay).result) == Wrote(w)
    ensures w.table in cat && Touched(cat, w) <= {Addr(x.table, x.pk)}
  {
    if x.op == U {
      ReplayedUpdateTells(cat, db, x, w);
    } else if x.op == I {
      ReplayedInsertWrites(cat, db, x, w);
    }
  }

  lemma ReplayedUpdateTells(cat: Catalog, db: Db, x: Entry, w: Write)
    requires WfCatalog(cat) && WfDb(cat, db) && KeepsKey(cat, x) && x.op == U && StmtFor(cat, x, Replay).Ok?
    requires Execute(cat, db, StmtFor(cat, x, Replay).result) == Wrote(w)
    ensures w.before.Some? && w.after.Some? && At(db, Addr(x.table, x.pk)) == w.before
    ensures w.after.value == w.before.value + x.after.value
    ensures w.table == x.table && Place(cat, x.table, w.after.value) == Addr(x.table, x.pk)
  {
    var s := cat[x.table];
    var row := w.before.value;
    assert KeyOf(s, row) == x.pk;
    assert KeyOf(s, row + x.after.value) == x.pk;
  }

  /** A replay that does not stop ends, at every address, in what the history
      says about the row it started from. */
  lemma {:induction false} ReplayTells(cat: Catalog, db: Db, xs: seq<Entry>, a: Addr)
    requires WfCatalog(cat) && WfDb(cat, db) && Plannable(cat, xs, Replay)
    requires forall x | x in xs :: KeepsKey(cat, x)
    requires Apply(cat, Going(db, [], []), Stmts(cat, xs, Replay), Replay, false).Going?
    ensures Meets(xs, a, At(db, a))
    ensures At(Apply(cat, Going(db, [], []), Stmts(cat, xs, Replay), Replay, false).db, a) == Told(xs, a, At(db, a))
    decreases |xs|
  {
    if xs != [] {
      var x, rest := xs[0], xs[1..];
      var stmts := Stmts(cat, xs, Replay);
      assert x in xs;
      assert stmts[0] == StmtFor(cat, x, Replay).result && stmts[1..] == Stmts(cat, rest, Replay);
      var q := ApplyOne(cat, Going(db, [], []), stmts[0], Replay, false);
      if q.Stopped? {
        StoppedStays(cat, stmts[1..], Replay, false);
        assert false;
      } else {
        ReplayStepTells(cat, db, x, a);
        ApplyShift(cat, q, stmts[1..], Replay, false);
        ReplayTells(cat, q.db, rest, a);
      }
    }
  }

  lemma CapturedKeepsKey(cat: Catalog, e: Event, id: nat)
    requires WfCatalog(cat) && e.w.Shaped(cat) && !e.w.MovesKey(cat) && Captured(cat, e, id).Some?
    ensures KeepsKey(cat, Captured(cat, e, id).value)
  {
    if e.w.before.Some? && e.w.after.Some? {
      CapturedImages(cat, e, id);
      assert KeyOf(cat[e.w.table], e.w.after.value) == Captured(cat, e, id).value.pk;
    }
  }

  lemma {:induction false} LogKeepsKeys(cat: Catalog, run: seq<Event>, id: nat)
    requires WfCatalog(cat) && AllShaped(cat, run) && KeyStable(cat, run)
    ensures forall x | x in LogOf(cat, run, id) :: KeepsKey(cat, x)
    decreases |run|
  {
    if run != [] {
      LogKeepsKeys(cat, run[1..], id);
      LogKeepsKeys(cat, run[1..], id + 1);
      if Captured(cat, run[0], id).Some? {
        CapturedKeepsKey(cat, run[0], id);
      }
    }
  }

  /** If replaying a key-stable history without skipping succeeds from ANY state
      `from`, the result agrees with the state `to` the history was captured to
      on every row and every cell the history writes, and with `from` on all the
      others. */
  lemma ReplayConfluence(cat: Catalog, db: Db, run: seq<Event>, id: nat, from: Db, a: Addr, c: string)
    requires WfCatalog(cat) && WfDb(cat, db) && Possible(cat, db, run) && WfDb(cat, from)
    requires AllShaped(cat, run) && KeyStable(cat, run)
    requires Plannable(cat, LogOf(cat, run, id), Replay)
    requires Apply(cat, Going(from, [], []), ReplayOf(cat, run, id), Replay, false).Going?
    ensures var log := LogOf(cat, run, id);
      var to := At(After(cat, db, run), a);
      var got := At(Apply(cat, Going(from, [], []), ReplayOf(cat, run, id), Replay, false).db, a);
      && (!Mentions(log, a) ==> got == At(from, a))
      && (WholeRow(log, a) ==> got == to)
      && (Mentions(log, a) && !WholeRow(log, a) ==> got.Some? && to.Some?)
      && (Mentions(log, a) && !WholeRow(log, a) ==>
            Cell(got, c) == if WritesCell(log, a, c) then Cell(to, c) else Cell(At(from, a), c))
  {
    var log := LogOf(cat, run, id);
    ReplayRecoversIffKeyStable(cat, db, run, id);
    LogKeepsKeys(cat, run, id);
    ReplayTells(cat, db, log, a);
    ReplayTells(cat, from, log, a);
    ToldAgrees(log, a, At(db, a), At(from, a), c);
  }

  lemma SameEverywhere(x: Db, y: Db)
    requires forall a :: At(x, a) == At(y, a)
    ensures x == y
  {
    forall a ensures a in x <==> a in y { assert At(x, a) == At(y, a); }
    forall a | a in x ensures x[a] == y[a] { assert At(x, a) == At(y, a); }
  }

  lemma SameCells(x: Option<Row>, y: Option<Row>)
    requires x.Some? && y.Some? && forall c :: Cell(x, c) == Cell(y, c)
    ensures x == y
  {
    forall c ensures c in x.value <==> c in y.value { assert Cell(x, c) == Cell(y, c); }
    forall c | c in x.value ensures x.value[c] == y.value[c] { assert Cell(x, c) == Cell(y, c); }
    assert x.value == y.value;
  }

  /** A change cannot be applied twice: a second replay, from the state the
      history already led to, either refuses or ends in that same state. */
  lemma ReplayTwiceChangesNothing(cat: Catalog, db: Db, run: seq<Event>, id: nat)
    requires WfCatalog(cat) && WfDb(cat, db) && Possible(cat, db, run) && KeyStable(cat, run)
    ensures AllShaped(cat, run) && Plannable(cat, LogOf(cat, run, id), Replay)
    ensures var done := After(cat, db, run);
      var again := Apply(cat, Going(done, [], []), ReplayOf(cat, run, id), Replay, false);
      again.Stopped? || again.db == done
  {
    CapturedIsReplayable(cat, db, run, id);
    AfterKeepsWf(cat, db, run);
    var done := After(cat, db, run);
    var again := Apply(cat, Going(done, [], []), ReplayOf(cat, run, id), Replay, false);
    if again.Going? {
      forall a ensures At(again.db, a) == At(done, a) {
        ReplayConfluence(cat, db, run, id, done, a, "");
        var log := LogOf(cat, run, id);
        if Mentions(log, a) && !WholeRow(log, a) {
          forall c ensures Cell(At(again.db, a), c) == Cell(At(done, a), c) {
            ReplayConfluence(cat, db, run, id, done, a, c);
          }
          SameCells(At(again.db, a), At(done, a));
        }
      }
      SameEverywhere(again.db, done);
    }
  }

  /** An update archived without its old image has lost its guard: replaying it
      overwrites whatever row now has that key. */
  lemma UpdateWithoutBeforeIsUnguarded(cat: Catalog, db: Db, x: Entry)
    requires WfCatalog(cat) && WfDb(cat, db) && KeepsKey(cat, x) && StmtFor(cat, x, Replay).Ok?
    requires x.op == U && x.before.None? && Addr(x.table, x.pk) in db
    requires WfRow(cat[x.table], db[Addr(x.table, x.pk)] + x.after.value)
    ensures var live := db[Addr(x.table, x.pk)];
      Execute(cat, db, StmtFor(cat, x, Replay).result) == Wrote(Write(x.table, Some(live), Some(live + x.after.value)))
  {
    hide WfRow, Execute;
    var live := db[Addr(x.table, x.pk)];
    StmtShape(cat, x, Replay);
    assert KeyOf(cat[x.table], live) == x.pk;
    assert KeyOf(cat[x.table], live + x.after.value) == x.pk;
    ExecuteUpdateWrites(cat, db, StmtFor(cat, x, Replay).result, live);
  }
}
