/** The database side of volvra as the object it is: tables, an append-only
    history, and the procedures that read and write them. */
module Engine {
  import opened Options
  import opened JsonValues
  import opened Tables
  import opened Capture
  import opened Plans
  import opened UndoTheorems
  import opened ReplayTheorems
  import opened PreviewTheorems

  /** What preview_undo and preview_replay return for one change. */
  datatype PlanStep = PlanStep(changeId: nat, stmt: Stmt, conflict: Option<Verdict>)

  datatype Refusal = EmptyWindow | BadPlan(e: PlanError) | OverCap | Conflict

  /** A row of undo_log. */
  datatype Audit = Audit(dir: Direction, rows: nat, confirmed: bool, cap: nat, capOverride: bool)

  /** The time window asked for, which must not be empty. */
  datatype Window = Window(from: Option<nat>, to: Option<nat>) {
    predicate Empty() {
      from.Some? && to.Some? && from.value >= to.value
    }

    /** A change at this time is in the window. */
    predicate Has(ts: nat) {
      (from.Some? ==> ts > from.value) && (to.Some? ==> ts <= to.value)
    }
  }

  /** What a confirmed call returns, or the plan of an unconfirmed one. */
  datatype Report = Planned(steps: seq<PlanStep>) | Done(statuses: seq<Status>)

  datatype TruncateMode = CaptureRows | Block | Allow

  datatype TruncateError = Blocked | TooManyRows

  function Selected(log: seq<Entry>, sel: Entry -> bool): (r: seq<Entry>)
    ensures |r| <= |log|
    ensures forall x | x in r :: x in log && sel(x)
  {
    if log == [] then []
    else
      assert log == [log[0]] + log[1..];
      (if sel(log[0]) then [log[0]] else []) + Selected(log[1..], sel)
  }

  /** A selection is the chosen entries, each of them. */
  lemma {:induction false} SelectedMembers(log: seq<Entry>, sel: Entry -> bool, x: Entry)
    ensures x in Selected(log, sel) <==> x in log && sel(x)
  {
    if log != [] {
      assert log == [log[0]] + log[1..];
      SelectedMembers(log[1..], sel, x);
    }
  }

  /** They are in the order of the log. */
  lemma {:induction false} SelectedIsOrdered(log: seq<Entry>, sel: Entry -> bool)
    requires Rising(log)
    ensures Rising(Selected(log, sel))
  {
    if log != [] {
      assert log == [log[0]] + log[1..];
      var rest := Selected(log[1..], sel);
      assert Rising(log[1..]) by { RisingRest(log); }
      SelectedIsOrdered(log[1..], sel);
      forall x | x in rest ensures log[0].id < x.id {
        assert x in log[1..];
      }
      RisingCons(log[0], rest);
      assert [] + rest == rest;
    }
  }

  ghost predicate Rising(log: seq<Entry>) {
    forall i, j | 0 <= i < j < |log| :: log[i].id < log[j].id
  }

  lemma RisingRest(log: seq<Entry>)
    requires log != [] && Rising(log)
    ensures Rising(log[1..])
  {
  }

  lemma RisingCons(x: Entry, rest: seq<Entry>)
    requires Rising(rest) && forall y | y in rest :: x.id < y.id
    ensures Rising([x] + rest)
  {
    var log := [x] + rest;
    forall i, j | 0 <= i < j < |log| ensures log[i].id < log[j].id {
      assert log[j] == rest[j - 1] && rest[j - 1] in rest;
    }
  }

  /** The order of two steps in a plan: an undo goes back through the history, a
      replay forward. */
  predicate Precedes(dir: Direction, a: nat, b: nat) {
    match dir
    case Undo => a > b
    case Replay => a < b
  }

  /** A plan takes every chosen change once: newest first to undo, oldest first to
      replay. */
  lemma PlanOrder(log: seq<Entry>, nextId: nat, sel: Entry -> bool, dir: Direction)
    requires Ordered(log, nextId)
    ensures var rows := InOrder(Selected(log, sel), dir);
      && (forall x :: x in rows <==> x in log && sel(x))
      && (forall i, j | 0 <= i < j < |rows| :: Precedes(dir, rows[i].id, rows[j].id))
  {
    SelectedIsOrdered(log, sel);
    forall x ensures x in Selected(log, sel) <==> x in log && sel(x) {
      SelectedMembers(log, sel, x);
    }
  }

  lemma {:induction false} SelectedConcat(a: seq<Entry>, b: seq<Entry>, sel: Entry -> bool)
    ensures Selected(a + b, sel) == Selected(a, sel) + Selected(b, sel)
  {
    if a == [] {
      assert a + b == b;
    } else {
      assert (a + b)[1..] == a[1..] + b;
      SelectedConcat(a[1..], b, sel);
    }
  }

  lemma {:induction false} SelectedAllOrNone(a: seq<Entry>, sel: Entry -> bool)
    ensures (forall x | x in a :: sel(x)) ==> Selected(a, sel) == a
    ensures (forall x | x in a :: !sel(x)) ==> Selected(a, sel) == []
  {
    if a != [] {
      assert a == [a[0]] + a[1..];
      SelectedAllOrNone(a[1..], sel);
    }
  }

  function StmtsOf(steps: seq<PlanStep>): (r: seq<Stmt>)
    ensures |r| == |steps|
  {
    seq(|steps|, i requires 0 <= i < |steps| => steps[i].stmt)
  }

  /** Entry ids rise with position, so ORDER BY id is the order of the log. */
  ghost predicate Ordered(log: seq<Entry>, nextId: nat) {
    && (forall i, j | 0 <= i < j < |log| :: log[i].id < log[j].id)
    && (forall x | x in log :: x.id < nextId)
  }

  /** The deletes a captured TRUNCATE stands for, in the order the rows are
      scanned. */
  function TruncateRun(table: string, rows: seq<Row>, mode: Mode): (r: seq<Event>)
    ensures |r| == |rows|
  {
    seq(|rows|, i requires 0 <= i < |rows| => Event(Write(table, Some(rows[i]), None), mode))
  }

  /** `rows` is some scan of the table: each of its rows once. */
  ghost predicate IsScan(cat: Catalog, db: Db, table: string, rows: seq<Row>)
    requires table in cat
  {
    && (forall r | r in rows :: Place(cat, table, r) in db && db[Place(cat, table, r)] == r)
    && (forall i, j | 0 <= i < j < |rows| :: Place(cat, table, rows[i]) != Place(cat, table, rows[j]))
    && (forall a | a in db && a.table == table :: db[a] in rows)
  }

  /** The delete image per row that a captured TRUNCATE inserts. */
  function TruncateImages(cat: Catalog, table: string, rows: seq<Row>, id: nat): (r: seq<Entry>)
    requires table in cat
    ensures |r| == |rows|
  {
    seq(|rows|, i requires 0 <= i < |rows| => Entry(id + i, table, D, KeyOf(cat[table], rows[i]), Some(rows[i]), None))
  }

  function RowsOf(db: Db, table: string): set<Addr> {
    set a | a in db && a.table == table
  }

  /** Once its first row is deleted, the rest of a scan scans what is left. */
  lemma ScanRest(cat: Catalog, db: Db, table: string, rows: seq<Row>)
    requires WfDb(cat, db) && table in cat && IsScan(cat, db, table, rows) && rows != []
    ensures Place(cat, table, rows[0]) in db && db[Place(cat, table, rows[0])] == rows[0]
    ensures IsScan(cat, db - {Place(cat, table, rows[0])}, table, rows[1..])
  {
    hide KeyOf, WfRow;
    var a, rest := Place(cat, table, rows[0]), rows[1..];
    assert rows[0] in rows;
    var db1 := db - {a};
    forall x | x in rest ensures Place(cat, table, x) in db1 && db1[Place(cat, table, x)] == x {
      var j :| 0 <= j < |rest| && rest[j] == x;
      assert rows[j + 1] == x && Place(cat, table, rows[0]) != Place(cat, table, rows[j + 1]);
      assert x in rows;
    }
    forall i, j | 0 <= i < j < |rest| ensures Place(cat, table, rest[i]) != Place(cat, table, rest[j]) {
      assert rest[i] == rows[i + 1] && rest[j] == rows[j + 1];
    }
    forall b | b in db1 && b.table == table ensures db1[b] in rest {
      assert db[b] in rows && Place(cat, table, db[b]) == b;
      assert rows == [rows[0]] + rest;
    }
  }

  lemma {:induction false} TruncateLog(cat: Catalog, table: string, rows: seq<Row>, mode: Mode, id: nat)
    requires table in cat && forall r | r in rows :: WfRow(cat[table], r)
    ensures AllShaped(cat, TruncateRun(table, rows, mode))
    ensures LogOf(cat, TruncateRun(table, rows, mode), id) == TruncateImages(cat, table, rows, id)
    decreases |rows|
  {
    if rows != [] {
      assert rows == [rows[0]] + rows[1..];
      TruncateLog(cat, table, rows[1..], mode, id + 1);
      var run := TruncateRun(table, rows, mode);
      assert run[1..] == TruncateRun(table, rows[1..], mode);
      assert TruncateImages(cat, table, rows, id) ==
        [Entry(id, table, D, KeyOf(cat[table], rows[0]), Some(rows[0]), None)] + TruncateImages(cat, table, rows[1..], id + 1);
    }
  }

  /** A captured TRUNCATE is, to the history and to the tables, the deletes of
      the rows it empties: so undoing it is a case of undoing captured writes. */
  lemma {:induction false} TruncateIsDeletes(cat: Catalog, db: Db, table: string, rows: seq<Row>, mode: Mode)
    requires WfDb(cat, db) && table in cat && IsScan(cat, db, table, rows)
    ensures Possible(cat, db, TruncateRun(table, rows, mode))
    ensures After(cat, db, TruncateRun(table, rows, mode)) == db - RowsOf(db, table)
    ensures forall r | r in rows :: WfRow(cat[table], r)
    decreases |rows|
  {
    hide IsScan, WfRow;
    if rows == [] {
      EmptyScan(cat, db, table);
    } else {
      ScanRest(cat, db, table, rows);
      var a, w := Place(cat, table, rows[0]), Write(table, Some(rows[0]), None);
      var run := TruncateRun(table, rows, mode);
      assert run[0].w == w && run[1..] == TruncateRun(table, rows[1..], mode);
      assert Perform(cat, db, w) == db - {a};
      PerformKeepsWf(cat, db, w);
      TruncateIsDeletes(cat, db - {a}, table, rows[1..], mode);
      assert RowsOf(db, table) == RowsOf(db - {a}, table) + {a};
      assert (db - {a}) - RowsOf(db - {a}, table) == db - RowsOf(db, table);
      assert rows == [rows[0]] + rows[1..];
    }
  }

  lemma EmptyScan(cat: Catalog, db: Db, table: string)
    requires table in cat && IsScan(cat, db, table, [])
    ensures RowsOf(db, table) == {}
  {
    assert forall a | a in db && a.table == table :: db[a] in [];
  }

  predicate FirstError(cat: Catalog, rows: seq<Entry>, dir: Direction, i: nat, e: PlanError) {
    && i < |rows| && StmtFor(cat, rows[i], dir) == Err(e)
    && forall j | 0 <= j < i :: StmtFor(cat, rows[j], dir).Ok?
  }

  class Volvra {
    const cat: Catalog
    const settings: Settings
    var db: Db
    var log: seq<Entry>
    var nextId: nat
    var audit: seq<Audit>

    ghost predicate Valid()
      reads this
    {
      WfCatalog(cat) && WfDb(cat, db) && Ordered(log, nextId)
    }

    constructor (cat: Catalog, settings: Settings, db: Db)
      requires WfCatalog(cat) && WfDb(cat, db)
      ensures Valid() && this.cat == cat && this.settings == settings
      ensures this.db == db && log == [] && nextId == 0 && audit == []
    {
      this.cat, this.settings, this.db, log, nextId, audit := cat, settings, db, [], 0, [];
    }

    /** The row trigger: works out the images, then appends one entry, or none
        for an update that changed nothing. */
    method CaptureRow(w: Write)
      requires w.Shaped(cat) && Ordered(log, nextId)
      modifies this`log, this`nextId
      ensures Ordered(log, nextId)
      ensures var new_ := LogOf(cat, [Event(w, settings(w.table))], old(nextId));
        log == old(log) + new_ && nextId == old(nextId) + |new_|
      ensures w.before.Some? && w.after.Some? ==>
        var mode, captured := settings(w.table), w.before != w.after || settings(w.table).noOps;
        && |log| == |old(log)| + (if captured then 1 else 0)
        && (captured ==> RightColumns(mode, w.before.value, w.after.value, log[|old(log)|]))
    {
      if w.before.Some? && w.after.Some? {
        UpdateLeaves(cat, Event(w, settings(w.table)), nextId);
      }
      var mode := settings(w.table);
      var before, after := w.before, w.after;
      var pkSource := if after.Some? then after.value else before.value;
      var op := if before.None? then I else if after.None? then D else U;
      ghost var event := Event(w, mode);
      assert [event][1..] == [];
      if op == U {
        var changed := Changed(before.value, after.value);
        if changed == {} {
          if !mode.noOps {
            assert LogOf(cat, [event], nextId) == [];
            return;
          }
        } else if !mode.full {
          before, after := Some(Restrict(before.value, changed)), Some(Restrict(after.value, changed));
        }
      }
      var entry := Entry(nextId, w.table, op, KeyOf(cat[w.table], pkSource), before, after);
      assert Captured(cat, event, nextId) == Some(entry);
      assert LogOf(cat, [event], nextId) == [entry];
      log := log + [entry];
      nextId := nextId + 1;
    }

    /** One row write of an application, with its trigger. */
    method WriteRow(w: Write) returns (ok: bool)
      requires Valid()
      modifies `db, `log, `nextId
      ensures Valid()
      ensures ok == Enabled(cat, old(db), w)
      ensures !ok ==> db == old(db) && log == old(log) && nextId == old(nextId)
      ensures ok ==> db == Perform(cat, old(db), w)
      ensures ok ==> log == old(log) + LogOf(cat, [Event(w, settings(w.table))], old(nextId))
      ensures ok ==> nextId == old(nextId) + |LogOf(cat, [Event(w, settings(w.table))], old(nextId))|
    {
      ok := Enabled(cat, db, w);
      if ok {
        PerformKeepsWf(cat, db, w);
        db := Perform(cat, db, w);
        CaptureRow(w);
      }
    }

    /** TRUNCATE of an ordinary table with its statement trigger.  `rows` is the
        order the trigger's query scans the table in. */
    method Truncate(table: string, rows: seq<Row>, mode: TruncateMode, cap: nat)
      returns (r: Result<nat, TruncateError>)
      requires Valid() && table in cat && IsScan(cat, db, table, rows)
      modifies `db, `log, `nextId
      ensures Valid()
      ensures r.Err? ==> db == old(db) && log == old(log) && nextId == old(nextId)
      ensures r == (match mode
        case Block => Err(Blocked)
        case CaptureRows => if |rows| > cap then Err(TooManyRows) else Ok(|rows|)
        case Allow => Ok(1))
      ensures r.Ok? ==> db == old(db) - RowsOf(old(db), table)
      ensures r.Ok? && mode == Allow ==> log == old(log) + [Entry(old(nextId), table, T, map[], None, None)]
      ensures r.Ok? && mode == CaptureRows ==>
        var run := TruncateRun(table, rows, settings(table));
        && Possible(cat, old(db), run) && db == After(cat, old(db), run)
        && AllShaped(cat, run) && log == old(log) + LogOf(cat, run, old(nextId))
    {
      hide WfCatalog, IsScan, LogOf, After, Possible;
      match mode {
        case Block =>
          return Err(Blocked);
        case CaptureRows =>
          if |rows| > cap {
            return Err(TooManyRows);
          }
          TruncateIsDeletes(cat, db, table, rows, settings(table));
          TruncateLog(cat, table, rows, settings(table), nextId);
          log := log + TruncateImages(cat, table, rows, nextId);
          nextId := nextId + |rows|;
          r := Ok(|rows|);
        case Allow =>
          log := log + [Entry(nextId, table, T, map[], None, None)];
          nextId := nextId + 1;
          r := Ok(1);
      }
      db := db - RowsOf(db, table);
    }

    /** `_plan`: each selected change, in application order, paired with its
        statement; the first change that cannot be planned raises. */
    method Plan(sel: Entry -> bool, dir: Direction, probe: bool) returns (r: Result<seq<PlanStep>, PlanError>)
      ensures var rows := InOrder(Selected(log, sel), dir);
        match r
        case Ok(steps) =>
          && Plannable(cat, rows, dir) && StmtsOf(steps) == Stmts(cat, rows, dir)
          && forall i | 0 <= i < |steps| :: steps[i].changeId == rows[i].id
               && steps[i].conflict == if probe then Some(PreviewTheorems.Conflict(db, rows, i, dir)) else None
        case Err(e) =>
          exists i: nat :: FirstError(cat, rows, dir, i, e)
      ensures r.Ok? && Ordered(log, nextId) ==>
        var steps := r.result;
        && (forall i, j | 0 <= i < j < |steps| :: Precedes(dir, steps[i].changeId, steps[j].changeId))
        && (forall x | x in log :: sel(x) ==> exists i :: 0 <= i < |steps| && steps[i].changeId == x.id)
    {
      hide StmtFor, PreviewTheorems.Conflict, InOrder;
      var rows := InOrder(Selected(log, sel), dir);
      var steps: seq<PlanStep> := [];
      for i := 0 to |rows|
        invariant |steps| == i
        invariant forall j | 0 <= j < i :: StmtFor(cat, rows[j], dir) == Ok(steps[j].stmt)
        invariant forall j | 0 <= j < i :: steps[j].changeId == rows[j].id
        invariant forall j | 0 <= j < i ::
          steps[j].conflict == if probe then Some(PreviewTheorems.Conflict(db, rows, j, dir)) else None
      {
        match StmtFor(cat, rows[i], dir) {
          case Err(e) =>
            assert FirstError(cat, rows, dir, i, e);
            r := Err(e);
            assert rows == InOrder(Selected(log, sel), dir);
            return;
          case Ok(stmt) =>
            var conflict := if probe then Some(PreviewTheorems.Conflict(db, rows, i, dir)) else None;
            steps := steps + [PlanStep(rows[i].id, stmt, conflict)];
        }
      }
      assert Plannable(cat, rows, dir);
      assert StmtsOf(steps) == Stmts(cat, rows, dir);
      if Ordered(log, nextId) {
        PlanOrder(log, nextId, sel, dir);
        forall x | x in log && sel(x) ensures exists i :: 0 <= i < |steps| && steps[i].changeId == x.id {
          var i :| 0 <= i < |rows| && rows[i] == x;
          assert steps[i].changeId == x.id;
        }
      }
      return Ok(steps);
    }

    /** The apply loop of undo and replay, inside its transaction: every write
        fires the row trigger; a statement that raises, or a conflict without
        skipping, rolls everything back. */
    method ApplySteps(steps: seq<PlanStep>, dir: Direction, skip: bool) returns (r: Result<seq<Status>, Refusal>)
      requires Valid() && Runnable(cat, StmtsOf(steps))
      modifies `db, `log, `nextId
      ensures Valid()
      ensures var p := Apply(cat, Going(old(db), [], []), StmtsOf(steps), dir, skip);
        match p
        case Stopped => r == Err(Conflict) && db == old(db) && log == old(log) && nextId == old(nextId)
        case Going(db', statuses, writes) =>
          && r == Ok(statuses) && db == db'
          && AllShaped(cat, EventsOf(writes, settings))
          && log == old(log) + LogOf(cat, EventsOf(writes, settings), old(nextId))
          && nextId == old(nextId) + |LogOf(cat, EventsOf(writes, settings), old(nextId))|
    {
      hide Execute, Enabled, Perform, Captured, WfDb, WfCatalog, Ordered, LogOf, RightColumns;
      var savedDb, savedLog, savedId := db, log, nextId;
      var stmts := StmtsOf(steps);
      var statuses: seq<Status> := [];
      ghost var writes: seq<Write> := [];
      ghost var start := Going(db, [], []);
      assert stmts[0..] == stmts;
      assert EventsOf(writes, settings) == [];
      NothingLogged(cat, nextId);
      for i := 0 to |stmts|
        invariant Valid() && AllShaped(cat, EventsOf(writes, settings))
        invariant Apply(cat, start, stmts, dir, skip) == Apply(cat, Going(db, statuses, writes), stmts[i..], dir, skip)
        invariant log == savedLog + LogOf(cat, EventsOf(writes, settings), savedId)
        invariant nextId == savedId + |LogOf(cat, EventsOf(writes, settings), savedId)|
      {
        var s := stmts[i];
        assert s in stmts;
        assert stmts[i..][0] == s && stmts[i..][1..] == stmts[i + 1..];
        ghost var p := ApplyOne(cat, Going(db, statuses, writes), s, dir, skip);
        match Execute(cat, db, s) {
          case Wrote(w) =>
            WroteIsEnabled(cat, db, s);
            OneMoreWrite(cat, writes, w, settings, db, savedId);
            var ok := WriteRow(w);
            writes := writes + [w];
            statuses := statuses + [Applied];
          case NoRow =>
            if GoalMet(db, s, dir) {
              statuses := statuses + [Satisfied];
            } else if skip {
              statuses := statuses + [Skipped];
            } else {
              StoppedStays(cat, stmts[i + 1..], dir, skip);
              db, log, nextId := savedDb, savedLog, savedId;
              return Err(Conflict);
            }
          case Raised =>
            StoppedStays(cat, stmts[i + 1..], dir, skip);
            db, log, nextId := savedDb, savedLog, savedId;
            return Err(Conflict);
        }
      }
      assert stmts[|stmts|..] == [];
      return Ok(statuses);
    }

    /** undo and replay: check the window, build the plan once, check the cap, and
        write the call down; then either return the plan or apply it.  A refusal
        rolls the audit row back with everything else. */
    method Run(
        sel: Entry -> bool, window: Window, dir: Direction, confirm: bool, maxRows: Option<nat>, limit: nat, skip: bool)
      returns (r: Result<Report, Refusal>)
      requires Valid()
      modifies this
      ensures Valid()
      ensures !confirm || r.Err? ==> db == old(db) && log == old(log) && nextId == old(nextId)
      ensures var rows := InOrder(Selected(old(log), sel), dir);
        var cap := if maxRows.Some? then maxRows.value else limit;
        audit == old(audit) + if r.Ok? then [Audit(dir, |rows|, confirm, cap, maxRows.Some?)] else []
      ensures var rows := InOrder(Selected(old(log), sel), dir);
        var cap := if maxRows.Some? then maxRows.value else limit;
        if window.from.Some? && window.to.Some? && window.to.value <= window.from.value then r == Err(EmptyWindow)
        else if !Plannable(cat, rows, dir) then r.Err? && r.error.BadPlan?
        else if |rows| > cap then r == Err(OverCap)
        else if !confirm then r.Ok? && r.result.Planned? && StmtsOf(r.result.steps) == Stmts(cat, rows, dir)
        else match Apply(cat, Going(old(db), [], []), Stmts(cat, rows, dir), dir, skip)
          case Stopped => r == Err(Conflict)
          case Going(db', statuses, writes) =>
            && r == Ok(Done(statuses)) && db == db'
            && AllShaped(cat, EventsOf(writes, settings))
            && log == old(log) + LogOf(cat, EventsOf(writes, settings), old(nextId))
    {
      hide StmtFor, Apply, LogOf, InOrder, WfDb, WfCatalog, Ordered;
      var cap := if maxRows.Some? then maxRows.value else limit;
      if window.Empty() {
        return Err(EmptyWindow);
      }
      var plan := Plan(sel, dir, !confirm);
      ghost var rows := InOrder(Selected(log, sel), dir);
      if plan.Err? {
        ghost var i: nat :| FirstError(cat, rows, dir, i, plan.error);
        assert rows[i] in rows;
        return Err(BadPlan(plan.error));
      }
      var steps := plan.result;
      assert |steps| == |StmtsOf(steps)| == |rows|;
      if |steps| > cap {
        return Err(OverCap);
      }
      var savedAudit := audit;
      audit := audit + [Audit(dir, |steps|, confirm, cap, maxRows.Some?)];
      if !confirm {
        return Ok(Planned(steps));
      }
      var applied := ApplySteps(steps, dir, skip);
      match applied {
        case Err(e) =>
          audit := savedAudit;
          return Err(e);
        case Ok(statuses) => return Ok(Done(statuses));
      }
    }
  }

  lemma NothingLogged(cat: Catalog, id: nat)
    ensures LogOf(cat, [], id) == []
  {
  }

  lemma OneMoreWrite(cat: Catalog, writes: seq<Write>, w: Write, settings: Settings, db: Db, id: nat)
    requires AllShaped(cat, EventsOf(writes, settings)) && Enabled(cat, db, w)
    ensures AllShaped(cat, EventsOf(writes + [w], settings)) && w.Shaped(cat)
    ensures AllShaped(cat, [Event(w, settings(w.table))])
    ensures var sofar := LogOf(cat, EventsOf(writes, settings), id);
      LogOf(cat, EventsOf(writes + [w], settings), id)
      == sofar + LogOf(cat, [Event(w, settings(w.table))], id + |sofar|)
  {
    EventsOfConcat(writes, [w], settings);
    assert EventsOf([w], settings) == [Event(w, settings(w.table))];
    LogConcat(cat, EventsOf(writes, settings), EventsOf([w], settings), id);
  }

  /** Selecting what came after a point in the history selects exactly the
      entries added since, whatever they are. */
  lemma SelectedSince(log: seq<Entry>, nextId: nat, added: seq<Entry>)
    requires Ordered(log, nextId) && forall x | x in added :: x.id >= nextId
    ensures Selected(log + added, (x: Entry) => x.id >= nextId) == added
  {
    var since := (x: Entry) => x.id >= nextId;
    SelectedConcat(log, added, since);
    SelectedAllOrNone(log, since);
    SelectedAllOrNone(added, since);
  }

  /** The documented round trip: after any committed undo or replay, undoing
      whatever the history gained since restores every row. */
  lemma UndoSinceRestores(
      cat: Catalog, db: Db, log: seq<Entry>, nextId: nat, stmts: seq<Stmt>, dir: Direction, skip: bool,
      settings: Settings, skip': bool)
    requires WfCatalog(cat) && WfDb(cat, db) && Ordered(log, nextId) && Runnable(cat, stmts)
    requires Apply(cat, Going(db, [], []), stmts, dir, skip).Going?
    ensures var first := Apply(cat, Going(db, [], []), stmts, dir, skip);
      && AllShaped(cat, EventsOf(first.writes, settings))
      && var later := log + LogOf(cat, EventsOf(first.writes, settings), nextId);
         var rows := InOrder(Selected(later, (x: Entry) => x.id >= nextId), Undo);
         Plannable(cat, rows, Undo)
         && var second := Apply(cat, Going(first.db, [], []), Stmts(cat, rows, Undo), Undo, skip');
            second.Going? && second.db == db && second.statuses == AllApplied(|rows|)
  {
    UndoOfAnUndo(cat, db, stmts, dir, skip, settings, nextId, skip');
    var own := EventsOf(Apply(cat, Going(db, [], []), stmts, dir, skip).writes, settings);
    SelectedSince(log, nextId, LogOf(cat, own, nextId));
  }

  /** And forward: replaying, onto the state before a run, whatever the history gained
      by it applies every step and reaches the state after it, if and only if no
      update moved a key; otherwise the replay refuses. */
  lemma ReplaySinceRepeats(cat: Catalog, db: Db, log: seq<Entry>, nextId: nat, run: seq<Event>)
    requires WfCatalog(cat) && WfDb(cat, db) && Ordered(log, nextId) && Possible(cat, db, run)
    ensures AllShaped(cat, run)
    ensures var later := log + LogOf(cat, run, nextId);
      var rows := InOrder(Selected(later, (x: Entry) => x.id >= nextId), Replay);
      Plannable(cat, rows, Replay)
      && var r := Apply(cat, Going(db, [], []), Stmts(cat, rows, Replay), Replay, false);
         if KeyStable(cat, run) then r.Going? && r.db == After(cat, db, run) && r.statuses == AllApplied(|rows|)
         else r.Stopped?
  {
    hide Apply, Possible, WfDb, WfCatalog, KeyStable, After;
    ReplayRecoversIffKeyStable(cat, db, run, nextId);
    SelectedSince(log, nextId, LogOf(cat, run, nextId));
  }

  /** A window is refused as empty exactly if no change can lie in it. */
  lemma EmptyWindowHoldsNothing(w: Window)
    ensures (w.from.Some? && w.to.Some? && w.to.value <= w.from.value) <==> forall ts :: !w.Has(ts)
  {
    var ts := if w.to.Some? then w.to.value else if w.from.Some? then w.from.value + 1 else 0;
    if !(w.from.Some? && w.to.Some? && w.to.value <= w.from.value) {
      assert w.Has(ts);
    }
  }
}
