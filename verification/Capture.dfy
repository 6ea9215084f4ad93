/** The capture trigger: what the history records about one row write. */
module Capture {
  import opened Options
  import opened JsonValues
  import opened Tables

  /** I, U, D as captured per row; T marks a TRUNCATE let through uncaptured. */
  datatype Op = I | U | D | T

  datatype Entry = Entry(id: nat, table: string, op: Op, pk: Row, before: Option<Row>, after: Option<Row>)

  /** `full` is capture_updates (or the table's update_mode) set to 'full';
      `noOps` is capture_no_op_updates. */
  datatype Mode = Mode(full: bool, noOps: bool)

  /** A write together with the settings in force when its trigger fired. */
  datatype Event = Event(w: Write, mode: Mode)

  /** Columns of `next` whose value is distinct from that in `prior`. */
  function Changed(prior: Row, next: Row): set<string> {
    set c | c in next && (c !in prior || prior[c] != next[c])
  }

  /** The entry a write leaves in the history, if it leaves one. */
  function Captured(cat: Catalog, e: Event, id: nat): Option<Entry>
    requires e.w.Shaped(cat)
  {
    var t := e.w.table;
    match (e.w.before, e.w.after)
    case (None, Some(next)) =>
      Some(Entry(id, t, I, KeyOf(cat[t], next), None, Some(next)))
    case (Some(prior), None) =>
      Some(Entry(id, t, D, KeyOf(cat[t], prior), Some(prior), None))
    case (Some(prior), Some(next)) =>
      var changed := Changed(prior, next);
      if changed == {} then
        if e.mode.noOps then Some(Entry(id, t, U, KeyOf(cat[t], next), Some(prior), Some(next))) else None
      else if e.mode.full then
        Some(Entry(id, t, U, KeyOf(cat[t], next), Some(prior), Some(next)))
      else
        Some(Entry(id, t, U, KeyOf(cat[t], next), Some(Restrict(prior, changed)), Some(Restrict(next, changed))))
    case (None, None) => None
  }

  /** What the images of a captured update hold: in delta mode the columns whose
      values differ and no others; in full mode, or when nothing differs, all. */
  ghost predicate RightColumns(mode: Mode, prior: Row, next: Row, x: Entry) {
    && x.before.Some? && x.after.Some?
    && (forall c :: c in x.before.value <==> c in prior && Kept(mode, prior, next, c))
    && (forall c :: c in x.after.value <==> c in next && Kept(mode, prior, next, c))
    && (forall c | c in x.before.value :: c in prior && x.before.value[c] == prior[c])
    && (forall c | c in x.after.value :: c in next && x.after.value[c] == next[c])
  }

  predicate Kept(mode: Mode, prior: Row, next: Row, c: string) {
    mode.full || prior == next || !(c in prior && c in next && prior[c] == next[c])
  }

  /** An update leaves no entry exactly if it changed nothing and such updates are not
      captured; the entry it leaves has the images its mode calls for. */
  lemma UpdateLeaves(cat: Catalog, e: Event, id: nat)
    requires e.w.Shaped(cat) && e.w.before.Some? && e.w.after.Some?
    ensures Captured(cat, e, id).None? <==> e.w.before == e.w.after && !e.mode.noOps
    ensures Captured(cat, e, id).Some? ==>
      RightColumns(e.mode, e.w.before.value, e.w.after.value, Captured(cat, e, id).value)
  {
    var prior, next := e.w.before.value, e.w.after.value;
    var changed := Changed(prior, next);
    assert prior.Keys == next.Keys;
    assert forall c :: c in changed <==> c in next && !(c in prior && prior[c] == next[c]);
    if changed == {} {
      assert prior == next;
    } else {
      var c :| c in changed;
      assert prior != next;
    }
  }

  // ---------------------------------------------------------------------
  // Runs of writes
  // ---------------------------------------------------------------------

  predicate Possible(cat: Catalog, db: Db, run: seq<Event>)
    decreases |run|
  {
    run == [] || (Enabled(cat, db, run[0].w) && Possible(cat, Perform(cat, db, run[0].w), run[1..]))
  }

  function After(cat: Catalog, db: Db, run: seq<Event>): Db
    requires Possible(cat, db, run)
    decreases |run|
  {
    if run == [] then db else After(cat, Perform(cat, db, run[0].w), run[1..])
  }

  ghost predicate AllShaped(cat: Catalog, run: seq<Event>) {
    forall e | e in run :: e.w.Shaped(cat)
  }

  /** The history a run leaves, oldest entry first, numbered from `id`. */
  function LogOf(cat: Catalog, run: seq<Event>, id: nat): (log: seq<Entry>)
    requires AllShaped(cat, run)
    ensures |log| <= |run|
    ensures forall i | 0 <= i < |log| :: log[i].id == id + i && log[i].op != T
    decreases |run|
  {
    if run == [] then [] else
      match Captured(cat, run[0], id)
      case None => LogOf(cat, run[1..], id)
      case Some(e) => [e] + LogOf(cat, run[1..], id + 1)
  }

  lemma {:induction false} PossibleIsShaped(cat: Catalog, db: Db, run: seq<Event>)
    requires Possible(cat, db, run)
    ensures AllShaped(cat, run)
    decreases |run|
  {
    if run != [] {
      PossibleIsShaped(cat, Perform(cat, db, run[0].w), run[1..]);
    }
  }

  lemma {:induction false} AfterKeepsWf(cat: Catalog, db: Db, run: seq<Event>)
    requires WfDb(cat, db) && Possible(cat, db, run)
    ensures WfDb(cat, After(cat, db, run))
    decreases |run|
  {
    if run != [] {
      PerformKeepsWf(cat, db, run[0].w);
      AfterKeepsWf(cat, Perform(cat, db, run[0].w), run[1..]);
    }
  }

  lemma {:induction false} RunConcat(cat: Catalog, db: Db, a: seq<Event>, b: seq<Event>)
    requires Possible(cat, db, a) && Possible(cat, After(cat, db, a), b)
    ensures Possible(cat, db, a + b)
    ensures After(cat, db, a + b) == After(cat, After(cat, db, a), b)
    decreases |a|
  {
    if a == [] {
      assert a + b == b;
    } else {
      assert (a + b)[0] == a[0] && (a + b)[1..] == a[1..] + b;
      RunConcat(cat, Perform(cat, db, a[0].w), a[1..], b);
    }
  }

  lemma {:induction false} LogConcat(cat: Catalog, a: seq<Event>, b: seq<Event>, id: nat)
    requires AllShaped(cat, a) && AllShaped(cat, b)
    ensures AllShaped(cat, a + b)
    ensures LogOf(cat, a + b, id) == LogOf(cat, a, id) + LogOf(cat, b, id + |LogOf(cat, a, id)|)
    decreases |a|
  {
    hide Captured;
    if a == [] {
      assert a + b == b;
    } else {
      assert (a + b)[0] == a[0] && (a + b)[1..] == a[1..] + b;
      LogConcat(cat, a[1..], b, match Captured(cat, a[0], id) case None => id case Some(_) => id + 1);
    }
  }
}
