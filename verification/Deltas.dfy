/** What undoing a captured update asks of the row it finds, and what it leaves of it:
    a delta asks for the changed cells and touches no others. */
module Deltas {
  import opened Options
  import opened JsonValues
  import opened Tables
  import opened Capture
  import opened Plans
  import opened UndoTheorems
  import opened PreviewTheorems

  /** The row still has, in each captured column, what the update left there. */
  predicate StillAs(mode: Mode, prior: Row, next: Row, live: Row) {
    forall c | c in next && Kept(mode, prior, next, c) :: c in live && live[c] == next[c]
  }

  /** The row with the update's changes taken back, and everything else as it is. */
  predicate TakenBack(prior: Row, next: Row, live: Row, r: Row) {
    && r.Keys == live.Keys
    && forall c | c in r && c in prior && c in next :: r[c] == if prior[c] == next[c] then live[c] else prior[c]
  }

  /** The images are over the kept columns, and true of the two rows. */
  lemma ImagesOfUpdate(cat: Catalog, e: Event, id: nat, live: Row)
    requires WfCatalog(cat) && e.w.Shaped(cat) && e.w.before.Some? && e.w.after.Some? && Captured(cat, e, id).Some?
    requires WfRow(cat[e.w.table], live)
    ensures var x, prior, next := Captured(cat, e, id).value, e.w.before.value, e.w.after.value;
      && x.before.Some? && x.after.Some?
      && (StillAs(e.mode, prior, next, live) <==> Matches(live, x.after.value))
      && (StillAs(e.mode, prior, next, live) ==> TakenBack(prior, next, live, live + x.before.value))
      && (Scalars(next) ==> Scalars(x.after.value))
  {
    UpdateLeaves(cat, e, id);
    CapturedImages(cat, e, id);
    hide Captured;
    var x, prior, next := Captured(cat, e, id).value, e.w.before.value, e.w.after.value;
    assert prior.Keys == next.Keys == live.Keys;
    if StillAs(e.mode, prior, next, live) {
      forall c | c in live ensures (live + x.before.value)[c] == if prior[c] == next[c] then live[c] else prior[c] {
        if c in x.before.value && prior[c] == next[c] {
          assert live[c] == next[c];
        }
      }
    }
  }

  /** Keys and the required columns of the row taken back to. */
  lemma RowTakenBack(cat: Catalog, e: Event, id: nat, live: Row)
    requires WfCatalog(cat) && e.w.Shaped(cat) && e.w.before.Some? && e.w.after.Some? && Captured(cat, e, id).Some?
    requires WfRow(cat[e.w.table], live) && StillAs(e.mode, e.w.before.value, e.w.after.value, live)
    requires KeyOf(cat[e.w.table], live) == KeyOf(cat[e.w.table], e.w.after.value)
    ensures var x := Captured(cat, e, id).value;
      && x.before.Some? && WfRow(cat[e.w.table], live + x.before.value)
      && KeyOf(cat[e.w.table], live + x.before.value) == KeyOf(cat[e.w.table], e.w.before.value)
  {
    ImagesOfUpdate(cat, e, id, live);
    hide Captured;
    var s, prior, next := cat[e.w.table], e.w.before.value, e.w.after.value;
    var r := live + Captured(cat, e, id).value.before.value;
    assert r.Keys == prior.Keys == next.Keys;
    forall c | c in s.required ensures r[c] != Null {
      assert c in prior && c in live;
    }
    forall c | c in s.pk ensures r[c] == prior[c] {
      assert live[c] == KeyOf(s, live)[c] == KeyOf(s, next)[c] == next[c];
    }
    assert KeyOf(s, r) == KeyOf(s, prior);
  }

  /** Undoing a captured update, on any later row at its key: it applies if the row
      still has what the update left in the columns its mode captured, whatever the
      other columns hold now, and then takes back the changed cells and leaves the
      others; a preview shows no conflict then; and if what was captured is scalar it
      applies only then, finding no row otherwise. */
  lemma UpdateUndoAppliesIff(cat: Catalog, db: Db, e: Event, id: nat, live: Row)
    requires WfCatalog(cat) && WfDb(cat, db) && e.w.Shaped(cat) && e.w.before.Some? && e.w.after.Some?
    requires Captured(cat, e, id).Some? && At(db, Place(cat, e.w.table, e.w.after.value)) == Some(live)
    requires e.w.MovesKey(cat) ==> Place(cat, e.w.table, e.w.before.value) !in db
    ensures StmtFor(cat, Captured(cat, e, id).value, Undo).Ok?
    ensures var x, prior, next := Captured(cat, e, id).value, e.w.before.value, e.w.after.value;
      var r := Execute(cat, db, StmtFor(cat, x, Undo).result);
      && (StillAs(e.mode, prior, next, live) ==>
            && Probe(db, x, Undo) == Clear
            && r.Wrote? && r.w.table == x.table && r.w.before == Some(live)
            && r.w.after.Some? && TakenBack(prior, next, live, r.w.after.value))
      && (Scalars(next) && !StillAs(e.mode, prior, next, live) ==> Probe(db, x, Undo) == Conflicting && r == NoRow)
  {
    hide StmtFor, Execute, Captured, WfRow, StillAs, TakenBack;
    var x, prior, next := Captured(cat, e, id).value, e.w.before.value, e.w.after.value;
    CapturedImages(cat, e, id);
    UpdateStmts(cat, x);
    var stmt := UpdateRow(x.table, x.before.value, x.pk, x.after);
    assert KeyOf(cat[x.table], live) == x.pk && WfRow(cat[x.table], live);
    ImagesOfUpdate(cat, e, id, live);
    if StillAs(e.mode, prior, next, live) {
      MatchingRowPassesGuard(live, x.after.value);
      RowTakenBack(cat, e, id, live);
      ExecuteUpdateWrites(cat, db, stmt, live);
    } else if Scalars(next) {
      GuardIsExactIffScalar(x.after.value);
      GuardStops(cat, db, stmt, live);
    }
  }

  lemma GuardStops(cat: Catalog, db: Db, s: Stmt, live: Row)
    requires s.UpdateRow? && s.table in cat && At(db, Addr(s.table, s.key)) == Some(live) && !GuardPasses(live, s.expected)
    ensures Execute(cat, db, s) == NoRow
  {
  }
}
