/** Previewing, right after a run, the undo of exactly that run: the undo always
    applies every step, but the preview flags a step whose key an update has since
    moved away. */
module OwnPreview {
  import opened Options
  import opened JsonValues
  import opened Tables
  import opened Capture
  import opened Plans
  import opened UndoTheorems
  import opened PreviewTheorems

  /** The event leaves an entry about the address. */
  predicate Fills(cat: Catalog, e: Event, a: Addr)
    requires e.w.Shaped(cat)
  {
    Captured(cat, e, 0).Some? && Home(Captured(cat, e, 0).value) == a
  }

  /** The event is an update that moves a row away from the address. */
  predicate MovesFrom(cat: Catalog, e: Event, a: Addr)
    requires e.w.Shaped(cat)
  {
    e.w.MovesKey(cat) && Place(cat, e.w.table, e.w.before.value) == a
  }

  ghost predicate SpokenOf(cat: Catalog, run: seq<Event>, a: Addr)
    requires AllShaped(cat, run)
  {
    exists i :: 0 <= i < |run| && Fills(cat, run[i], a)
  }

  /** An update moves the row away from a key that an earlier entry is about, and no
      later entry is about that key. */
  ghost predicate Orphaned(cat: Catalog, run: seq<Event>, a: Addr)
    requires AllShaped(cat, run)
  {
    exists j :: 0 <= j < |run| && MovesFrom(cat, run[j], a) && SpokenOf(cat, run[..j], a) && !SpokenOf(cat, run[j + 1..], a)
  }

  lemma PrefixShaped(cat: Catalog, a: seq<Event>, b: seq<Event>)
    ensures AllShaped(cat, a + b) <==> AllShaped(cat, a) && AllShaped(cat, b)
  {
    assert forall e :: e in a + b <==> e in a || e in b;
  }

  lemma SpokenConcat(cat: Catalog, a: seq<Event>, b: seq<Event>, c: Addr)
    requires AllShaped(cat, a) && AllShaped(cat, b)
    ensures AllShaped(cat, a + b)
    ensures SpokenOf(cat, a + b, c) <==> SpokenOf(cat, a, c) || SpokenOf(cat, b, c)
  {
    hide Fills;
    PrefixShaped(cat, a, b);
    if SpokenOf(cat, a, c) {
      var i :| 0 <= i < |a| && Fills(cat, a[i], c);
      assert (a + b)[i] == a[i];
    }
    if SpokenOf(cat, b, c) {
      var i :| 0 <= i < |b| && Fills(cat, b[i], c);
      assert (a + b)[|a| + i] == b[i];
    }
  }

  lemma SpokenOne(cat: Catalog, e: Event, c: Addr)
    requires e.w.Shaped(cat)
    ensures SpokenOf(cat, [e], c) <==> Fills(cat, e, c)
  {
    hide Fills;
    assert [e][0] == e;
  }

  /** One more event: it fills its own address, and abandons the one it moves from. */
  lemma OrphanedSnoc(cat: Catalog, init: seq<Event>, e: Event, a: Addr)
    requires AllShaped(cat, init) && e.w.Shaped(cat)
    ensures AllShaped(cat, init + [e])
    ensures Orphaned(cat, init + [e], a)
      <==> (Orphaned(cat, init, a) && !Fills(cat, e, a)) || (MovesFrom(cat, e, a) && SpokenOf(cat, init, a))
  {
    hide Fills, MovesFrom, SpokenOf;
    var run := init + [e];
    PrefixShaped(cat, init, [e]);
    NothingSpoken(cat, a);
    forall j | 0 <= j < |init|
      ensures run[..j] == init[..j] && (SpokenOf(cat, run[j + 1..], a) <==> SpokenOf(cat, init[j + 1..], a) || Fills(cat, e, a))
    {
      assert run[j + 1..] == init[j + 1..] + [e];
      SpokenConcat(cat, init[j + 1..], [e], a);
      SpokenOne(cat, e, a);
    }
    assert run[..|init|] == init && run[|init| + 1..] == [];
    if Orphaned(cat, init, a) && !Fills(cat, e, a) {
      var j :| 0 <= j < |init| && MovesFrom(cat, init[j], a) && SpokenOf(cat, init[..j], a) && !SpokenOf(cat, init[j + 1..], a);
      assert run[j] == init[j];
    }
    if MovesFrom(cat, e, a) && SpokenOf(cat, init, a) {
      assert run[|init|] == e;
    }
  }

  lemma NothingSpoken(cat: Catalog, a: Addr)
    ensures !SpokenOf(cat, [], a)
  {
  }

  // ---------------------------------------------------------------------
  // Runs, last event first
  // ---------------------------------------------------------------------

  lemma {:induction false} LastEvent(cat: Catalog, db: Db, run: seq<Event>)
    requires Possible(cat, db, run) && run != []
    ensures var init, e := run[..|run| - 1], run[|run| - 1];
      && Possible(cat, db, init) && Enabled(cat, After(cat, db, init), e.w)
      && After(cat, db, run) == Perform(cat, After(cat, db, init), e.w)
    decreases |run|
  {
    hide Enabled, Perform;
    var init, e := run[..|run| - 1], run[|run| - 1];
    if |run| > 1 {
      var db1 := Perform(cat, db, run[0].w);
      LastEvent(cat, db1, run[1..]);
      assert init[1..] == run[1..][..|run| - 2] && init[0] == run[0];
    }
  }

  lemma CapturedHome(cat: Catalog, e: Event, id: nat)
    requires e.w.Shaped(cat)
    ensures Captured(cat, e, id).Some? <==> Captured(cat, e, 0).Some?
    ensures Captured(cat, e, id).Some? ==> Fills(cat, e, Home(Captured(cat, e, id).value))
  {
  }

  lemma LogOfOne(cat: Catalog, e: Event, id: nat)
    requires AllShaped(cat, [e])
    ensures e in [e]
    ensures LogOf(cat, [e], id) == if Captured(cat, e, id).Some? then [Captured(cat, e, id).value] else []
  {
    hide Captured;
    assert [e][1..] == [] && e in [e];
  }

  /** The addresses the entries of a run are about. */
  lemma {:induction false} LogHomes(cat: Catalog, run: seq<Event>, id: nat, a: Addr)
    requires AllShaped(cat, run)
    ensures (exists x :: x in LogOf(cat, run, id) && Home(x) == a) <==> SpokenOf(cat, run, a)
    decreases |run|
  {
    hide Captured, Fills, SpokenOf;
    if run == [] {
      NothingSpoken(cat, a);
    } else {
      var e, rest := run[0], run[1..];
      assert run == [e] + rest && e in run;
      SpokenConcat(cat, [e], rest, a);
      SpokenOne(cat, e, a);
      CapturedHome(cat, e, id);
      FillsOne(cat, e, id, a);
      LogHomes(cat, rest, id, a);
      LogHomes(cat, rest, id + 1, a);
      var log := LogOf(cat, run, id);
      if Captured(cat, e, id).Some? {
        var x, more := Captured(cat, e, id).value, LogOf(cat, rest, id + 1);
        assert log == [x] + more && forall y :: y in log <==> y == x || y in more;
      } else {
        assert log == LogOf(cat, rest, id);
      }
    }
  }

  lemma FillsOne(cat: Catalog, e: Event, id: nat, a: Addr)
    requires e.w.Shaped(cat)
    ensures Fills(cat, e, a) <==> Captured(cat, e, id).Some? && Home(Captured(cat, e, id).value) == a
  {
  }

  // ---------------------------------------------------------------------
  // What the newest entries find
  // ---------------------------------------------------------------------

  ghost predicate FlagsOrphans(cat: Catalog, db: Db, run: seq<Event>, xs: seq<Entry>)
    requires AllShaped(cat, run)
  {
    && (forall i | 0 <= i < |xs| && FirstSeen(xs, i) ::
          Probe(db, xs[i], Undo) == Conflicting <==> Orphaned(cat, run, Home(xs[i])))
    && (forall a | Orphaned(cat, run, a) :: a !in db && SpokenOf(cat, run, a))
  }

  /** Right after its write, an entry finds the row as it left it. */
  lemma NewestFindsItsRow(cat: Catalog, db: Db, e: Event, id: nat)
    requires WfCatalog(cat) && WfDb(cat, db) && Enabled(cat, db, e.w) && Captured(cat, e, id).Some?
    ensures Probe(Perform(cat, db, e.w), Captured(cat, e, id).value, Undo) == Clear
  {
    var x := Captured(cat, e, id).value;
    PerformAt(cat, db, e.w);
    if e.w.after.Some? {
      if e.w.before.Some? {
        CapturedImages(cat, e, id);
      }
      MatchingRowPassesGuard(e.w.after.value, x.after.value);
    }
  }

  /** What an event changes: the address it fills, and the one it moves from. */
  lemma EventTouches(cat: Catalog, db: Db, e: Event, id: nat, a: Addr)
    requires WfCatalog(cat) && WfDb(cat, db) && Enabled(cat, db, e.w) && Captured(cat, e, id).Some?
    ensures a != Home(Captured(cat, e, id).value) && !MovesFrom(cat, e, a) ==>
      At(Perform(cat, db, e.w), a) == At(db, a)
    ensures MovesFrom(cat, e, a) ==>
      a in db && a !in Perform(cat, db, e.w) && a != Home(Captured(cat, e, id).value)
  {
    PerformAt(cat, db, e.w);
    if a !in Touched(cat, e.w) {
      PerformFrame(cat, db, e.w, a);
    }
  }

  /** An older entry at an address the event does not fill. */
  lemma OlderEntry(cat: Catalog, db: Db, init: seq<Event>, e: Event, id: nat, y: Entry)
    requires WfCatalog(cat) && WfDb(cat, db) && Enabled(cat, db, e.w) && Captured(cat, e, id).Some?
    requires AllShaped(cat, init) && AllShaped(cat, init + [e])
    requires Home(y) != Home(Captured(cat, e, id).value) && SpokenOf(cat, init, Home(y))
    requires Probe(db, y, Undo) == Conflicting <==> Orphaned(cat, init, Home(y))
    requires Orphaned(cat, init, Home(y)) ==> Home(y) !in db
    ensures Probe(Perform(cat, db, e.w), y, Undo) == Conflicting <==> Orphaned(cat, init + [e], Home(y))
  {
    hide Captured, Enabled, Perform, WfDb, Orphaned, SpokenOf, MovesFrom, Fills;
    var a := Home(y);
    EventTouches(cat, db, e, id, a);
    OrphanedSnoc(cat, init, e, a);
    FillsOne(cat, e, id, a);
    if !MovesFrom(cat, e, a) {
      SameRowSameProbe(db, Perform(cat, db, e.w), y, Undo);
    }
  }

  lemma OrphansStayAway(cat: Catalog, db: Db, init: seq<Event>, e: Event, id: nat, a: Addr)
    requires WfCatalog(cat) && WfDb(cat, db) && Enabled(cat, db, e.w) && Captured(cat, e, id).Some?
    requires AllShaped(cat, init) && AllShaped(cat, init + [e]) && Orphaned(cat, init + [e], a)
    requires Orphaned(cat, init, a) ==> a !in db && SpokenOf(cat, init, a)
    ensures a !in Perform(cat, db, e.w) && SpokenOf(cat, init + [e], a)
  {
    hide Captured, Enabled, Perform, WfDb, Orphaned, SpokenOf, MovesFrom, Fills;
    EventTouches(cat, db, e, id, a);
    OrphanedSnoc(cat, init, e, a);
    FillsOne(cat, e, id, a);
    SpokenConcat(cat, init, [e], a);
    assert At(Perform(cat, db, e.w), a) == At(db, a) || MovesFrom(cat, e, a);
  }

  lemma OneMoreEvent(cat: Catalog, db: Db, init: seq<Event>, e: Event, id: nat, ys: seq<Entry>)
    requires WfCatalog(cat) && WfDb(cat, db) && Enabled(cat, db, e.w) && Captured(cat, e, id).Some?
    requires AllShaped(cat, init) && AllShaped(cat, init + [e]) && FlagsOrphans(cat, db, init, ys)
    requires forall y | y in ys :: SpokenOf(cat, init, Home(y))
    ensures FlagsOrphans(cat, Perform(cat, db, e.w), init + [e], [Captured(cat, e, id).value] + ys)
  {
    hide Captured, Enabled, Perform, WfDb, WfCatalog, Orphaned, SpokenOf, Probe;
    var x, db', run := Captured(cat, e, id).value, Perform(cat, db, e.w), init + [e];
    var xs := [x] + ys;
    forall i | 0 <= i < |xs| && FirstSeen(xs, i)
      ensures Probe(db', xs[i], Undo) == Conflicting <==> Orphaned(cat, run, Home(xs[i]))
    {
      if i == 0 {
        NewestFindsItsRow(cat, db, e, id);
        OrphanedSnoc(cat, init, e, Home(x));
        FillsOne(cat, e, id, Home(x));
        EventTouches(cat, db, e, id, Home(x));
      } else {
        FirstSeenInRest(xs, i);
        assert xs[1..] == ys && ys[i - 1] in ys;
        OlderEntry(cat, db, init, e, id, ys[i - 1]);
      }
    }
    forall a | Orphaned(cat, run, a) ensures a !in db' && SpokenOf(cat, run, a) {
      OrphansStayAway(cat, db, init, e, id, a);
    }
  }

  lemma NoOpEvent(cat: Catalog, db: Db, init: seq<Event>, e: Event, id: nat, ys: seq<Entry>)
    requires WfDb(cat, db) && Enabled(cat, db, e.w) && Captured(cat, e, id).None?
    requires AllShaped(cat, init) && AllShaped(cat, init + [e]) && FlagsOrphans(cat, db, init, ys)
    ensures FlagsOrphans(cat, Perform(cat, db, e.w), init + [e], ys)
  {
    hide Captured, Enabled, Perform, WfDb, Orphaned, SpokenOf, Probe, FirstSeen;
    UncapturedIsNoOp(cat, db, e, id);
    forall a ensures Orphaned(cat, init + [e], a) <==> Orphaned(cat, init, a) {
      OrphanedSnoc(cat, init, e, a);
      FillsOne(cat, e, id, a);
    }
    forall a | SpokenOf(cat, init, a) ensures SpokenOf(cat, init + [e], a) {
      SpokenConcat(cat, init, [e], a);
    }
  }

  lemma ReverseSnoc(xs: seq<Entry>, ys: seq<Entry>)
    requires |ys| <= 1
    ensures Reverse(xs + ys) == ys + Reverse(xs)
  {
    var zs := xs + ys;
    if |ys| == 1 {
      forall i | 0 <= i < |zs| ensures Reverse(zs)[i] == (ys + Reverse(xs))[i] {
        assert Reverse(zs)[i] == zs[|zs| - 1 - i];
      }
    } else {
      assert zs == xs;
    }
  }

  /** The newest entry of a run comes first in its undo. */
  lemma ReverseLogSnoc(cat: Catalog, init: seq<Event>, e: Event, id: nat)
    requires AllShaped(cat, init) && AllShaped(cat, [e])
    ensures AllShaped(cat, init + [e]) && e in [e]
    ensures var x := Captured(cat, e, id + |LogOf(cat, init, id)|);
      Reverse(LogOf(cat, init + [e], id)) == (if x.Some? then [x.value] else []) + Reverse(LogOf(cat, init, id))
  {
    hide Captured, Reverse, LogOf;
    PrefixShaped(cat, init, [e]);
    var log := LogOf(cat, init, id);
    LogConcat(cat, init, [e], id);
    LogOfOne(cat, e, id + |log|);
    ReverseSnoc(log, LogOf(cat, [e], id + |log|));
  }

  lemma LogHomesAll(cat: Catalog, run: seq<Event>, id: nat)
    requires AllShaped(cat, run)
    ensures forall y | y in Reverse(LogOf(cat, run, id)) :: SpokenOf(cat, run, Home(y))
  {
    hide SpokenOf, LogOf;
    forall y | y in Reverse(LogOf(cat, run, id)) ensures SpokenOf(cat, run, Home(y)) {
      LogHomes(cat, run, id, Home(y));
    }
  }

  lemma {:induction false} RunFlagsOrphans(cat: Catalog, db: Db, run: seq<Event>, id: nat)
    requires WfCatalog(cat) && WfDb(cat, db) && Possible(cat, db, run)
    ensures AllShaped(cat, run)
    ensures FlagsOrphans(cat, After(cat, db, run), run, Reverse(LogOf(cat, run, id)))
    decreases |run|
  {
    hide Captured, Enabled, Perform, WfDb, WfCatalog, FlagsOrphans, SpokenOf, LogOf, Reverse, After, Possible;
    PossibleIsShaped(cat, db, run);
    if run == [] {
      NothingOrphaned(cat, db, id);
    } else {
      var init, e := run[..|run| - 1], run[|run| - 1];
      assert run == init + [e];
      PrefixShaped(cat, init, [e]);
      LastEvent(cat, db, run);
      AfterKeepsWf(cat, db, init);
      RunFlagsOrphans(cat, db, init, id);
      ReverseLogSnoc(cat, init, e, id);
      var mid, ys, next := After(cat, db, init), Reverse(LogOf(cat, init, id)), id + |LogOf(cat, init, id)|;
      if Captured(cat, e, next).None? {
        NoOpEvent(cat, mid, init, e, next, ys);
        assert [] + ys == ys;
      } else {
        LogHomesAll(cat, init, id);
        OneMoreEvent(cat, mid, init, e, next, ys);
      }
    }
  }

  lemma NothingOrphaned(cat: Catalog, db: Db, id: nat)
    ensures AllShaped(cat, []) && Possible(cat, db, []) && After(cat, db, []) == db
    ensures FlagsOrphans(cat, db, [], Reverse(LogOf(cat, [], id)))
  {
  }

  lemma {:induction false} FirstAbout(xs: seq<Entry>, a: Addr) returns (i: nat)
    requires exists x :: x in xs && Home(x) == a
    ensures i < |xs| && Home(xs[i]) == a && FirstSeen(xs, i)
  {
    if Home(xs[0]) == a {
      i := 0;
    } else {
      var x :| x in xs && Home(x) == a;
      assert xs == [xs[0]] + xs[1..];
      i := FirstAbout(xs[1..], a);
      i := i + 1;
      FirstSeenInRest(xs, i);
    }
  }

  /** Previewing the undo of exactly a captured run, right after it, shows no flag if
      and only if no update of the run moved a row away from a key that an earlier
      entry is about and no later one; and it shows a flag although that undo always
      applies every step. */
  lemma OwnPreviewIff(cat: Catalog, db: Db, run: seq<Event>, id: nat, skip: bool)
    requires WfCatalog(cat) && WfDb(cat, db) && Possible(cat, db, run)
    ensures AllShaped(cat, run) && Plannable(cat, Reverse(LogOf(cat, run, id)), Undo)
    ensures NoFlag(After(cat, db, run), Reverse(LogOf(cat, run, id)), Undo) <==> forall a :: !Orphaned(cat, run, a)
    ensures var r := Apply(cat, Going(After(cat, db, run), [], []), UndoOf(cat, run, id), Undo, skip);
      r.Going? && r.db == db && r.statuses == AllApplied(|LogOf(cat, run, id)|)
  {
    hide Captured, Enabled, Perform, WfDb, WfCatalog, Orphaned, SpokenOf, Probe, FirstSeen, Apply, LogOf;
    UndoInvertsCapture(cat, db, run, id, skip);
    RunFlagsOrphans(cat, db, run, id);
    var xs := Reverse(LogOf(cat, run, id));
    if a :| Orphaned(cat, run, a) {
      LogHomes(cat, run, id, a);
      var x :| x in LogOf(cat, run, id) && Home(x) == a;
      assert x in xs;
      var i := FirstAbout(xs, a);
      assert Flagged(After(cat, db, run), xs, i, Undo);
    }
  }
}
