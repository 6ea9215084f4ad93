/** Concurrent undos and replays: each takes one transaction lock per table, in
    sorted name order, and holds them all until it ends. */
module Locks {

  /** Table names stand for their place in the sort order; the lock key is taken
      to be injective in the name. */
  type Name = nat

  /** `tables` is the plan's distinct table names in order, of which the first
      `held` are locked.  With all of them locked it is in its apply loop. */
  datatype Txn = Txn(tables: seq<Name>, held: nat, ended: bool)

  predicate Sorted(tables: seq<Name>) {
    forall i, j | 0 <= i < j < |tables| :: tables[i] < tables[j]
  }

  lemma {:induction false} LeastName(names: set<Name>) returns (n: Name)
    requires names != {}
    ensures n in names && forall m | m in names :: n <= m
  {
    var first :| first in names;
    n := first;
    if m :| m in names && m < first {
      assert m in names - {first};
      n := LeastName(names - {first});
      assert n <= m < first;
      assert forall k | k in names :: k == first || k in names - {first};
    }
  }

  lemma SortedCons(n: Name, rest: seq<Name>)
    requires Sorted(rest) && forall m | m in rest :: n < m
    ensures Sorted([n] + rest)
  {
    var tables := [n] + rest;
    forall i, j | 0 <= i < j < |tables| ensures tables[i] < tables[j] {
      assert tables[j] == rest[j - 1] && rest[j - 1] in rest;
    }
  }

  function Least(names: set<Name>): (n: Name)
    requires names != {}
    ensures n in names && forall m | m in names :: n <= m
  {
    assert exists n :: n in names && forall m | m in names :: n <= m by { var n := LeastName(names); }
    var n :| n in names && forall m | m in names :: n <= m;
    n
  }

  /** The distinct names of a plan's tables, in order. */
  function LockOrder(names: set<Name>): seq<Name> {
    if names == {} then [] else [Least(names)] + LockOrder(names - {Least(names)})
  }

  lemma {:induction false} LockOrderIsSorted(names: set<Name>)
    ensures Sorted(LockOrder(names)) && forall n :: n in LockOrder(names) <==> n in names
  {
    if names != {} {
      var n := Least(names);
      var rest := LockOrder(names - {n});
      LockOrderIsSorted(names - {n});
      SortedCons(n, rest);
      assert forall m :: m in [n] + rest <==> m == n || m in rest;
    }
  }

  predicate Holds(t: Txn, n: Name) {
    !t.ended && t.held <= |t.tables| && n in t.tables[..t.held]
  }

  predicate Applying(t: Txn) {
    !t.ended && t.held == |t.tables|
  }

  type System = seq<Txn>

  datatype Step =
    | Begin(tables: set<Name>)
    | Lock(i: nat)
    | End(i: nat)      // commit or rollback, which releases every lock
    | Cancel(i: nat)   // an error before the apply loop, rolled back likewise

  predicate Free(sys: System, i: nat, n: Name) {
    forall j | 0 <= j < |sys| && j != i :: !Holds(sys[j], n)
  }

  predicate Enabled(sys: System, s: Step) {
    match s
    case Begin(_) => true
    case Lock(i) => i < |sys| && !sys[i].ended && sys[i].held < |sys[i].tables|
      && Free(sys, i, sys[i].tables[sys[i].held])
    case End(i) => i < |sys| && Applying(sys[i])
    case Cancel(i) => i < |sys| && !sys[i].ended
  }

  function After(sys: System, s: Step): System
    requires Enabled(sys, s)
  {
    match s
    case Begin(tables) => sys + [Txn(LockOrder(tables), 0, false)]
    case Lock(i) => sys[i := sys[i].(held := sys[i].held + 1)]
    case End(i) => sys[i := sys[i].(ended := true)]
    case Cancel(i) => sys[i := sys[i].(ended := true)]
  }

  /** The steps by which a transaction already begun makes progress. */
  predicate Progresses(sys: System, s: Step) {
    (s.Lock? || s.End?) && Enabled(sys, s)
  }

  ghost predicate Inv(sys: System) {
    && (forall t | t in sys :: Sorted(t.tables) && t.held <= |t.tables|)
    && (forall i, j, n | 0 <= i < j < |sys| && Holds(sys[i], n) :: !Holds(sys[j], n))
  }

  ghost predicate Reaches(sys: System, steps: seq<Step>, end: System)
    decreases |steps|
  {
    if steps == [] then sys == end
    else Enabled(sys, steps[0]) && Reaches(After(sys, steps[0]), steps[1..], end)
  }

  lemma StepKeepsInv(sys: System, s: Step)
    requires Inv(sys) && Enabled(sys, s)
    ensures Inv(After(sys, s))
  {
    hide LockOrder;
    var sys' := After(sys, s);
    if s.Begin? {
      LockOrderIsSorted(s.tables);
    }
    forall t | t in sys' ensures Sorted(t.tables) && t.held <= |t.tables| {
      var i :| 0 <= i < |sys'| && sys'[i] == t;
      if i < |sys| { assert sys[i] in sys; }
    }
    forall i, n | 0 <= i < |sys'| && Holds(sys'[i], n)
      ensures i < |sys| && (Holds(sys[i], n) || (s == Lock(i) && n == sys[i].tables[sys[i].held]))
    {
      GainsOne(sys, s, i, n);
    }
  }

  /** A step adds at most the one lock it takes. */
  lemma GainsOne(sys: System, s: Step, i: nat, n: Name)
    requires Enabled(sys, s) && i < |After(sys, s)| && Holds(After(sys, s)[i], n)
    ensures i < |sys| && (Holds(sys[i], n) || (s == Lock(i) && n == sys[i].tables[sys[i].held]))
  {
    if s == Lock(i) {
      var t := sys[i];
      assert t.tables[..t.held + 1] == t.tables[..t.held] + [t.tables[t.held]];
    }
  }

  lemma {:induction false} ReachableInv(sys: System, steps: seq<Step>, end: System)
    requires Inv(sys) && Reaches(sys, steps, end)
    ensures Inv(end)
    decreases |steps|
  {
    if steps != [] {
      StepKeepsInv(sys, steps[0]);
      ReachableInv(After(sys, steps[0]), steps[1..], end);
    }
  }

  /** How far down the order the name a transaction waits for still is. */
  function Remaining(t: Txn, bound: nat): nat {
    if t.held < |t.tables| && t.tables[t.held] < bound then bound - t.tables[t.held] else 0
  }

  /** Follows the chain of waiting: whoever holds the lock waited for waits, if
      at all, for a name further down the order. */
  lemma {:induction false} SomeoneProgresses(sys: System, i: nat, bound: nat) returns (s: Step)
    requires Inv(sys) && i < |sys| && !sys[i].ended
    requires forall t, n | t in sys && n in t.tables :: n < bound
    ensures Progresses(sys, s)
    decreases Remaining(sys[i], bound)
  {
    var t := sys[i];
    assert t in sys;
    if t.held == |t.tables| {
      s := End(i);
    } else if Free(sys, i, t.tables[t.held]) {
      s := Lock(i);
    } else {
      var n := t.tables[t.held];
      assert n in t.tables;
      var j :| 0 <= j < |sys| && j != i && Holds(sys[j], n);
      var u := sys[j];
      assert u in sys;
      var k :| 0 <= k < u.held && u.tables[k] == n;
      if u.held < |u.tables| {
        assert u.tables[u.held] in u.tables;
      }
      s := SomeoneProgresses(sys, j, bound);
    }
  }

  lemma {:induction false} NamesBounded(sys: System) returns (bound: nat)
    ensures forall t, n | t in sys && n in t.tables :: n < bound
  {
    bound := 0;
    if sys != [] {
      var rest := NamesBounded(sys[1..]);
      var own := MaxName(sys[0].tables);
      bound := if own < rest then rest else own;
      forall t, n | t in sys && n in t.tables ensures n < bound {
        assert t == sys[0] || t in sys[1..];
      }
    }
  }

  lemma {:induction false} MaxName(names: seq<Name>) returns (bound: nat)
    ensures forall n | n in names :: n < bound
  {
    bound := 0;
    if names != [] {
      assert names == [names[0]] + names[1..];
      var rest := MaxName(names[1..]);
      bound := if names[0] < rest then rest else names[0] + 1;
    }
  }

  /** No deadlock: in every reachable state of any number of undos and replays,
      if one has not ended then one can take its next lock or end. */
  lemma NoDeadlock(steps: seq<Step>, end: System, i: nat) returns (s: Step)
    requires Reaches([], steps, end) && i < |end| && !end[i].ended
    ensures Progresses(end, s)
  {
    ReachableInv([], steps, end);
    var bound := NamesBounded(end);
    s := SomeoneProgresses(end, i, bound);
  }

  /** Serialised table by table: two transactions in their apply loops never
      share a table. */
  lemma ApplyLoopsAreDisjoint(steps: seq<Step>, end: System, i: nat, j: nat)
    requires Reaches([], steps, end) && i < |end| && j < |end| && i != j
    requires Applying(end[i]) && Applying(end[j])
    ensures forall n | n in end[i].tables :: n !in end[j].tables
  {
    ReachableInv([], steps, end);
    assert end[i].tables[..end[i].held] == end[i].tables && end[j].tables[..end[j].held] == end[j].tables;
    forall n | n in end[i].tables ensures n !in end[j].tables {
      assert Holds(end[i], n);
      if n in end[j].tables { assert Holds(end[j], n); }
    }
  }

  // ---------------------------------------------------------------------
  // And so every call ends
  // ---------------------------------------------------------------------

  /** The steps that transactions already begun have before them. */
  function Work(sys: System): nat {
    if sys == [] then 0 else Left(sys[0]) + Work(sys[1..])
  }

  function Left(t: Txn): nat {
    if t.ended || t.held > |t.tables| then 0 else |t.tables| - t.held + 1
  }

  lemma {:induction false} WorkOfChanged(sys: System, i: nat, t: Txn)
    requires i < |sys|
    ensures Work(sys[i := t]) == Work(sys) - Left(sys[i]) + Left(t)
  {
    if i == 0 {
      assert sys[0 := t][1..] == sys[1..];
    } else {
      assert sys[i := t][1..] == sys[1..][i - 1 := t];
      WorkOfChanged(sys[1..], i - 1, t);
    }
  }

  /** Taking a lock, or ending with all of them, leaves exactly one step less; giving up
      leaves less. */
  lemma StepWorks(sys: System, s: Step)
    requires Inv(sys) && Enabled(sys, s) && !s.Begin?
    ensures if s.Cancel? then Work(After(sys, s)) < Work(sys) else Work(After(sys, s)) == Work(sys) - 1
  {
    assert sys[s.i] in sys;
    WorkOfChanged(sys, s.i, After(sys, s)[s.i]);
  }

  lemma {:induction false} WorkOfMore(sys: System, t: Txn)
    ensures Work(sys + [t]) == Work(sys) + Left(t)
  {
    if sys != [] {
      assert (sys + [t])[1..] == sys[1..] + [t];
      WorkOfMore(sys[1..], t);
    } else {
      assert ([] + [t])[1..] == [];
    }
  }

  lemma {:induction false} LockOrderLength(names: set<Name>)
    ensures |LockOrder(names)| == |names|
  {
    if names != {} {
      LockOrderLength(names - {Least(names)});
    }
  }

  /** A call can always begin, with one lock to take for each table and its end before
      it; and, until it ends, it can always be given up, which frees all it holds. */
  lemma CallsBeginAndGiveUp(sys: System, names: set<Name>, i: nat)
    ensures Enabled(sys, Begin(names)) && Work(After(sys, Begin(names))) == Work(sys) + |names| + 1
    ensures Enabled(sys, Cancel(i)) <==> i < |sys| && !sys[i].ended
    ensures Enabled(sys, Cancel(i)) ==> forall n :: !Holds(After(sys, Cancel(i))[i], n)
  {
    WorkOfMore(sys, Txn(LockOrder(names), 0, false));
    LockOrderLength(names);
  }

  /** Without new calls no run is longer than the work there is. */
  lemma {:induction false} RunsAreBounded(sys: System, steps: seq<Step>, end: System)
    requires Inv(sys) && Reaches(sys, steps, end) && forall s | s in steps :: !s.Begin?
    ensures |steps| + Work(end) <= Work(sys)
    decreases |steps|
  {
    if steps != [] {
      assert steps[0] in steps;
      StepWorks(sys, steps[0]);
      StepKeepsInv(sys, steps[0]);
      RunsAreBounded(After(sys, steps[0]), steps[1..], end);
    }
  }

  lemma {:induction false} NothingLeft(sys: System)
    requires forall t | t in sys :: t.ended
    ensures Work(sys) == 0
  {
    if sys != [] {
      assert sys[0] in sys;
      NothingLeft(sys[1..]);
    }
  }

  lemma {:induction false} CanFinish(sys: System) returns (steps: seq<Step>, end: System)
    requires Inv(sys)
    ensures Reaches(sys, steps, end) && (forall s | s in steps :: s.Lock? || s.End?)
    ensures (forall t | t in end :: t.ended) && |steps| == Work(sys)
    decreases Work(sys)
  {
    steps, end := [], sys;
    if t :| t in sys && !t.ended {
      var i :| 0 <= i < |sys| && sys[i] == t;
      var bound := NamesBounded(sys);
      var s := SomeoneProgresses(sys, i, bound);
      StepWorks(sys, s);
      StepKeepsInv(sys, s);
      var more;
      more, end := CanFinish(After(sys, s));
      steps := [s] + more;
      assert steps[1..] == more;
    } else {
      NothingLeft(sys);
    }
  }

  /** From every reachable state all calls can end, each having taken all its locks
      and none cancelled; and without new calls every run comes to an end: it has
      no more steps than there are locks and calls left, and just as many if none is
      cancelled. */
  lemma AllCanFinish(steps: seq<Step>, mid: System) returns (more: seq<Step>, end: System)
    requires Reaches([], steps, mid)
    ensures Reaches(mid, more, end) && (forall s | s in more :: s.Lock? || s.End?) && forall t | t in end :: t.ended
    ensures |more| == Work(mid)
    ensures forall run: seq<Step>, last | Reaches(mid, run, last) && (forall s | s in run :: !s.Begin?) :: |run| <= Work(mid)
  {
    ReachableInv([], steps, mid);
    more, end := CanFinish(mid);
    forall run: seq<Step>, last | Reaches(mid, run, last) && forall s | s in run :: !s.Begin? ensures |run| <= Work(mid) {
      RunsAreBounded(mid, run, last);
    }
  }
}
