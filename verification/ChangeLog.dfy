/** The history as the object it is: rows appended by capture, sealed, aged out
    partition by partition, erased, and verified. */
module ChangeLog {
  import opened Options
  import opened Hashing
  import opened Sealing
  import opened Retention

  /** A monthly partition: rows with lower <= ts < upper. */
  datatype Part = Part(lower: nat, upper: nat)

  predicate Stored(p: Part, r: Rec) {
    p.lower <= r.ts < p.upper
  }

  /** The rows a partition holds. */
  function Held(p: Part): Which {
    (r: Rec) => Stored(p, r)
  }

  /** The rows of before a time. */
  function Aged(cutoff: nat): Which {
    (r: Rec) => r.ts < cutoff
  }

  /** One table's retention: its rows older than the cutoff go. */
  datatype Policy = Policy(table: string, cutoff: nat)

  predicate Expired(p: Policy, r: Rec) {
    r.table == p.table && r.ts < p.cutoff
  }

  function Sum(ns: seq<nat>): nat {
    if ns == [] then 0 else Sum(ns[..|ns| - 1]) + ns[|ns| - 1]
  }

  /** The audit rows a purge keeps, by their times. */
  function Recent(times: seq<nat>, cutoff: nat): (kept: seq<nat>)
    ensures |kept| <= |times|
    ensures forall t :: t in kept <==> t in times && t >= cutoff
  {
    if times == [] then []
    else
      assert times == [times[0]] + times[1..];
      (if times[0] < cutoff then [] else [times[0]]) + Recent(times[1..], cutoff)
  }

  /** How many rows lie in a range of times. */
  function CountBetween(rows: seq<Rec>, lower: nat, upper: nat): nat {
    if rows == [] then 0 else (if lower <= rows[0].ts < upper then 1 else 0) + CountBetween(rows[1..], lower, upper)
  }

  /** The partitions that lie behind the cutoff, in order. */
  function Behind(parts: seq<Part>, cutoff: nat): seq<Part> {
    if parts == [] then []
    else Behind(parts[..|parts| - 1], cutoff) + if parts[|parts| - 1].upper <= cutoff then [parts[|parts| - 1]] else []
  }

  ghost predicate Disjoint(parts: seq<Part>) {
    forall i, j | 0 <= i < j < |parts| :: parts[i].upper <= parts[j].lower || parts[j].upper <= parts[i].lower
  }

  /** Each dropped partition's count is that of the rows it held. */
  ghost predicate Tallied(rows: seq<Rec>, dropped: seq<Part>, removed: seq<nat>) {
    |removed| >= |dropped|
    && forall k | 0 <= k < |dropped| :: removed[k] == CountBetween(rows, dropped[k].lower, dropped[k].upper)
  }

  /** The partitions from `i` on still hold what they held. */
  ghost predicate Untouched(now: seq<Rec>, rows: seq<Rec>, parts: seq<Part>, i: nat) {
    forall k | i <= k < |parts| ::
      CountBetween(now, parts[k].lower, parts[k].upper) == CountBetween(rows, parts[k].lower, parts[k].upper)
  }

  lemma {:induction false} DroppedCount(rows: seq<Rec>, p: Part)
    ensures |Only(rows, Held(p))| == CountBetween(rows, p.lower, p.upper)
  {
    if rows != [] {
      assert rows == [rows[0]] + rows[1..];
      DroppedCount(rows[1..], p);
    }
  }

  lemma {:induction false} OthersKeepCount(rows: seq<Rec>, p: Part, q: Part)
    requires p.upper <= q.lower || q.upper <= p.lower
    ensures CountBetween(Without(rows, Held(p)), q.lower, q.upper) == CountBetween(rows, q.lower, q.upper)
  {
    if rows != [] {
      var rest := Without(rows[1..], Held(p));
      OthersKeepCount(rows[1..], p, q);
      WithoutCons(rows, Held(p));
      if !Held(p)(rows[0]) {
        assert ([rows[0]] + rest)[1..] == rest;
      } else {
        assert [] + rest == rest;
      }
    }
  }

  lemma WithoutCons(rows: seq<Rec>, gone: Which)
    requires rows != []
    ensures Without(rows, gone) == (if gone(rows[0]) then [] else [rows[0]]) + Without(rows[1..], gone)
  {
    assert rows == [rows[0]] + rows[1..];
  }

  lemma BehindOneMore(parts: seq<Part>, cutoff: nat, i: nat)
    requires i < |parts|
    ensures |Behind(parts[..i + 1], cutoff)| == |Behind(parts[..i], cutoff)| + if parts[i].upper <= cutoff then 1 else 0
  {
    assert parts[..i + 1][..i] == parts[..i];
  }

  /** Dropping one more partition. */
  lemma TallyOneMore(now: seq<Rec>, rows: seq<Rec>, parts: seq<Part>, cutoff: nat, i: nat, removed: seq<nat>)
    requires i < |parts| && Disjoint(parts) && Untouched(now, rows, parts, i)
    requires |removed| == |Behind(parts[..i], cutoff)| && Tallied(rows, Behind(parts[..i], cutoff), removed)
    ensures var p := parts[i];
      if p.upper <= cutoff then
        var more := removed + [|Only(now, Held(p))|];
        && |more| == |Behind(parts[..i + 1], cutoff)| && Tallied(rows, Behind(parts[..i + 1], cutoff), more)
        && Untouched(Without(now, Held(p)), rows, parts, i + 1)
      else
        && |removed| == |Behind(parts[..i + 1], cutoff)| && Tallied(rows, Behind(parts[..i + 1], cutoff), removed)
        && Untouched(now, rows, parts, i + 1)
  {
    hide CountBetween, Only, Without;
    var p := parts[i];
    assert parts[..i + 1][..i] == parts[..i];
    if p.upper <= cutoff {
      DroppedCount(now, p);
      forall k | i + 1 <= k < |parts|
        ensures CountBetween(Without(now, Held(p)), parts[k].lower, parts[k].upper)
          == CountBetween(rows, parts[k].lower, parts[k].upper)
      {
        OthersKeepCount(now, p, parts[k]);
      }
    }
  }

  lemma SumSnoc(ns: seq<nat>, n: nat)
    ensures Sum(ns + [n]) == Sum(ns) + n && Sum([]) == 0
  {
    assert (ns + [n])[..|ns|] == ns;
  }

  /** What a partition behind the cutoff holds an aged delete would take as well. */
  lemma HeldIsAged(rows: seq<Rec>, p: Part, cutoff: nat)
    requires p.upper <= cutoff
    ensures Without(Without(rows, Held(p)), Aged(cutoff)) == Without(rows, Aged(cutoff))
  {
    WithoutTwice(rows, Held(p), Aged(cutoff));
  }

  lemma NothingDropped(rows: seq<Rec>, parts: seq<Part>, cutoff: nat)
    ensures Behind(parts[..0], cutoff) == [] && Sum([]) == 0 && Tallied(rows, [], []) && Untouched(rows, rows, parts, 0)
  {
  }

  lemma StillTallied(rows: seq<Rec>, dropped: seq<Part>, removed: seq<nat>, n: nat)
    requires Tallied(rows, dropped, removed)
    ensures Tallied(rows, dropped, removed + [n])
  {
  }

  class Log {
    const sha: Hash
    var rows: seq<Rec>
    var seals: seq<Seal>
    var ledger: seq<Ledger>
    var clock: nat
    var undoLog: seq<nat>
    ghost var sealed: seq<seq<Rec>>
    ghost var late: set<nat>

    ghost function Value(): History
      reads this
    {
      History(rows, seals, ledger, clock, sealed, late)
    }

    ghost predicate Valid()
      reads this
    {
      Inv(sha, Value())
    }

    constructor (sha: Hash)
      ensures Valid() && Value() == EMPTY && undoLog == [] && this.sha == sha
    {
      this.sha := sha;
      rows, seals, ledger, clock, undoLog := [], [], [], 0, [];
      sealed, late := [], {};
    }

    /** A captured row, once its writer has committed: at its id, which need not be
        the largest. */
    method Append(r: Rec)
      requires Valid()
      modifies `rows, `late
      ensures Valid() && Value() == Next(sha, old(Value()), Capture(r))
      ensures multiset(rows) == multiset(old(rows)) + multiset{r} && (InIdOrder(old(rows)) ==> InIdOrder(rows))
      ensures forall i :: i in late <==> i in old(late) || (0 <= i < |seals| && seals[i].from <= r.id <= seals[i].to)
    {
      hide InIdOrder, Inv;
      InsertJoins(rows, r);
      StepKeepsInv(sha, Value(), Capture(r));
      late := late + SealsOver(seals, r);
      rows := Insert(rows, r);
    }

    /** `seal()`: one bounded span a call, linked to the seal before it. */
    method SealOnceNow(cap: nat) returns (made: Option<Seal>)
      requires Valid()
      modifies `seals, `clock, `sealed
      ensures Valid() && Value() == Next(sha, old(Value()), SealNow(cap))
      ensures made == NextSeal(sha, rows, old(seals), cap, old(clock))
    {
      hide Inv, SpanHash, Span, SealText, From, MaxId;
      StepKeepsInv(sha, Value(), SealNow(cap));
      made := None;
      var from := LastTo(seals) + 1;
      var newest := MaxId(From(rows, from));
      var now := clock;
      clock := clock + 1;
      if newest.None? {
        assert sealed + [] == sealed;
        return;
      }
      NewestIsUnsealed(rows, from);
      var to := newest.value;
      if to - from + 1 > cap {
        to := from + cap - 1;
      }
      var content, count := HashSpan(sha, rows, from, to);
      var prev := LastChain(seals);
      var chain := sha(SealText(prev, content, from, to, count));
      made := Some(Seal(from, to, count, content, prev, chain, now));
      sealed := sealed + [Span(rows, from, to)];
      seals := seals + [made.value];
    }

    /** Deletes rows behind the append-only guard and records their id range. */
    method RemoveRows(gone: Which, always: bool) returns (n: nat)
      requires Valid()
      modifies this`rows, this`ledger, this`clock
      ensures Valid() && Value() == Remove(old(Value()), gone, always)
      ensures rows == Without(old(rows), gone) && n == |old(rows)| - |rows| == |Only(old(rows), gone)|
      ensures |ledger| == |old(ledger)| + if n > 0 || always then 1 else 0
    {
      hide Inv, Only, EntryFor;
      StepKeepsInv(sha, Value(), Purge(gone, always));
      var victims := Only(rows, gone);
      n := |victims|;
      CountSplits(rows, gone);
      if n == 0 && !always {
        NothingGone(rows, gone);
        return;
      }
      rows := Without(rows, gone);
      ledger := ledger + [EntryFor(victims, clock)];
      clock := clock + 1;
    }

    /** Drops every partition that lies behind the cutoff. */
    method DropBehind(cutoff: nat, parts: seq<Part>) returns (removed: seq<nat>)
      requires Valid()
      modifies `rows, `ledger, `clock
      ensures Valid() && Without(rows, Aged(cutoff)) == Without(old(rows), Aged(cutoff))
      ensures |rows| <= |old(rows)| && Sum(removed) == |old(rows)| - |rows|
      ensures |removed| == |Behind(parts, cutoff)| && |ledger| == |old(ledger)| + |removed|
      ensures Disjoint(parts) ==> Tallied(old(rows), Behind(parts, cutoff), removed)
    {
      hide Inv, Only, Without, Remove, EntryFor, CountBetween, Tallied, Untouched, Disjoint, Behind, Sum, Held, Aged;
      removed := [];
      NothingDropped(rows, parts, cutoff);
      for i := 0 to |parts|
        invariant Valid() && Without(rows, Aged(cutoff)) == Without(old(rows), Aged(cutoff))
        invariant |rows| <= |old(rows)| && Sum(removed) == |old(rows)| - |rows|
        invariant |removed| == |Behind(parts[..i], cutoff)| && |ledger| == |old(ledger)| + |removed|
        invariant Disjoint(parts) ==> Tallied(old(rows), Behind(parts[..i], cutoff), removed)
        invariant Disjoint(parts) ==> Untouched(rows, old(rows), parts, i)
      {
        var p := parts[i];
        if Disjoint(parts) {
          TallyOneMore(rows, old(rows), parts, cutoff, i, removed);
        }
        BehindOneMore(parts, cutoff, i);
        if p.upper <= cutoff {
          HeldIsAged(rows, p, cutoff);
          var n := RemoveRows(Held(p), true);
          SumSnoc(removed, n);
          removed := removed + [n];
        }
      }
      assert parts[..|parts|] == parts;
    }

    /** purge(older_than): drop every partition that lies behind the cutoff, then
        delete row by row what the straddling and default partitions hold, then
        delete the audit rows of that age. */
    method PurgeOlder(cutoff: nat, parts: seq<Part>) returns (removed: seq<nat>, audits: nat)
      requires Valid()
      modifies `rows, `ledger, `clock, `undoLog
      ensures Valid()
      ensures rows == Without(old(rows), (r: Rec) => r.ts < cutoff)
      ensures Sum(removed) == |old(rows)| - |rows|
      ensures |removed| == |Behind(parts, cutoff)| + 1 && (Disjoint(parts) ==> Tallied(old(rows), Behind(parts, cutoff), removed))
      ensures |ledger| == |old(ledger)| + |Behind(parts, cutoff)| + if removed[|removed| - 1] > 0 then 1 else 0
      ensures undoLog == Recent(old(undoLog), cutoff) && audits == |old(undoLog)| - |undoLog|
    {
      hide Inv, Only, Without, Remove, Tallied, Disjoint, Behind, Recent, Sum;
      var dropped := DropBehind(cutoff, parts);
      var n := RemoveRows(Aged(cutoff), false);
      removed := dropped + [n];
      SumSnoc(dropped, n);
      if Disjoint(parts) {
        StillTallied(old(rows), Behind(parts, cutoff), dropped, n);
      }
      audits := |undoLog| - |Recent(undoLog, cutoff)|;
      undoLog := Recent(undoLog, cutoff);
    }

    /** purge(): each covered table by its own retention. */
    method PurgeByPolicy(policies: seq<Policy>) returns (removed: seq<nat>)
      requires Valid()
      modifies this`rows, this`ledger, this`clock
      ensures Valid() && |removed| == |policies|
      ensures forall r :: r in rows <==> r in old(rows) && forall p | p in policies && p.table == r.table :: r.ts >= p.cutoff
      ensures Sum(removed) == |old(rows)| - |rows|
    {
      hide Inv, Only;
      removed := [];
      for i := 0 to |policies|
        invariant Valid() && |removed| == i
        invariant forall r :: r in rows <==> r in old(rows) && forall p | p in policies[..i] && p.table == r.table :: r.ts >= p.cutoff
        invariant |rows| <= |old(rows)| && Sum(removed) == |old(rows)| - |rows|
      {
        var p := policies[i];
        var n := RemoveRows((r: Rec) => Expired(p, r), false);
        removed := removed + [n];
        assert removed[..|removed| - 1] + [n] == removed;
        assert policies[..i + 1] == policies[..i] + [p];
      }
      assert policies[..|policies|] == policies;
    }

    /** forget(): the subject's rows are redacted, or deleted when `hard`. */
    method ForgetSubject(subject: Which, hard: bool)
      requires Valid()
      modifies `rows, `ledger, `clock
      ensures Valid()
      ensures Value() == Next(sha, old(Value()), if hard then Purge(subject, false) else Forget(subject))
      ensures !hard ==> |rows| == |old(rows)|
      ensures !hard ==> forall i | 0 <= i < |rows| :: ForgottenOne(old(rows)[i], rows[i], subject, old(clock))
      ensures hard ==> forall r :: r in rows <==> r in old(rows) && !subject(r)
    {
      hide Inv, Only, Redacted, EntryFor, ForgottenOne;
      if hard {
        var n := RemoveRows(subject, false);
      } else {
        RedactedOneByOne(rows, subject, clock);
        StepKeepsInv(sha, Value(), Forget(subject));
        var matched := Only(rows, subject);
        if matched != [] {
          ledger := ledger + [EntryFor(matched, clock)];
          rows := Redacted(rows, subject, clock);
          clock := clock + 1;
        }
      }
    }

    /** verify(): of a history only ever changed by the procedures above, on every
        seal into whose range no row came late. */
    method VerifyAll() returns (findings: seq<Finding>)
      requires Valid()
      ensures |findings| == |seals|
      ensures forall i | 0 <= i < |seals| && i !in late ::
        findings[i].verdict == if Unchanged(sha, rows, seals[i]) then AsSealed else Explained
    {
      findings := Verify(sha, rows, seals, ledger);
      forall i | 0 <= i < |seals| && i !in late
        ensures findings[i].verdict == if Unchanged(sha, rows, seals[i]) then AsSealed else Explained
      {
        SoundIsClean(sha, Value(), i);
      }
    }
  }

  lemma NewestIsUnsealed(rows: seq<Rec>, from: nat)
    ensures var newest := MaxId(From(rows, from)); newest.Some? ==> newest.value >= from
  {
  }

  lemma {:induction false} NothingGone(rows: seq<Rec>, gone: Which)
    requires Only(rows, gone) == []
    ensures Without(rows, gone) == rows
  {
    if rows != [] {
      assert rows == [rows[0]] + rows[1..];
      NothingGone(rows[1..], gone);
    }
  }

  /** Deleting by partition first makes no difference to what an aged delete
      leaves. */
  lemma WithoutTwice(rows: seq<Rec>, p: Which, q: Which)
    requires forall r | r in rows && p(r) :: q(r)
    ensures Without(Without(rows, p), q) == Without(rows, q)
  {
    OnlyTwice(rows, r => !p(r), r => !q(r));
  }
}
