/** The companion's loop: it receives messages, filters what it has already
    archived, rotates, acknowledges, and lets the safety valve skip a backlog.
    The loop refines the delivery protocol. */
module Streaming {
  import opened Options
  import opened JsonValues
  import opened Capture
  import opened Archive
  import opened Decoding
  import opened Delivery
  import opened ExactlyOnce

  /** The slot is gone; or how much WAL it retains, the server's write position,
      and whether a gap, should one be made, can be reported and acknowledged. */
  datatype Reading = SlotGone | Reading(retained: nat, current: nat, reported: bool)

  /** One turn of the loop: the status interval may be due, with what the slot
      then reports, and a message may arrive. */
  datatype Turn = Turn(due: Option<Reading>, data: Option<(nat, Message)>)

  // ---------------------------------------------------------------------
  // What a turn does, on values
  // ---------------------------------------------------------------------

  function Record(enc: Encoding, max: nat, skipTo: nat, r: Records, c: Change): Records {
    if Replayed(skipTo, c) then r else Add(enc, max, r, c)
  }

  function Feed(enc: Encoding, max: nat, skipTo: nat, r: Records, cs: seq<Change>): Records {
    if cs == [] then r
    else Record(enc, max, skipTo, Feed(enc, max, skipTo, r, cs[..|cs| - 1]), cs[|cs| - 1])
  }

  predicate PastCeiling(ceiling: nat, now: Reading) {
    now.Reading? && ceiling > 0 && now.retained >= ceiling
  }

  /** What the archive gains when the slot is advanced: one gap over the skipped range,
      at the end of the last manifested segment. */
  ghost predicate Skipped(r: Records, r': Records, from: nat, to: nat) {
    && r'.segs != [] && r'.pending == [] && All(r') == All(r) + [SkippedGap(to, from, to)]
    && var last := r'.segs[|r'.segs| - 1]; last != [] && last[|last| - 1] == SkippedGap(to, from, to)
  }

  lemma GapIsManifested(enc: Encoding, max: nat, r: Records, from: nat, now: Reading)
    ensures now.Reading? ==>
      Skipped(r, Close(Add(enc, max, r, SkippedGap(now.current, from, now.current))), from, now.current)
  {
    if now.Reading? {
      var gap := SkippedGap(now.current, from, now.current);
      assert Flat(r.segs) + (r.pending + [gap]) == All(r) + [gap];
      FlatSnoc(r.segs, r.pending + [gap]);
    }
  }

  /** The check ends the run with an error. */
  predicate CheckFails(ceiling: nat, now: Reading) {
    now.SlotGone? || (PastCeiling(ceiling, now) && !now.reported)
  }

  /** The turn is one whose check ends the run. */
  predicate Fails(ceiling: nat, t: Turn) {
    t.due.Some? && CheckFails(ceiling, t.due.value)
  }

  /** The loop's variables, with what the server was told. */
  datatype Loop = Loop(rec: Records, acked: nat, told: nat, rels: Relations)

  function Rotated(l: Loop): Loop {
    var rec := Close(l.rec);
    var durable := Max(l.acked, Resume(rec));
    l.(rec := rec, acked := durable, told := Max(l.told, durable))
  }

  function Checked(enc: Encoding, max: nat, ceiling: nat, l: Loop, now: Reading): Loop {
    if PastCeiling(ceiling, now) then
      l.(rec := Close(Add(enc, max, l.rec, SkippedGap(now.current, l.acked, now.current))),
         told := if now.reported then Max(l.told, now.current) else l.told)
    else l
  }

  function Described(rels: Relations, m: Message): Relations {
    if m.RelationMsg? then rels[m.id := m.rel] else rels
  }

  /** Once a relation message has come, changes of that table are understood, and as the
      latest one describes it; what was known of the others stays. */
  lemma DescribedIsUnderstood(rels: Relations, id: nat, rel: Relation, lsn: nat, m: Message)
    requires (m.InsertMsg? || m.UpdateMsg? || m.DeleteMsg?)
    ensures var now := Described(rels, RelationMsg(id, rel));
      && (RecordsOf(now, lsn, m).Some? <==> m.id == id || m.id in rels)
      && (m.id == id ==> id in now && now[id] == rel)
      && (m.id != id ==> RecordsOf(now, lsn, m) == RecordsOf(rels, lsn, m))
  {
    hide Decoded, ChangeOf;
  }

  /** A turn; the flag is lost when the check fails or a message is about an unknown
      relation, which ends the run. */
  function AfterTurn(enc: Encoding, max: nat, ceiling: nat, skipTo: nat, l: Loop, t: Turn): (Loop, bool) {
    var l1 := if t.due.Some? then Checked(enc, max, ceiling, Rotated(l), t.due.value) else l;
    if Fails(ceiling, t) then (l1, false)
    else if t.data.None? then (l1, true)
    else
      var (lsn, m) := t.data.value;
      var cs := RecordsOf(l1.rels, lsn, m);
      if cs.None? then (l1, false)
      else (l1.(rec := Feed(enc, max, skipTo, l1.rec, cs.value), rels := Described(l1.rels, m)), true)
  }

  function AfterTurns(enc: Encoding, max: nat, ceiling: nat, skipTo: nat, l: Loop, turns: seq<Turn>): (Loop, bool)
    decreases |turns|
  {
    if turns == [] then (l, true)
    else
      var (l1, ok) := AfterTurn(enc, max, ceiling, skipTo, l, turns[0]);
      if !ok then (l1, false) else AfterTurns(enc, max, ceiling, skipTo, l1, turns[1..])
  }

  lemma FeedOne(enc: Encoding, max: nat, skipTo: nat, r: Records, c: Change)
    ensures Feed(enc, max, skipTo, r, [c]) == Record(enc, max, skipTo, r, c)
  {
    assert [c][..0] == [];
  }

  lemma FeedSnoc(enc: Encoding, max: nat, skipTo: nat, r: Records, cs: seq<Change>, c: Change)
    ensures Feed(enc, max, skipTo, r, cs + [c]) == Record(enc, max, skipTo, Feed(enc, max, skipTo, r, cs), c)
  {
    assert (cs + [c])[..|cs|] == cs;
  }

  // ---------------------------------------------------------------------
  // The loop
  // ---------------------------------------------------------------------

  class Streamer {
    const arch: Archive
    const warnBytes: nat
    const ceiling: nat
    var skipTo: nat
    var rels: Relations
    var changes: nat
    var skipped: nat
    var warned: bool
    ghost var told: nat

    constructor (arch: Archive, warnBytes: nat, ceiling: nat, ghost told: nat)
      ensures this.arch == arch && this.ceiling == ceiling && rels == map[] && skipTo == 0 && this.told == told
    {
      this.arch, this.warnBytes, this.ceiling := arch, warnBytes, ceiling;
      skipTo, rels, changes, skipped, warned := 0, map[], 0, 0, false;
      this.told := told;
    }

    ghost function State(acked: nat): Loop
      reads this, arch
    {
      Loop(arch.Value(), acked, told, rels)
    }

    /** A change at or below the resume point was archived before the restart. */
    method IsReplayed(lsn: nat) returns (r: bool)
      modifies `skipped
      ensures r <==> skipTo != 0 && lsn <= skipTo
      ensures skipped == old(skipped) + if r then 1 else 0
    {
      if skipTo == 0 || lsn > skipTo {
        return false;
      }
      skipped := skipped + 1;
      return true;
    }

    method Emit(lsn: nat, rel: Relation, op: Op, pkSrc: Row, before: Option<Row>, after: Option<Row>)
      requires arch.Valid()
      modifies `skipped, `changes, arch
      ensures arch.Valid()
      ensures arch.Value()
        == Record(arch.enc, arch.maxBytes, skipTo, old(arch.Value()), ChangeOf(lsn, rel, op, pkSrc, before, after))
      ensures var c := ChangeOf(lsn, rel, op, pkSrc, before, after);
        && skipped == old(skipped) + (if Replayed(skipTo, c) then 1 else 0)
        && changes == old(changes) + (if !Replayed(skipTo, c) && c.RowChange? then 1 else 0)
    {
      hide Add;
      var pk: Row := map[];
      for i := 0 to |rel.pkCols|
        invariant pk == PkUpto(rel.pkCols, pkSrc, i)
      {
        var c := rel.pkCols[i];
        if c in pkSrc {
          pk := pk[c := pkSrc[c]];
        }
      }
      if |pk| == 0 {
        var seen := IsReplayed(lsn);
        if !seen {
          arch.Append(KeylessGap(lsn, rel.name));
        }
        return;
      }
      var seen := IsReplayed(lsn);
      if seen {
        return;
      }
      changes := changes + 1;
      arch.Append(RowChange(lsn, rel.name, op, pk, before, after));
    }

    /** Truncates are recorded as gaps, whatever the resume point. */
    method HandleTruncate(lsn: nat, ids: seq<nat>)
      requires arch.Valid()
      modifies arch
      ensures arch.Valid()
      ensures arch.Value()
        == Feed(arch.enc, arch.maxBytes, skipTo, old(arch.Value()), TruncateGaps(rels, lsn, ids))
    {
      hide Add, Feed;
      ghost var start := arch.Value();
      FeedNone(arch.enc, arch.maxBytes, skipTo, start);
      for i := 0 to |ids|
        invariant arch.Valid()
        invariant arch.Value() == Feed(arch.enc, arch.maxBytes, skipTo, start, TruncateGaps(rels, lsn, ids[..i]))
      {
        assert ids[..i + 1][..i] == ids[..i];
        if ids[i] in rels {
          var c := TruncateGap(lsn, rels[ids[i]].name);
          FeedSnoc(arch.enc, arch.maxBytes, skipTo, start, TruncateGaps(rels, lsn, ids[..i]), c);
          arch.Append(c);
        } else {
          assert TruncateGaps(rels, lsn, ids[..i + 1]) == TruncateGaps(rels, lsn, ids[..i]);
        }
      }
      assert ids[..|ids|] == ids;
    }

    /** One message of the stream. */
    method Handle(lsn: nat, m: Message) returns (ok: bool)
      requires arch.Valid()
      modifies `rels, `skipped, `changes, arch
      ensures arch.Valid()
      ensures ok == RecordsOf(old(rels), lsn, m).Some?
      ensures arch.Value() == if ok then
          Feed(arch.enc, arch.maxBytes, skipTo, old(arch.Value()), RecordsOf(old(rels), lsn, m).value)
        else old(arch.Value())
      ensures rels == if ok then Described(old(rels), m) else old(rels)
    {
      hide Record, Feed, ChangeOf;
      ok := true;
      ghost var start := arch.Value();
      FeedNone(arch.enc, arch.maxBytes, skipTo, start);
      match m
      case RelationMsg(id, rel) =>
        rels := rels[id := rel];
      case BeginMsg =>
      case InsertMsg(id, next) =>
        if id !in rels {
          return false;
        }
        var row := TupleToMap(rels[id], Some(next), None);
        FeedOne(arch.enc, arch.maxBytes, skipTo, start, ChangeOf(lsn, rels[id], I, row, None, Some(row)));
        Emit(lsn, rels[id], I, row, None, Some(row));
      case UpdateMsg(id, prior, next) =>
        if id !in rels {
          return false;
        }
        var before: Option<Row> := None;
        if prior.Some? {
          var row := TupleToMap(rels[id], prior, None);
          before := Some(row);
        }
        var row := TupleToMap(rels[id], Some(next), before);
        FeedOne(arch.enc, arch.maxBytes, skipTo, start, ChangeOf(lsn, rels[id], U, row, before, Some(row)));
        Emit(lsn, rels[id], U, row, before, Some(row));
      case DeleteMsg(id, prior) =>
        if id !in rels {
          return false;
        }
        var row := TupleToMap(rels[id], prior, None);
        FeedOne(arch.enc, arch.maxBytes, skipTo, start, ChangeOf(lsn, rels[id], D, row, Some(row), None));
        Emit(lsn, rels[id], D, row, Some(row), None);
      case TruncateMsg(ids) =>
        HandleTruncate(lsn, ids);
    }

    /** Rotates, and only then reports what is durable. */
    method Tick(acked: nat) returns (durable: nat)
      requires arch.Valid()
      modifies arch, `told
      ensures arch.Valid() && State(durable) == Rotated(old(State(acked)))
    {
      arch.Rotate();
      durable := acked;
      var resume := arch.ResumeLSN();
      if resume.Some? && resume.value > durable {
        durable := resume.value;
      }
      told := Max(told, durable);
    }

    /** The safety valve: past the ceiling the skipped range is recorded as a gap,
        rotated into the manifest, reported, and only then acknowledged. */
    method Check(confirmed: nat, now: Reading) returns (ok: bool)
      requires arch.Valid()
      modifies arch, `told, `warned
      ensures arch.Valid() && ok == !CheckFails(ceiling, now)
      ensures State(confirmed) == Checked(arch.enc, arch.maxBytes, ceiling, old(State(confirmed)), now)
      ensures ok ==> now.Reading?
      ensures arch.Value() != old(arch.Value()) || told != old(told) ==>
        now.Reading? && ceiling > 0 && now.retained >= ceiling
      ensures now.Reading? && ceiling > 0 && now.retained >= ceiling ==>
        && Skipped(old(arch.Value()), arch.Value(), confirmed, now.current)
        && ok == now.reported && told == (if now.reported then Max(old(told), now.current) else old(told))
      ensures now.Reading? && !(ceiling > 0 && now.retained >= ceiling) ==>
        ok && (warned <==> warnBytes > 0 && now.retained >= warnBytes)
    {
      GapIsManifested(arch.enc, arch.maxBytes, arch.Value(), confirmed, now);
      if now.SlotGone? {
        return false;
      }
      if ceiling > 0 && now.retained >= ceiling {
        arch.Append(SkippedGap(now.current, confirmed, now.current));
        arch.Rotate();
        if !now.reported {
          return false;
        }
        told := Max(told, now.current);
      } else if warnBytes > 0 && now.retained >= warnBytes {
        warned := true;
      } else {
        warned := false;
      }
      return true;
    }

    method OneTurn(acked: nat, t: Turn) returns (acked': nat, ok: bool)
      requires arch.Valid()
      modifies arch, `told, `warned, `rels, `skipped, `changes
      ensures arch.Valid()
      ensures (State(acked'), ok) == AfterTurn(arch.enc, arch.maxBytes, ceiling, skipTo, old(State(acked)), t)
    {
      hide Rotated, Checked, Feed, RecordsOf, Described, CheckFails;
      acked', ok := acked, true;
      if t.due.Some? {
        acked' := Tick(acked);
        ok := Check(acked', t.due.value);
        if !ok {
          return;
        }
      }
      if t.data.Some? {
        ok := Handle(t.data.value.0, t.data.value.1);
      }
    }

    /** The loop, from a start position, over the turns until it is stopped. */
    method Run(start: nat, turns: seq<Turn>) returns (ok: bool, acked: nat)
      requires arch.Valid()
      modifies arch, this
      ensures arch.Valid() && skipTo == Resume(old(arch.Value()))
      ensures (State(acked), ok)
        == AfterTurns(arch.enc, arch.maxBytes, ceiling, Resume(old(arch.Value())), old(State(start)), turns)
    {
      hide AfterTurn;
      skipTo := 0;
      var resume := arch.ResumeLSN();
      if resume.Some? {
        skipTo := resume.value;
      }
      ok, acked := true, start;
      ghost var first := State(start);
      var i := 0;
      while ok && i < |turns|
        invariant i <= |turns| && arch.Valid() && skipTo == Resume(old(arch.Value()))
        invariant AfterTurns(arch.enc, arch.maxBytes, ceiling, skipTo, first, turns)
          == if ok then AfterTurns(arch.enc, arch.maxBytes, ceiling, skipTo, State(acked), turns[i..])
             else (State(acked), false)
      {
        assert turns[i..][1..] == turns[i + 1..];
        acked, ok := OneTurn(acked, turns[i]);
        i := i + 1;
      }
    }
  }

  lemma FeedNone(enc: Encoding, max: nat, skipTo: nat, r: Records)
    ensures Feed(enc, max, skipTo, r, []) == r
  {
  }

  // ---------------------------------------------------------------------
  // The loop refines the protocol
  // ---------------------------------------------------------------------

  /** The protocol state the loop's variables stand for. */
  predicate Stands(st: State, skipTo: nat, l: Loop) {
    st.rec == l.rec && st.skipTo == skipTo && st.acked == l.acked && st.told == l.told
  }

  function DueSteps(ceiling: nat, due: Option<Reading>): seq<Step> {
    if due.None? then []
    else if PastCeiling(ceiling, due.value) then [Tick, Valve(due.value.current, due.value.reported)]
    else [Tick]
  }

  /** The records a turn's message stands for. */
  function Arrived(rels: Relations, t: Turn): seq<Change> {
    if t.data.None? || RecordsOf(rels, t.data.value.0, t.data.value.1).None? then []
    else RecordsOf(rels, t.data.value.0, t.data.value.1).value
  }

  function Learnt(rels: Relations, t: Turn): Relations {
    if t.data.None? then rels else Described(rels, t.data.value.1)
  }

  /** A message about a relation the stream has described, or none. */
  predicate Understood(rels: Relations, t: Turn) {
    t.data.Some? ==> RecordsOf(rels, t.data.value.0, t.data.value.1).Some?
  }

  /** How many records a turn brings: none if its check ends the run. */
  function Count(ceiling: nat, rels: Relations, t: Turn): nat {
    if Fails(ceiling, t) then 0 else |Arrived(rels, t)|
  }

  /** Every turn's check lets the run go on. */
  predicate NoFailure(ceiling: nat, turns: seq<Turn>) {
    forall t | t in turns :: !Fails(ceiling, t)
  }

  function TurnSteps(ceiling: nat, rels: Relations, t: Turn): seq<Step> {
    DueSteps(ceiling, t.due) + Times(Count(ceiling, rels, t))
  }

  function RunSteps(ceiling: nat, rels: Relations, turns: seq<Turn>): seq<Step>
    decreases |turns|
  {
    if turns == [] then []
    else
      TurnSteps(ceiling, rels, turns[0]) +
      if Fails(ceiling, turns[0]) then [] else RunSteps(ceiling, Learnt(rels, turns[0]), turns[1..])
  }

  /** The messages, up to a failing check, carry the stream from index `n` on. */
  predicate Carries(ceiling: nat, stream: seq<Change>, n: nat, rels: Relations, turns: seq<Turn>)
    decreases |turns|
  {
    turns != [] && !Fails(ceiling, turns[0]) ==>
      var cs := Arrived(rels, turns[0]);
      && Understood(rels, turns[0])
      && n + |cs| <= |stream| && stream[n..n + |cs|] == cs
      && Carries(ceiling, stream, n + |cs|, Learnt(rels, turns[0]), turns[1..])
  }

  /** When the valve opens, the server's write position is ahead of all it was told. */
  predicate ValveAhead(ceiling: nat, l: Loop, due: Option<Reading>) {
    due.Some? && PastCeiling(ceiling, due.value) ==> Rotated(l).told <= due.value.current
  }

  predicate ServerAhead(enc: Encoding, max: nat, ceiling: nat, skipTo: nat, l: Loop, turns: seq<Turn>)
    decreases |turns|
  {
    turns != [] ==>
      && ValveAhead(ceiling, l, turns[0].due)
      && ServerAhead(enc, max, ceiling, skipTo, AfterTurn(enc, max, ceiling, skipTo, l, turns[0]).0, turns[1..])
  }

  /** Receiving changes one by one is one delivery step for each. */
  lemma {:induction false} FeedIsDeliveries(
      enc: Encoding, max: nat, stream: seq<Change>, st: State, cs: seq<Change>)
    requires st.next + |cs| <= |stream| && stream[st.next..st.next + |cs|] == cs
    ensures Delivery.Possible(enc, max, stream, st, Times(|cs|))
    ensures var e := End(enc, max, stream, st, Times(|cs|));
      && e.rec == Feed(enc, max, st.skipTo, st.rec, cs) && e.next == st.next + |cs|
      && e.skipTo == st.skipTo && e.acked == st.acked && e.told == st.told
    decreases |cs|
  {
    hide Record, Add;
    if cs != [] {
      var n := |cs| - 1;
      var init := cs[..n];
      assert stream[st.next..st.next + n] == init by {
        assert forall i | 0 <= i < n :: stream[st.next..st.next + |cs|][i] == cs[i];
      }
      FeedIsDeliveries(enc, max, stream, st, init);
      var e := End(enc, max, stream, st, Times(n));
      assert stream[e.next] == cs[n];
      OneStep(enc, max, stream, e, Deliver);
      ExactlyOnce.RunConcat(enc, max, stream, st, Times(n), [Deliver]);
      assert Times(n) + [Deliver] == Times(n + 1);
      DeliverRecords(enc, max, stream, e);
    }
  }

  lemma DeliverRecords(enc: Encoding, max: nat, stream: seq<Change>, st: State)
    requires st.next < |stream|
    ensures Next(enc, max, stream, st, Deliver).rec == Record(enc, max, st.skipTo, st.rec, stream[st.next])
  {
  }

  /** Rotating and acknowledging, and the valve when it opens, are steps the
      protocol allows: nothing is pending then, and what is acknowledged lies
      between the resume point and what the server was told. */
  lemma DueIsSteps(enc: Encoding, max: nat, ceiling: nat, stream: seq<Change>, st: State, l: Loop, due: Option<Reading>)
    requires Stands(st, st.skipTo, l) && ValveAhead(ceiling, l, due)
    ensures Delivery.Possible(enc, max, stream, st, DueSteps(ceiling, due))
    ensures var e := End(enc, max, stream, st, DueSteps(ceiling, due));
      && e.next == st.next && e.skipTo == st.skipTo
      && Stands(e, st.skipTo, if due.Some? then Checked(enc, max, ceiling, Rotated(l), due.value) else l)
  {
    hide Add, Resume;
    if due.Some? {
      OneStep(enc, max, stream, st, Tick);
      var ticked := Next(enc, max, stream, st, Tick);
      if PastCeiling(ceiling, due.value) {
        var valve := Valve(due.value.current, due.value.reported);
        OneStep(enc, max, stream, ticked, valve);
        ExactlyOnce.RunConcat(enc, max, stream, st, [Tick], [valve]);
        assert DueSteps(ceiling, due) == [Tick] + [valve];
      }
    }
  }

  lemma TurnIsSteps(enc: Encoding, max: nat, ceiling: nat, stream: seq<Change>, st: State, l: Loop, t: Turn)
    requires Stands(st, st.skipTo, l) && ValveAhead(ceiling, l, t.due)
    requires Carries(ceiling, stream, st.next, l.rels, [t])
    ensures Delivery.Possible(enc, max, stream, st, TurnSteps(ceiling, l.rels, t))
    ensures var e := End(enc, max, stream, st, TurnSteps(ceiling, l.rels, t));
      var k := Count(ceiling, l.rels, t);
      var (l', ok) := AfterTurn(enc, max, ceiling, st.skipTo, l, t);
      && (ok <==> !Fails(ceiling, t))
      && e.next == st.next + k && e.skipTo == st.skipTo
      && Stands(e, st.skipTo, l') && (ok ==> l'.rels == Learnt(l.rels, t))
  {
    hide RecordsOf, Feed, Rotated, Checked, Close, Add, Next, Allowed, Described, ValveAhead, CheckFails;
    DueIsSteps(enc, max, ceiling, stream, st, l, t.due);
    var due := DueSteps(ceiling, t.due);
    var mid := End(enc, max, stream, st, due);
    if Fails(ceiling, t) {
      assert Times(0) == [] && due + [] == due;
    } else {
      var cs := Arrived(l.rels, t);
      FeedIsDeliveries(enc, max, stream, mid, cs);
      ExactlyOnce.RunConcat(enc, max, stream, st, due, Times(|cs|));
      FeedNone(enc, max, st.skipTo, mid.rec);
      DueKeepsRelations(enc, max, ceiling, l, t.due);
    }
  }

  lemma CarriesFirst(ceiling: nat, stream: seq<Change>, n: nat, rels: Relations, turns: seq<Turn>)
    requires turns != [] && Carries(ceiling, stream, n, rels, turns)
    ensures Carries(ceiling, stream, n, rels, [turns[0]])
    ensures !Fails(ceiling, turns[0]) ==>
      Carries(ceiling, stream, n + Count(ceiling, rels, turns[0]), Learnt(rels, turns[0]), turns[1..])
  {
    hide Arrived, Learnt, Fails, Understood;
    assert [turns[0]][1..] == [];
  }

  lemma DueKeepsRelations(enc: Encoding, max: nat, ceiling: nat, l: Loop, due: Option<Reading>)
    ensures due.Some? ==> Checked(enc, max, ceiling, Rotated(l), due.value).rels == l.rels
  {
  }

  /** Whatever turns the loop goes through, it is a run of the protocol: if the
      messages carry the stream, and the server's position is ahead of what it was
      told whenever the valve opens, then the steps are ones the protocol allows, and the loop ends in the protocol's state; it ends with an
      error exactly if some check failed. */
  lemma {:induction false} LoopIsProtocol(
      enc: Encoding, max: nat, ceiling: nat, stream: seq<Change>, st: State, l: Loop, turns: seq<Turn>)
    requires Stands(st, st.skipTo, l) && Carries(ceiling, stream, st.next, l.rels, turns)
    requires ServerAhead(enc, max, ceiling, st.skipTo, l, turns)
    ensures Delivery.Possible(enc, max, stream, st, RunSteps(ceiling, l.rels, turns))
    ensures var (l', ok) := AfterTurns(enc, max, ceiling, st.skipTo, l, turns);
      && (ok <==> NoFailure(ceiling, turns))
      && Stands(End(enc, max, stream, st, RunSteps(ceiling, l.rels, turns)), st.skipTo, l')
    decreases |turns|
  {
    hide AfterTurn, TurnSteps, Arrived, Learnt, Next, Allowed, ValveAhead, Carries, Fails;
    if turns != [] {
      assert turns == [turns[0]] + turns[1..];
      var first := TurnSteps(ceiling, l.rels, turns[0]);
      CarriesFirst(ceiling, stream, st.next, l.rels, turns);
      TurnIsSteps(enc, max, ceiling, stream, st, l, turns[0]);
      if Fails(ceiling, turns[0]) {
        assert first + [] == first;
      } else {
        var rest := RunSteps(ceiling, Learnt(l.rels, turns[0]), turns[1..]);
        var (l1, ok) := AfterTurn(enc, max, ceiling, st.skipTo, l, turns[0]);
        LoopIsProtocol(enc, max, ceiling, stream, End(enc, max, stream, st, first), l1, turns[1..]);
        ExactlyOnce.RunConcat(enc, max, stream, st, first, rest);
      }
    }
  }
}
