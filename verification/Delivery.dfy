/** The delivery protocol: the server streams changes, the companion records,
    rotates and acknowledges them, dies, and resumes. */
module Delivery {
  import opened Archive

  /** The companion and the server's view of it.  `skipTo` is the resume point
      read at startup, `acked` the position the loop last reported, `told` the
      furthest position the server was ever told, `next` the index of the change
      the server sends next, and `high` the furthest index it ever reached. */
  datatype State = State(rec: Records, skipTo: nat, acked: nat, told: nat, next: nat, high: nat)

  datatype Step =
    | Deliver
    | Tick                            // rotate, then report what is durable
    | Stop                            // a clean shutdown closes the segment
    | Valve(current: nat, ack: bool)  // the slot is advanced past the backlog
    | Restart(from: nat, confirmed: nat)

  function Max(a: nat, b: nat): nat {
    if a < b then b else a
  }

  function Flat(segs: seq<seq<Change>>): seq<Change> {
    if segs == [] then [] else Flat(segs[..|segs| - 1]) + segs[|segs| - 1]
  }

  function All(r: Records): seq<Change> {
    Flat(r.segs) + r.pending
  }

  /** The resume point, zero while nothing is in the manifest. */
  function Resume(r: Records): nat {
    if r.segs == [] then 0 else Last(r.segs)
  }

  /** Truncate records bypass the replay filter. */
  predicate Replayed(skipTo: nat, c: Change) {
    skipTo != 0 && c.lsn <= skipTo && !c.TruncateGap?
  }

  predicate Allowed(stream: seq<Change>, st: State, s: Step) {
    match s
    case Deliver => st.next < |stream|
    case Tick => true
    case Stop => true
    case Valve(current, ack) =>
      // Checked right after a tick; the server's write position is ahead of
      // everything it was told.
      st.rec.pending == [] && Resume(st.rec) <= st.acked <= st.told <= current
    case Restart(from, confirmed) =>
      // The server may begin anywhere at or before the requested point, and may
      // have lost track of some of what it was told.
      && confirmed <= st.told && from <= |stream|
      && forall i | 0 <= i < from :: stream[i].lsn <= Max(confirmed, Resume(st.rec))
  }

  function Next(enc: Encoding, max: nat, stream: seq<Change>, st: State, s: Step): State
    requires Allowed(stream, st, s)
  {
    match s
    case Deliver =>
      var c := stream[st.next];
      var rec := if Replayed(st.skipTo, c) then st.rec else Add(enc, max, st.rec, c);
      st.(rec := rec, next := st.next + 1, high := Max(st.high, st.next + 1))
    case Tick =>
      var rec := Close(st.rec);
      var durable := Max(st.acked, Resume(rec));
      st.(rec := rec, acked := durable, told := Max(st.told, durable))
    case Stop =>
      st.(rec := Close(st.rec))
    case Valve(current, ack) =>
      var rec := Close(Add(enc, max, st.rec, SkippedGap(current, st.acked, current)));
      st.(rec := rec, told := if ack then Max(st.told, current) else st.told)
    case Restart(from, confirmed) =>
      var start := Max(confirmed, Resume(st.rec));
      State(Records(st.rec.segs, []), Resume(st.rec), start, st.told, from, Max(st.high, from))
  }

  predicate Possible(enc: Encoding, max: nat, stream: seq<Change>, st: State, steps: seq<Step>)
    decreases |steps|
  {
    steps != [] ==>
      Allowed(stream, st, steps[0]) && Possible(enc, max, stream, Next(enc, max, stream, st, steps[0]), steps[1..])
  }

  function End(enc: Encoding, max: nat, stream: seq<Change>, st: State, steps: seq<Step>): State
    requires Possible(enc, max, stream, st, steps)
    decreases |steps|
  {
    if steps == [] then st else End(enc, max, stream, Next(enc, max, stream, st, steps[0]), steps[1..])
  }

  /** A slot created at `at`, with an empty archive. */
  function Init(at: nat): State {
    State(Records([], []), 0, at, at, 0, 0)
  }

  // ---------------------------------------------------------------------
  // Records
  // ---------------------------------------------------------------------

  ghost predicate NoEmpty(segs: seq<seq<Change>>) {
    forall s | s in segs :: s != []
  }

  lemma FlatSnoc(segs: seq<seq<Change>>, cs: seq<Change>)
    ensures Flat(segs + [cs]) == Flat(segs) + cs
  {
    assert (segs + [cs])[..|segs|] == segs;
  }

  lemma CloseKeepsAll(r: Records)
    requires NoEmpty(r.segs)
    ensures All(Close(r)) == All(r) && NoEmpty(Close(r).segs) && Close(r).pending == []
    ensures r.pending != [] ==> Resume(Close(r)) == r.pending[|r.pending| - 1].lsn
    ensures r.pending == [] ==> Close(r) == r
  {
    FlatSnoc(r.segs, r.pending);
  }

  lemma AddAppends(enc: Encoding, max: nat, r: Records, c: Change)
    requires NoEmpty(r.segs)
    ensures var a := Add(enc, max, r, c);
      && All(a) == All(r) + [c] && NoEmpty(a.segs)
      && (a.segs == r.segs || (a.pending == [] && Resume(a) == c.lsn && Flat(a.segs) == All(r) + [c]))
  {
    hide Bytes;
    var open := Records(r.segs, r.pending + [c]);
    assert Flat(r.segs) + (r.pending + [c]) == All(r) + [c];
    CloseKeepsAll(open);
  }

  lemma ResumeIsLast(r: Records)
    requires NoEmpty(r.segs)
    ensures r.segs == [] ==> Flat(r.segs) == []
    ensures r.segs != [] ==> Flat(r.segs) != [] && Flat(r.segs)[|Flat(r.segs)| - 1].lsn == Resume(r)
  {
    if r.segs != [] {
      var s := r.segs[|r.segs| - 1];
      assert s in r.segs;
    }
  }
}
