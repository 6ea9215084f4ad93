/** Nothing acknowledged is lost without a gap: the protocol with the safety
    valve, which acknowledges positions whose changes were never archived. */
module SafetyValve {
  import opened Archive
  import opened Delivery
  import opened ExactlyOnce

  /** The change is in a closed segment, or inside a gap range of one. */
  ghost predicate Explained(segs: seq<seq<Change>>, c: Change) {
    c in Flat(segs) || exists g | g in Flat(segs) :: InGap(g, c)
  }

  predicate InGap(g: Change, c: Change) {
    g.SkippedGap? && g.from < c.lsn <= g.to
  }

  /** The records that came from the stream, leaving out the valve's own gaps. */
  function Sent(cs: seq<Change>): (r: seq<Change>)
    ensures forall c :: c in r <==> c in cs && !c.SkippedGap?
  {
    if cs == [] then []
    else
      assert cs == [cs[0]] + cs[1..];
      (if cs[0].SkippedGap? then [] else [cs[0]]) + Sent(cs[1..])
  }

  lemma {:induction false} SentConcat(a: seq<Change>, b: seq<Change>)
    ensures Sent(a + b) == Sent(a) + Sent(b)
  {
    if a == [] {
      assert a + b == b;
    } else {
      assert (a + b)[1..] == a[1..] + b;
      SentConcat(a[1..], b);
    }
  }

  /** A stream the slot delivers: increasing, without truncates, and nothing in it
      but changes after the slot's starting point. */
  ghost predicate GoodStream(stream: seq<Change>, at: nat) {
    && Increasing(stream) && NoTruncates(stream)
    && forall c | c in stream :: c.lsn > at && !c.SkippedGap?
  }

  /** Every change at or below a position is explained. */
  ghost predicate ExplainedUpto(stream: seq<Change>, segs: seq<seq<Change>>, x: nat) {
    forall c | c in stream && c.lsn <= x :: Explained(segs, c)
  }

  predicate InStream(stream: seq<Change>, st: State) {
    st.next <= st.high <= |stream|
  }

  /** Every change the server has sent this companion is recorded or explained. */
  ghost predicate SentAccounted(stream: seq<Change>, st: State)
    requires InStream(stream, st)
  {
    forall c | c in stream[..st.next] :: c in st.rec.pending || Explained(st.rec.segs, c)
  }

  /** Archived changes come from the part of the stream already sent. */
  ghost predicate FromStream(stream: seq<Change>, st: State)
    requires InStream(stream, st)
  {
    && (forall c | c in Sent(All(st.rec)) :: c in stream[..st.high])
    && (forall c | c in st.rec.pending :: c in stream[..st.next])
  }

  /** The next change that the filter lets through is later than all archived. */
  ghost predicate Ahead(stream: seq<Change>, st: State) {
    forall c, i | c in Sent(All(st.rec)) && st.next <= i < |stream| && stream[i].lsn > st.skipTo ::
      c.lsn < stream[i].lsn
  }

  ghost predicate Inv(stream: seq<Change>, st: State) {
    && NoEmpty(st.rec.segs) && InStream(stream, st)
    && ExplainedUpto(stream, st.rec.segs, Resume(st.rec))
    && ExplainedUpto(stream, st.rec.segs, st.skipTo)
    && ExplainedUpto(stream, st.rec.segs, st.told)
    && ExplainedUpto(stream, st.rec.segs, st.acked)
    && SentAccounted(stream, st) && FromStream(stream, st) && Ahead(stream, st)
    && Increasing(Sent(All(st.rec)))
    && (forall c | c in Sent(Flat(st.rec.segs)) :: c.lsn <= Resume(st.rec))
  }

  lemma ExplainedGrows(segs: seq<seq<Change>>, cs: seq<Change>, c: Change)
    requires Explained(segs, c) || c in cs
    ensures Explained(segs + [cs], c)
  {
    FlatSnoc(segs, cs);
    if g :| g in Flat(segs) && InGap(g, c) {
      assert g in Flat(segs + [cs]);
    }
  }

  lemma UptoGrows(stream: seq<Change>, segs: seq<seq<Change>>, cs: seq<Change>, x: nat)
    requires ExplainedUpto(stream, segs, x)
    ensures ExplainedUpto(stream, segs + [cs], x)
  {
    forall c | c in stream && c.lsn <= x ensures Explained(segs + [cs], c) { ExplainedGrows(segs, cs, c); }
  }

  /** Closing the open segment makes the position of its last record one up to
      which everything is explained. */
  lemma ClosedUpto(stream: seq<Change>, at: nat, st: State)
    requires GoodStream(stream, at) && Inv(stream, st) && st.rec.pending != []
    ensures ExplainedUpto(stream, st.rec.segs + [st.rec.pending], st.rec.pending[|st.rec.pending| - 1].lsn)
  {
    hide Explained, GoodStream, Ahead, Increasing;
    var last := st.rec.pending[|st.rec.pending| - 1];
    assert last in st.rec.pending;
    forall c | c in stream && c.lsn <= last.lsn ensures Explained(st.rec.segs + [st.rec.pending], c) {
      BelowIsEarlier(stream, at, c, last, st.next);
      ExplainedGrows(st.rec.segs, st.rec.pending, c);
    }
  }

  lemma CloseAccounted(stream: seq<Change>, st: State)
    requires InStream(stream, st) && SentAccounted(stream, st) && NoEmpty(st.rec.segs)
    ensures SentAccounted(stream, st.(rec := Close(st.rec)))
  {
    hide Explained;
    if st.rec.pending != [] {
      forall c | c in stream[..st.next] ensures Explained(Close(st.rec).segs, c) {
        ExplainedGrows(st.rec.segs, st.rec.pending, c);
      }
    }
  }

  lemma ClosePositions(stream: seq<Change>, at: nat, st: State)
    requires GoodStream(stream, at) && Inv(stream, st)
    ensures var segs := Close(st.rec).segs;
      && ExplainedUpto(stream, segs, Resume(Close(st.rec))) && ExplainedUpto(stream, segs, st.skipTo)
      && ExplainedUpto(stream, segs, st.told) && ExplainedUpto(stream, segs, st.acked)
  {
    hide Explained, ExplainedUpto, GoodStream, Ahead, Increasing, FromStream, SentAccounted;
    CloseKeepsAll(st.rec);
    if st.rec.pending != [] {
      ClosedUpto(stream, at, st);
      UptoGrows(stream, st.rec.segs, st.rec.pending, st.skipTo);
      UptoGrows(stream, st.rec.segs, st.rec.pending, st.told);
      UptoGrows(stream, st.rec.segs, st.rec.pending, st.acked);
    }
  }

  lemma CloseKeepsInv(stream: seq<Change>, at: nat, st: State)
    requires GoodStream(stream, at) && Inv(stream, st)
    ensures Inv(stream, st.(rec := Close(st.rec))) && Close(st.rec).pending == []
  {
    hide Explained, ExplainedUpto, GoodStream, Ahead, Increasing, FromStream, SentAccounted;
    CloseKeepsAll(st.rec);
    ClosePositions(stream, at, st);
    CloseAccounted(stream, st);
    CloseFromStream(stream, st);
    CloseAhead(stream, st);
    if st.rec.pending != [] {
      LastIsGreatest(stream, at, st);
      FlatSnoc(st.rec.segs, st.rec.pending);
    }
  }

  lemma CloseFromStream(stream: seq<Change>, st: State)
    requires InStream(stream, st) && FromStream(stream, st) && NoEmpty(st.rec.segs)
    ensures FromStream(stream, st.(rec := Close(st.rec)))
  {
    CloseKeepsAll(st.rec);
  }

  lemma CloseAhead(stream: seq<Change>, st: State)
    requires Ahead(stream, st) && NoEmpty(st.rec.segs)
    ensures Ahead(stream, st.(rec := Close(st.rec)))
  {
    CloseKeepsAll(st.rec);
  }

  lemma BelowIsEarlier(stream: seq<Change>, at: nat, c: Change, d: Change, n: nat)
    requires GoodStream(stream, at) && n <= |stream| && c in stream && d in stream[..n] && c.lsn <= d.lsn
    ensures c in stream[..n]
  {
    var i :| 0 <= i < |stream| && stream[i] == c;
    var j :| 0 <= j < n && stream[..n][j] == d;
    assert stream[j] == d;
    assert stream[..n][i] == c;
  }

  lemma {:induction false} LastOfIncreasing(cs: seq<Change>, c: Change)
    requires Increasing(cs) && c in cs
    ensures c.lsn <= cs[|cs| - 1].lsn
  {
    var i :| 0 <= i < |cs| && cs[i] == c;
  }

  lemma PendingIsSent(stream: seq<Change>, at: nat, st: State, c: Change)
    requires GoodStream(stream, at) && Inv(stream, st) && c in st.rec.pending
    ensures c in stream && !c.SkippedGap?
  {
    hide ExplainedUpto, Explained, Ahead, Increasing, SentAccounted;
    assert c in stream[..st.next];
  }

  /** The last pending record is the latest of all records sent. */
  lemma LastIsGreatest(stream: seq<Change>, at: nat, st: State)
    requires GoodStream(stream, at) && Inv(stream, st) && st.rec.pending != []
    ensures forall c | c in Sent(All(st.rec)) :: c.lsn <= st.rec.pending[|st.rec.pending| - 1].lsn
  {
    hide ExplainedUpto, Explained, Ahead, SentAccounted, FromStream, GoodStream;
    var p := st.rec.pending;
    PendingIsSent(stream, at, st, p[|p| - 1]);
    LastSentIsGreatest(st.rec);
  }

  lemma SentSnoc(cs: seq<Change>, c: Change)
    requires !c.SkippedGap?
    ensures Sent(cs + [c]) == Sent(cs) + [c]
  {
    SentConcat(cs, [c]);
    assert [c][1..] == [];
  }

  lemma LastSentIsGreatest(r: Records)
    requires r.pending != [] && !r.pending[|r.pending| - 1].SkippedGap? && Increasing(Sent(All(r)))
    ensures forall c | c in Sent(All(r)) :: c.lsn <= r.pending[|r.pending| - 1].lsn
  {
    hide Increasing, Sent, Flat;
    var p := r.pending;
    var last := p[|p| - 1];
    assert p == p[..|p| - 1] + [last];
    var before := Flat(r.segs) + p[..|p| - 1];
    assert All(r) == before + [last];
    SentSnoc(before, last);
    forall c | c in Sent(All(r)) ensures c.lsn <= last.lsn {
      LastOfIncreasing(Sent(All(r)), c);
    }
  }

  // ---------------------------------------------------------------------
  // Delivering
  // ---------------------------------------------------------------------

  /** Recording the next change, before any closing. */
  function WithPending(st: State, c: Change): State {
    st.(rec := Records(st.rec.segs, st.rec.pending + [c]), next := st.next + 1, high := Max(st.high, st.next + 1))
  }

  lemma RecordedOneMore(stream: seq<Change>, at: nat, st: State)
    requires GoodStream(stream, at) && Inv(stream, st) && st.next < |stream|
    requires stream[st.next].lsn > st.skipTo
    ensures var st' := WithPending(st, stream[st.next]);
      && All(st'.rec) == All(st.rec) + [stream[st.next]]
      && Sent(All(st'.rec)) == Sent(All(st.rec)) + [stream[st.next]]
      && Increasing(Sent(All(st'.rec)))
      && (forall c | c in Sent(All(st.rec)) :: c.lsn < stream[st.next].lsn)
  {
    hide ExplainedUpto, Explained, FromStream, SentAccounted;
    var c := stream[st.next];
    assert c in stream && !c.SkippedGap?;
    assert Flat(st.rec.segs) + (st.rec.pending + [c]) == All(st.rec) + [c];
    SentConcat(All(st.rec), [c]);
    assert Sent([c]) == [c];
    forall d | d in Sent(All(st.rec)) ensures d.lsn < c.lsn { }
  }

  lemma PrefixSnoc(stream: seq<Change>, n: nat, high: nat)
    requires n < |stream| && n < high <= |stream|
    ensures stream[..n + 1] == stream[..n] + [stream[n]]
    ensures stream[n] in stream[..high]
    ensures forall h | 0 <= h <= high :: forall c | c in stream[..h] :: c in stream[..high]
  {
    assert stream[..high][n] == stream[n];
    forall h, c | 0 <= h <= high && c in stream[..h] ensures c in stream[..high] {
      var i :| 0 <= i < h && stream[..h][i] == c;
      assert stream[..high][i] == c;
    }
  }

  lemma PrefixGrows(stream: seq<Change>, n: nat, m: nat)
    requires n <= m <= |stream|
    ensures forall c | c in stream[..n] :: c in stream[..m]
  {
    forall c | c in stream[..n] ensures c in stream[..m] {
      var i :| 0 <= i < n && stream[..n][i] == c;
      assert stream[..m][i] == c;
    }
  }

  lemma RecordFromStream(stream: seq<Change>, at: nat, st: State)
    requires GoodStream(stream, at) && Inv(stream, st) && st.next < |stream|
    requires stream[st.next].lsn > st.skipTo
    ensures FromStream(stream, WithPending(st, stream[st.next]))
    ensures SentAccounted(stream, WithPending(st, stream[st.next]))
  {
    hide ExplainedUpto, Explained, Increasing, NoTruncates, Ahead, GoodStream;
    RecordedOneMore(stream, at, st);
    PrefixSnoc(stream, st.next, Max(st.high, st.next + 1));
  }

  lemma RecordAhead(stream: seq<Change>, at: nat, st: State)
    requires GoodStream(stream, at) && Inv(stream, st) && st.next < |stream|
    requires stream[st.next].lsn > st.skipTo
    ensures Ahead(stream, WithPending(st, stream[st.next]))
  {
    hide ExplainedUpto, Explained, Increasing, NoTruncates, FromStream, SentAccounted;
    var st' := WithPending(st, stream[st.next]);
    RecordedOneMore(stream, at, st);
    forall d, i | d in Sent(All(st'.rec)) && st'.next <= i < |stream| && stream[i].lsn > st'.skipTo
      ensures d.lsn < stream[i].lsn
    {
      Rises(stream, st.next, i);
    }
  }

  lemma RecordKeepsInv(stream: seq<Change>, at: nat, st: State)
    requires GoodStream(stream, at) && Inv(stream, st) && st.next < |stream|
    requires stream[st.next].lsn > st.skipTo
    ensures Inv(stream, WithPending(st, stream[st.next]))
  {
    hide ExplainedUpto, Explained, Increasing, NoTruncates, FromStream, SentAccounted, Ahead, Sent;
    RecordedOneMore(stream, at, st);
    RecordFromStream(stream, at, st);
    RecordAhead(stream, at, st);
  }

  lemma Rises(stream: seq<Change>, i: nat, j: nat)
    requires Increasing(stream) && i < j < |stream|
    ensures stream[i].lsn < stream[j].lsn
  {
  }

  lemma DropKeepsInv(stream: seq<Change>, st: State)
    requires Inv(stream, st) && st.next < |stream| && stream[st.next].lsn <= st.skipTo
    ensures Inv(stream, st.(next := st.next + 1, high := Max(st.high, st.next + 1)))
  {
    hide Explained, Increasing;
    var st' := st.(next := st.next + 1, high := Max(st.high, st.next + 1));
    assert stream[st.next] in stream;
    PrefixSnoc(stream, st.next, st'.high);
    assert Explained(st.rec.segs, stream[st.next]);
    assert FromStream(stream, st');
    assert Ahead(stream, st');
  }

  lemma DeliverKeepsInv(enc: Encoding, max: nat, stream: seq<Change>, at: nat, st: State)
    requires GoodStream(stream, at) && Inv(stream, st) && Allowed(stream, st, Deliver)
    ensures Inv(stream, Next(enc, max, stream, st, Deliver))
  {
    hide Inv, Bytes, Increasing;
    var c := stream[st.next];
    assert c in stream && !c.TruncateGap?;
    if Replayed(st.skipTo, c) {
      DropKeepsInv(stream, st);
    } else {
      RecordKeepsInv(stream, at, st);
      CloseKeepsInv(stream, at, WithPending(st, c));
    }
  }

  // ---------------------------------------------------------------------
  // Acknowledging, skipping, restarting
  // ---------------------------------------------------------------------

  lemma PositionsKeepInv(stream: seq<Change>, st: State, acked: nat, told: nat)
    requires Inv(stream, st)
    requires ExplainedUpto(stream, st.rec.segs, acked) && ExplainedUpto(stream, st.rec.segs, told)
    ensures Inv(stream, st.(acked := acked, told := told))
  {
  }

  lemma TickKeepsInv(enc: Encoding, max: nat, stream: seq<Change>, at: nat, st: State)
    requires GoodStream(stream, at) && Inv(stream, st)
    ensures Inv(stream, Next(enc, max, stream, st, Tick))
  {
    hide Explained, ExplainedUpto, GoodStream, SentAccounted, FromStream, Ahead, Increasing;
    CloseKeepsInv(stream, at, st);
    var st1 := st.(rec := Close(st.rec));
    var durable := Max(st.acked, Resume(st1.rec));
    PositionsKeepInv(stream, st1, durable, Max(st.told, durable));
  }

  /** The gap the valve records explains everything up to the new position. */
  lemma GapExplains(stream: seq<Change>, st: State, current: nat)
    requires Inv(stream, st) && st.rec.pending == [] && st.acked <= current
    ensures ExplainedUpto(stream, st.rec.segs + [[SkippedGap(current, st.acked, current)]], current)
  {
    var g := SkippedGap(current, st.acked, current);
    FlatSnoc(st.rec.segs, [g]);
    forall c | c in stream && c.lsn <= current ensures Explained(st.rec.segs + [[g]], c) {
      if c.lsn <= st.acked {
        ExplainedGrows(st.rec.segs, [g], c);
      } else {
        assert g in Flat(st.rec.segs + [[g]]) && InGap(g, c);
      }
    }
  }

  lemma AddThenClose(enc: Encoding, max: nat, r: Records, c: Change)
    requires r.pending == []
    ensures Close(Add(enc, max, r, c)) == Records(r.segs + [[c]], [])
  {
    assert [] + [c] == [c];
  }

  /** The valve's segment of one gap adds no sent record. */
  lemma GapIsNotSent(segs: seq<seq<Change>>, g: Change)
    requires g.SkippedGap?
    ensures Sent(All(Records(segs + [[g]], []))) == Sent(Flat(segs)) == Sent(Flat(segs + [[g]]))
  {
    FlatSnoc(segs, [g]);
    SentConcat(Flat(segs), [g]);
    assert Sent([g]) == [];
    assert Flat(segs + [[g]]) + [] == Flat(segs + [[g]]);
    assert Sent(Flat(segs)) + [] == Sent(Flat(segs));
  }

  lemma ValveAccounted(stream: seq<Change>, st: State, g: Change)
    requires InStream(stream, st) && SentAccounted(stream, st) && st.rec.pending == []
    ensures SentAccounted(stream, st.(rec := Records(st.rec.segs + [[g]], [])))
  {
    hide Explained;
    forall c | c in stream[..st.next] ensures Explained(st.rec.segs + [[g]], c) { ExplainedGrows(st.rec.segs, [g], c); }
  }

  lemma SameSentKeeps(stream: seq<Change>, st: State, rec: Records)
    requires InStream(stream, st) && FromStream(stream, st) && Ahead(stream, st)
    requires Sent(All(rec)) == Sent(All(st.rec)) && rec.pending == []
    ensures FromStream(stream, st.(rec := rec)) && Ahead(stream, st.(rec := rec))
  {
    hide Sent, All;
  }

  lemma ValveSegmentKeepsInv(stream: seq<Change>, st: State, current: nat)
    requires Inv(stream, st) && st.rec.pending == [] && Resume(st.rec) <= st.acked <= current
    ensures Inv(stream, st.(rec := Records(st.rec.segs + [[SkippedGap(current, st.acked, current)]], [])))
  {
    hide Explained, Increasing, ExplainedUpto, SentAccounted, FromStream, Ahead, Sent, Flat;
    var g := SkippedGap(current, st.acked, current);
    var rec := Records(st.rec.segs + [[g]], []);
    var st1 := st.(rec := rec);
    assert All(st.rec) == Flat(st.rec.segs);
    GapIsNotSent(st.rec.segs, g);
    SameSentKeeps(stream, st, rec);
    GapExplains(stream, st, current);
    UptoGrows(stream, st.rec.segs, [g], st.skipTo);
    UptoGrows(stream, st.rec.segs, [g], st.told);
    UptoGrows(stream, st.rec.segs, [g], st.acked);
    assert Resume(rec) == current;
    ValveAccounted(stream, st, g);
  }

  lemma ValveKeepsInv(enc: Encoding, max: nat, stream: seq<Change>, at: nat, st: State, s: Step)
    requires GoodStream(stream, at) && Inv(stream, st) && s.Valve? && Allowed(stream, st, s)
    ensures Inv(stream, Next(enc, max, stream, st, s))
  {
    hide Explained, ExplainedUpto, GoodStream, Increasing, Add, Close, Ahead, FromStream, SentAccounted, Flat, Sent, NoEmpty;
    var g := SkippedGap(s.current, st.acked, s.current);
    AddThenClose(enc, max, st.rec, g);
    ValveSegmentKeepsInv(stream, st, s.current);
    GapExplains(stream, st, s.current);
    var st1 := st.(rec := Records(st.rec.segs + [[g]], []));
    PositionsKeepInv(stream, st1, st.acked, if s.ack then Max(st.told, s.current) else st.told);
  }

  lemma RestartKeepsInv(enc: Encoding, max: nat, stream: seq<Change>, at: nat, st: State, s: Step)
    requires GoodStream(stream, at) && Inv(stream, st) && s.Restart? && Allowed(stream, st, s)
    ensures Inv(stream, Next(enc, max, stream, st, s))
  {
    hide Explained, Increasing, ExplainedUpto, SentAccounted, FromStream, Ahead, Flat, Sent, NoEmpty, Resume;
    var st' := Next(enc, max, stream, st, s);
    assert All(st'.rec) == Flat(st.rec.segs);
    SentConcat(Flat(st.rec.segs), st.rec.pending);
    RestartedAccounted(stream, st, st', s);
    PrefixIncreasing(Sent(Flat(st.rec.segs)), Sent(st.rec.pending));
    RestartedSent(stream, st, st', s);
  }

  /** What the server skips by beginning later is explained already. */
  lemma RestartedAccounted(stream: seq<Change>, st: State, st': State, s: Step)
    requires s.Restart? && Allowed(stream, st, s) && InStream(stream, st) && InStream(stream, st')
    requires st'.rec == Records(st.rec.segs, []) && st'.next == s.from && st'.acked == Max(s.confirmed, Resume(st.rec))
    requires ExplainedUpto(stream, st.rec.segs, Resume(st.rec)) && ExplainedUpto(stream, st.rec.segs, st.told)
    ensures ExplainedUpto(stream, st'.rec.segs, st'.acked) && SentAccounted(stream, st')
    ensures Resume(st'.rec) == Resume(st.rec)
  {
    hide Explained;
    forall c | c in stream[..s.from] ensures Explained(st.rec.segs, c) {
      var i :| 0 <= i < s.from && stream[..s.from][i] == c;
      assert stream[i] in stream;
    }
  }

  lemma RestartedSent(stream: seq<Change>, st: State, st': State, s: Step)
    requires s.Restart? && InStream(stream, st) && InStream(stream, st') && FromStream(stream, st)
    requires Sent(All(st.rec)) == Sent(Flat(st.rec.segs)) + Sent(st.rec.pending)
    requires Increasing(Sent(All(st.rec))) && All(st'.rec) == Flat(st.rec.segs) && st'.rec.pending == []
    requires st'.skipTo == Resume(st.rec) && st.high <= st'.high
    requires forall c | c in Sent(Flat(st.rec.segs)) :: c.lsn <= Resume(st.rec)
    ensures FromStream(stream, st') && Ahead(stream, st')
  {
    hide Sent, Flat, All, Increasing, Resume;
    PrefixGrows(stream, st.high, st'.high);
  }

  lemma PrefixIncreasing(a: seq<Change>, b: seq<Change>)
    requires Increasing(a + b)
    ensures Increasing(a)
  {
    forall i, j | 0 <= i < j < |a| ensures a[i].lsn < a[j].lsn { assert (a + b)[i].lsn < (a + b)[j].lsn; }
  }

  // ---------------------------------------------------------------------
  // Whole runs
  // ---------------------------------------------------------------------

  /** A tick leaves the state the safety valve is checked in. */
  lemma ValveFollowsTick(enc: Encoding, max: nat, stream: seq<Change>, st: State)
    requires NoEmpty(st.rec.segs)
    ensures var t := Next(enc, max, stream, st, Tick);
      t.rec.pending == [] && Resume(t.rec) <= t.acked <= t.told
  {
    CloseKeepsAll(st.rec);
  }

  lemma StepKeepsInv(enc: Encoding, max: nat, stream: seq<Change>, at: nat, st: State, s: Step)
    requires GoodStream(stream, at) && Inv(stream, st) && Allowed(stream, st, s)
    ensures Inv(stream, Next(enc, max, stream, st, s))
  {
    hide Inv, Add, Close, GoodStream;
    match s
    case Deliver => DeliverKeepsInv(enc, max, stream, at, st);
    case Tick => TickKeepsInv(enc, max, stream, at, st);
    case Stop => CloseKeepsInv(stream, at, st);
    case Valve(_, _) => ValveKeepsInv(enc, max, stream, at, st, s);
    case Restart(_, _) => RestartKeepsInv(enc, max, stream, at, st, s);
  }

  lemma InitInv(stream: seq<Change>, at: nat)
    requires GoodStream(stream, at)
    ensures Inv(stream, Init(at))
  {
  }

  lemma {:induction false} RunKeepsInv(
      enc: Encoding, max: nat, stream: seq<Change>, at: nat, st: State, steps: seq<Step>)
    requires GoodStream(stream, at) && Inv(stream, st) && Possible(enc, max, stream, st, steps)
    ensures Inv(stream, End(enc, max, stream, st, steps))
    decreases |steps|
  {
    hide Inv, GoodStream, Allowed, Next;
    if steps != [] {
      StepKeepsInv(enc, max, stream, at, st, steps[0]);
      RunKeepsInv(enc, max, stream, at, Next(enc, max, stream, st, steps[0]), steps[1..]);
    }
  }

  /** In every reachable state, with the safety valve and any crashes: a change at
      or below any position the server was ever told is in a closed segment or
      inside a recorded gap, and the changes archived strictly increase, so none
      is archived twice. */
  lemma AcknowledgedIsExplained(enc: Encoding, max: nat, stream: seq<Change>, at: nat, steps: seq<Step>)
    requires GoodStream(stream, at) && Possible(enc, max, stream, Init(at), steps)
    ensures var end := End(enc, max, stream, Init(at), steps);
      && (forall c | c in stream && c.lsn <= end.told :: Explained(end.rec.segs, c))
      && Increasing(Sent(Flat(end.rec.segs)))
      && (forall c | c in Sent(Flat(end.rec.segs)) :: c in stream)
  {
    InitInv(stream, at);
    RunKeepsInv(enc, max, stream, at, Init(at), steps);
    var end := End(enc, max, stream, Init(at), steps);
    SentConcat(Flat(end.rec.segs), end.rec.pending);
    PrefixIncreasing(Sent(Flat(end.rec.segs)), Sent(end.rec.pending));
    assert ExplainedUpto(stream, end.rec.segs, end.told);
  }
}
