/** Exactly-once archiving: when the archive is precisely a prefix of the change
    stream, whatever crashes and restarts happen. */
module ExactlyOnce {
  import opened Archive
  import opened Delivery

  ghost predicate Increasing(stream: seq<Change>) {
    forall i, j | 0 <= i < j < |stream| :: stream[i].lsn < stream[j].lsn
  }

  ghost predicate NoTruncates(stream: seq<Change>) {
    forall c | c in stream :: !c.TruncateGap?
  }

  ghost predicate NoValve(steps: seq<Step>) {
    forall s | s in steps :: !s.Valve?
  }

  /** Everything recorded is the stream up to some point: nothing sent is
      missing, nothing is recorded that was not sent, no duplicate, in order. */
  ghost predicate ExactPrefix(stream: seq<Change>, st: State) {
    var n := |All(st.rec)|;
    st.next <= n <= st.high <= |stream| && All(st.rec) == stream[..n]
  }

  /** How many leading changes lie at or below a position. */
  function Upto(stream: seq<Change>, x: nat): (n: nat)
    ensures n <= |stream|
    ensures forall i | 0 <= i < n :: stream[i].lsn <= x
    ensures n < |stream| ==> stream[n].lsn > x
  {
    if stream == [] || stream[0].lsn > x then 0 else 1 + Upto(stream[1..], x)
  }

  lemma UptoOfLast(stream: seq<Change>, n: nat)
    requires Increasing(stream) && 0 < n <= |stream|
    ensures Upto(stream, stream[n - 1].lsn) == n
  {
  }

  ghost predicate Inv(stream: seq<Change>, at: nat, st: State) {
    var k := if st.skipTo == 0 then 0 else Upto(stream, st.skipTo);
    var n := |All(st.rec)|;
    && NoEmpty(st.rec.segs)
    && n == Max(k, st.next) <= st.high <= |stream|
    && All(st.rec) == stream[..n]
    && k <= |Flat(st.rec.segs)|
    && st.told <= Max(at, Resume(st.rec)) && st.acked <= Max(at, Resume(st.rec))
  }

  lemma InitInv(stream: seq<Change>, at: nat)
    ensures Inv(stream, at, Init(at))
  {
  }

  lemma DeliverKeepsInv(enc: Encoding, max: nat, stream: seq<Change>, at: nat, st: State)
    requires Increasing(stream) && NoTruncates(stream)
    requires Inv(stream, at, st) && Allowed(stream, st, Deliver)
    ensures Inv(stream, at, Next(enc, max, stream, st, Deliver))
  {
    hide Add;
    var c := stream[st.next];
    assert c in stream;
    var k := if st.skipTo == 0 then 0 else Upto(stream, st.skipTo);
    assert st.next < k <==> Replayed(st.skipTo, c);
    if st.next >= k {
      AddAppends(enc, max, st.rec, c);
      assert stream[..st.next] + [c] == stream[..st.next + 1];
      ResumeGrows(enc, max, stream, st.rec, c, st.next);
    }
  }

  /** Recording the next change never moves the resume point back. */
  lemma ResumeGrows(enc: Encoding, max: nat, stream: seq<Change>, r: Records, c: Change, n: nat)
    requires Increasing(stream) && NoEmpty(r.segs) && n < |stream| && c == stream[n] && All(r) == stream[..n]
    ensures Resume(r) <= Resume(Add(enc, max, r, c))
    ensures |Flat(r.segs)| <= |Flat(Add(enc, max, r, c).segs)|
  {
    hide Bytes;
    AddAppends(enc, max, r, c);
    ResumeIsLast(r);
    if r.segs != [] {
      var m := |Flat(r.segs)|;
      assert All(r)[m - 1] == Flat(r.segs)[m - 1] == stream[m - 1];
    }
  }

  lemma CloseKeepsInv(stream: seq<Change>, at: nat, st: State)
    requires Increasing(stream) && Inv(stream, at, st)
    ensures Inv(stream, at, st.(rec := Close(st.rec))) && Resume(st.rec) <= Resume(Close(st.rec))
    ensures |Flat(st.rec.segs)| <= |Flat(Close(st.rec).segs)|
  {
    var r := st.rec;
    CloseKeepsAll(r);
    ResumeIsLast(r);
    if r.pending != [] && r.segs != [] {
      var m, n := |Flat(r.segs)|, |All(r)|;
      assert All(r)[m - 1] == Flat(r.segs)[m - 1] == stream[m - 1];
      assert All(r)[n - 1] == r.pending[|r.pending| - 1] == stream[n - 1];
    }
  }

  /** What is manifested is the stream up to the resume point. */
  lemma ManifestedUpto(stream: seq<Change>, at: nat, st: State)
    requires Increasing(stream) && Inv(stream, at, st)
    ensures var m := |Flat(st.rec.segs)|;
      && m <= |stream| && Flat(st.rec.segs) == stream[..m]
      && (m == 0 ==> Resume(st.rec) == 0)
      && (m > 0 ==> Resume(st.rec) == stream[m - 1].lsn && Upto(stream, Resume(st.rec)) == m)
  {
    hide Increasing, Upto;
    var m := |Flat(st.rec.segs)|;
    assert Flat(st.rec.segs) == All(st.rec)[..m] == stream[..m];
    ResumeIsLast(st.rec);
    if m > 0 {
      UptoOfLast(stream, m);
    }
  }

  lemma RestartKeepsInv(enc: Encoding, max: nat, stream: seq<Change>, at: nat, st: State, s: Step)
    requires Increasing(stream) && (forall c | c in stream :: c.lsn > at)
    requires Inv(stream, at, st) && s.Restart? && Allowed(stream, st, s)
    ensures Inv(stream, at, Next(enc, max, stream, st, s))
  {
    hide Increasing, Upto;
    ManifestedUpto(stream, at, st);
    var m := |Flat(st.rec.segs)|;
    assert Flat(st.rec.segs) + [] == Flat(st.rec.segs);
    if m < |stream| {
      assert stream[m] in stream && stream[m].lsn > Max(s.confirmed, Resume(st.rec));
    }
    if m > 0 {
      assert stream[m - 1] in stream;
    }
  }

  lemma StepKeepsInv(enc: Encoding, max: nat, stream: seq<Change>, at: nat, st: State, s: Step)
    requires Increasing(stream) && NoTruncates(stream) && (forall c | c in stream :: c.lsn > at)
    requires Inv(stream, at, st) && Allowed(stream, st, s) && !s.Valve?
    ensures Inv(stream, at, Next(enc, max, stream, st, s))
  {
    match s
    case Deliver => DeliverKeepsInv(enc, max, stream, at, st);
    case Tick => CloseKeepsInv(stream, at, st);
    case Stop => CloseKeepsInv(stream, at, st);
    case Restart(_, _) => RestartKeepsInv(enc, max, stream, at, st, s);
  }

  lemma {:induction false} RunKeepsInv(
      enc: Encoding, max: nat, stream: seq<Change>, at: nat, st: State, steps: seq<Step>)
    requires Increasing(stream) && NoTruncates(stream) && (forall c | c in stream :: c.lsn > at)
    requires Inv(stream, at, st) && Possible(enc, max, stream, st, steps) && NoValve(steps)
    ensures Inv(stream, at, End(enc, max, stream, st, steps))
    decreases |steps|
  {
    if steps != [] {
      assert steps[0] in steps;
      StepKeepsInv(enc, max, stream, at, st, steps[0]);
      RunKeepsInv(enc, max, stream, at, Next(enc, max, stream, st, steps[0]), steps[1..]);
    }
  }

  // ---------------------------------------------------------------------
  // When it is not exactly once
  // ---------------------------------------------------------------------

  function Times(n: nat): (steps: seq<Step>)
    ensures |steps| == n && forall s | s in steps :: s == Deliver
  {
    seq(n, i => Deliver)
  }

  lemma {:induction false} RunConcat(
      enc: Encoding, max: nat, stream: seq<Change>, st: State, a: seq<Step>, b: seq<Step>)
    requires Possible(enc, max, stream, st, a) && Possible(enc, max, stream, End(enc, max, stream, st, a), b)
    ensures Possible(enc, max, stream, st, a + b)
    ensures End(enc, max, stream, st, a + b) == End(enc, max, stream, End(enc, max, stream, st, a), b)
    decreases |a|
  {
    if a == [] {
      assert a + b == b;
    } else {
      assert (a + b)[0] == a[0] && (a + b)[1..] == a[1..] + b;
      RunConcat(enc, max, stream, Next(enc, max, stream, st, a[0]), a[1..], b);
    }
  }

  /** Sending `n` changes while nothing is filtered records exactly them. */
  lemma {:induction false} FreshDeliveries(enc: Encoding, max: nat, stream: seq<Change>, st: State, n: nat)
    requires st.next + n <= |stream| && st.skipTo == 0 && NoEmpty(st.rec.segs)
    ensures Possible(enc, max, stream, st, Times(n))
    ensures var e := End(enc, max, stream, st, Times(n));
      && e.skipTo == 0 && e.next == st.next + n && NoEmpty(e.rec.segs) && e.told == st.told
      && All(e.rec) == All(st.rec) + stream[st.next..st.next + n] && e.high == Max(st.high, if n == 0 then 0 else st.next + n)
    decreases n
  {
    hide Add;
    if n > 0 {
      var c := stream[st.next];
      var s1 := Next(enc, max, stream, st, Deliver);
      assert Times(n)[0] == Deliver && Times(n)[1..] == Times(n - 1);
      AddAppends(enc, max, st.rec, c);
      FreshDeliveries(enc, max, stream, s1, n - 1);
      assert [c] + stream[st.next + 1..st.next + n] == stream[st.next..st.next + n];
    }
  }

  /** Sending changes again never takes a record away; a truncate always adds
      one, and a change at or below the filter never does. */
  lemma {:induction false} Redeliveries(enc: Encoding, max: nat, stream: seq<Change>, st: State, n: nat)
    requires st.next + n <= |stream| && NoEmpty(st.rec.segs)
    ensures Possible(enc, max, stream, st, Times(n))
    ensures var e := End(enc, max, stream, st, Times(n));
      && e.skipTo == st.skipTo && e.next == st.next + n && NoEmpty(e.rec.segs)
      && |All(e.rec)| >= |All(st.rec)| && e.high == Max(st.high, if n == 0 then 0 else st.next + n)
      && ((exists i | st.next <= i < st.next + n :: stream[i].TruncateGap?) ==> |All(e.rec)| > |All(st.rec)|)
      && ((forall i | st.next <= i < st.next + n :: Replayed(st.skipTo, stream[i])) ==> e.rec == st.rec)
    decreases n
  {
    hide Add;
    if n > 0 {
      var c := stream[st.next];
      var s1 := Next(enc, max, stream, st, Deliver);
      assert Times(n)[0] == Deliver && Times(n)[1..] == Times(n - 1);
      AddAppends(enc, max, st.rec, c);
      Redeliveries(enc, max, stream, s1, n - 1);
    }
  }

  /** Archive the first `n` changes, crash, and have the server begin again. */
  function Again(n: nat, m: nat, at: nat): seq<Step> {
    Times(n) + [Tick] + [Restart(0, at)] + Times(m)
  }

  lemma OneStep(enc: Encoding, max: nat, stream: seq<Change>, st: State, s: Step)
    requires Allowed(stream, st, s)
    ensures Possible(enc, max, stream, st, [s]) && End(enc, max, stream, st, [s]) == Next(enc, max, stream, st, s)
  {
    assert [s][1..] == [];
  }

  lemma AgainEnds(enc: Encoding, max: nat, stream: seq<Change>, at: nat, n: nat, m: nat)
    requires 0 < n <= |stream| && m <= |stream| && stream[n - 1].lsn > 0
    ensures Possible(enc, max, stream, Init(at), Again(n, m, at)) && NoValve(Again(n, m, at))
    ensures var e := End(enc, max, stream, Init(at), Again(n, m, at));
      && e.next == m && e.high == Max(n, m) && |All(e.rec)| >= n
      && ((exists i | 0 <= i < m :: stream[i].TruncateGap?) ==> |All(e.rec)| > n)
      && ((forall i | 0 <= i < m :: Replayed(stream[n - 1].lsn, stream[i])) ==> All(e.rec) == stream[..n])
  {
    hide Close, Add, Possible;
    var a := Times(n);
    FreshDeliveries(enc, max, stream, Init(at), n);
    var s1 := End(enc, max, stream, Init(at), a);
    OneStep(enc, max, stream, s1, Tick);
    var s2 := Next(enc, max, stream, s1, Tick);
    CloseKeepsAll(s1.rec);
    ResumeIsLast(s2.rec);
    assert Flat(s2.rec.segs) + [] == Flat(s2.rec.segs);
    RunConcat(enc, max, stream, Init(at), a, [Tick]);
    OneStep(enc, max, stream, s2, Restart(0, at));
    var s3 := Next(enc, max, stream, s2, Restart(0, at));
    RunConcat(enc, max, stream, Init(at), a + [Tick], [Restart(0, at)]);
    Redeliveries(enc, max, stream, s3, m);
    RunConcat(enc, max, stream, Init(at), a + [Tick] + [Restart(0, at)], Times(m));
  }

  lemma OutOfOrderAtEnd(stream: seq<Change>)
    requires stream != [] && Increasing(stream[..|stream| - 1]) && !Increasing(stream)
    ensures |stream| > 1 && stream[|stream| - 1].lsn <= stream[|stream| - 2].lsn
  {
    var n := |stream| - 1;
    forall i, j | 0 <= i < j < n ensures stream[i].lsn < stream[j].lsn {
      assert stream[..n][i].lsn < stream[..n][j].lsn;
    }
    var a, b :| 0 <= a < b < |stream| && stream[a].lsn >= stream[b].lsn;
  }

  /** The first place where a stream is out of order or holds a truncate. */
  lemma {:induction false} FirstFault(stream: seq<Change>) returns (j: nat)
    requires !(Increasing(stream) && NoTruncates(stream))
    ensures j < |stream| && Increasing(stream[..j]) && NoTruncates(stream[..j])
    ensures stream[j].TruncateGap? || (j > 0 && stream[j].lsn <= stream[j - 1].lsn)
    decreases |stream|
  {
    var n := |stream| - 1;
    var init := stream[..n];
    assert stream == init + stream[n..];
    if Increasing(init) && NoTruncates(init) {
      j := n;
      if !stream[n].TruncateGap? {
        assert NoTruncates(stream);
        OutOfOrderAtEnd(stream);
      }
    } else {
      j := FirstFault(init);
      assert init[..j] == stream[..j];
    }
  }

  lemma FaultBreaksExactPrefix(enc: Encoding, max: nat, stream: seq<Change>, at: nat) returns (steps: seq<Step>)
    requires forall c | c in stream :: c.lsn > at
    requires !(Increasing(stream) && NoTruncates(stream))
    ensures Possible(enc, max, stream, Init(at), steps) && NoValve(steps)
    ensures !ExactPrefix(stream, End(enc, max, stream, Init(at), steps))
  {
    var j := FirstFault(stream);
    assert forall i | 0 <= i < j :: stream[..j][i] == stream[i];
    if stream[j].TruncateGap? {
      assert stream[j] in stream;
      steps := Again(j + 1, j + 1, at);
      AgainEnds(enc, max, stream, at, j + 1, j + 1);
    } else {
      assert stream[j - 1] in stream;
      steps := Again(j, j + 1, at);
      forall i | 0 <= i < j + 1 ensures Replayed(stream[j - 1].lsn, stream[i]) {
        if i < j { assert stream[..j][i] in stream[..j]; }
      }
      AgainEnds(enc, max, stream, at, j, j + 1);
    }
  }

  /** Exactly once, exactly when: in every reachable state, through any number of
      crashes and restarts, the records are the stream so far, if and only if the
      stream's LSNs strictly increase and it holds no truncate. */
  lemma ExactlyOnceIff(enc: Encoding, max: nat, stream: seq<Change>, at: nat)
    requires forall c | c in stream :: c.lsn > at
    ensures (forall steps | Possible(enc, max, stream, Init(at), steps) && NoValve(steps) ::
               ExactPrefix(stream, End(enc, max, stream, Init(at), steps)))
      <==> Increasing(stream) && NoTruncates(stream)
  {
    if Increasing(stream) && NoTruncates(stream) {
      forall steps | Possible(enc, max, stream, Init(at), steps) && NoValve(steps)
        ensures ExactPrefix(stream, End(enc, max, stream, Init(at), steps))
      {
        InitInv(stream, at);
        RunKeepsInv(enc, max, stream, at, Init(at), steps);
      }
    } else {
      var steps := FaultBreaksExactPrefix(enc, max, stream, at);
    }
  }

  ghost predicate Distinct(stream: seq<Change>) {
    forall i, j | 0 <= i < j < |stream| :: stream[i] != stream[j]
  }

  ghost predicate SentIsRecorded(stream: seq<Change>, st: State) {
    forall i | 0 <= i < st.next && i < |stream| :: stream[i] in All(st.rec)
  }

  /** Out of order, a change can be dropped as already archived when it never was. */
  lemma FilterDropsUnarchived(enc: Encoding, max: nat, stream: seq<Change>, at: nat) returns (steps: seq<Step>, j: nat)
    requires forall c | c in stream :: c.lsn > at
    requires NoTruncates(stream) && !Increasing(stream)
    requires Distinct(stream)
    ensures Possible(enc, max, stream, Init(at), steps) && NoValve(steps)
    ensures var e := End(enc, max, stream, Init(at), steps);
      j < |stream| && e.next == j + 1 && stream[j] !in All(e.rec)
  {
    j := FirstFault(stream);
    assert stream[j] in stream && stream[j - 1] in stream;
    steps := Again(j, j + 1, at);
    forall i | 0 <= i < j + 1 ensures Replayed(stream[j - 1].lsn, stream[i]) {
      assert stream[i] in stream;
      assert i < j ==> stream[..j][i] == stream[i] && stream[..j][j - 1] == stream[j - 1];
    }
    AgainEnds(enc, max, stream, at, j, j + 1);
  }

  /** In a stream of distinct row changes, everything sent is on record in every
      reachable state if and only if positions strictly increase. */
  lemma SentIsRecordedIff(enc: Encoding, max: nat, stream: seq<Change>, at: nat)
    requires (forall c | c in stream :: c.lsn > at) && NoTruncates(stream)
    requires Distinct(stream)
    ensures (forall steps | Possible(enc, max, stream, Init(at), steps) && NoValve(steps) ::
               SentIsRecorded(stream, End(enc, max, stream, Init(at), steps)))
      <==> Increasing(stream)
  {
    if Increasing(stream) {
      forall steps | Possible(enc, max, stream, Init(at), steps) && NoValve(steps)
        ensures SentIsRecorded(stream, End(enc, max, stream, Init(at), steps))
      {
        InitInv(stream, at);
        RunKeepsInv(enc, max, stream, at, Init(at), steps);
        var st := End(enc, max, stream, Init(at), steps);
        forall i | 0 <= i < st.next ensures stream[i] in All(st.rec) {
          assert All(st.rec)[i] == stream[i];
        }
      }
    } else {
      var steps, j := FilterDropsUnarchived(enc, max, stream, at);
    }
  }

  /** What is in the manifest is then a prefix of the stream as well. */
  lemma ManifestIsPrefix(enc: Encoding, max: nat, stream: seq<Change>, at: nat, steps: seq<Step>)
    requires (forall c | c in stream :: c.lsn > at) && Increasing(stream) && NoTruncates(stream)
    requires Possible(enc, max, stream, Init(at), steps) && NoValve(steps)
    ensures var manifested := Flat(End(enc, max, stream, Init(at), steps).rec.segs);
      |manifested| <= |stream| && manifested == stream[..|manifested|]
  {
    InitInv(stream, at);
    RunKeepsInv(enc, max, stream, at, Init(at), steps);
    var r := End(enc, max, stream, Init(at), steps).rec;
    var n := |Flat(r.segs)|;
    assert Flat(r.segs) == All(r)[..n];
    assert stream[..|All(r)|][..n] == stream[..n];
  }
}
