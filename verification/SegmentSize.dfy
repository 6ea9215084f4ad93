/** How large the archive's segments get: the limit is passed by at most the last line. */
module SegmentSize {
  import opened Archive
  import opened Delivery

  /** All but the last of the records stay below the limit. */
  predicate JustFull(enc: Encoding, max: nat, cs: seq<Change>) {
    |cs| > 1 ==> |Text(Lines(enc, cs[..|cs| - 1]))| < max
  }

  /** No closed segment could have been closed a line earlier, and the open one is below
      the limit. */
  ghost predicate Sized(enc: Encoding, max: nat, r: Records) {
    && (forall s | s in r.segs :: JustFull(enc, max, s))
    && (r.pending != [] ==> |Text(Lines(enc, r.pending))| < max)
  }

  lemma ShorterText(enc: Encoding, cs: seq<Change>)
    requires cs != []
    ensures |Text(Lines(enc, cs[..|cs| - 1]))| < |Text(Lines(enc, cs))|
  {
    var init, c := cs[..|cs| - 1], cs[|cs| - 1];
    assert cs == init + [c];
    LinesSnoc(enc, init, c);
  }

  lemma AddKeepsSized(enc: Encoding, max: nat, r: Records, c: Change)
    requires Sized(enc, max, r)
    ensures Sized(enc, max, Add(enc, max, r, c))
    ensures Add(enc, max, r, c).segs != r.segs <==> |Text(Lines(enc, r.pending + [c]))| >= max
  {
    hide Text, Lines;
    var cs := r.pending + [c];
    assert cs[..|cs| - 1] == r.pending;
    assert JustFull(enc, max, cs);
    assert forall s :: s in r.segs + [cs] <==> s in r.segs || s == cs;
  }

  lemma CloseKeepsSized(enc: Encoding, max: nat, r: Records)
    requires Sized(enc, max, r)
    ensures Sized(enc, max, Close(r))
  {
    hide Text, Lines;
    if r.pending != [] {
      ShorterText(enc, r.pending);
      assert JustFull(enc, max, r.pending);
      assert forall s :: s in r.segs + [r.pending] <==> s in r.segs || s == r.pending;
    }
  }

  lemma StepKeepsSized(enc: Encoding, max: nat, stream: seq<Change>, st: State, s: Step)
    requires Sized(enc, max, st.rec) && Allowed(stream, st, s)
    ensures Sized(enc, max, Next(enc, max, stream, st, s).rec)
  {
    hide Sized, Add, Close;
    match s
    case Deliver => AddKeepsSized(enc, max, st.rec, stream[st.next]);
    case Tick => CloseKeepsSized(enc, max, st.rec);
    case Stop => CloseKeepsSized(enc, max, st.rec);
    case Valve(current, _) =>
      var gap := SkippedGap(current, st.acked, current);
      AddKeepsSized(enc, max, st.rec, gap);
      CloseKeepsSized(enc, max, Add(enc, max, st.rec, gap));
    case Restart(_, _) => DropKeepsSized(enc, max, st.rec);
  }

  lemma DropKeepsSized(enc: Encoding, max: nat, r: Records)
    requires Sized(enc, max, r)
    ensures Sized(enc, max, Records(r.segs, []))
  {
  }

  /** Over every run of the protocol, crashes and the valve included, a segment is closed
      as soon as it reaches the limit: without its last line it is below it. */
  lemma {:induction false} RunKeepsSized(enc: Encoding, max: nat, stream: seq<Change>, st: State, steps: seq<Step>)
    requires Sized(enc, max, st.rec) && Possible(enc, max, stream, st, steps)
    ensures Sized(enc, max, End(enc, max, stream, st, steps).rec)
    decreases |steps|
  {
    hide Sized, Next, Allowed;
    if steps != [] {
      StepKeepsSized(enc, max, stream, st, steps[0]);
      RunKeepsSized(enc, max, stream, Next(enc, max, stream, st, steps[0]), steps[1..]);
    }
  }

  lemma SegmentsStayNearLimit(enc: Encoding, max: nat, stream: seq<Change>, at: nat, steps: seq<Step>, k: nat)
    requires Possible(enc, max, stream, Init(at), steps) && k < |End(enc, max, stream, Init(at), steps).rec.segs|
    ensures var s := End(enc, max, stream, Init(at), steps).rec.segs[k];
      |s| > 1 ==> |Text(Lines(enc, s[..|s| - 1]))| < max
  {
    RunKeepsSized(enc, max, stream, Init(at), steps);
    var segs := End(enc, max, stream, Init(at), steps).rec.segs;
    assert segs[k] in segs;
    assert JustFull(enc, max, segs[k]);
  }
}
