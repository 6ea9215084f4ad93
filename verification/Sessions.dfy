/** The companion over its whole life: it runs, dies or is stopped, and starts
    again on what the directory holds. */
module Sessions {
  import opened Options
  import opened Tables
  import opened Capture
  import opened Plans
  import opened ReplayTheorems
  import opened Archive
  import opened ArchiveTheorems
  import opened ArchiveVerify
  import opened Decoding
  import opened Delivery
  import opened ExactlyOnce
  import opened Streaming
  import opened Recovery
  import SafetyValve

  /** One life of the process.  `confirmed` is where the slot stands and `from`
      the change the server begins with; `left` is what the process before left
      in an open file; a clean stop closes the open segment. */
  datatype Session = Session(confirmed: nat, from: nat, left: string, turns: seq<Turn>, clean: bool)

  /** What is durable, and what the server was told. */
  datatype Durable = Durable(rec: Records, told: nat)

  function AfterSession(enc: Encoding, max: nat, ceiling: nat, d: Durable, s: Session): (Durable, bool) {
    var rec := Records(d.rec.segs, []);
    var start := Max(s.confirmed, Resume(rec));
    var (l, ok) := AfterTurns(enc, max, ceiling, Resume(rec), Loop(rec, start, d.told, map[]), s.turns);
    (Durable(if s.clean || !ok then Close(l.rec) else l.rec, l.told), ok)
  }

  /** What a life leaves durable, against what it had archived when its last turn ended:
      after a clean stop, or an error it saw, everything, in the manifest; after a crash
      only the segments closed by then, with which the next life starts. */
  lemma StopKeepsAllCrashKeepsClosed(enc: Encoding, max: nat, ceiling: nat, d: Durable, s: Session)
    ensures var rec := Records(d.rec.segs, []);
      var (l, ok) := AfterTurns(enc, max, ceiling, Resume(rec),
        Loop(rec, Max(s.confirmed, Resume(rec)), d.told, map[]), s.turns);
      var (d', ok') := AfterSession(enc, max, ceiling, d, s);
      && ok' == ok && d'.told == l.told
      && (s.clean || !ok ==> d'.rec.pending == [] && Flat(d'.rec.segs) == All(l.rec))
      && (!s.clean && ok ==> Flat(d'.rec.segs) == Flat(l.rec.segs))
  {
    hide AfterTurns;
    var rec := Records(d.rec.segs, []);
    var l := AfterTurns(enc, max, ceiling, Resume(rec),
      Loop(rec, Max(s.confirmed, Resume(rec)), d.told, map[]), s.turns).0;
    FlatSnoc(l.rec.segs, l.rec.pending);
    assert Flat(l.rec.segs) + [] == Flat(l.rec.segs);
  }

  /** Sessions one after another; the flag is lost when one ends with an error. */
  function AfterSessions(enc: Encoding, max: nat, ceiling: nat, d: Durable, ss: seq<Session>): (Durable, bool)
    decreases |ss|
  {
    if ss == [] then (d, true)
    else
      var (d1, ok) := AfterSession(enc, max, ceiling, d, ss[0]);
      var (d2, ok2) := AfterSessions(enc, max, ceiling, d1, ss[1..]);
      (d2, ok && ok2)
  }

  /** One life of the process on an archive directory. */
  method RunSession(arch: Archive, warnBytes: nat, ceiling: nat, s: Session, ghost told: nat)
    returns (ok: bool, ghost told': nat)
    requires arch.Valid()
    modifies arch
    ensures arch.Valid()
    ensures (Durable(arch.Value(), told'), ok)
      == AfterSession(arch.enc, arch.maxBytes, ceiling, Durable(old(arch.Value()), told), s)
  {
    hide AfterTurns;
    arch.Reopen(s.left);
    var streamer := new Streamer(arch, warnBytes, ceiling, told);
    var start := s.confirmed;
    var resume := arch.ResumeLSN();
    if resume.Some? && resume.value > start {
      start := resume.value;
    }
    var acked;
    ok, acked := streamer.Run(start, s.turns);
    told' := streamer.told;
    if s.clean || !ok {
      arch.Rotate();
    }
  }

  method RunSessions(arch: Archive, warnBytes: nat, ceiling: nat, ss: seq<Session>, ghost told: nat)
    returns (ok: bool, ghost told': nat)
    requires arch.Valid()
    modifies arch
    ensures arch.Valid()
    ensures (Durable(arch.Value(), told'), ok)
      == AfterSessions(arch.enc, arch.maxBytes, ceiling, Durable(old(arch.Value()), told), ss)
  {
    hide AfterSession;
    ok, told' := true, told;
    ghost var first := Durable(arch.Value(), told);
    for i := 0 to |ss|
      invariant arch.Valid()
      invariant var (d, rest) := AfterSessions(arch.enc, arch.maxBytes, ceiling, Durable(arch.Value(), told'), ss[i..]);
        AfterSessions(arch.enc, arch.maxBytes, ceiling, first, ss) == (d, ok && rest)
    {
      assert ss[i..][1..] == ss[i + 1..];
      var fine;
      fine, told' := RunSession(arch, warnBytes, ceiling, ss[i], told');
      ok := ok && fine;
    }
  }

  // ---------------------------------------------------------------------
  // All sessions together are one run of the protocol
  // ---------------------------------------------------------------------

  /** The process ends by itself, cleanly or with an error, and closes its segment. */
  predicate Stopped(ceiling: nat, s: Session) {
    s.clean || !NoFailure(ceiling, s.turns)
  }

  function SessionSteps(ceiling: nat, s: Session): seq<Step> {
    [Restart(s.from, s.confirmed)] + RunSteps(ceiling, map[], s.turns) + (if Stopped(ceiling, s) then [Stop] else [])
  }

  function SessionsSteps(ceiling: nat, ss: seq<Session>): seq<Step> {
    if ss == [] then [] else SessionSteps(ceiling, ss[0]) + SessionsSteps(ceiling, ss[1..])
  }

  /** The server's part in a session: the slot is not ahead of what the server was
      told, it begins at or before the requested point, the messages carry the
      stream, and its position is ahead of all it was told when the valve opens. */
  ghost predicate Served(enc: Encoding, max: nat, ceiling: nat, stream: seq<Change>, d: Durable, s: Session) {
    var rec := Records(d.rec.segs, []);
    var start := Max(s.confirmed, Resume(rec));
    && s.confirmed <= d.told && s.from <= |stream|
    && (forall i | 0 <= i < s.from :: stream[i].lsn <= start)
    && Carries(ceiling, stream, s.from, map[], s.turns)
    && ServerAhead(enc, max, ceiling, Resume(rec), Loop(rec, start, d.told, map[]), s.turns)
  }

  ghost predicate AllServed(enc: Encoding, max: nat, ceiling: nat, stream: seq<Change>, d: Durable, ss: seq<Session>)
    decreases |ss|
  {
    ss != [] ==>
      && Served(enc, max, ceiling, stream, d, ss[0])
      && AllServed(enc, max, ceiling, stream, AfterSession(enc, max, ceiling, d, ss[0]).0, ss[1..])
  }

  lemma ResumeOfClosed(r: Records)
    ensures Resume(Records(r.segs, [])) == Resume(r)
  {
  }

  /** One session, from any state of the protocol with the same archive. */
  lemma SessionIsProtocol(
      enc: Encoding, max: nat, ceiling: nat, stream: seq<Change>, st: State, d: Durable, s: Session)
    requires st.rec == d.rec && st.told == d.told && Served(enc, max, ceiling, stream, d, s)
    ensures Delivery.Possible(enc, max, stream, st, SessionSteps(ceiling, s))
    ensures var e := End(enc, max, stream, st, SessionSteps(ceiling, s));
      var (d', ok) := AfterSession(enc, max, ceiling, d, s);
      && (ok <==> NoFailure(ceiling, s.turns)) && e.rec == d'.rec && e.told == d'.told
  {
    hide AfterTurns, RunSteps, Close, Resume, Carries, ServerAhead;
    var restart := Restart(s.from, s.confirmed);
    ResumeOfClosed(d.rec);
    OneStep(enc, max, stream, st, restart);
    var st1 := Next(enc, max, stream, st, restart);
    var rec := Records(d.rec.segs, []);
    var l := Loop(rec, Max(s.confirmed, Resume(rec)), d.told, map[]);
    var run := RunSteps(ceiling, map[], s.turns);
    LoopIsProtocol(enc, max, ceiling, stream, st1, l, s.turns);
    ExactlyOnce.RunConcat(enc, max, stream, st, [restart], run);
    if Stopped(ceiling, s) {
      var st2 := End(enc, max, stream, st1, run);
      OneStep(enc, max, stream, st2, Stop);
      ExactlyOnce.RunConcat(enc, max, stream, st, [restart] + run, [Stop]);
    } else {
      assert [restart] + run + [] == [restart] + run;
    }
  }

  /** Any number of sessions, each ended by a crash or a stop, are one run of the
      protocol with a restart before each. */
  lemma {:induction false} SessionsAreProtocol(
      enc: Encoding, max: nat, ceiling: nat, stream: seq<Change>, st: State, d: Durable, ss: seq<Session>)
    requires st.rec == d.rec && st.told == d.told && AllServed(enc, max, ceiling, stream, d, ss)
    ensures Delivery.Possible(enc, max, stream, st, SessionsSteps(ceiling, ss))
    ensures var e := End(enc, max, stream, st, SessionsSteps(ceiling, ss));
      var (d', ok) := AfterSessions(enc, max, ceiling, d, ss);
      && e.rec == d'.rec && e.told == d'.told
      && (ok <==> forall s | s in ss :: NoFailure(ceiling, s.turns))
    decreases |ss|
  {
    hide AfterSession, SessionSteps, Served, Next, Delivery.Allowed;
    if ss != [] {
      assert ss == [ss[0]] + ss[1..];
      SessionIsProtocol(enc, max, ceiling, stream, st, d, ss[0]);
      var mid := End(enc, max, stream, st, SessionSteps(ceiling, ss[0]));
      var d1 := AfterSession(enc, max, ceiling, d, ss[0]).0;
      SessionsAreProtocol(enc, max, ceiling, stream, mid, d1, ss[1..]);
      ExactlyOnce.RunConcat(enc, max, stream, st, SessionSteps(ceiling, ss[0]), SessionsSteps(ceiling, ss[1..]));
    }
  }

  // ---------------------------------------------------------------------
  // What a companion's whole life leaves
  // ---------------------------------------------------------------------

  lemma {:induction false} ClosedValve(ceiling: nat, rels: Relations, turns: seq<Turn>)
    requires ceiling == 0
    ensures NoValve(RunSteps(ceiling, rels, turns))
    decreases |turns|
  {
    if turns != [] {
      ClosedValve(ceiling, Learnt(rels, turns[0]), turns[1..]);
    }
  }

  lemma {:induction false} ClosedValves(ceiling: nat, ss: seq<Session>)
    requires ceiling == 0
    ensures NoValve(SessionsSteps(ceiling, ss))
  {
    if ss != [] {
      ClosedValve(ceiling, map[], ss[0].turns);
      ClosedValves(ceiling, ss[1..]);
    }
  }

  /** The archive directory after any number of sessions without the valve, each
      ended anywhere, restores if its lines fit the scanner, and replays onto the
      backup to exactly the state after the writes it holds. */
  lemma SessionsRecover(
      arch: Archive, dec: Decoder, cat: Catalog, db: Db, rels: Relations, ws: seq<Write>, lsns: seq<nat>,
      msgs: seq<Message>, stream: seq<Change>, at: nat, ss: seq<Session>, first: nat)
    requires arch.Valid() && Readable(arch.enc, dec)
    requires AllServed(arch.enc, arch.maxBytes, 0, stream, Durable(Records([], []), at), ss)
    requires arch.Value() == AfterSessions(arch.enc, arch.maxBytes, 0, Durable(Records([], []), at), ss).0.rec
    requires WfCatalog(cat) && WfDb(cat, db) && Capture.Possible(cat, db, Events(ws)) && KeyStable(cat, Events(ws))
    requires Streams(cat, rels, ws, lsns, msgs, stream)
    requires (forall i, j | 0 <= i < j < |lsns| :: lsns[i] < lsns[j]) && forall x | x in lsns :: x > at
    ensures var m := |Flat(arch.segs)|;
      var r := LoadSegments(cat, dec, first, false, Restored(true, 0, 0, []), arch.files, arch.man);
      && m <= |ws| && (r.ok <==> AllSegmentsFit(arch.enc, arch.segs))
      && (r.ok ==> r.loaded == m && r.skipped == 0 && Recovers(cat, db, r.log, ws[..m]))
  {
    hide AfterSessions, AllServed, Honest, Readable, LoadSegments, Streams, WfDb, WfCatalog, Next, Delivery.Allowed, KeyStable;
    SessionsAreProtocol(arch.enc, arch.maxBytes, 0, stream, Init(at), Durable(Records([], []), at), ss);
    ClosedValves(0, ss);
    EndToEnd(arch.sha, arch.enc, dec, arch.maxBytes, arch.man, arch.files, cat, db, rels, ws, lsns, msgs, stream, at,
      SessionsSteps(0, ss), first);
  }

  /** With the valve, too: after any number of sessions every change at or below
      what the server was told is in the archive or in a recorded gap, and the
      archive verifies without a fatal finding when positions have one width. */
  lemma SessionsExplain(
      arch: Archive, dec: Decoder, ceiling: nat, stream: seq<Change>, at: nat, ss: seq<Session>, listing: seq<nat>)
    requires arch.Valid() && Readable(arch.enc, dec) && SafetyValve.GoodStream(stream, at)
    requires AllServed(arch.enc, arch.maxBytes, ceiling, stream, Durable(Records([], []), at), ss)
    requires arch.Value() == AfterSessions(arch.enc, arch.maxBytes, ceiling, Durable(Records([], []), at), ss).0.rec
    ensures var told := AfterSessions(arch.enc, arch.maxBytes, ceiling, Durable(Records([], []), at), ss).0.told;
      forall c | c in stream && c.lsn <= told :: SafetyValve.Explained(arch.segs, c)
    ensures Increasing(SafetyValve.Sent(Flat(arch.segs)))
    ensures OneWidth(stream) && AllSegmentsFit(arch.enc, arch.segs) ==> NothingFatal(arch.sha, dec, arch.files, arch.man, listing)
  {
    hide AfterSessions, AllServed, Honest, Readable, NothingFatal, Next, Delivery.Allowed, SafetyValve.GoodStream, OneWidth;
    var d, steps := Durable(Records([], []), at), SessionsSteps(ceiling, ss);
    SessionsAreProtocol(arch.enc, arch.maxBytes, ceiling, stream, Init(at), d, ss);
    SafetyValve.AcknowledgedIsExplained(arch.enc, arch.maxBytes, stream, at, steps);
    if OneWidth(stream) && AllSegmentsFit(arch.enc, arch.segs) {
      RunIsClean(arch.sha, arch.enc, dec, arch.maxBytes, stream, at, steps, arch.man, arch.files, listing);
    }
  }
}
