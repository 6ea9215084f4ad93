/** Loading an archive back into the history, and recovering a lost database from
    a backup and the archive. */
module Recovery {
  import opened Options
  import opened JsonValues
  import opened Tables
  import opened Capture
  import opened Plans
  import opened UndoTheorems
  import opened ReplayTheorems
  import opened Hashing
  import opened Archive
  import opened Scanning
  import opened ArchiveVerify
  import opened ArchiveTheorems
  import opened Delivery
  import opened ExactlyOnce
  import opened Decoding

  // ---------------------------------------------------------------------
  // Restore
  // ---------------------------------------------------------------------

  /** How far a restore has come; `ok` is lost when it stops with an error. */
  datatype Restored = Restored(ok: bool, loaded: nat, skipped: nat, log: seq<Entry>)

  /** Values go through the table's own row type on the way in. */
  function Normalised(s: Schema, image: Option<Row>): Option<Row> {
    if image.None? then None else Some(Populate(s, image.value))
  }

  function Loaded(cat: Catalog, c: Change, id: nat): Entry
    requires c.RowChange? && c.table in cat
  {
    var s := cat[c.table];
    Entry(id, c.table, c.op, c.pk, Normalised(s, c.before), Normalised(s, c.after))
  }

  predicate NothingToLoad(c: Change) {
    c.IsGap() || c.op == T
  }

  function LoadLine(cat: Catalog, dec: Decoder, first: nat, dry: bool, r: Restored, line: string): Restored {
    match dec(line)
    case None => r.(skipped := r.skipped + 1)
    case Some(c) =>
      if NothingToLoad(c) then r.(skipped := r.skipped + 1)
      else if dry then r.(loaded := r.loaded + 1)
      else if c.table !in cat then r.(ok := false)
      else r.(loaded := r.loaded + 1, log := r.log + [Loaded(cat, c, first + |r.log|)])
  }

  function LoadLines(cat: Catalog, dec: Decoder, first: nat, dry: bool, r: Restored, lines: seq<string>): Restored
    decreases |lines|
  {
    if lines == [] || !r.ok then r
    else LoadLines(cat, dec, first, dry, LoadLine(cat, dec, first, dry, r, lines[0]), lines[1..])
  }

  /** One segment's file; a scan that fails stops the restore after the lines that
      were read. */
  function LoadFile(cat: Catalog, dec: Decoder, first: nat, dry: bool, r: Restored, text: string): Restored {
    var read := LoadLines(cat, dec, first, dry, r, Scan(text));
    if Scans(text) then read else read.(ok := false)
  }

  function LoadSegments(
      cat: Catalog, dec: Decoder, first: nat, dry: bool, r: Restored, files: Files, man: seq<Segment>): Restored
    decreases |man|
  {
    if man == [] || !r.ok then r
    else if man[0].file !in files then r.(ok := false)
    else LoadSegments(cat, dec, first, dry, LoadFile(cat, dec, first, dry, r, files[man[0].file]), files, man[1..])
  }

  /** The lines of one file, each its own statement. */
  method RestoreFile(cat: Catalog, dec: Decoder, first: nat, dry: bool, start: Restored, text: string)
    returns (end: Restored)
    requires start.ok
    ensures end == LoadFile(cat, dec, first, dry, start, text)
  {
    hide Scan, Scans, Loaded;
    var ok, loaded, skipped, log := true, start.loaded, start.skipped, start.log;
    var lines := Scan(text);
    assert lines[0..] == lines;
    for i := 0 to |lines|
      invariant ok
      invariant LoadLines(cat, dec, first, dry, start, lines)
        == LoadLines(cat, dec, first, dry, Restored(ok, loaded, skipped, log), lines[i..])
    {
      assert lines[i..][1..] == lines[i + 1..];
      var c := dec(lines[i]);
      if c.None? {
        skipped := skipped + 1;
      } else if NothingToLoad(c.value) {
        skipped := skipped + 1;
      } else if dry {
        loaded := loaded + 1;
      } else if c.value.table !in cat {
        return Restored(false, loaded, skipped, log);
      } else {
        log := log + [Loaded(cat, c.value, first + |log|)];
        loaded := loaded + 1;
      }
    }
    return Restored(Scans(text), loaded, skipped, log);
  }

  /** Loads every segment in the manifest's order, line by line, and stops at the
      first error; what was loaded before it stays. */
  method RestoreArchive(cat: Catalog, dec: Decoder, first: nat, dry: bool, files: Files, man: seq<Segment>)
    returns (r: Restored)
    ensures r == LoadSegments(cat, dec, first, dry, Restored(true, 0, 0, []), files, man)
  {
    hide LoadFile;
    r := Restored(true, 0, 0, []);
    for k := 0 to |man|
      invariant r.ok
      invariant LoadSegments(cat, dec, first, dry, Restored(true, 0, 0, []), files, man)
        == LoadSegments(cat, dec, first, dry, r, files, man[k..])
    {
      assert man[k..][1..] == man[k + 1..];
      if man[k].file !in files {
        return r.(ok := false);
      }
      r := RestoreFile(cat, dec, first, dry, r, files[man[k].file]);
      if !r.ok {
        return r;
      }
    }
  }

  // ---------------------------------------------------------------------
  // What the counts say
  // ---------------------------------------------------------------------

  /** The line is a row change; not broken, not a gap, not a truncate. */
  predicate IsRow(dec: Decoder, line: string) {
    dec(line).Some? && dec(line).value.RowChange? && dec(line).value.op != T
  }

  function RowLines(dec: Decoder, lines: seq<string>): nat {
    if lines == [] then 0 else (if IsRow(dec, lines[0]) then 1 else 0) + RowLines(dec, lines[1..])
  }

  /** A restore that gets through some lines has counted each once: the row changes as
      loaded, everything else as skipped; and the history has grown by those loaded, or
      not at all in a dry run. */
  lemma {:induction false} CountsTell(
      cat: Catalog, dec: Decoder, first: nat, dry: bool, r: Restored, lines: seq<string>)
    requires r.ok && LoadLines(cat, dec, first, dry, r, lines).ok
    ensures var end := LoadLines(cat, dec, first, dry, r, lines);
      && end.loaded == r.loaded + RowLines(dec, lines)
      && end.loaded + end.skipped == r.loaded + r.skipped + |lines|
      && |end.log| == |r.log| + if dry then 0 else RowLines(dec, lines)
    decreases |lines|
  {
    if lines != [] {
      CountsTell(cat, dec, first, dry, LoadLine(cat, dec, first, dry, r, lines[0]), lines[1..]);
    }
  }

  /** Every table a line names is there. */
  predicate TablesKnown(cat: Catalog, dec: Decoder, lines: seq<string>) {
    forall l | l in lines && IsRow(dec, l) :: dec(l).value.table in cat
  }

  /** A dry run counts what a real one would, and loads nothing; but it does not notice a
      table that is gone, on which the real one stops. */
  lemma {:induction false} DryRunForecasts(
      cat: Catalog, dec: Decoder, first: nat, r: Restored, r': Restored, lines: seq<string>)
    requires r.ok && r'.ok && r.loaded == r'.loaded && r.skipped == r'.skipped
    ensures var full, dry := LoadLines(cat, dec, first, false, r, lines), LoadLines(cat, dec, first, true, r', lines);
      && dry.ok && dry.log == r'.log
      && (full.ok <==> TablesKnown(cat, dec, lines))
      && (full.ok ==> full.loaded == dry.loaded && full.skipped == dry.skipped)
    decreases |lines|
  {
    if lines != [] {
      assert lines == [lines[0]] + lines[1..];
      assert TablesKnown(cat, dec, lines) <==>
        (IsRow(dec, lines[0]) ==> dec(lines[0]).value.table in cat) && TablesKnown(cat, dec, lines[1..]);
      var next, next' := LoadLine(cat, dec, first, false, r, lines[0]), LoadLine(cat, dec, first, true, r', lines[0]);
      if next.ok {
        DryRunForecasts(cat, dec, first, next, next', lines[1..]);
      } else {
        DryRunForecasts(cat, dec, first, r.(loaded := next'.loaded, skipped := next'.skipped), next', lines[1..]);
      }
    }
  }

  /** The file of a segment is there and can be read to its end, and, unless the run is a
      dry one, every table its lines name is there. */
  predicate CanRead(cat: Catalog, dec: Decoder, dry: bool, files: Files, seg: Segment) {
    && seg.file in files && Scans(files[seg.file])
    && (dry || TablesKnown(cat, dec, Scan(files[seg.file])))
  }

  lemma FileLoadsIff(cat: Catalog, dec: Decoder, first: nat, dry: bool, r: Restored, text: string)
    requires r.ok
    ensures LoadFile(cat, dec, first, dry, r, text).ok <==> Scans(text) && (dry || TablesKnown(cat, dec, Scan(text)))
  {
    hide LoadLine, TablesKnown;
    DryRunForecasts(cat, dec, first, r, r, Scan(text));
  }

  /** A restore gets through exactly if every manifested file is there and readable to its
      end, and every table that its row changes name exists; a dry run does not ask the
      last. */
  lemma {:induction false} RestoresIff(
      cat: Catalog, dec: Decoder, first: nat, dry: bool, r: Restored, files: Files, man: seq<Segment>)
    requires r.ok
    ensures LoadSegments(cat, dec, first, dry, r, files, man).ok
      <==> forall seg | seg in man :: CanRead(cat, dec, dry, files, seg)
    decreases |man|
  {
    hide LoadFile, TablesKnown, Scans;
    if man != [] {
      assert man == [man[0]] + man[1..];
      if man[0].file in files {
        var next := LoadFile(cat, dec, first, dry, r, files[man[0].file]);
        FileLoadsIff(cat, dec, first, dry, r, files[man[0].file]);
        if next.ok {
          RestoresIff(cat, dec, first, dry, next, files, man[1..]);
        } else {
          FailureStays(cat, dec, first, dry, next, files, man[1..]);
          assert man[0] in man && !CanRead(cat, dec, dry, files, man[0]);
        }
      } else {
        assert man[0] in man && !CanRead(cat, dec, dry, files, man[0]);
      }
    }
  }

  lemma FailureStays(cat: Catalog, dec: Decoder, first: nat, dry: bool, r: Restored, files: Files, man: seq<Segment>)
    requires !r.ok
    ensures LoadSegments(cat, dec, first, dry, r, files, man) == r
  {
  }

  // ---------------------------------------------------------------------
  // What is loaded from an honest archive
  // ---------------------------------------------------------------------

  /** The record is of a row change on a table that exists. */
  predicate CanLoad(cat: Catalog, c: Change) {
    c.RowChange? && !NothingToLoad(c) && c.table in cat
  }

  ghost predicate Loadable(cat: Catalog, cs: seq<Change>) {
    forall i | 0 <= i < |cs| :: CanLoad(cat, cs[i])
  }

  lemma LoadableConcat(cat: Catalog, a: seq<Change>, b: seq<Change>)
    ensures Loadable(cat, a + b) <==> Loadable(cat, a) && Loadable(cat, b)
  {
    if Loadable(cat, a + b) {
      forall i | 0 <= i < |a| ensures CanLoad(cat, a[i]) { assert (a + b)[i] == a[i]; }
      forall i | 0 <= i < |b| ensures CanLoad(cat, b[i]) { assert (a + b)[|a| + i] == b[i]; }
    }
  }

  ghost function EntriesOf(cat: Catalog, cs: seq<Change>, first: nat): (r: seq<Entry>)
    requires Loadable(cat, cs)
    ensures |r| == |cs|
  {
    seq(|cs|, i requires 0 <= i < |cs| => Loaded(cat, cs[i], first + i))
  }

  /** After loading some records, all of them are in the history, in order. */
  ghost function Holding(cat: Catalog, cs: seq<Change>, first: nat): Restored
    requires Loadable(cat, cs)
  {
    Restored(true, |cs|, 0, EntriesOf(cat, cs, first))
  }

  lemma LoadOneRecord(cat: Catalog, enc: Encoding, dec: Decoder, first: nat, done: seq<Change>, c: Change)
    requires Readable(enc, dec) && Loadable(cat, done + [c])
    ensures Loadable(cat, done)
    ensures LoadLine(cat, dec, first, false, Holding(cat, done, first), enc(c)) == Holding(cat, done + [c], first)
  {
    LoadableConcat(cat, done, [c]);
    assert CanLoad(cat, [c][0]);
    assert EntriesOf(cat, done + [c], first) == EntriesOf(cat, done, first) + [Loaded(cat, c, first + |done|)];
  }

  lemma {:induction false} LoadRecords(
      cat: Catalog, enc: Encoding, dec: Decoder, first: nat, done: seq<Change>, cs: seq<Change>)
    requires Readable(enc, dec) && Loadable(cat, done + cs)
    ensures Loadable(cat, done)
    ensures LoadLines(cat, dec, first, false, Holding(cat, done, first), Lines(enc, cs)) == Holding(cat, done + cs, first)
    decreases |cs|
  {
    hide Readable, LoadLine, EntriesOf;
    LoadableConcat(cat, done, cs);
    if cs == [] {
      assert done + cs == done;
    } else {
      var more := done + [cs[0]];
      assert more + cs[1..] == done + cs;
      LoadableConcat(cat, more, cs[1..]);
      LoadOneRecord(cat, enc, dec, first, done, cs[0]);
      assert Lines(enc, cs)[1..] == Lines(enc, cs[1..]);
      LoadRecords(cat, enc, dec, first, more, cs[1..]);
    }
  }

  ghost predicate FitFrom(enc: Encoding, segs: seq<seq<Change>>, k: nat) {
    forall j | k <= j < |segs| :: Fits(enc, segs[j])
  }

  lemma FailedStays(cat: Catalog, dec: Decoder, first: nat, r: Restored, files: Files, man: seq<Segment>)
    requires !r.ok
    ensures !LoadSegments(cat, dec, first, false, r, files, man).ok
  {
  }

  /** The segments of the manifest from `k` on, loaded after those before: all of
      them if every line fits the scanner, and else the restore stops. */
  lemma {:induction false} LoadHonest(
      sha: Hash, enc: Encoding, dec: Decoder, man: seq<Segment>, files: Files, segs: seq<seq<Change>>,
      cat: Catalog, first: nat, k: nat)
    requires Readable(enc, dec) && Honest(sha, enc, man, files, segs) && k <= |man| && Loadable(cat, Flat(segs))
    ensures Loadable(cat, Flat(segs[..k]))
    ensures var r := LoadSegments(cat, dec, first, false, Holding(cat, Flat(segs[..k]), first), files, man[k..]);
      if FitFrom(enc, segs, k) then r == Holding(cat, Flat(segs), first) else !r.ok
    decreases |man| - k
  {
    hide Readable, LoadLines, EntriesOf, ManifestEntry, Scan, Scans, Fits, Flat, Loadable;
    LoadablePrefix(cat, segs, k);
    if k == |man| {
      assert segs[..k] == segs;
    } else {
      assert Recorded(sha, enc, man, files, segs, k);
      HonestLines(sha, enc, dec, man, files, segs, k);
      assert man[k..][0] == man[k] && man[k..][1..] == man[k + 1..];
      if Fits(enc, segs[k]) {
        LoadablePrefix(cat, segs, k + 1);
        assert segs[..k + 1] == segs[..k] + [segs[k]];
        FlatSnoc(segs[..k], segs[k]);
        LoadRecords(cat, enc, dec, first, Flat(segs[..k]), segs[k]);
        LoadHonest(sha, enc, dec, man, files, segs, cat, first, k + 1);
      } else {
        var r := LoadFile(cat, dec, first, false, Holding(cat, Flat(segs[..k]), first), files[k + 1]);
        FailedStays(cat, dec, first, r, files, man[k + 1..]);
      }
    }
  }

  lemma LoadablePrefix(cat: Catalog, segs: seq<seq<Change>>, k: nat)
    requires k <= |segs| && Loadable(cat, Flat(segs))
    ensures Loadable(cat, Flat(segs[..k]))
  {
    var rest := FlatSplit(segs, k);
    LoadableConcat(cat, Flat(segs[..k]), rest);
  }

  /** Restoring an honest archive of row changes gets through exactly if every line
      fits the scanner, and then loads exactly its records, in order. */
  lemma RestoreLoadsRecords(
      sha: Hash, enc: Encoding, dec: Decoder, man: seq<Segment>, files: Files, segs: seq<seq<Change>>,
      cat: Catalog, first: nat)
    requires Readable(enc, dec) && Honest(sha, enc, man, files, segs) && Loadable(cat, Flat(segs))
    ensures var r := LoadSegments(cat, dec, first, false, Restored(true, 0, 0, []), files, man);
      && (r.ok <==> AllSegmentsFit(enc, segs))
      && (r.ok ==> r == Restored(true, |Flat(segs)|, 0, EntriesOf(cat, Flat(segs), first)))
  {
    hide Honest, Readable, LoadSegments, Fits;
    LoadHonest(sha, enc, dec, man, files, segs, cat, first, 0);
    assert segs[..0] == [] && man[0..] == man;
    assert Holding(cat, Flat([]), first) == Restored(true, 0, 0, []);
  }

  // ---------------------------------------------------------------------
  // Recovery
  // ---------------------------------------------------------------------

  /** Writes as a trigger with full images would see them. */
  function Events(ws: seq<Write>): (r: seq<Event>)
    ensures |r| == |ws|
  {
    seq(|ws|, i requires 0 <= i < |ws| => Event(ws[i], Mode(true, true)))
  }

  /** The stream is what the server's messages for the writes decode to. */
  ghost predicate Streams(
      cat: Catalog, rels: Relations, ws: seq<Write>, lsns: seq<nat>, msgs: seq<Message>, stream: seq<Change>)
  {
    && |ws| == |lsns| == |msgs| == |stream|
    && forall i | 0 <= i < |ws| ::
         Renders(rels, cat, ws[i], msgs[i]) && RecordsOf(rels, lsns[i], msgs[i]) == Some([stream[i]])
  }

  lemma StreamIsRecords(
      cat: Catalog, rels: Relations, ws: seq<Write>, lsns: seq<nat>, msgs: seq<Message>, stream: seq<Change>, i: nat)
    requires WfCatalog(cat) && Streams(cat, rels, ws, lsns, msgs, stream) && i < |ws|
    ensures ws[i].Shaped(cat) && stream[i] == RecordOf(cat, ws[i], lsns[i])
  {
    hide RecordsOf, RecordOf;
    DecodesToRecord(rels, cat, ws[i], msgs[i], lsns[i]);
    assert [stream[i]][0] == [RecordOf(cat, ws[i], lsns[i])][0];
  }

  /** Loading a write's record gives the entry the trigger would have written. */
  lemma RecordLoadsAsCaptured(cat: Catalog, w: Write, lsn: nat, id: nat)
    requires WfCatalog(cat) && w.Shaped(cat)
    ensures !NothingToLoad(RecordOf(cat, w, lsn))
    ensures Captured(cat, Event(w, Mode(true, true)), id) == Some(Loaded(cat, RecordOf(cat, w, lsn), id))
  {
    var s := cat[w.table];
    assert forall row | WfRow(s, row) :: Populate(s, row) == row;
  }

  predicate IsRecord(cat: Catalog, w: Write, c: Change) {
    w.Shaped(cat) && c == RecordOf(cat, w, c.lsn)
  }

  ghost predicate AreRecords(cat: Catalog, ws: seq<Write>, stream: seq<Change>) {
    |ws| == |stream| && forall i | 0 <= i < |ws| :: IsRecord(cat, ws[i], stream[i])
  }

  lemma RecordLoads(cat: Catalog, w: Write, c: Change, id: nat)
    requires WfCatalog(cat) && IsRecord(cat, w, c)
    ensures w.Shaped(cat) && CanLoad(cat, c)
    ensures Captured(cat, Event(w, Mode(true, true)), id) == Some(Loaded(cat, c, id))
  {
    RecordLoadsAsCaptured(cat, w, c.lsn, id);
  }

  lemma {:induction false} LoadedIsLog(cat: Catalog, ws: seq<Write>, stream: seq<Change>, first: nat)
    requires WfCatalog(cat) && AreRecords(cat, ws, stream)
    ensures Loadable(cat, stream) && AllShaped(cat, Events(ws))
    ensures EntriesOf(cat, stream, first) == LogOf(cat, Events(ws), first)
    decreases |ws|
  {
    hide Captured, Loaded, IsRecord, CanLoad, EntriesOf, LogOf, Loadable;
    if ws == [] {
      NothingLoaded(cat, first);
      assert stream == [] && Events(ws) == [];
    } else {
      var later, laterStream := ws[1..], stream[1..];
      LaterRecords(cat, ws, stream);
      LoadedIsLog(cat, later, laterStream, first + 1);
      RecordLoads(cat, ws[0], stream[0], first);
      assert stream == [stream[0]] + laterStream;
      EntriesCons(cat, stream[0], laterStream, first);
      var e := Event(ws[0], Mode(true, true));
      assert Events(ws) == [e] + Events(later);
      LogCons(cat, e, Events(later), first);
    }
  }

  lemma NothingLoaded(cat: Catalog, first: nat)
    ensures Loadable(cat, []) && AllShaped(cat, [])
    ensures EntriesOf(cat, [], first) == [] && LogOf(cat, [], first) == []
  {
  }

  lemma LaterRecords(cat: Catalog, ws: seq<Write>, stream: seq<Change>)
    requires AreRecords(cat, ws, stream) && ws != []
    ensures IsRecord(cat, ws[0], stream[0]) && AreRecords(cat, ws[1..], stream[1..])
  {
    hide IsRecord;
  }

  lemma EntriesCons(cat: Catalog, c: Change, rest: seq<Change>, first: nat)
    requires CanLoad(cat, c) && Loadable(cat, rest)
    ensures Loadable(cat, [c] + rest)
    ensures EntriesOf(cat, [c] + rest, first) == [Loaded(cat, c, first)] + EntriesOf(cat, rest, first + 1)
  {
    LoadableConcat(cat, [c], rest);
  }

  lemma LogCons(cat: Catalog, e: Event, rest: seq<Event>, id: nat)
    requires AllShaped(cat, rest) && e.w.Shaped(cat) && Captured(cat, e, id).Some?
    ensures AllShaped(cat, [e] + rest)
    ensures LogOf(cat, [e] + rest, id) == [Captured(cat, e, id).value] + LogOf(cat, rest, id + 1)
  {
    hide Captured;
    assert ([e] + rest)[1..] == rest;
  }

  lemma {:induction false} RunPrefix(cat: Catalog, db: Db, run: seq<Event>, m: nat)
    requires Capture.Possible(cat, db, run) && m <= |run|
    ensures Capture.Possible(cat, db, run[..m])
    decreases m
  {
    if m > 0 {
      RunPrefix(cat, Perform(cat, db, run[0].w), run[1..], m - 1);
      assert run[..m][1..] == run[1..][..m - 1];
    }
  }

  /** Replaying a history onto a backup applies every step and ends in the state
      after some writes. */
  ghost predicate Recovers(cat: Catalog, db: Db, log: seq<Entry>, ws: seq<Write>) {
    && Plannable(cat, log, Replay) && Capture.Possible(cat, db, Events(ws))
    && var p := Apply(cat, Going(db, [], []), Stmts(cat, log, Replay), Replay, false);
       p.Going? && p.statuses == AllApplied(|ws|) && p.db == After(cat, db, Events(ws))
  }

  /** Restoring what an archive holds of a run's first `m` writes gets through
      exactly if every line fits the scanner, and replaying it onto the backup then
      applies every step and ends in the state after them. */
  lemma RecoversPrefix(
      sha: Hash, enc: Encoding, dec: Decoder, man: seq<Segment>, files: Files, segs: seq<seq<Change>>,
      cat: Catalog, db: Db, ws: seq<Write>, stream: seq<Change>, m: nat, first: nat)
    requires Readable(enc, dec) && Honest(sha, enc, man, files, segs)
    requires WfCatalog(cat) && WfDb(cat, db) && Capture.Possible(cat, db, Events(ws)) && KeyStable(cat, Events(ws))
    requires AreRecords(cat, ws, stream) && m <= |stream| && Flat(segs) == stream[..m]
    ensures var r := LoadSegments(cat, dec, first, false, Restored(true, 0, 0, []), files, man);
      && (r.ok <==> AllSegmentsFit(enc, segs))
      && (r.ok ==> r.loaded == m && r.skipped == 0 && Recovers(cat, db, r.log, ws[..m]))
  {
    hide Readable, Honest, IsRecord, LoadSegments, Fits, Captured, Enabled, WfDb, WfCatalog, Perform;
    var run := Events(ws[..m]);
    assert run == Events(ws)[..m];
    RunPrefix(cat, db, Events(ws), m);
    LoadedIsLog(cat, ws[..m], stream[..m], first);
    RestoreLoadsRecords(sha, enc, dec, man, files, segs, cat, first);
    assert KeyStable(cat, run);
    ReplayRecoversIffKeyStable(cat, db, run, first);
  }

  /** End to end.  The server streams a run of row writes on keyed tables with
      REPLICA IDENTITY FULL; the companion archives it through any crashes and
      restarts.  From any state it can be in, restoring the archive gets through
      exactly if every line fits the scanner, and replaying it onto the state the
      run started from then applies every step without conflict and ends exactly in
      the state after the writes that are in the manifest. */
  lemma EndToEnd(
      sha: Hash, enc: Encoding, dec: Decoder, max: nat, man: seq<Segment>, files: Files,
      cat: Catalog, db: Db, rels: Relations, ws: seq<Write>, lsns: seq<nat>, msgs: seq<Message>,
      stream: seq<Change>, at: nat, steps: seq<Step>, first: nat)
    requires Readable(enc, dec)
    requires WfCatalog(cat) && WfDb(cat, db) && Capture.Possible(cat, db, Events(ws)) && KeyStable(cat, Events(ws))
    requires Streams(cat, rels, ws, lsns, msgs, stream)
    requires (forall i, j | 0 <= i < j < |lsns| :: lsns[i] < lsns[j]) && forall x | x in lsns :: x > at
    requires Delivery.Possible(enc, max, stream, Init(at), steps) && NoValve(steps)
    requires Honest(sha, enc, man, files, End(enc, max, stream, Init(at), steps).rec.segs)
    ensures var m := |Flat(End(enc, max, stream, Init(at), steps).rec.segs)|;
      var r := LoadSegments(cat, dec, first, false, Restored(true, 0, 0, []), files, man);
      && m <= |ws| && (r.ok <==> AllSegmentsFit(enc, End(enc, max, stream, Init(at), steps).rec.segs))
      && (r.ok ==> r.loaded == m && r.skipped == 0 && Recovers(cat, db, r.log, ws[..m]))
  {
    hide Readable, Honest, LoadSegments, Fits, Enabled, WfDb, WfCatalog, RecordsOf, Next, Allowed;
    forall i | 0 <= i < |ws|
      ensures IsRecord(cat, ws[i], stream[i]) && stream[i].RowChange? && stream[i].lsn == lsns[i]
    {
      StreamIsRecords(cat, rels, ws, lsns, msgs, stream, i);
    }
    StreamIsGood(stream, lsns, at);
    var segs := End(enc, max, stream, Init(at), steps).rec.segs;
    ManifestIsPrefix(enc, max, stream, at, steps);
    RecoversPrefix(sha, enc, dec, man, files, segs, cat, db, ws, stream, |Flat(segs)|, first);
  }

  lemma StreamIsGood(stream: seq<Change>, lsns: seq<nat>, at: nat)
    requires |stream| == |lsns| && forall i | 0 <= i < |stream| :: stream[i].RowChange? && stream[i].lsn == lsns[i]
    requires (forall i, j | 0 <= i < j < |lsns| :: lsns[i] < lsns[j]) && forall x | x in lsns :: x > at
    ensures Increasing(stream) && NoTruncates(stream) && forall c | c in stream :: c.lsn > at
  {
    forall c | c in stream ensures c.lsn > at && !c.TruncateGap? {
      var i :| 0 <= i < |stream| && stream[i] == c;
      assert lsns[i] in lsns;
    }
  }
}
