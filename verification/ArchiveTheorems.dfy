/** What a clean verification of an archive means, and when an honest archive is
    clean. */
module ArchiveTheorems {
  import opened Options
  import opened Hashing
  import opened Archive
  import opened Scanning
  import opened ArchiveVerify
  import opened Delivery
  import opened ExactlyOnce
  import opened SafetyValve
  import Lsn

  /** Every record is written on one line and read back as it was. */
  ghost predicate Readable(enc: Encoding, dec: Decoder) {
    forall c {:trigger enc(c)} :: Plain(enc(c)) && dec(enc(c)) == Some(c)
  }

  /** Every record's line fits the scanner's buffer. */
  ghost predicate Fits(enc: Encoding, cs: seq<Change>) {
    forall c | c in cs :: |enc(c)| < 64 * 1024 * 1024
  }

  ghost predicate AllSegmentsFit(enc: Encoding, segs: seq<seq<Change>>) {
    forall k | 0 <= k < |segs| :: Fits(enc, segs[k])
  }

  lemma FitsIsAllFit(enc: Encoding, cs: seq<Change>)
    ensures AllFit(Lines(enc, cs)) <==> Fits(enc, cs)
  {
    var lines := Lines(enc, cs);
    forall i | 0 <= i < |cs| ensures lines[i] == enc(cs[i]) && lines[i] in lines && cs[i] in cs {}
  }

  // ---------------------------------------------------------------------
  // Honest archives
  // ---------------------------------------------------------------------

  predicate HasGap(cs: seq<Change>) {
    exists c | c in cs :: c.IsGap()
  }

  /** Neither of two neighbouring segments explains a gap, and the text of the
      later start comes before the text of the earlier end. */
  predicate Inverted(segs: seq<seq<Change>>, k: nat)
    requires 0 < k < |segs| && segs[k] != []
  {
    && !HasGap(segs[k - 1]) && !HasGap(segs[k])
    && Lsn.Before(Lsn.Text(segs[k][0].lsn), Lsn.Text(Last(segs[..k])))
  }

  lemma HonestLines(
      sha: Hash, enc: Encoding, dec: Decoder, man: seq<Segment>, files: Files, segs: seq<seq<Change>>, k: nat)
    requires Readable(enc, dec) && Recorded(sha, enc, man, files, segs, k)
    ensures man[k].file == k + 1 && man[k].number == k + 1 && k + 1 in files
    ensures Scans(files[k + 1]) <==> Fits(enc, segs[k])
    ensures Fits(enc, segs[k]) ==> Scan(files[k + 1]) == Lines(enc, segs[k])
  {
    hide Scan, Scans, Text, BUFFER;
    FitsIsAllFit(enc, segs[k]);
    var lines := Lines(enc, segs[k]);
    forall l | l in lines ensures Plain(l) {
      var i :| 0 <= i < |lines| && lines[i] == l;
      assert l == enc(segs[k][i]);
    }
    ScanPlain(lines);
  }

  lemma {:induction false} AllReadable(enc: Encoding, dec: Decoder, cs: seq<Change>)
    requires Readable(enc, dec)
    ensures BadLines(dec, Lines(enc, cs)) == 0
    decreases |cs|
  {
    if cs != [] {
      var init := cs[..|cs| - 1];
      AllReadable(enc, dec, init);
      assert Lines(enc, cs)[..|cs| - 1] == Lines(enc, init);
      assert Lines(enc, cs)[|cs| - 1] == enc(cs[|cs| - 1]);
    }
  }

  /** Nothing is wrong with the content of any segment of an honest archive. */
  lemma HonestContent(
      sha: Hash, enc: Encoding, dec: Decoder, man: seq<Segment>, files: Files, segs: seq<seq<Change>>, k: nat)
    requires Readable(enc, dec) && Recorded(sha, enc, man, files, segs, k) && Fits(enc, segs[k])
    ensures man[k].file in files
    ensures ContentVerdict(sha, dec, PrevChain(man, k), man[k], Scan(files[man[k].file])) == None
  {
    hide Text, Scan, Scans, Fits, Readable;
    HonestLines(sha, enc, dec, man, files, segs, k);
    AllReadable(enc, dec, segs[k]);
  }

  lemma HonestHoldsGap(
      sha: Hash, enc: Encoding, dec: Decoder, man: seq<Segment>, files: Files, segs: seq<seq<Change>>, k: nat)
    requires Readable(enc, dec) && Recorded(sha, enc, man, files, segs, k) && Fits(enc, segs[k])
    ensures HoldsGap(dec, files, man[k]) <==> HasGap(segs[k])
  {
    hide Text, Scan, Scans, Fits;
    HonestLines(sha, enc, dec, man, files, segs, k);
    var lines := Lines(enc, segs[k]);
    if l :| l in lines && IsGapLine(dec, l) {
      var i :| 0 <= i < |lines| && lines[i] == l;
      assert l == enc(segs[k][i]) && segs[k][i] in segs[k];
    }
    if c :| c in segs[k] && c.IsGap() {
      var i :| 0 <= i < |segs[k]| && segs[k][i] == c;
      assert lines[i] == enc(c) && lines[i] in lines;
    }
  }

  lemma HonestGaps(
      sha: Hash, enc: Encoding, dec: Decoder, man: seq<Segment>, files: Files, segs: seq<seq<Change>>, k: nat)
    requires Readable(enc, dec) && Honest(sha, enc, man, files, segs) && k < |man| && AllSegmentsFit(enc, segs)
    ensures GapRecorded(dec, files, man, k + 1) <==> HasGap(segs[k]) || (k > 0 && HasGap(segs[k - 1]))
  {
    hide HoldsGap, HasGap, ManifestEntry, Readable, Fits;
    forall i | 0 <= i < |man|
      ensures man[i].number == i + 1 && (HoldsGap(dec, files, man[i]) <==> HasGap(segs[i]))
    {
      assert Recorded(sha, enc, man, files, segs, i);
      HonestLines(sha, enc, dec, man, files, segs, i);
      HonestHoldsGap(sha, enc, dec, man, files, segs, i);
    }
    if seg :| seg in man && Adjoins(seg, k + 1) && HoldsGap(dec, files, seg) {
      var i :| 0 <= i < |man| && man[i] == seg;
    }
    assert man[k] in man;
    if k > 0 {
      assert man[k - 1] in man;
    }
  }

  lemma HonestPrevEnd(
      sha: Hash, enc: Encoding, dec: Decoder, man: seq<Segment>, files: Files, segs: seq<seq<Change>>, k: nat)
    requires Readable(enc, dec) && Honest(sha, enc, man, files, segs) && k <= |man| && AllSegmentsFit(enc, segs)
    ensures PrevEnd(files, man, k) == if k == 0 then None else Some(Last(segs[..k]))
  {
    hide Readable, Fits, Scans;
    if k > 0 {
      assert Recorded(sha, enc, man, files, segs, k - 1);
      HonestLines(sha, enc, dec, man, files, segs, k - 1);
    }
  }

  /** An honest archive whose lines fit the scanner has no finding on a segment but
      the order one, and that one exactly where the texts of two neighbours'
      positions are inverted. */
  lemma HonestFindings(
      sha: Hash, enc: Encoding, dec: Decoder, man: seq<Segment>, files: Files, segs: seq<seq<Change>>, k: nat)
    requires Readable(enc, dec) && Honest(sha, enc, man, files, segs) && k < |man| && AllSegmentsFit(enc, segs)
    ensures Recorded(sha, enc, man, files, segs, k)
    ensures SegmentFindings(sha, dec, files, man, k)
      == if k > 0 && Inverted(segs, k) then [Finding(k + 1, OutOfOrder)] else []
  {
    hide GapRecorded, HasGap, Readable, ContentVerdict, PrevEnd, Scan, Scans, Fits, Lsn.Before, Lsn.Text;
    assert Recorded(sha, enc, man, files, segs, k);
    HonestLines(sha, enc, dec, man, files, segs, k);
    HonestContent(sha, enc, dec, man, files, segs, k);
    HonestGaps(sha, enc, dec, man, files, segs, k);
    HonestPrevEnd(sha, enc, dec, man, files, segs, k);
  }

  lemma {:induction false} EmptyUpto(sha: Hash, dec: Decoder, files: Files, man: seq<Segment>, n: nat)
    requires n <= |man|
    ensures FindingsUpto(sha, dec, files, man, n) == []
      <==> forall k | 0 <= k < n :: SegmentFindings(sha, dec, files, man, k) == []
  {
    hide SegmentFindings;
    if n > 0 {
      EmptyUpto(sha, dec, files, man, n - 1);
    }
  }

  /** Clean means no finding at all on any segment of the manifest. */
  lemma CleanIff(sha: Hash, dec: Decoder, files: Files, man: seq<Segment>, listing: seq<nat>)
    ensures NothingFatal(sha, dec, files, man, listing)
      <==> forall k | 0 <= k < |man| :: SegmentFindings(sha, dec, files, man, k) == []
  {
    hide SegmentFindings, FindingsUpto, Notices;
    var fatal := FindingsUpto(sha, dec, files, man, |man|);
    EmptyUpto(sha, dec, files, man, |man|);
    if fatal != [] {
      assert fatal[0] in fatal && fatal[0] in Findings(sha, dec, files, man, listing);
    }
  }

  ghost predicate TextOrdered(segs: seq<seq<Change>>) {
    forall k | 0 < k < |segs| && segs[k] != [] :: !Inverted(segs, k)
  }

  /** A line that does not fit leaves its segment unreadable. */
  lemma LongLineIsUnreadable(
      sha: Hash, enc: Encoding, dec: Decoder, man: seq<Segment>, files: Files, segs: seq<seq<Change>>, k: nat)
    requires Readable(enc, dec) && Honest(sha, enc, man, files, segs) && k < |man| && k < |segs|
    requires !Fits(enc, segs[k])
    ensures SegmentFindings(sha, dec, files, man, k) == [Finding(k + 1, Unreadable)]
  {
    hide Readable, Fits, Scan, Scans, ContentVerdict, StartsEarly;
    assert Recorded(sha, enc, man, files, segs, k);
    HonestLines(sha, enc, dec, man, files, segs, k);
  }

  /** An honest archive verifies without a fatal finding exactly when every line
      fits the scanner and no two neighbours' positions are inverted as text. */
  lemma HonestIsCleanIffTextOrdered(
      sha: Hash, enc: Encoding, dec: Decoder, man: seq<Segment>, files: Files, segs: seq<seq<Change>>,
      listing: seq<nat>)
    requires Readable(enc, dec) && Honest(sha, enc, man, files, segs)
    ensures NothingFatal(sha, dec, files, man, listing) <==> AllSegmentsFit(enc, segs) && TextOrdered(segs)
  {
    hide SegmentFindings, Inverted, Readable, Honest, Fits;
    CleanIff(sha, dec, files, man, listing);
    SameLength(sha, enc, man, files, segs);
    if AllSegmentsFit(enc, segs) {
      forall k | 0 <= k < |man|
        ensures segs[k] != [] && (SegmentFindings(sha, dec, files, man, k) == [] <==> !(k > 0 && Inverted(segs, k)))
      {
        HonestFindings(sha, enc, dec, man, files, segs, k);
      }
    } else {
      var k :| 0 <= k < |segs| && !Fits(enc, segs[k]);
      LongLineIsUnreadable(sha, enc, dec, man, files, segs, k);
    }
  }

  lemma SameLength(sha: Hash, enc: Encoding, man: seq<Segment>, files: Files, segs: seq<seq<Change>>)
    requires Honest(sha, enc, man, files, segs)
    ensures |man| == |segs|
  {
  }

  // ---------------------------------------------------------------------
  // The archive of any run
  // ---------------------------------------------------------------------

  lemma {:induction false} FlatSplit(segs: seq<seq<Change>>, k: nat) returns (rest: seq<Change>)
    requires k <= |segs|
    ensures Flat(segs) == Flat(segs[..k]) + rest
    decreases |segs|
  {
    if k == |segs| {
      assert segs[..k] == segs;
      rest := [];
    } else {
      var init := segs[..|segs| - 1];
      rest := FlatSplit(init, k);
      assert init[..k] == segs[..k];
      rest := rest + segs[|segs| - 1];
    }
  }

  lemma {:induction false} SentOfGapless(cs: seq<Change>)
    requires forall c | c in cs :: !c.IsGap()
    ensures Sent(cs) == cs
  {
    if cs != [] {
      assert cs == [cs[0]] + cs[1..];
      assert cs[0] in cs;
      SentOfGapless(cs[1..]);
    }
  }

  lemma OrderedInside(x: seq<Change>, a: seq<Change>, b: seq<Change>, y: seq<Change>)
    requires a != [] && b != [] && Increasing(x + a + b + y)
    ensures a[|a| - 1].lsn < b[0].lsn
  {
    var all, i := x + a + b + y, |x| + |a|;
    assert all[i - 1] == a[|a| - 1] && all[i] == b[0];
  }

  lemma FlatAround(segs: seq<seq<Change>>, k: nat) returns (rest: seq<Change>)
    requires 0 < k < |segs|
    ensures Flat(segs) == Flat(segs[..k - 1]) + segs[k - 1] + segs[k] + rest
  {
    hide Flat;
    rest := FlatSplit(segs, k + 1);
    assert segs[..k + 1] == segs[..k] + [segs[k]] && segs[..k] == segs[..k - 1] + [segs[k - 1]];
    FlatSnoc(segs[..k], segs[k]);
    FlatSnoc(segs[..k - 1], segs[k - 1]);
  }

  /** Two neighbouring segments without gaps are in order as positions. */
  lemma NeighboursInOrder(segs: seq<seq<Change>>, k: nat)
    requires 0 < k < |segs| && segs[k - 1] != [] && segs[k] != []
    requires Increasing(Sent(Flat(segs))) && !HasGap(segs[k - 1]) && !HasGap(segs[k])
    ensures Last(segs[..k]) < segs[k][0].lsn
  {
    hide Sent, Flat, Increasing;
    var a, b := segs[k - 1], segs[k];
    var rest := FlatAround(segs, k);
    var x := Flat(segs[..k - 1]);
    SentConcat(x + a + b, rest);
    SentConcat(x + a, b);
    SentConcat(x, a);
    SentOfGapless(a);
    SentOfGapless(b);
    OrderedInside(Sent(x), a, b, Sent(rest));
  }

  ghost predicate OneWidth(stream: seq<Change>) {
    forall c, d | c in stream && d in stream :: Lsn.SameWidth(c.lsn, d.lsn)
  }

  lemma InFlat(segs: seq<seq<Change>>, k: nat, c: Change)
    requires k < |segs| && c in segs[k]
    ensures c in Flat(segs)
  {
    var rest := FlatSplit(segs, k + 1);
    assert segs[..k + 1] == segs[..k] + [segs[k]];
    FlatSnoc(segs[..k], segs[k]);
  }

  lemma NotInverted(stream: seq<Change>, segs: seq<seq<Change>>, k: nat)
    requires 0 < k < |segs| && segs[k - 1] != [] && segs[k] != [] && OneWidth(stream)
    requires Increasing(Sent(Flat(segs))) && forall c | c in Sent(Flat(segs)) :: c in stream
    ensures !Inverted(segs, k)
  {
    hide Increasing, Flat, Lsn.Before, Lsn.Text, Lsn.SameWidth;
    if !HasGap(segs[k - 1]) && !HasGap(segs[k]) {
      var c, d := segs[k - 1][|segs[k - 1]| - 1], segs[k][0];
      NeighboursInOrder(segs, k);
      InFlat(segs, k - 1, c);
      InFlat(segs, k, d);
      assert c in segs[k - 1] && d in segs[k];
      assert c in stream && d in stream;
      Lsn.TextOrder(d.lsn, c.lsn);
    }
  }

  /** Whatever a run did, crashes and safety valve included, the archive it leaves
      has no fatal finding, as long as all positions have texts of one width and
      every line fits the scanner. */
  lemma RunIsClean(
      sha: Hash, enc: Encoding, dec: Decoder, max: nat, stream: seq<Change>, at: nat, steps: seq<Step>,
      man: seq<Segment>, files: Files, listing: seq<nat>)
    requires Readable(enc, dec) && GoodStream(stream, at) && OneWidth(stream)
    requires Possible(enc, max, stream, Init(at), steps)
    requires Honest(sha, enc, man, files, End(enc, max, stream, Init(at), steps).rec.segs)
    requires AllSegmentsFit(enc, End(enc, max, stream, Init(at), steps).rec.segs)
    ensures NothingFatal(sha, dec, files, man, listing)
  {
    hide Readable, Honest, NothingFatal, Increasing, Flat, Inverted, OneWidth, Sent, Next, Allowed;
    var segs := End(enc, max, stream, Init(at), steps).rec.segs;
    AcknowledgedIsExplained(enc, max, stream, at, steps);
    HonestIsCleanIffTextOrdered(sha, enc, dec, man, files, segs, listing);
    forall k | 0 < k < |segs| && segs[k] != [] ensures !Inverted(segs, k) {
      NonEmptySegment(sha, enc, man, files, segs, k - 1);
      NotInverted(stream, segs, k);
    }
  }

  lemma NonEmptySegment(
      sha: Hash, enc: Encoding, man: seq<Segment>, files: Files, segs: seq<seq<Change>>, k: nat)
    requires Honest(sha, enc, man, files, segs) && k < |segs|
    ensures segs[k] != []
  {
    assert Recorded(sha, enc, man, files, segs, k);
  }

  /** Without one width the promise fails: an archive of two increasing changes,
      kept as written, is reported out of order. */
  lemma HonestArchiveAlarms(
      sha: Hash, enc: Encoding, dec: Decoder, man: seq<Segment>, files: Files, a: Change, b: Change, listing: seq<nat>)
    requires Readable(enc, dec) && a.RowChange? && b.RowChange?
    requires a.lsn == 0x900_0000 && b.lsn == 0x1000_0000
    requires Honest(sha, enc, man, files, [[a], [b]])
    ensures a.lsn < b.lsn && !NothingFatal(sha, dec, files, man, listing)
  {
    hide Readable, Honest, NothingFatal, Lsn.Before, Lsn.Text;
    var segs := [[a], [b]];
    Lsn.TextOrderFailsAcrossWidths();
    assert segs[..1] == [[a]];
    assert Inverted(segs, 1);
    HonestIsCleanIffTextOrdered(sha, enc, dec, man, files, segs, listing);
  }

  // ---------------------------------------------------------------------
  // What a clean archive proves
  // ---------------------------------------------------------------------

  /** The lines of segment `k` as read, and the entry's hashes over them. */
  ghost predicate Passed(sha: Hash, files: Files, man: seq<Segment>, k: nat)
    requires k < |man|
  {
    var seg := man[k];
    && ReadsThrough(files, seg)
    && sha(Text(Scan(files[seg.file]))) == seg.sum
    && seg.prev == PrevChain(man, k)
    && sha(ChainText(PrevChain(man, k), seg.sum)) == seg.chain
    && |Scan(files[seg.file])| == seg.count
  }

  ghost predicate AllPassed(sha: Hash, files: Files, man: seq<Segment>) {
    forall k | 0 <= k < |man| :: Passed(sha, files, man, k)
  }

  lemma CleanPasses(sha: Hash, dec: Decoder, files: Files, man: seq<Segment>, listing: seq<nat>)
    requires NothingFatal(sha, dec, files, man, listing)
    ensures AllPassed(sha, files, man)
  {
    hide Scan, Scans, Text, BadLines, StartsEarly, NothingFatal;
    CleanIff(sha, dec, files, man, listing);
    forall k | 0 <= k < |man| ensures Passed(sha, files, man, k) {
      assert SegmentFindings(sha, dec, files, man, k) == [];
    }
  }

  /** The texts hashed when an archive is verified. */
  ghost function Texts(files: Files, man: seq<Segment>): iset<string> {
    (iset k | 0 <= k < |man| && man[k].file in files :: Text(Scan(files[man[k].file]))) +
    (iset k | 0 <= k < |man| :: ChainText(PrevChain(man, k), man[k].sum))
  }

  lemma PassedPrefix(sha: Hash, files: Files, man: seq<Segment>)
    requires man != [] && AllPassed(sha, files, man)
    ensures AllPassed(sha, files, man[..|man| - 1])
    ensures Texts(files, man[..|man| - 1]) <= Texts(files, man)
  {
    hide Scan, Text, ChainText, LastChainOf;
    var init := man[..|man| - 1];
    assert forall k | 0 <= k < |init| :: init[k] == man[k] && init[..k] == man[..k];
    forall k | 0 <= k < |init| ensures Passed(sha, files, init, k) {
      assert Passed(sha, files, man, k);
    }
    forall t | t in Texts(files, init) ensures t in Texts(files, man) {
      if k :| 0 <= k < |init| && init[k].file in files && t == Text(Scan(files[init[k].file])) {
        assert man[k].file in files;
      } else {
        var j :| 0 <= j < |init| && t == ChainText(PrevChain(init, j), init[j].sum);
        assert t == ChainText(PrevChain(man, j), man[j].sum);
      }
    }
  }

  lemma ChainLength(sha: Hash, files: Files, man: seq<Segment>)
    requires HexDigest(sha) && AllPassed(sha, files, man)
    ensures Hashing.Clean(LastChainOf(man))
    ensures man == [] <==> LastChainOf(man) == ""
  {
    if man != [] {
      assert Passed(sha, files, man, |man| - 1);
    }
  }

  ghost predicate SameSegment(files: Files, man: seq<Segment>, files': Files, man': seq<Segment>, k: nat)
    requires k < |man| && k < |man'|
  {
    && man[k].file in files && man'[k].file in files'
    && Scan(files[man[k].file]) == Scan(files'[man'[k].file])
    && man[k].sum == man'[k].sum && man[k].prev == man'[k].prev && man[k].chain == man'[k].chain
    && man[k].count == man'[k].count
  }

  lemma LastSegmentSame(
      sha: Hash, texts: iset<string>, files: Files, man: seq<Segment>, files': Files, man': seq<Segment>)
    requires HexDigest(sha) && CollisionFree(sha, texts) && Texts(files, man) <= texts && Texts(files', man') <= texts
    requires man != [] && man' != [] && AllPassed(sha, files, man) && AllPassed(sha, files', man')
    requires LastChainOf(man) == LastChainOf(man')
    ensures PrevChain(man, |man| - 1) == PrevChain(man', |man'| - 1)
    ensures var a, b := man[|man| - 1], man'[|man'| - 1];
      && a.file in files && b.file in files' && Scan(files[a.file]) == Scan(files'[b.file])
      && a.sum == b.sum && a.prev == b.prev && a.chain == b.chain && a.count == b.count
  {
    hide Scan, Text, CollisionFree, AllPassed;
    var a, b := man[|man| - 1], man'[|man'| - 1];
    var p, q := PrevChain(man, |man| - 1), PrevChain(man', |man'| - 1);
    LastPassed(sha, files, man);
    LastPassed(sha, files', man');
    SameText(sha, texts, ChainText(p, a.sum), ChainText(q, b.sum));
    PassedPrefix(sha, files, man);
    PassedPrefix(sha, files', man');
    ChainLength(sha, files, man[..|man| - 1]);
    ChainLength(sha, files', man'[..|man'| - 1]);
    FirstFieldEqual(p, a.sum, q, b.sum);
    SameText(sha, texts, Text(Scan(files[a.file])), Text(Scan(files'[b.file])));
    TextInjective(Scan(files[a.file]), Scan(files'[b.file]));
  }

  lemma SameText(sha: Hash, texts: iset<string>, x: string, y: string)
    requires CollisionFree(sha, texts) && x in texts && y in texts && sha(x) == sha(y)
    ensures x == y
  {
  }

  lemma LastPassed(sha: Hash, files: Files, man: seq<Segment>)
    requires man != [] && AllPassed(sha, files, man)
    ensures Passed(sha, files, man, |man| - 1)
    ensures var a := man[|man| - 1];
      && Text(Scan(files[a.file])) in Texts(files, man)
      && ChainText(PrevChain(man, |man| - 1), a.sum) in Texts(files, man)
  {
    hide Scan, Text;
    assert Passed(sha, files, man, |man| - 1);
  }

  lemma {:induction false} SameChainSameSegments(
      sha: Hash, texts: iset<string>, files: Files, man: seq<Segment>, files': Files, man': seq<Segment>)
    requires HexDigest(sha) && CollisionFree(sha, texts) && Texts(files, man) <= texts && Texts(files', man') <= texts
    requires AllPassed(sha, files, man) && AllPassed(sha, files', man')
    requires LastChainOf(man) == LastChainOf(man')
    ensures |man| == |man'|
    ensures forall k | 0 <= k < |man| :: SameSegment(files, man, files', man', k)
    decreases |man|
  {
    hide Scan, Text, CollisionFree, AllPassed, HexDigest, Texts, LastChainOf;
    ChainLength(sha, files, man);
    ChainLength(sha, files', man');
    if man != [] {
      var init, init' := man[..|man| - 1], man'[..|man'| - 1];
      LastSegmentSame(sha, texts, files, man, files', man');
      PassedPrefix(sha, files, man);
      PassedPrefix(sha, files', man');
      SameChainSameSegments(sha, texts, files, init, files', init');
      forall k | 0 <= k < |man| ensures SameSegment(files, man, files', man', k) {
        if k < |man| - 1 {
          assert SameSegment(files, init, files', init', k);
        }
      }
    }
  }

  /** Two archives that both verify without a fatal finding and end in the same
      chain value have the same number of segments, and the same lines in each. */
  lemma SameChainSameLines(
      sha: Hash, dec: Decoder, texts: iset<string>,
      files: Files, man: seq<Segment>, listing: seq<nat>, files': Files, man': seq<Segment>, listing': seq<nat>)
    requires HexDigest(sha) && CollisionFree(sha, texts) && Texts(files, man) <= texts && Texts(files', man') <= texts
    requires NothingFatal(sha, dec, files, man, listing) && NothingFatal(sha, dec, files', man', listing')
    requires LastChainOf(man) == LastChainOf(man')
    ensures |man| == |man'|
    ensures forall k | 0 <= k < |man| :: SameSegment(files, man, files', man', k)
  {
    CleanPasses(sha, dec, files, man, listing);
    CleanPasses(sha, dec, files', man', listing');
    SameChainSameSegments(sha, texts, files, man, files', man');
  }

  // ---------------------------------------------------------------------
  // Which edits of a file are seen
  // ---------------------------------------------------------------------

  /** Replacing the file of one segment of an honest archive is reported as
      unreadable exactly when a line no longer fits, and as tampering exactly when
      all fit and the lines read from it differ. */
  lemma EditSeenIffLinesDiffer(
      sha: Hash, enc: Encoding, dec: Decoder, man: seq<Segment>, files: Files, segs: seq<seq<Change>>, k: nat,
      text: string)
    requires Readable(enc, dec) && Honest(sha, enc, man, files, segs) && k < |man| && k + 1 in files
    requires Scans(files[k + 1])
    requires CollisionFree(sha, iset{Text(Scan(text)), Text(Scan(files[k + 1]))})
    ensures var findings := SegmentFindings(sha, dec, files[k + 1 := text], man, k);
      && (Finding(k + 1, Unreadable) in findings <==> !Scans(text))
      && (Finding(k + 1, Tampered) in findings <==> Scans(text) && Scan(text) != Scan(files[k + 1]))
  {
    hide Readable, ManifestEntry, BadLines, StartsEarly, Scan, Scans, Text, Fits;
    HonestRecorded(sha, enc, man, files, segs, k);
    HonestLines(sha, enc, dec, man, files, segs, k);
    HonestContent(sha, enc, dec, man, files, segs, k);
    var was, now := Scan(files[k + 1]), Scan(text);
    assert sha(Text(was)) == man[k].sum;
    if sha(Text(now)) == sha(Text(was)) {
      assert Text(now) == Text(was);
      TextInjective(now, was);
    }
  }

  ghost predicate SameLines(files: Files, files': Files) {
    && files.Keys == files'.Keys
    && forall f | f in files :: Scan(files[f]) == Scan(files'[f]) && (Scans(files[f]) <==> Scans(files'[f]))
  }

  /** Verification depends on the lines of the files and on nothing else. */
  lemma OnlyLinesMatter(
      sha: Hash, dec: Decoder, files: Files, files': Files, man: seq<Segment>, listing: seq<nat>)
    requires SameLines(files, files')
    ensures Findings(sha, dec, files, man, listing) == Findings(sha, dec, files', man, listing)
  {
    hide Scan, Scans, Text, BadLines;
    OnlyLinesMatterUpto(sha, dec, files, files', man, |man|);
  }

  lemma {:induction false} OnlyLinesMatterUpto(
      sha: Hash, dec: Decoder, files: Files, files': Files, man: seq<Segment>, k: nat)
    requires k <= |man|
    requires SameLines(files, files')
    ensures PrevEnd(files, man, k) == PrevEnd(files', man, k)
    ensures FindingsUpto(sha, dec, files, man, k) == FindingsUpto(sha, dec, files', man, k)
    decreases k
  {
    hide Scan, Scans, Text, BadLines, ContentVerdict;
    if k > 0 {
      OnlyLinesMatterUpto(sha, dec, files, files', man, k - 1);
      forall seg ensures HoldsGap(dec, files, seg) <==> HoldsGap(dec, files', seg) {}
    }
  }

  /** So a carriage return put at the end of any line of a readable segment changes
      the file and is not reported, as long as the line still fits. */
  lemma CarriageReturnUnseen(
      sha: Hash, enc: Encoding, dec: Decoder, man: seq<Segment>, files: Files, segs: seq<seq<Change>>, k: nat, i: nat,
      listing: seq<nat>)
    requires Readable(enc, dec) && Honest(sha, enc, man, files, segs) && k < |man| && i < |segs[k]|
    requires Fits(enc, segs[k]) && |enc(segs[k][i])| + 1 < 64 * 1024 * 1024
    ensures var lines := Lines(enc, segs[k]);
      var files' := files[k + 1 := Text(lines[i := lines[i] + "\r"])];
      files' != files && Findings(sha, dec, files', man, listing) == Findings(sha, dec, files, man, listing)
  {
    hide Findings, Text, Honest, Scan, Scans, BUFFER;
    HonestRecorded(sha, enc, man, files, segs, k);
    HonestLines(sha, enc, dec, man, files, segs, k);
    var lines := Lines(enc, segs[k]);
    var edited := lines[i := lines[i] + "\r"];
    var files' := files[k + 1 := Text(edited)];
    forall j | 0 <= j < |lines|
      ensures Plain(lines[j]) && '\n' !in edited[j] && DropCr(edited[j]) == lines[j] && |edited[j]| < 64 * 1024 * 1024
    {
      assert lines[j] == enc(segs[k][j]) && segs[k][j] in segs[k];
    }
    ScanText(edited);
    assert Scan(Text(edited)) == lines;
    assert |edited[i]| == |lines[i]| + 1;
    DifferentText(edited, lines);
    assert files'[k + 1] != files[k + 1];
    OnlyLinesMatter(sha, dec, files', files, man, listing);
  }

  lemma DifferentText(a: seq<string>, b: seq<string>)
    requires (forall l | l in a :: '\n' !in l) && (forall l | l in b :: '\n' !in l) && a != b
    ensures Text(a) != Text(b)
  {
    if Text(a) == Text(b) {
      TextInjective(a, b);
    }
  }

  lemma HonestRecorded(
      sha: Hash, enc: Encoding, man: seq<Segment>, files: Files, segs: seq<seq<Change>>, k: nat)
    requires Honest(sha, enc, man, files, segs) && k < |man|
    ensures Recorded(sha, enc, man, files, segs, k)
  {
  }
}
