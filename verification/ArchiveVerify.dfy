/** Verifying an archive without a database: re-hash every segment, re-walk the
    chain, and look at the order of the segments. */
module ArchiveVerify {
  import opened Options
  import opened Hashing
  import opened Archive
  import opened Scanning
  import Lsn

  datatype Verdict =
    | Missing | Unreadable | Tampered | ChainBroken | ManifestForged | Truncated | Corrupt | OutOfOrder | Unrecorded

  datatype Finding = Finding(segment: int, verdict: Verdict) {
    predicate Fatal() {
      verdict != Unrecorded
    }
  }

  /** Reading a line as a change record; none if it is not one. */
  type Decoder = string -> Option<Change>

  type Files = map<nat, string>

  predicate IsGapLine(dec: Decoder, line: string) {
    dec(line).Some? && dec(line).value.IsGap()
  }

  function BadLines(dec: Decoder, lines: seq<string>): nat {
    if lines == [] then 0
    else BadLines(dec, lines[..|lines| - 1]) + if dec(lines[|lines| - 1]).None? then 1 else 0
  }

  predicate HoldsGap(dec: Decoder, files: Files, seg: Segment) {
    seg.file in files && exists l | l in Scan(files[seg.file]) :: IsGapLine(dec, l)
  }

  predicate Adjoins(seg: Segment, number: nat) {
    seg.number == number || seg.number == number - 1
  }

  /** A gap is recorded in this segment or in the one before it. */
  predicate GapRecorded(dec: Decoder, files: Files, man: seq<Segment>, number: nat) {
    exists seg | seg in man :: Adjoins(seg, number) && HoldsGap(dec, files, seg)
  }

  /** The first of the checks on one segment's content and entry that fails. */
  function ContentVerdict(
      sha: Hash, dec: Decoder, prevChain: string, seg: Segment, lines: seq<string>): Option<Verdict>
  {
    if sha(Text(lines)) != seg.sum then Some(Tampered)
    else if seg.prev != prevChain then Some(ChainBroken)
    else if sha(ChainText(prevChain, seg.sum)) != seg.chain then Some(ManifestForged)
    else if |lines| != seg.count then Some(Truncated)
    else if BadLines(dec, lines) > 0 then Some(Corrupt)
    else None
  }

  function PrevChain(man: seq<Segment>, k: nat): string
    requires k <= |man|
  {
    LastChainOf(man[..k])
  }

  predicate ReadsThrough(files: Files, seg: Segment) {
    seg.file in files && Scans(files[seg.file])
  }

  /** Where the last segment before `k` that could be read ended. */
  function PrevEnd(files: Files, man: seq<Segment>, k: nat): Option<nat>
    requires k <= |man|
  {
    if k == 0 then None
    else if ReadsThrough(files, man[k - 1]) then Some(man[k - 1].endLsn)
    else PrevEnd(files, man, k - 1)
  }

  /** Positions are compared as text. */
  predicate StartsEarly(dec: Decoder, files: Files, man: seq<Segment>, k: nat)
    requires k < |man|
  {
    var prevEnd := PrevEnd(files, man, k);
    && prevEnd.Some? && !GapRecorded(dec, files, man, man[k].number)
    && Lsn.Before(Lsn.Text(man[k].startLsn), Lsn.Text(prevEnd.value))
  }

  function SegmentFindings(sha: Hash, dec: Decoder, files: Files, man: seq<Segment>, k: nat): seq<Finding>
    requires k < |man|
  {
    var seg := man[k];
    if seg.file !in files then [Finding(seg.number, Missing)]
    else if !Scans(files[seg.file]) then [Finding(seg.number, Unreadable)]
    else
      var v := ContentVerdict(sha, dec, PrevChain(man, k), seg, Scan(files[seg.file]));
      (if v.Some? then [Finding(seg.number, v.value)] else []) +
      (if StartsEarly(dec, files, man, k) then [Finding(seg.number, OutOfOrder)] else [])
  }

  function FindingsUpto(sha: Hash, dec: Decoder, files: Files, man: seq<Segment>, k: nat): (r: seq<Finding>)
    requires k <= |man|
    ensures forall f | f in r :: f.Fatal()
  {
    if k == 0 then []
    else FindingsUpto(sha, dec, files, man, k - 1) + SegmentFindings(sha, dec, files, man, k - 1)
  }

  function Notices(files: seq<nat>, known: set<nat>): (r: seq<Finding>)
    ensures forall f | f in r :: !f.Fatal()
  {
    if files == [] then []
    else
      Notices(files[..|files| - 1], known) +
      if files[|files| - 1] in known then [] else [Finding(-1, Unrecorded)]
  }

  function KnownFiles(man: seq<Segment>): set<nat> {
    set s | s in man :: s.file
  }

  /** Every finding, the fatal ones first.  `listing` is the directory. */
  function Findings(sha: Hash, dec: Decoder, files: Files, man: seq<Segment>, listing: seq<nat>): seq<Finding> {
    FindingsUpto(sha, dec, files, man, |man|) + Notices(listing, KnownFiles(man))
  }

  predicate NothingFatal(sha: Hash, dec: Decoder, files: Files, man: seq<Segment>, listing: seq<nat>) {
    forall f | f in Findings(sha, dec, files, man, listing) :: !f.Fatal()
  }

  /** The files of a listing that no manifest entry covers. */
  function Uncovered(files: seq<nat>, man: seq<Segment>): set<nat> {
    set f | f in files && forall s | s in man :: s.file != f
  }

  lemma UncoveredSnoc(init: seq<nat>, f: nat, man: seq<Segment>)
    requires f !in init
    ensures f !in Uncovered(init, man)
    ensures Uncovered(init + [f], man) == Uncovered(init, man) + if f in KnownFiles(man) then {} else {f}
  {
    assert f in KnownFiles(man) <==> exists s :: s in man && s.file == f;
    assert forall g :: g in init + [f] <==> g in init || g == f;
  }

  /** Each file the directory holds and the manifest does not gives one notice, and no
      covered file gives one. */
  lemma {:induction false} OneNoticeEach(files: seq<nat>, man: seq<Segment>)
    requires forall i, j | 0 <= i < j < |files| :: files[i] != files[j]
    ensures var notices := Notices(files, KnownFiles(man));
      |notices| == |Uncovered(files, man)| && forall f | f in notices :: f == Finding(-1, Unrecorded)
    decreases |files|
  {
    if files == [] {
      assert Uncovered(files, man) == {};
    } else {
      var init, f := files[..|files| - 1], files[|files| - 1];
      assert files == init + [f];
      OneNoticeEach(init, man);
      assert f !in init;
      UncoveredSnoc(init, f, man);
    }
  }

  lemma {:induction false} BadLinesIff(dec: Decoder, lines: seq<string>)
    ensures BadLines(dec, lines) > 0 <==> exists l :: l in lines && dec(l).None?
  {
    if lines != [] {
      var init, last := lines[..|lines| - 1], lines[|lines| - 1];
      assert lines == init + [last];
      BadLinesIff(dec, init);
    }
  }

  /** What each verdict on the content of a segment that could be read says; the checks
      before it passed. */
  lemma ContentVerdictTells(sha: Hash, dec: Decoder, prevChain: string, seg: Segment, lines: seq<string>)
    ensures var v := ContentVerdict(sha, dec, prevChain, seg, lines);
      var same, follows := sha(Text(lines)) == seg.sum, seg.prev == prevChain;
      var sealed, counted := seg.chain == sha(prevChain + "|" + seg.sum), |lines| == seg.count;
      var broken := exists l :: l in lines && dec(l).None?;
      && (v == None <==> same && follows && sealed && counted && !broken)
      && (v == Some(Tampered) <==> !same)
      && (v == Some(ChainBroken) <==> same && !follows)
      && (v == Some(ManifestForged) <==> same && follows && !sealed)
      && (v == Some(Truncated) <==> same && follows && sealed && !counted)
      && (v == Some(Corrupt) <==> same && follows && sealed && counted && broken)
  {
    hide BadLines, Text;
    BadLinesIff(dec, lines);
  }

  // ---------------------------------------------------------------------
  // The loops
  // ---------------------------------------------------------------------

  /** The files of the directory that no manifest entry covers. */
  method ListUnrecorded(man: seq<Segment>, listing: seq<nat>) returns (out: seq<Finding>)
    ensures out == Notices(listing, KnownFiles(man))
  {
    var known: set<nat> := {};
    for i := 0 to |man|
      invariant known == KnownFiles(man[..i])
    {
      assert man[..i + 1] == man[..i] + [man[i]];
      known := known + {man[i].file};
    }
    assert man[..|man|] == man;
    out := [];
    for i := 0 to |listing|
      invariant out == Notices(listing[..i], known)
    {
      assert listing[..i + 1][..i] == listing[..i];
      if listing[i] !in known {
        out := out + [Finding(-1, Unrecorded)];
      }
    }
    assert listing[..|listing|] == listing;
  }

  method FindGap(dec: Decoder, files: Files, man: seq<Segment>, number: nat) returns (found: bool)
    ensures found == GapRecorded(dec, files, man, number)
  {
    for i := 0 to |man|
      invariant forall j | 0 <= j < i :: !(Adjoins(man[j], number) && HoldsGap(dec, files, man[j]))
    {
      var seg := man[i];
      if !Adjoins(seg, number) || seg.file !in files {
        continue;
      }
      var lines := Scan(files[seg.file]);
      for n := 0 to |lines|
        invariant forall m | 0 <= m < n :: !IsGapLine(dec, lines[m])
      {
        if IsGapLine(dec, lines[n]) {
          assert seg in man && lines[n] in lines;
          return true;
        }
      }
    }
    return false;
  }

  /** What one segment's lines hash to, how many there are, how many are no
      records, and whether the scan failed. */
  method ReadSegment(dec: Decoder, text: string) returns (hashed: string, lines: nat, badJson: nat, failed: bool)
    ensures var scanned := Scan(text);
      hashed == Text(scanned) && lines == |scanned| && badJson == BadLines(dec, scanned) && failed == !Scans(text)
  {
    var scanned := Scan(text);
    hashed, lines, badJson, failed := "", 0, 0, !Scans(text);
    for i := 0 to |scanned|
      invariant hashed == Text(scanned[..i]) && lines == i && badJson == BadLines(dec, scanned[..i])
    {
      assert scanned[..i + 1][..i] == scanned[..i];
      hashed := hashed + scanned[i] + "\n";
      lines := lines + 1;
      if dec(scanned[i]).None? {
        badJson := badJson + 1;
      }
    }
    assert scanned[..|scanned|] == scanned;
  }

  method CheckContent(sha: Hash, dec: Decoder, prevChain: string, seg: Segment, text: string)
    returns (failed: bool, verdict: Option<Verdict>)
    ensures failed == !Scans(text)
    ensures !failed ==> verdict == ContentVerdict(sha, dec, prevChain, seg, Scan(text))
  {
    var hashed, lines, badJson;
    hashed, lines, badJson, failed := ReadSegment(dec, text);
    if failed {
      return true, Some(Unreadable);
    }
    if sha(hashed) != seg.sum {
      return false, Some(Tampered);
    } else if seg.prev != prevChain {
      return false, Some(ChainBroken);
    } else if sha(prevChain + "|" + seg.sum) != seg.chain {
      return false, Some(ManifestForged);
    } else if lines != seg.count {
      return false, Some(Truncated);
    } else if badJson > 0 {
      return false, Some(Corrupt);
    }
    return false, None;
  }

  lemma FindingsSnoc(sha: Hash, dec: Decoder, files: Files, man: seq<Segment>, k: nat)
    requires k < |man|
    ensures FindingsUpto(sha, dec, files, man, k + 1)
      == FindingsUpto(sha, dec, files, man, k) + SegmentFindings(sha, dec, files, man, k)
  {
  }

  lemma StartsEmpty(sha: Hash, dec: Decoder, files: Files, man: seq<Segment>)
    ensures FindingsUpto(sha, dec, files, man, 0) == []
  {
  }

  method VerifyArchive(sha: Hash, dec: Decoder, files: Files, man: seq<Segment>, listing: seq<nat>)
    returns (out: seq<Finding>)
    ensures out == Findings(sha, dec, files, man, listing)
  {
    hide Scan, Scans, GapRecorded, BadLines, Text, Lsn.Text, Lsn.Before, FindingsUpto, Notices, ContentVerdict, KnownFiles;
    StartsEmpty(sha, dec, files, man);
    out := [];
    var prevChain := "";
    var prevEnd: Option<nat> := None;
    for k := 0 to |man|
      invariant prevChain == PrevChain(man, k) && prevEnd == PrevEnd(files, man, k)
      invariant out == FindingsUpto(sha, dec, files, man, k)
    {
      var seg := man[k];
      assert man[..k + 1][k] == seg;
      FindingsSnoc(sha, dec, files, man, k);
      if seg.file !in files {
        out := out + [Finding(seg.number, Missing)];
        prevChain := seg.chain;
        continue;
      }
      var failed, content := CheckContent(sha, dec, prevChain, seg, files[seg.file]);
      if failed {
        out := out + [Finding(seg.number, Unreadable)];
        prevChain := seg.chain;
        continue;
      }
      var found := if content.Some? then [Finding(seg.number, content.value)] else [];
      var gap := FindGap(dec, files, man, seg.number);
      if prevEnd.Some? && !gap && Lsn.Before(Lsn.Text(seg.startLsn), Lsn.Text(prevEnd.value)) {
        found := found + [Finding(seg.number, OutOfOrder)];
      }
      out := out + found;
      prevChain := seg.chain;
      prevEnd := Some(seg.endLsn);
    }
    var notices := ListUnrecorded(man, listing);
    out := out + notices;
  }
}
