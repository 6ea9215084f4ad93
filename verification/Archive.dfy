/** The companion's archive: numbered segments of records, entered in a chained
    manifest when they are closed. */
module Archive {
  import opened Options
  import opened JsonValues
  import opened Capture
  import opened Hashing

  /** One archived record.  Gap records carry no row data: a change without a
      key, a truncate, or a range the safety valve skipped. */
  datatype Change =
    | RowChange(lsn: nat, table: string, op: Op, pk: Row, before: Option<Row>, after: Option<Row>)
    | KeylessGap(lsn: nat, table: string)
    | TruncateGap(lsn: nat, table: string)
    | SkippedGap(lsn: nat, from: nat, to: nat)
  {
    predicate IsGap() {
      !RowChange?
    }
  }

  /** How a record is written on its line. */
  type Encoding = Change -> string

  /** `file` is the number in the segment file's name. */
  datatype Segment = Segment(
    number: nat, file: nat, startLsn: nat, endLsn: nat, count: nat, bytes: nat, sum: string, prev: string, chain: string)

  function Lines(enc: Encoding, cs: seq<Change>): (r: seq<string>)
    ensures |r| == |cs|
  {
    seq(|cs|, i requires 0 <= i < |cs| => enc(cs[i]))
  }

  /** The bytes of a segment file. */
  function Text(lines: seq<string>): string {
    if lines == [] then "" else Text(lines[..|lines| - 1]) + lines[|lines| - 1] + "\n"
  }

  function ChainText(prev: string, sum: string): string {
    prev + "|" + sum
  }

  function LastChainOf(man: seq<Segment>): string {
    if man == [] then "" else man[|man| - 1].chain
  }

  /** The manifest entry of a segment closed behind a given manifest. */
  function ManifestEntry(sha: Hash, enc: Encoding, man: seq<Segment>, cs: seq<Change>): Segment
    requires cs != []
  {
    var text := Text(Lines(enc, cs));
    var prev, sum := LastChainOf(man), sha(text);
    Segment(|man| + 1, |man| + 1, cs[0].lsn, cs[|cs| - 1].lsn, |cs|, |text|, sum, prev, sha(ChainText(prev, sum)))
  }

  /** The entry and the file of segment `i` are those of the records `segs[i]`. */
  ghost predicate Recorded(
      sha: Hash, enc: Encoding, man: seq<Segment>, files: map<nat, string>, segs: seq<seq<Change>>, i: nat)
  {
    && i < |man| && i < |segs| && segs[i] != []
    && man[i] == ManifestEntry(sha, enc, man[..i], segs[i])
    && i + 1 in files && files[i + 1] == Text(Lines(enc, segs[i]))
  }

  ghost predicate Honest(
      sha: Hash, enc: Encoding, man: seq<Segment>, files: map<nat, string>, segs: seq<seq<Change>>)
  {
    |man| == |segs| && forall i | 0 <= i < |man| :: Recorded(sha, enc, man, files, segs, i)
  }

  /** Writing the file of a segment not yet in the manifest changes none that is. */
  lemma OpenFileKeepsHonest(
      sha: Hash, enc: Encoding, man: seq<Segment>, files: map<nat, string>, segs: seq<seq<Change>>, text: string)
    requires Honest(sha, enc, man, files, segs)
    ensures Honest(sha, enc, man, files[|man| + 1 := text], segs)
  {
    hide ManifestEntry;
    var files' := files[|man| + 1 := text];
    forall i | 0 <= i < |man| ensures Recorded(sha, enc, man, files', segs, i) {
      assert Recorded(sha, enc, man, files, segs, i);
    }
  }

  lemma CloseKeepsHonest(
      sha: Hash, enc: Encoding, man: seq<Segment>, files: map<nat, string>, segs: seq<seq<Change>>, cs: seq<Change>)
    requires Honest(sha, enc, man, files, segs) && cs != []
    requires |man| + 1 in files && files[|man| + 1] == Text(Lines(enc, cs))
    ensures Honest(sha, enc, man + [ManifestEntry(sha, enc, man, cs)], files, segs + [cs])
  {
    hide ManifestEntry;
    var man', segs' := man + [ManifestEntry(sha, enc, man, cs)], segs + [cs];
    forall i | 0 <= i < |man'| ensures Recorded(sha, enc, man', files, segs', i) {
      if i < |man| {
        assert Recorded(sha, enc, man, files, segs, i);
        assert man'[..i] == man[..i];
      } else {
        assert man'[..i] == man;
      }
    }
  }

  // ---------------------------------------------------------------------
  // What append and rotate do to the records
  // ---------------------------------------------------------------------

  /** The closed segments and the records of the open one. */
  datatype Records = Records(segs: seq<seq<Change>>, pending: seq<Change>)

  function Close(r: Records): Records {
    if r.pending == [] then r else Records(r.segs + [r.pending], [])
  }

  function Bytes(enc: Encoding, cs: seq<Change>): nat {
    |Text(Lines(enc, cs))|
  }

  /** A segment is closed as soon as it reaches the size limit. */
  function Add(enc: Encoding, max: nat, r: Records, c: Change): Records {
    var pending := r.pending + [c];
    if Bytes(enc, pending) >= max then Close(Records(r.segs, pending)) else Records(r.segs, pending)
  }

  lemma LinesSnoc(enc: Encoding, cs: seq<Change>, c: Change)
    ensures Lines(enc, cs + [c]) == Lines(enc, cs) + [enc(c)]
    ensures Text(Lines(enc, cs + [c])) == Text(Lines(enc, cs)) + enc(c) + "\n"
  {
    var lines := Lines(enc, cs + [c]);
    assert lines[..|lines| - 1] == Lines(enc, cs);
  }

  class Archive {
    const sha: Hash
    const enc: Encoding
    const maxBytes: nat
    var man: seq<Segment>
    var files: map<nat, string>
    var isOpen: bool
    var curSeq: nat
    var curStart: Option<nat>
    var curEnd: nat
    var curCount: nat
    var curBytes: nat
    var hasher: string
    ghost var segs: seq<seq<Change>>
    ghost var pending: seq<Change>

    ghost predicate Valid()
      reads this
    {
      && Honest(sha, enc, man, files, segs)
      && (isOpen <==> pending != [])
      && (isOpen ==> OpenFor(pending))
    }

    /** The open file and the running totals are those of `cs`. */
    ghost predicate OpenFor(cs: seq<Change>)
      reads this
    {
      && curSeq == |man| + 1 && curSeq in files && files[curSeq] == Text(Lines(enc, cs))
      && hasher == files[curSeq] && curBytes == |hasher| && curCount == |cs|
      && (cs == [] ==> curStart.None?)
      && (cs != [] ==> curStart == Some(cs[0].lsn) && curEnd == cs[|cs| - 1].lsn)
    }

    ghost function Value(): Records
      reads this
    {
      Records(segs, pending)
    }

    /** Opening a directory that holds no manifest yet. */
    constructor (sha: Hash, enc: Encoding, maxBytes: nat)
      ensures Valid() && Value() == Records([], [])
      ensures this.sha == sha && this.enc == enc && this.maxBytes == maxBytes
    {
      this.sha, this.enc, this.maxBytes := sha, enc, maxBytes;
      man, files, isOpen, curSeq, curStart, curEnd, curCount, curBytes, hasher :=
        [], map[], false, 0, None, 0, 0, 0, "";
      segs, pending := [], [];
    }

    /** The process died and a new one opens the directory: the manifest and the
        closed files are as they were, and the file of the segment then open
        holds whatever reached the disk. */
    method Reopen(left: string)
      requires Valid()
      modifies this
      ensures Valid() && Value() == Records(old(segs), []) && man == old(man)
    {
      if isOpen {
        OpenFileKeepsHonest(sha, enc, man, files, segs, left);
        files := files[curSeq := left];
      }
      isOpen := false;
      pending := [];
    }

    /** The last LSN durably in the archive. */
    method ResumeLSN() returns (lsn: Option<nat>)
      requires Valid()
      ensures lsn == if segs == [] then None else Some(Last(segs))
    {
      if |man| == 0 {
        return None;
      }
      assert Recorded(sha, enc, man, files, segs, |man| - 1);
      return Some(man[|man| - 1].endLsn);
    }

    /** Starts the next segment's file, cutting off what a killed process may
        have left under that number. */
    method Open()
      requires Valid() && !isOpen
      modifies this
      ensures Honest(sha, enc, man, files, segs) && isOpen && OpenFor([])
      ensures man == old(man) && segs == old(segs) && pending == old(pending)
    {
      hide Honest;
      curSeq := |man| + 1;
      OpenFileKeepsHonest(sha, enc, man, files, segs, "");
      files := files[curSeq := ""];
      isOpen, curCount, curBytes, curStart, hasher := true, 0, 0, None, "";
    }

    /** Writes one line to the open file and into the running totals. */
    method WriteLine(c: Change)
      requires Honest(sha, enc, man, files, segs) && isOpen && OpenFor(pending)
      modifies `files, `hasher, `curBytes, `curCount, `curStart, `curEnd, `pending
      ensures Honest(sha, enc, man, files, segs) && pending == old(pending) + [c] && OpenFor(pending)
    {
      hide Honest, Lines, Text;
      var line := enc(c);
      OpenFileKeepsHonest(sha, enc, man, files, segs, files[curSeq] + line + "\n");
      LinesSnoc(enc, pending, c);
      files := files[curSeq := files[curSeq] + line + "\n"];
      hasher := hasher + line + "\n";
      curBytes := curBytes + |line| + 1;
      curCount := curCount + 1;
      if curStart.None? {
        curStart := Some(c.lsn);
      }
      curEnd := c.lsn;
      pending := pending + [c];
    }

    method Append(c: Change)
      requires Valid()
      modifies this
      ensures Valid() && Value() == Add(enc, maxBytes, old(Value()), c)
      ensures var cs := old(pending) + [c];
        if |Text(Lines(enc, cs))| >= maxBytes then segs == old(segs) + [cs] && pending == []
        else segs == old(segs) && pending == cs
    {
      hide Honest, Lines, Text;
      if !isOpen {
        Open();
      }
      WriteLine(c);
      if curBytes >= maxBytes {
        Rotate();
      }
    }

    /** Closes the open segment, and only then enters it in the manifest. */
    method Rotate()
      requires Valid()
      modifies this
      ensures Valid() && Value() == Close(old(Value()))
    {
      hide Honest;
      if !isOpen || curCount == 0 {
        return;
      }
      isOpen := false;
      var sum := sha(hasher);
      var prev := LastChainOf(man);
      var chain := sha(prev + "|" + sum);
      CloseKeepsHonest(sha, enc, man, files, segs, pending);
      man := man + [Segment(curSeq, curSeq, curStart.value, curEnd, curCount, curBytes, sum, prev, chain)];
      segs, pending := segs + [pending], [];
    }
  }

  /** The LSN of the last record of the last closed segment. */
  function Last(segs: seq<seq<Change>>): nat
    requires segs != []
  {
    var s := segs[|segs| - 1];
    if s == [] then 0 else s[|s| - 1].lsn
  }
}
