/** The stream as the server makes it from its log: each transaction's changes in log
    order, transactions in the order they commit, each change at the position of its
    log record.  Which logs give a stream that exactly-once archiving needs. */
module CommitOrder {
  import opened Archive
  import opened Delivery
  import opened ExactlyOnce

  /** A log record: the rows one record carries, or the commit of a transaction.  A
      transaction that aborts has no commit. */
  datatype Record =
    | Rows(lsn: nat, xid: int, changes: seq<Change>)
    | Commit(lsn: nat, xid: int)
  {
    predicate Writes(x: int) {
      Rows? && xid == x && changes != []
    }

    predicate Commits(x: int) {
      Commit? && xid == x
    }
  }

  /** Records follow each other in the log, and a transaction writes none after its commit. */
  ghost predicate Wal(wal: seq<Record>) {
    && (forall i, j | 0 <= i < j < |wal| :: wal[i].lsn < wal[j].lsn && (wal[i].Commit? ==> wal[j].xid != wal[i].xid))
    && (forall i, c | 0 <= i < |wal| && wal[i].Rows? && c in wal[i].changes :: c.lsn == wal[i].lsn)
  }

  function ChangesOf(wal: seq<Record>, x: int): seq<Change> {
    if wal == [] then [] else
      var init, r := wal[..|wal| - 1], wal[|wal| - 1];
      ChangesOf(init, x) + if r.Writes(x) then r.changes else []
  }

  function Stream(wal: seq<Record>): seq<Change> {
    if wal == [] then [] else
      var init, r := wal[..|wal| - 1], wal[|wal| - 1];
      Stream(init) + if r.Commit? then ChangesOf(init, r.xid) else []
  }

  ghost predicate Committed(wal: seq<Record>, x: int) {
    exists k :: 0 <= k < |wal| && wal[k].Commits(x)
  }

  /** No record of a committed transaction carries two rows. */
  ghost predicate OneRowEach(wal: seq<Record>) {
    forall i, x | 0 <= i < |wal| && wal[i].Writes(x) && Committed(wal, x) :: |wal[i].changes| == 1
  }

  /** Transaction `x` writes a row, then `y` writes one and commits first. */
  ghost predicate Interleaved(wal: seq<Record>) {
    exists x, y, i, j, c, d :: Overtakes(wal, x, y, i, j, c, d)
  }

  predicate Overtakes(wal: seq<Record>, x: int, y: int, i: int, j: int, c: int, d: int) {
    0 <= i < j < |wal| && 0 <= c < d < |wal| && wal[i].Writes(x) && wal[j].Writes(y) && wal[c].Commits(y) && wal[d].Commits(x)
  }

  // ---------------------------------------------------------------------
  // What the stream holds
  // ---------------------------------------------------------------------

  ghost predicate WrittenBy(wal: seq<Record>, x: int, c: Change) {
    exists i :: 0 <= i < |wal| && wal[i].Writes(x) && c in wal[i].changes
  }

  lemma WalPrefix(init: seq<Record>, r: Record)
    requires Wal(init + [r])
    ensures Wal(init) && !(r.Rows? && Committed(init, r.xid)) && !(r.Commit? && Committed(init, r.xid))
    ensures forall i | 0 <= i < |init| :: init[i].lsn < r.lsn
    ensures r.Rows? ==> forall c | c in r.changes :: c.lsn == r.lsn
    ensures (init + [r])[..|init|] == init
  {
    var wal := init + [r];
    assert forall i | 0 <= i < |init| :: wal[i] == init[i];
    assert wal[|init|] == r;
  }

  lemma WrittenSnoc(init: seq<Record>, r: Record, x: int, c: Change)
    ensures WrittenBy(init + [r], x, c) <==> WrittenBy(init, x, c) || (r.Writes(x) && c in r.changes)
  {
    var wal := init + [r];
    assert forall i | 0 <= i < |init| :: wal[i] == init[i];
    assert wal[|init|] == r;
  }

  lemma CommittedSnoc(init: seq<Record>, r: Record, x: int)
    ensures Committed(init + [r], x) <==> Committed(init, x) || r.Commits(x)
  {
    var wal := init + [r];
    assert forall i | 0 <= i < |init| :: wal[i] == init[i];
    assert wal[|init|] == r;
  }

  lemma {:induction false} ChangesAreWritten(wal: seq<Record>, x: int, c: Change)
    ensures c in ChangesOf(wal, x) <==> WrittenBy(wal, x, c)
    decreases |wal|
  {
    if wal != [] {
      var init, r := wal[..|wal| - 1], wal[|wal| - 1];
      assert wal == init + [r];
      ChangesAreWritten(init, x, c);
      WrittenSnoc(init, r, x, c);
    }
  }

  /** The stream holds exactly what committed transactions wrote. */
  lemma {:induction false} StreamIsCommitted(wal: seq<Record>, c: Change)
    requires Wal(wal)
    ensures c in Stream(wal) <==> exists x :: Committed(wal, x) && WrittenBy(wal, x, c)
    decreases |wal|
  {
    hide Wal, Committed, WrittenBy;
    if wal == [] {
      NothingCommitted();
    } else {
      var init, r := wal[..|wal| - 1], wal[|wal| - 1];
      assert wal == init + [r];
      WalPrefix(init, r);
      StreamIsCommitted(init, c);
      ChangesAreWritten(init, r.xid, c);
      forall x ensures Committed(wal, x) && WrittenBy(wal, x, c)
        <==> (Committed(init, x) && WrittenBy(init, x, c)) || (r.Commits(x) && WrittenBy(init, x, c))
      {
        WrittenSnoc(init, r, x, c);
        CommittedSnoc(init, r, x);
      }
    }
  }

  lemma NothingCommitted()
    ensures forall x :: !Committed([], x)
  {
  }

  // ---------------------------------------------------------------------
  // When positions increase
  // ---------------------------------------------------------------------

  ghost predicate AllBelow(a: seq<Change>, b: seq<Change>) {
    forall u, v | u in a && v in b :: u.lsn < v.lsn
  }

  lemma IncreasingConcat(a: seq<Change>, b: seq<Change>)
    ensures Increasing(a + b) <==> Increasing(a) && Increasing(b) && AllBelow(a, b)
  {
    var s := a + b;
    if Increasing(s) {
      assert forall i | 0 <= i < |a| :: s[i] == a[i];
      assert forall i | 0 <= i < |b| :: s[|a| + i] == b[i];
      forall u, v | u in a && v in b ensures u.lsn < v.lsn {
        var i :| 0 <= i < |a| && a[i] == u;
        var j :| 0 <= j < |b| && b[j] == v;
        assert s[i].lsn < s[|a| + j].lsn;
      }
    }
  }

  ghost predicate SingleRows(wal: seq<Record>, x: int) {
    forall i | 0 <= i < |wal| && wal[i].Writes(x) :: |wal[i].changes| == 1
  }

  lemma SingleSnoc(init: seq<Record>, r: Record, x: int)
    ensures SingleRows(init + [r], x) <==> SingleRows(init, x) && (r.Writes(x) ==> |r.changes| == 1)
  {
    var wal := init + [r];
    assert forall i | 0 <= i < |init| :: wal[i] == init[i];
    assert wal[|init|] == r;
  }

  /** A transaction's own positions increase exactly when its records carry one row each. */
  lemma {:induction false} OwnIncreasing(wal: seq<Record>, x: int)
    requires Wal(wal)
    ensures Increasing(ChangesOf(wal, x)) <==> SingleRows(wal, x)
    decreases |wal|
  {
    hide Wal, SingleRows, AllBelow;
    if wal == [] {
      assert SingleRows([], x) by { NoRows(x); }
    } else {
      var init, r := wal[..|wal| - 1], wal[|wal| - 1];
      assert wal == init + [r];
      WalPrefix(init, r);
      OwnIncreasing(init, x);
      SingleSnoc(init, r, x);
      var own := ChangesOf(init, x);
      if r.Writes(x) {
        IncreasingConcat(own, r.changes);
        EarlierBelow(init, r, x);
        SamePosition(r);
      } else {
        assert own + [] == own;
      }
    }
  }

  lemma NoRows(x: int)
    ensures SingleRows([], x)
  {
  }

  lemma SamePosition(r: Record)
    requires r.Rows? && r.changes != [] && forall c | c in r.changes :: c.lsn == r.lsn
    ensures Increasing(r.changes) <==> |r.changes| == 1
  {
    if |r.changes| > 1 {
      assert r.changes[0] in r.changes && r.changes[1] in r.changes;
    }
  }

  lemma EarlierBelow(init: seq<Record>, r: Record, x: int)
    requires Wal(init + [r]) && r.Rows?
    ensures AllBelow(ChangesOf(init, x), r.changes)
  {
    WalPrefix(init, r);
    forall u, v | u in ChangesOf(init, x) && v in r.changes ensures u.lsn < v.lsn {
      ChangesAreWritten(init, x, u);
    }
  }

  /** Transaction `x` wrote a row before one of a committed transaction. */
  ghost predicate Overlaps(wal: seq<Record>, x: int) {
    exists y, i, j :: Precedes(wal, x, y, i, j)
  }

  ghost predicate Precedes(wal: seq<Record>, x: int, y: int, i: int, j: int) {
    0 <= i < j < |wal| && wal[i].Writes(x) && wal[j].Writes(y) && Committed(wal, y)
  }

  lemma BelowIffNoOverlap(wal: seq<Record>, x: int)
    requires Wal(wal) && !Committed(wal, x)
    ensures AllBelow(Stream(wal), ChangesOf(wal, x)) <==> !Overlaps(wal, x)
  {
    hide Stream, ChangesOf;
    if y, i, j :| Precedes(wal, x, y, i, j) {
      var u, v := wal[j].changes[0], wal[i].changes[0];
      StreamIsCommitted(wal, u);
      ChangesAreWritten(wal, x, v);
      assert WrittenBy(wal, y, u) && WrittenBy(wal, x, v);
      assert v.lsn < u.lsn;
    } else {
      forall u, v | u in Stream(wal) && v in ChangesOf(wal, x) ensures u.lsn < v.lsn {
        StreamIsCommitted(wal, u);
        ChangesAreWritten(wal, x, v);
        var y :| Committed(wal, y) && WrittenBy(wal, y, u);
        var j :| 0 <= j < |wal| && wal[j].Writes(y) && u in wal[j].changes;
        var i :| 0 <= i < |wal| && wal[i].Writes(x) && v in wal[i].changes;
        assert !Precedes(wal, x, y, i, j);
        assert i != j;
      }
    }
  }

  lemma OneRowSnoc(init: seq<Record>, r: Record)
    requires Wal(init + [r])
    ensures OneRowEach(init + [r]) <==> OneRowEach(init) && (r.Commit? ==> SingleRows(init, r.xid))
  {
    var wal := init + [r];
    WalPrefix(init, r);
    hide Wal, Committed;
    assert forall i | 0 <= i < |init| :: wal[i] == init[i];
    assert wal[|init|] == r;
    forall x ensures Committed(wal, x) <==> Committed(init, x) || r.Commits(x) { CommittedSnoc(init, r, x); }
  }

  lemma OvertakenAtEnd(init: seq<Record>, r: Record, x: int, y: int, i: int, j: int, c: int, d: int)
    requires Wal(init + [r]) && Overtakes(init + [r], x, y, i, j, c, d)
    ensures i < j < |init| && c < |init| && Precedes(init, x, y, i, j)
    ensures d < |init| ==> Overtakes(init, x, y, i, j, c, d)
    ensures d == |init| ==> r.Commits(x)
  {
    var wal, n := init + [r], |init|;
    hide Wal;
    assert wal[c] == init[c] && init[c].Commits(y);
    CommittedSnoc(init, r, y);
    WalPrefix(init, r);
    assert wal[n] == r;
    assert Committed(init, y);
    assert i < j < n;
    assert wal[i] == init[i] && wal[j] == init[j];
    if d < n {
      assert wal[d] == init[d];
    }
  }

  lemma InterleavedSnoc(init: seq<Record>, r: Record)
    requires Wal(init + [r])
    ensures Interleaved(init + [r]) <==> Interleaved(init) || (r.Commit? && Overlaps(init, r.xid))
  {
    hide Wal, Overtakes, Precedes;
    var wal := init + [r];
    if x, y, i, j, c, d :| Overtakes(wal, x, y, i, j, c, d) {
      OvertakenAtEnd(init, r, x, y, i, j, c, d);
      assert d <= |init| by { OvertakesInRange(wal, x, y, i, j, c, d); }
    }
    if x, y, i, j, c, d :| Overtakes(init, x, y, i, j, c, d) {
      OvertakesStays(init, r, x, y, i, j, c, d);
    }
    if r.Commit? && Overlaps(init, r.xid) {
      var y, i, j :| Precedes(init, r.xid, y, i, j);
      var c := OvertakesNow(init, r, y, i, j);
    }
  }

  lemma OvertakesInRange(wal: seq<Record>, x: int, y: int, i: int, j: int, c: int, d: int)
    requires Overtakes(wal, x, y, i, j, c, d)
    ensures d < |wal|
  {
  }

  lemma OvertakesStays(init: seq<Record>, r: Record, x: int, y: int, i: int, j: int, c: int, d: int)
    requires Overtakes(init, x, y, i, j, c, d)
    ensures Overtakes(init + [r], x, y, i, j, c, d)
  {
  }

  lemma OvertakesNow(init: seq<Record>, r: Record, y: int, i: int, j: int) returns (c: int)
    requires r.Commit? && Precedes(init, r.xid, y, i, j)
    ensures Overtakes(init + [r], r.xid, y, i, j, c, |init|)
  {
    c :| 0 <= c < |init| && init[c].Commits(y);
  }

  /** The stream's positions strictly increase if and only if no committed record
      carries two rows and no two committed transactions' rows interleave. */
  lemma {:induction false} IncreasingIff(wal: seq<Record>)
    requires Wal(wal)
    ensures Increasing(Stream(wal)) <==> OneRowEach(wal) && !Interleaved(wal)
    decreases |wal|
  {
    hide Wal, OneRowEach, Interleaved, Overlaps, Committed, AllBelow, SingleRows, Increasing, ChangesOf;
    if wal == [] {
      NothingInterleaved();
    } else {
      var init, r := wal[..|wal| - 1], wal[|wal| - 1];
      assert wal == init + [r];
      WalPrefix(init, r);
      IncreasingIff(init);
      OneRowSnoc(init, r);
      InterleavedSnoc(init, r);
      if r.Commit? {
        IncreasingConcat(Stream(init), ChangesOf(init, r.xid));
        OwnIncreasing(init, r.xid);
        BelowIffNoOverlap(init, r.xid);
      } else {
        assert Stream(init) + [] == Stream(init);
      }
    }
  }

  lemma NothingInterleaved()
    ensures Increasing([]) && OneRowEach([]) && !Interleaved([])
  {
  }

  /** Archiving what the log sends is exactly-once, in every reachable state, if and
      only if no committed record carries two rows, no two committed transactions'
      rows interleave, and nothing is truncated. */
  lemma ExactlyOnceIffSerial(enc: Encoding, max: nat, wal: seq<Record>, at: nat)
    requires Wal(wal) && forall c | c in Stream(wal) :: c.lsn > at
    ensures (forall steps | Delivery.Possible(enc, max, Stream(wal), Init(at), steps) && NoValve(steps) ::
               ExactPrefix(Stream(wal), End(enc, max, Stream(wal), Init(at), steps)))
      <==> OneRowEach(wal) && !Interleaved(wal) && NoTruncates(Stream(wal))
  {
    IncreasingIff(wal);
    ExactlyOnceIff(enc, max, Stream(wal), at);
  }

  lemma DistinctConcat(a: seq<Change>, b: seq<Change>)
    requires Distinct(a) && Increasing(b) && forall u, v | u in a && v in b :: u.lsn != v.lsn
    ensures Distinct(a + b)
  {
    var s := a + b;
    forall i, j | 0 <= i < j < |s| ensures s[i] != s[j] {
      if i < |a| <= j {
        assert s[i] in a && s[j] in b;
      }
    }
  }

  /** An open transaction shares no position with a committed one. */
  lemma OwnPositions(wal: seq<Record>, x: int)
    requires Wal(wal) && !Committed(wal, x)
    ensures forall u, v | u in Stream(wal) && v in ChangesOf(wal, x) :: u.lsn != v.lsn
  {
    hide Stream, ChangesOf, Committed;
    forall u, v | u in Stream(wal) && v in ChangesOf(wal, x) ensures u.lsn != v.lsn {
      StreamIsCommitted(wal, u);
      ChangesAreWritten(wal, x, v);
      var y :| Committed(wal, y) && WrittenBy(wal, y, u);
      var j :| 0 <= j < |wal| && wal[j].Writes(y) && u in wal[j].changes;
      var i :| 0 <= i < |wal| && wal[i].Writes(x) && v in wal[i].changes;
      assert i != j;
    }
  }

  lemma {:induction false} StreamIsDistinct(wal: seq<Record>)
    requires Wal(wal) && OneRowEach(wal)
    ensures Distinct(Stream(wal))
    decreases |wal|
  {
    hide OneRowEach, Increasing, Distinct, ChangesOf, Committed, SingleRows, Wal;
    if wal == [] {
      NothingTwice();
    } else {
      var init, r := wal[..|wal| - 1], wal[|wal| - 1];
      assert wal == init + [r];
      WalPrefix(init, r);
      OneRowSnoc(init, r);
      StreamIsDistinct(init);
      if r.Commit? {
        OwnIncreasing(init, r.xid);
        OwnPositions(init, r.xid);
        DistinctConcat(Stream(init), ChangesOf(init, r.xid));
      } else {
        assert Stream(init) + [] == Stream(init);
      }
    }
  }

  lemma NothingTwice()
    ensures Distinct([])
  {
  }

  /** With one row to a record, every change sent is on record in every reachable
      state if and only if no two committed transactions' rows interleave: otherwise
      the filter drops one as already archived that never was. */
  lemma SentIsRecordedIffSerial(enc: Encoding, max: nat, wal: seq<Record>, at: nat)
    requires Wal(wal) && OneRowEach(wal) && NoTruncates(Stream(wal)) && forall c | c in Stream(wal) :: c.lsn > at
    ensures (forall steps | Delivery.Possible(enc, max, Stream(wal), Init(at), steps) && NoValve(steps) ::
               SentIsRecorded(Stream(wal), End(enc, max, Stream(wal), Init(at), steps)))
      <==> !Interleaved(wal)
  {
    IncreasingIff(wal);
    StreamIsDistinct(wal);
    SentIsRecordedIff(enc, max, Stream(wal), at);
  }
}
