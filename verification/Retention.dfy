/** Lawful loss: retention and erasure remove history and write down what they
    removed, so that verification can tell it from tampering. */
module Retention {
  import opened Options
  import opened Hashing
  import opened Sealing
  import opened SealTheorems

  /** change_log with its seals and ledgers, and the clock all of them read.  The
      last two only keep account: the rows each seal was taken over, and the seals
      into whose range a row came afterwards. */
  datatype History = History(
    rows: seq<Rec>, seals: seq<Seal>, ledger: seq<Ledger>, clock: nat, sealed: seq<seq<Rec>>, late: set<nat>)

  type Which = Rec -> bool

  function Only(rows: seq<Rec>, which: Which): (s: seq<Rec>)
    ensures |s| <= |rows|
    ensures forall r :: r in s <==> r in rows && which(r)
  {
    if rows == [] then []
    else
      assert rows == [rows[0]] + rows[1..];
      (if which(rows[0]) then [rows[0]] else []) + Only(rows[1..], which)
  }

  function Without(rows: seq<Rec>, which: Which): seq<Rec> {
    Only(rows, r => !which(r))
  }

  /** Erasure by redaction keeps the row and empties it, once. */
  function RedactOne(r: Rec, at: nat): Rec {
    if r.redactedAt.Some? then r
    else r.(before := None, after := None, actor := "erased", redactedAt := Some(at))
  }

  /** Erasing `r` at a time leaves `r'`: the row is still there, without its images, its
      actor and nothing else. */
  predicate Emptied(r: Rec, r': Rec, at: nat) {
    && r'.before.None? && r'.after.None? && r'.actor == "erased" && r'.redactedAt == Some(at)
    && r'.id == r.id && r'.table == r.table && r'.op == r.op && r'.pk == r.pk
    && r'.dbUser == r.dbUser && r'.txid == r.txid && r'.ts == r.ts
  }

  predicate NoImages(r: Rec) {
    r.before.None? && r.after.None?
  }

  /** What erasing a subject does to a row: a row of another subject, or one erased
      before, stays as it is. */
  predicate ForgottenOne(r: Rec, r': Rec, subject: Which, at: nat) {
    if subject(r) && r.redactedAt.None? then Emptied(r, r', at) else r' == r
  }

  function Redacted(rows: seq<Rec>, which: Which, at: nat): (s: seq<Rec>)
    ensures |s| == |rows|
  {
    seq(|rows|, i requires 0 <= i < |rows| => if which(rows[i]) then RedactOne(rows[i], at) else rows[i])
  }

  lemma RedactedOneByOne(rows: seq<Rec>, subject: Which, at: nat)
    ensures forall i | 0 <= i < |rows| :: ForgottenOne(rows[i], Redacted(rows, subject, at)[i], subject, at)
    ensures Only(rows, subject) == [] ==> forall i | 0 <= i < |rows| :: ForgottenOne(rows[i], rows[i], subject, at)
  {
    if Only(rows, subject) == [] {
      forall i | 0 <= i < |rows| ensures !subject(rows[i]) {
        assert rows[i] !in Only(rows, subject);
      }
    }
  }

  function MinId(rows: seq<Rec>): (m: Option<nat>)
    ensures rows == [] <==> m.None?
    ensures m.Some? ==> (forall r | r in rows :: m.value <= r.id) && exists r :: r in rows && r.id == m.value
  {
    if rows == [] then None
    else
      assert rows == [rows[0]] + rows[1..];
      var rest := MinId(rows[1..]);
      if rest.Some? && rest.value < rows[0].id then
        var w :| w in rows[1..] && w.id == rest.value;
        assert w in rows;
        rest
      else
        assert rows[0] in rows;
        Some(rows[0].id)
  }

  /** The ledger entry for a set of rows: their smallest and largest ids. */
  function EntryFor(rows: seq<Rec>, at: nat): Ledger {
    Ledger(at, MinId(rows), MaxId(rows))
  }

  /** Rows deleted and accounted for.  Dropping a partition is recorded even if
      it held nothing; a DELETE only if it removed something. */
  function Remove(h: History, which: Which, always: bool): History {
    RemoveAs(h, which, always, h.clock)
  }

  /** A removal whose ledger entry carries the time `at`. */
  function RemoveAs(h: History, which: Which, always: bool, at: nat): History {
    var victims := Only(h.rows, which);
    if victims == [] && !always then h
    else h.(rows := Without(h.rows, which), ledger := h.ledger + [EntryFor(victims, at)], clock := h.clock + 1)
  }

  /** Redaction whose ledger entry carries the time `at`. */
  function RedactAs(h: History, which: Which, at: nat): History {
    var matched := Only(h.rows, which);
    if matched == [] then h
    else h.(rows := Redacted(h.rows, which, h.clock), ledger := h.ledger + [EntryFor(matched, at)], clock := h.clock + 1)
  }

  datatype Step =
    | Capture(r: Rec)
    | SealNow(cap: nat)
    | Purge(gone: Which, always: bool)   // a partition drop, an aged DELETE, or a hard forget
    | Forget(subject: Which)             // redaction
    | Wait

  /** A row becomes visible when its writer commits, which need not be in the order
      the ids were drawn: it takes its place among the ids already there. */
  function Insert(rows: seq<Rec>, r: Rec): seq<Rec> {
    if rows == [] || r.id < rows[0].id then [r] + rows else [rows[0]] + Insert(rows[1..], r)
  }

  ghost predicate InIdOrder(rows: seq<Rec>) {
    forall i, j | 0 <= i < j < |rows| :: rows[i].id <= rows[j].id
  }

  /** A late row joins the others, all of which stay, and keeps them in the order of ids. */
  lemma {:induction false} InsertJoins(rows: seq<Rec>, r: Rec)
    ensures multiset(Insert(rows, r)) == multiset(rows) + multiset{r}
    ensures InIdOrder(rows) ==> InIdOrder(Insert(rows, r))
  {
    if rows != [] && r.id >= rows[0].id {
      var rest := rows[1..];
      assert rows == [rows[0]] + rest;
      InsertJoins(rest, r);
      if InIdOrder(rows) {
        assert InIdOrder(rest);
        forall x | x in Insert(rest, r) ensures rows[0].id <= x.id {
          assert x in multiset(Insert(rest, r));
          assert x == r || x in rest;
        }
        FirstInOrder(rows[0], Insert(rest, r));
      }
    } else {
      assert multiset([r] + rows) == multiset(rows) + multiset{r};
    }
  }

  lemma FirstInOrder(r: Rec, rest: seq<Rec>)
    requires InIdOrder(rest) && forall x | x in rest :: r.id <= x.id
    ensures InIdOrder([r] + rest)
  {
    var rows := [r] + rest;
    forall i, j | 0 <= i < j < |rows| ensures rows[i].id <= rows[j].id {
      assert rows[j] == rest[j - 1] && rest[j - 1] in rest;
    }
  }

  /** The seals whose range holds the row's id. */
  function SealsOver(seals: seq<Seal>, r: Rec): set<nat> {
    set i | 0 <= i < |seals| && InSpan(r, seals[i].from, seals[i].to)
  }

  /** The spans that the seals written by one call are taken over. */
  function NewSpans(sha: Hash, h: History, cap: nat): seq<seq<Rec>> {
    match NextSeal(sha, h.rows, h.seals, cap, h.clock)
    case None => []
    case Some(s) => [Span(h.rows, s.from, s.to)]
  }

  function Next(sha: Hash, h: History, s: Step): History {
    match s
    case Capture(r) => h.(rows := Insert(h.rows, r), late := h.late + SealsOver(h.seals, r))
    case SealNow(cap) =>
      h.(seals := SealOnce(sha, h.rows, h.seals, cap, h.clock), clock := h.clock + 1,
         sealed := h.sealed + NewSpans(sha, h, cap))
    case Purge(gone, always) => Remove(h, gone, always)
    case Forget(subject) => RedactAs(h, subject, h.clock)
    case Wait => h.(clock := h.clock + 1)
  }

  predicate Unchanged(sha: Hash, rows: seq<Rec>, s: Seal) {
    SpanHash(sha, rows, s.from, s.to) == s.content
  }

  /** A seal is over the rows it was taken over; and unless a later ledger entry
      overlaps it, those are still the rows of its range, but for late ones. */
  ghost predicate SealSound(sha: Hash, h: History, i: nat)
    requires i < |h.seals| && i < |h.sealed|
  {
    var s := h.seals[i];
    && s.sealedAt < h.clock && s.content == Fold(sha, Reprs(h.sealed[i]))
    && (!Lawful(s, h.ledger) ==>
          if i in h.late then |Span(h.rows, s.from, s.to)| > |h.sealed[i]|
          else Span(h.rows, s.from, s.to) == h.sealed[i])
  }

  ghost predicate Inv(sha: Hash, h: History) {
    && ChainOk(sha, h.seals)
    && |h.sealed| == |h.seals|
    && (forall i | i in h.late :: i < |h.seals|)
    && (forall i | 0 <= i < |h.seals| :: SealSound(sha, h, i))
  }

  const EMPTY := History([], [], [], 0, [], {})

  // ---------------------------------------------------------------------
  // Spans under each kind of change
  // ---------------------------------------------------------------------

  lemma {:induction false} SpanConcat(a: seq<Rec>, b: seq<Rec>, from: nat, to: nat)
    ensures Span(a + b, from, to) == Span(a, from, to) + Span(b, from, to)
  {
    if a == [] {
      assert a + b == b;
    } else {
      assert (a + b)[0] == a[0] && (a + b)[1..] == a[1..] + b;
      SpanConcat(a[1..], b, from, to);
    }
  }

  /** A row put anywhere adds itself to the spans that hold its id, and to no
      other. */
  lemma SpanOfPutIn(rows: seq<Rec>, k: nat, r: Rec, from: nat, to: nat)
    requires k <= |rows|
    ensures var span := Span(rows[..k] + [r] + rows[k..], from, to);
      if InSpan(r, from, to) then |span| == |Span(rows, from, to)| + 1 else span == Span(rows, from, to)
    ensures forall x | x in Span(rows[..k] + [r] + rows[k..], from, to) :: x == r || x in Span(rows, from, to)
  {
    hide Span;
    SpanOfOne(r, from, to);
    SpanConcat(rows[..k] + [r], rows[k..], from, to);
    SpanConcat(rows[..k], [r], from, to);
    SpanConcat(rows[..k], rows[k..], from, to);
    assert rows == rows[..k] + rows[k..];
    if !InSpan(r, from, to) {
      assert Span(rows[..k], from, to) + [] == Span(rows[..k], from, to);
    }
  }

  lemma SpanOfOne(r: Rec, from: nat, to: nat)
    ensures Span([r], from, to) == if InSpan(r, from, to) then [r] else []
  {
    assert [r][1..] == [];
  }

  lemma {:induction false} InsertPutsIn(rows: seq<Rec>, r: Rec) returns (k: nat)
    ensures k <= |rows| && Insert(rows, r) == rows[..k] + [r] + rows[k..]
  {
    if rows == [] || r.id < rows[0].id {
      k := 0;
    } else {
      k := InsertPutsIn(rows[1..], r);
      k := k + 1;
      assert rows == [rows[0]] + rows[1..];
      assert rows[..k] == [rows[0]] + rows[1..][..k - 1] && rows[k..] == rows[1..][k - 1..];
    }
  }

  lemma {:induction false} SpanOfRemaining(rows: seq<Rec>, keep: Which, from: nat, to: nat)
    requires forall r | r in rows && InSpan(r, from, to) :: keep(r)
    ensures Span(Only(rows, keep), from, to) == Span(rows, from, to)
  {
    if rows != [] {
      assert rows == [rows[0]] + rows[1..];
      assert rows[0] in rows;
      SpanOfRemaining(rows[1..], keep, from, to);
      if keep(rows[0]) {
        assert Only(rows, keep) == [rows[0]] + Only(rows[1..], keep);
        assert Only(rows, keep)[1..] == Only(rows[1..], keep);
      } else {
        assert Only(rows, keep) == Only(rows[1..], keep);
      }
    }
  }

  lemma {:induction false} SpanOfRedacted(rows: seq<Rec>, which: Which, at: nat, from: nat, to: nat)
    requires forall r | r in rows && InSpan(r, from, to) :: !which(r)
    ensures Span(Redacted(rows, which, at), from, to) == Span(rows, from, to)
  {
    if rows != [] {
      assert rows == [rows[0]] + rows[1..];
      assert Redacted(rows, which, at)[1..] == Redacted(rows[1..], which, at);
      SpanOfRedacted(rows[1..], which, at, from, to);
    }
  }

  /** A ledger entry accounts for a seal exactly if it is later, and the rows it is
      about do not all lie before the sealed range, nor all behind it. */
  lemma EntryCoversIff(rows: seq<Rec>, at: nat, s: Seal)
    ensures Covers(EntryFor(rows, at), s)
      <==> at > s.sealedAt && (exists r :: r in rows && r.id <= s.to) && (exists r :: r in rows && r.id >= s.from)
  {
  }

  /** If an erased row was in a sealed span, the ledger entry overlaps it. */
  lemma EntryOverlaps(rows: seq<Rec>, r: Rec, s: Seal, at: nat)
    requires r in rows && InSpan(r, s.from, s.to)
    ensures Covers(EntryFor(rows, at), s) <==> at > s.sealedAt
  {
  }

  lemma LawfulGrows(s: Seal, ledger: seq<Ledger>, l: Ledger)
    ensures Lawful(s, ledger + [l]) <==> Lawful(s, ledger) || Covers(l, s)
  {
    assert forall x :: x in ledger + [l] <==> x in ledger || x == l;
    assert l in ledger + [l];
  }

  // ---------------------------------------------------------------------
  // No false alarms
  // ---------------------------------------------------------------------

  lemma RemoveKeepsSound(sha: Hash, h: History, which: Which, always: bool, i: nat)
    requires Inv(sha, h) && i < |h.seals|
    ensures var h' := Remove(h, which, always);
      h'.seals == h.seals && h'.sealed == h.sealed && h'.late == h.late && SealSound(sha, h', i)
  {
    hide RemoveAs, Lawful, SpanHash, Span, Fold;
    assert SealSound(sha, h, i);
    RemoveEffect(sha, h, which, always, h.clock, h.seals[i]);
    RemoveKeepsSeals(h, which, always, h.clock);
  }

  lemma RedactKeepsSound(sha: Hash, h: History, subject: Which, i: nat)
    requires Inv(sha, h) && i < |h.seals|
    ensures var h' := RedactAs(h, subject, h.clock);
      h'.seals == h.seals && h'.sealed == h.sealed && h'.late == h.late && SealSound(sha, h', i)
  {
    hide RedactAs, Lawful, SpanHash, Span, Fold;
    assert SealSound(sha, h, i);
    RedactEffect(sha, h, subject, h.clock, h.seals[i]);
    RedactKeepsSeals(h, subject, h.clock);
  }

  /** Some row of the seal's range is among those chosen. */
  ghost predicate Touches(h: History, which: Which, s: Seal) {
    exists r :: r in h.rows && InSpan(r, s.from, s.to) && which(r)
  }

  /** A removal with any ledger time, likewise. */
  lemma RemoveEffect(sha: Hash, h: History, which: Which, always: bool, at: nat, s: Seal)
    ensures var h' := RemoveAs(h, which, always, at);
      && (!Touches(h, which, s) ==> Span(h'.rows, s.from, s.to) == Span(h.rows, s.from, s.to))
      && (!Touches(h, which, s) ==> SpanHash(sha, h'.rows, s.from, s.to) == SpanHash(sha, h.rows, s.from, s.to))
      && (Touches(h, which, s) ==> (Lawful(s, h'.ledger) <==> Lawful(s, h.ledger) || at > s.sealedAt))
      && (Lawful(s, h.ledger) ==> Lawful(s, h'.ledger))
  {
    hide Covers, EntryFor, SpanHash, Span;
    var victims := Only(h.rows, which);
    LawfulGrows(s, h.ledger, EntryFor(victims, at));
    if r :| r in h.rows && InSpan(r, s.from, s.to) && which(r) {
      assert r in victims;
      EntryOverlaps(victims, r, s, at);
    } else {
      SpanOfRemaining(h.rows, r => !which(r), s.from, s.to);
      SameSpanSameHash(sha, h.rows, Without(h.rows, which), s.from, s.to);
    }
  }

  lemma RemoveKeepsSeals(h: History, which: Which, always: bool, at: nat)
    ensures var h' := RemoveAs(h, which, always, at);
      h'.seals == h.seals && h'.sealed == h.sealed && h'.late == h.late && h.clock <= h'.clock
  {
  }

  lemma RedactKeepsSeals(h: History, subject: Which, at: nat)
    ensures var h' := RedactAs(h, subject, at);
      h'.seals == h.seals && h'.sealed == h.sealed && h'.late == h.late && h.clock <= h'.clock
  {
  }

  lemma SameSpanSameHash(sha: Hash, a: seq<Rec>, b: seq<Rec>, from: nat, to: nat)
    requires Span(a, from, to) == Span(b, from, to)
    ensures SpanHash(sha, a, from, to) == SpanHash(sha, b, from, to)
  {
  }

  /** A redaction with any ledger time: a seal whose span it leaves alone stays
      as it was; one whose span it changes is accounted for if and only if the
      ledger time is later than the seal. */
  lemma RedactEffect(sha: Hash, h: History, which: Which, at: nat, s: Seal)
    ensures var h' := RedactAs(h, which, at);
      && (!Touches(h, which, s) ==> Span(h'.rows, s.from, s.to) == Span(h.rows, s.from, s.to))
      && (!Touches(h, which, s) ==> SpanHash(sha, h'.rows, s.from, s.to) == SpanHash(sha, h.rows, s.from, s.to))
      && (Touches(h, which, s) ==> (Lawful(s, h'.ledger) <==> Lawful(s, h.ledger) || at > s.sealedAt))
      && (Lawful(s, h.ledger) ==> Lawful(s, h'.ledger))
  {
    hide Covers, EntryFor, SpanHash, Span;
    var matched := Only(h.rows, which);
    LawfulGrows(s, h.ledger, EntryFor(matched, at));
    if r :| r in h.rows && InSpan(r, s.from, s.to) && which(r) {
      assert r in matched;
      EntryOverlaps(matched, r, s, at);
    } else if matched != [] {
      SpanOfRedacted(h.rows, which, h.clock, s.from, s.to);
      SameSpanSameHash(sha, h.rows, Redacted(h.rows, which, h.clock), s.from, s.to);
    }
  }

  lemma CaptureKeepsSound(sha: Hash, h: History, r: Rec, i: nat)
    requires Inv(sha, h) && i < |h.seals|
    ensures SealSound(sha, Next(sha, h, Capture(r)), i)
  {
    hide Lawful, Span, Fold;
    assert SealSound(sha, h, i);
    var k := InsertPutsIn(h.rows, r);
    SpanOfPutIn(h.rows, k, r, h.seals[i].from, h.seals[i].to);
  }

  lemma NewSealSound(sha: Hash, h: History, cap: nat)
    requires Inv(sha, h) && NextSeal(sha, h.rows, h.seals, cap, h.clock).Some?
    ensures var s := NextSeal(sha, h.rows, h.seals, cap, h.clock).value;
      && s.sealedAt == h.clock && s.content == Fold(sha, Reprs(Span(h.rows, s.from, s.to)))
      && s.prev == LastChain(h.seals) && SealIntact(sha, s)
  {
    hide Span, From, MaxId, SealSound, ChainOk;
  }

  lemma SealKeepsSound(sha: Hash, h: History, cap: nat, i: nat)
    requires Inv(sha, h) && i < |Next(sha, h, SealNow(cap)).seals|
    ensures var h' := Next(sha, h, SealNow(cap));
      |h'.sealed| == |h'.seals| && SealSound(sha, h', i)
  {
    hide Lawful, Span, Fold, NextSeal;
    if NextSeal(sha, h.rows, h.seals, cap, h.clock).Some? {
      NewSealSound(sha, h, cap);
    }
    if i < |h.seals| {
      assert SealSound(sha, h, i);
    }
  }

  lemma ChainGrows(sha: Hash, seals: seq<Seal>, s: Seal)
    requires ChainOk(sha, seals) && s.prev == LastChain(seals) && SealIntact(sha, s)
    ensures ChainOk(sha, seals + [s])
  {
    hide SealIntact, SealText;
    var next := seals + [s];
    forall i | 0 <= i < |next| ensures LinkOk(sha, next, i) {
      if i < |seals| { assert LinkOk(sha, seals, i); }
    }
  }

  lemma StepKeepsInv(sha: Hash, h: History, s: Step)
    requires Inv(sha, h)
    ensures Inv(sha, Next(sha, h, s))
  {
    hide ChainOk, NextSeal, SealSound, Lawful, Insert, RemoveAs, RedactAs;
    var h' := Next(sha, h, s);
    match s
    case Capture(r) =>
      forall i | 0 <= i < |h.seals| ensures SealSound(sha, h', i) { CaptureKeepsSound(sha, h, r, i); }
    case SealNow(cap) =>
      forall i | 0 <= i < |h'.seals| ensures |h'.sealed| == |h'.seals| && SealSound(sha, h', i) {
        SealKeepsSound(sha, h, cap, i);
      }
      if NextSeal(sha, h.rows, h.seals, cap, h.clock).Some? {
        NewSealSound(sha, h, cap);
        ChainGrows(sha, h.seals, NextSeal(sha, h.rows, h.seals, cap, h.clock).value);
      }
    case Purge(gone, always) =>
      RemoveKeepsSeals(h, gone, always, h.clock);
      forall i | 0 <= i < |h.seals| ensures SealSound(sha, h', i) { RemoveKeepsSound(sha, h, gone, always, i); }
    case Forget(subject) =>
      RedactKeepsSeals(h, subject, h.clock);
      forall i | 0 <= i < |h.seals| ensures SealSound(sha, h', i) { RedactKeepsSound(sha, h, subject, i); }
    case Wait =>
      forall i | 0 <= i < |h.seals| ensures SealSound(sha, h', i) { LaterIsSound(sha, h, i); }
  }

  lemma LaterIsSound(sha: Hash, h: History, i: nat)
    requires Inv(sha, h) && i < |h.seals|
    ensures SealSound(sha, h.(clock := h.clock + 1), i)
  {
    assert SealSound(sha, h, i);
  }

  function EndOf(sha: Hash, h: History, steps: seq<Step>): History
    decreases |steps|
  {
    if steps == [] then h else EndOf(sha, Next(sha, h, steps[0]), steps[1..])
  }

  lemma {:induction false} RunKeepsInv(sha: Hash, h: History, steps: seq<Step>)
    requires Inv(sha, h)
    ensures Inv(sha, EndOf(sha, h, steps))
    decreases |steps|
  {
    if steps != [] {
      StepKeepsInv(sha, h, steps[0]);
      RunKeepsInv(sha, Next(sha, h, steps[0]), steps[1..]);
    }
  }

  lemma SoundIsClean(sha: Hash, h: History, i: nat)
    requires Inv(sha, h) && i < |h.seals| && i !in h.late
    ensures var v := Judge(sha, h.rows, h.ledger, PrevChain(h.seals, i), h.seals[i]);
      v == if Unchanged(sha, h.rows, h.seals[i]) then AsSealed else Explained
  {
    hide Lawful, Span, Fold;
    assert SealSound(sha, h, i);
    IntactAt(sha, h.seals, i);
  }

  ghost predicate Capped(steps: seq<Step>) {
    forall s | s in steps && s.SealNow? :: s.cap >= 1
  }

  /** In every run of capture, sealing, retention and erasure, whatever order
      writers commit in, verify raises no alarm on a seal into whose range no row
      came after it was taken: its span is as it was sealed, or the change is
      accounted for by a later ledger entry.  No property of the hash is needed. */
  lemma NoFalseAlarms(sha: Hash, steps: seq<Step>, i: nat)
    requires Capped(steps) && i < |EndOf(sha, EMPTY, steps).seals| && i !in EndOf(sha, EMPTY, steps).late
    ensures var h := EndOf(sha, EMPTY, steps);
      Judge(sha, h.rows, h.ledger, PrevChain(h.seals, i), h.seals[i]) in {AsSealed, Explained}
  {
    RunKeepsInv(sha, EMPTY, steps);
    SoundIsClean(sha, EndOf(sha, EMPTY, steps), i);
  }

  /** And exactly: in every run, verify reads 'TAMPERED' on a seal if and only if a
      row came into its range after it was taken, from a writer that had drawn its
      id before and committed later, and no later ledger entry overlaps. */
  lemma AlarmIffLate(sha: Hash, texts: iset<string>, steps: seq<Step>, i: nat)
    requires HexDigest(sha) && CollisionFree(sha, texts) && Capped(steps)
    requires var h := EndOf(sha, EMPTY, steps);
      && i < |h.seals| && i < |h.sealed|
      && AllSeparable(h.sealed[i]) && HashedIn(sha, texts, h.sealed[i])
      && AllTyped(Span(h.rows, h.seals[i].from, h.seals[i].to))
      && HashedIn(sha, texts, Span(h.rows, h.seals[i].from, h.seals[i].to))
    ensures var h := EndOf(sha, EMPTY, steps);
      Judge(sha, h.rows, h.ledger, PrevChain(h.seals, i), h.seals[i]) == Tampered
      <==> i in h.late && !Lawful(h.seals[i], h.ledger)
  {
    hide EndOf, Lawful, Span, Fold, HashedIn, AllSeparable, AllTyped, ToldApart;
    RunKeepsInv(sha, EMPTY, steps);
    var h := EndOf(sha, EMPTY, steps);
    assert SealSound(sha, h, i);
    IntactAt(sha, h.seals, i);
    var span := Span(h.rows, h.seals[i].from, h.seals[i].to);
    if Fold(sha, Reprs(span)) == Fold(sha, Reprs(h.sealed[i])) {
      SeparableToldApart(h.sealed[i], span);
      SpanHashInjective(sha, texts, h.sealed[i], span);
    }
  }

  // ---------------------------------------------------------------------
  // Tiling over runs
  // ---------------------------------------------------------------------

  lemma {:induction false} RunKeepsTiling(sha: Hash, h: History, steps: seq<Step>)
    requires Tiles(h.seals) && Capped(steps)
    ensures Tiles(EndOf(sha, h, steps).seals)
    decreases |steps|
  {
    hide Tiles, SealOnce, RemoveAs, RedactAs;
    if steps != [] {
      var s := steps[0];
      assert s in steps;
      if s.SealNow? {
        SealKeepsTiling(sha, h.rows, h.seals, s.cap, h.clock);
      } else if s.Purge? {
        RemoveKeepsSeals(h, s.gone, s.always, h.clock);
      } else if s.Forget? {
        RedactKeepsSeals(h, s.subject, h.clock);
      }
      RunKeepsTiling(sha, Next(sha, h, s), steps[1..]);
    }
  }

  /** In every run of capture, sealing with caps of at least one, retention and
      erasure, the sealed spans are consecutive, and every id from 1 to the last
      sealed one lies in exactly one of them. */
  lemma SealsTileEveryRun(sha: Hash, steps: seq<Step>, id: nat) returns (i: nat)
    requires Capped(steps) && 1 <= id <= LastTo(EndOf(sha, EMPTY, steps).seals)
    ensures var seals := EndOf(sha, EMPTY, steps).seals;
      && Tiles(seals)
      && i < |seals| && seals[i].from <= id <= seals[i].to
      && forall j | 0 <= j < |seals| && seals[j].from <= id <= seals[j].to :: j == i
  {
    hide EndOf;
    RunKeepsTiling(sha, EMPTY, steps);
    i := EachIdSealedOnce(EndOf(sha, EMPTY, steps).seals, id);
  }

  /** With a cap of zero two calls write seals that end at the same id, and verify,
      which orders seals by that alone, may meet them either way round: as they were
      written both read 'ok', and the other way the first it meets breaks the chain. */
  lemma ZeroCapOrderIsOpen(sha: Hash, rows: seq<Rec>, ledger: seq<Ledger>, now: nat)
    requires exists r :: r in rows && r.id >= 1
    ensures var a := NextSeal(sha, rows, [], 0, now);
      && a.Some?
      && var b := NextSeal(sha, rows, [a.value], 0, now + 1);
         && b.Some? && a.value.to == b.value.to
         && Judge(sha, rows, ledger, None, a.value) == AsSealed
         && Judge(sha, rows, ledger, Some(a.value.chain), b.value) == AsSealed
         && Judge(sha, rows, ledger, None, b.value) == ChainBroken
  {
    hide SpanHash, Span, SealText, Lawful;
    var r :| r in rows && r.id >= 1;
    assert r in From(rows, 1);
  }

  // ---------------------------------------------------------------------
  // Sealing while an erasure or a purge is still uncommitted
  // ---------------------------------------------------------------------

  lemma RedactKeepsId(r: Rec, at: nat)
    ensures RedactOne(r, at).id == r.id
  {
  }

  lemma {:induction false} RedactedSpan(rows: seq<Rec>, which: Which, at: nat, from: nat, to: nat)
    ensures Span(Redacted(rows, which, at), from, to) == Redacted(Span(rows, from, to), which, at)
  {
    hide RedactOne;
    if rows != [] {
      var rest := Span(rows[1..], from, to);
      assert Redacted(rows, which, at)[1..] == Redacted(rows[1..], which, at);
      RedactedSpan(rows[1..], which, at, from, to);
      RedactKeepsId(rows[0], at);
      assert Redacted([rows[0]] + rest, which, at) == Redacted([rows[0]], which, at) + Redacted(rest, which, at);
      assert Redacted([rows[0]], which, at) == [if which(rows[0]) then RedactOne(rows[0], at) else rows[0]];
    }
  }

  lemma {:induction false} RemainingSpan(rows: seq<Rec>, keep: Which, from: nat, to: nat)
    ensures Span(Only(rows, keep), from, to) == Only(Span(rows, from, to), keep)
  {
    if rows != [] {
      RemainingSpan(rows[1..], keep, from, to);
      var rest, kept := Span(rows[1..], from, to), Only(rows[1..], keep);
      assert ([rows[0]] + rest)[1..] == rest && ([rows[0]] + kept)[1..] == kept;
      assert [] + rest == rest && [] + kept == kept;
    }
  }

  /** Some row of the seal's range is chosen and still holds its data. */
  ghost predicate StillHolds(h: History, subject: Which, s: Seal) {
    exists r :: r in Span(h.rows, s.from, s.to) && subject(r) && r.redactedAt.None?
  }

  lemma RedactedSpanSameIff(rows: seq<Rec>, which: Which, at: nat)
    ensures Redacted(rows, which, at) == rows <==> forall r | r in rows && which(r) :: r.redactedAt.Some?
  {
    if r :| r in rows && which(r) && r.redactedAt.None? {
      var i :| 0 <= i < |rows| && rows[i] == r;
      assert Redacted(rows, which, at)[i] != rows[i];
    } else {
      forall i | 0 <= i < |rows| ensures Redacted(rows, which, at)[i] == rows[i] { assert rows[i] in rows; }
    }
  }

  lemma RedactedIsTyped(rows: seq<Rec>, which: Which, at: nat)
    requires AllTyped(rows)
    ensures AllTyped(Redacted(rows, which, at))
  {
    forall r | r in Redacted(rows, which, at) ensures Typed(r) {
      var i :| 0 <= i < |rows| && Redacted(rows, which, at)[i] == r;
      assert rows[i] in rows;
    }
  }

  /** Later rows under the same seals: a seal that was accounted for by no ledger
      entry before still reads unchanged exactly if its rows are the same. */
  lemma UnchangedIffSameSpan(sha: Hash, texts: iset<string>, h: History, rows: seq<Rec>, i: nat)
    requires HexDigest(sha) && CollisionFree(sha, texts) && i < |h.seals| && i < |h.sealed|
    requires SealSound(sha, h, i) && !Lawful(h.seals[i], h.ledger) && i !in h.late
    requires var s := h.seals[i];
      && HashedIn(sha, texts, Span(h.rows, s.from, s.to)) && HashedIn(sha, texts, Span(rows, s.from, s.to))
      && AllSeparable(Span(h.rows, s.from, s.to)) && AllTyped(Span(rows, s.from, s.to))
    ensures var s := h.seals[i];
      Unchanged(sha, rows, s) <==> Span(rows, s.from, s.to) == Span(h.rows, s.from, s.to)
  {
    hide Span, HashedIn, AllSeparable, AllTyped, ToldApart, Lawful, Fold;
    var s := h.seals[i];
    SeparableToldApart(Span(h.rows, s.from, s.to), Span(rows, s.from, s.to));
    if Unchanged(sha, rows, s) {
      SpanHashInjective(sha, texts, Span(h.rows, s.from, s.to), Span(rows, s.from, s.to));
    }
  }

  lemma JudgedBy(sha: Hash, h: History, rows: seq<Rec>, ledger: seq<Ledger>, i: nat)
    requires Inv(sha, h) && i < |h.seals|
    ensures i < |h.sealed| && SealSound(sha, h, i)
    ensures Judge(sha, rows, ledger, PrevChain(h.seals, i), h.seals[i]) == Tampered
      <==> !Unchanged(sha, rows, h.seals[i]) && !Lawful(h.seals[i], ledger)
  {
    hide SpanHash, Lawful;
    assert SealSound(sha, h, i);
    IntactAt(sha, h.seals, i);
  }

  /** A writer that drew its id before a seal was taken and commits after it gives
      a false alarm on the seal if and only if that id is in the seal's range and
      no ledger entry recorded after the seal overlaps it. */
  lemma LateWriterAlarm(sha: Hash, texts: iset<string>, h: History, k: nat, r: Rec, i: nat)
    requires HexDigest(sha) && CollisionFree(sha, texts) && Inv(sha, h)
    requires k <= |h.rows| && i < |h.seals| && i !in h.late && Typed(r)
    requires var s := h.seals[i];
      && AllSeparable(Span(h.rows, s.from, s.to)) && HashedIn(sha, texts, Span(h.rows, s.from, s.to))
      && HashedIn(sha, texts, Span(h.rows[..k] + [r] + h.rows[k..], s.from, s.to))
    ensures var s := h.seals[i];
      Judge(sha, h.rows[..k] + [r] + h.rows[k..], h.ledger, PrevChain(h.seals, i), s) == Tampered
      <==> InSpan(r, s.from, s.to) && !Lawful(s, h.ledger)
  {
    hide Span, SpanHash, Lawful, HexDigest, CollisionFree, HashedIn, Inv, Judge, Typed, Separable, SealSound;
    var s, rows := h.seals[i], h.rows[..k] + [r] + h.rows[k..];
    JudgedBy(sha, h, rows, h.ledger, i);
    SpanOfPutIn(h.rows, k, r, s.from, s.to);
    SeparableIsTyped(Span(h.rows, s.from, s.to));
    if !Lawful(s, h.ledger) {
      UnchangedIffSameSpan(sha, texts, h, rows, i);
    }
  }

  /** forget() stamps its ledger entry before it redacts, and neither is seen by
      others until it commits.  If seals were taken in between, committing gives
      a false alarm on a seal if and only if a row in its range is the subject's
      and not yet redacted, nothing recorded after the seal explains it already,
      and the stamp is not later than the seal. */
  lemma LateErasureAlarm(sha: Hash, texts: iset<string>, h: History, subject: Which, stamp: nat, i: nat)
    requires HexDigest(sha) && CollisionFree(sha, texts) && Inv(sha, h) && i < |h.seals| && i !in h.late
    requires var s := h.seals[i];
      && AllSeparable(Span(h.rows, s.from, s.to)) && HashedIn(sha, texts, Span(h.rows, s.from, s.to))
      && HashedIn(sha, texts, Span(RedactAs(h, subject, stamp).rows, s.from, s.to))
    ensures var h' := RedactAs(h, subject, stamp);
      var s := h.seals[i];
      var v := Judge(sha, h'.rows, h'.ledger, PrevChain(h.seals, i), s);
      h'.seals == h.seals
      && (v == Tampered <==> StillHolds(h, subject, s) && !Lawful(s, h.ledger) && stamp <= s.sealedAt)
  {
    hide Span, SpanHash, Lawful, HexDigest, CollisionFree, HashedIn, Inv, Judge, Redacted, Only;
    var h', s := RedactAs(h, subject, stamp), h.seals[i];
    JudgedBy(sha, h, h'.rows, h'.ledger, i);
    RedactEffect(sha, h, subject, stamp, s);
    SpanInRows(h.rows, s.from, s.to);
    var span := Span(h.rows, s.from, s.to);
    RedactedSpan(h.rows, subject, h.clock, s.from, s.to);
    RedactedSpanSameIff(span, subject, h.clock);
    SeparableIsTyped(span);
    RedactedIsTyped(span, subject, h.clock);
    assert h'.rows == h.rows || h'.rows == Redacted(h.rows, subject, h.clock);
    if !Lawful(s, h.ledger) {
      UnchangedIffSameSpan(sha, texts, h, h'.rows, i);
    }
    NothingChosen(h.rows, subject);
  }

  lemma SeparableIsTyped(rows: seq<Rec>)
    requires AllSeparable(rows)
    ensures AllTyped(rows)
  {
  }

  lemma SpanInRows(rows: seq<Rec>, from: nat, to: nat)
    ensures forall r :: r in Span(rows, from, to) <==> r in rows && InSpan(r, from, to)
    decreases |rows|
  {
    if rows != [] {
      assert rows == [rows[0]] + rows[1..];
      SpanInRows(rows[1..], from, to);
    }
  }

  lemma {:induction false} NothingChosen(rows: seq<Rec>, which: Which)
    ensures Only(rows, which) == [] <==> forall r | r in rows :: !which(r)
  {
    if rows != [] {
      assert rows == [rows[0]] + rows[1..];
      assert rows[0] in rows;
      NothingChosen(rows[1..], which);
    }
  }

  /** The same race with a purge or a hard forget: committing the removal gives a
      false alarm on a seal if and only if it removes a row of its range, nothing
      recorded after the seal explains it already, and the ledger entry's time is
      not later than the seal. */
  lemma LateRemovalAlarm(
      sha: Hash, texts: iset<string>, h: History, gone: Which, always: bool, stamp: nat, i: nat)
    requires HexDigest(sha) && CollisionFree(sha, texts) && Inv(sha, h) && i < |h.seals| && i !in h.late
    requires var s := h.seals[i];
      && AllSeparable(Span(h.rows, s.from, s.to)) && HashedIn(sha, texts, Span(h.rows, s.from, s.to))
      && HashedIn(sha, texts, Span(RemoveAs(h, gone, always, stamp).rows, s.from, s.to))
    ensures var h' := RemoveAs(h, gone, always, stamp);
      var s := h.seals[i];
      var v := Judge(sha, h'.rows, h'.ledger, PrevChain(h.seals, i), s);
      h'.seals == h.seals
      && (v == Tampered <==> Touches(h, gone, s) && !Lawful(s, h.ledger) && stamp <= s.sealedAt)
  {
    hide Span, SpanHash, Lawful, HexDigest, CollisionFree, HashedIn, Inv, Judge, Only;
    var h', s := RemoveAs(h, gone, always, stamp), h.seals[i];
    JudgedBy(sha, h, h'.rows, h'.ledger, i);
    RemoveEffect(sha, h, gone, always, stamp, s);
    SpanInRows(h.rows, s.from, s.to);
    RemainingSpan(h.rows, r => !gone(r), s.from, s.to);
    var span, left := Span(h.rows, s.from, s.to), Span(h'.rows, s.from, s.to);
    assert h'.rows == h.rows || h'.rows == Without(h.rows, gone);
    assert left == span || left == Without(span, gone);
    NothingChosen(h.rows, gone);
    SpanLoses(span, gone);
    if !Lawful(s, h.ledger) {
      assert AllTyped(left) by { KeptIsTyped(span, gone); }
      UnchangedIffSameSpan(sha, texts, h, h'.rows, i);
    }
  }

  lemma SpanLoses(span: seq<Rec>, gone: Which)
    ensures Without(span, gone) == span <==> forall r | r in span :: !gone(r)
  {
    CountSplits(span, gone);
    NothingChosen(span, gone);
    if forall r | r in span :: !gone(r) {
      KeepsAll(span, gone);
    }
  }

  lemma {:induction false} KeepsAll(rows: seq<Rec>, gone: Which)
    requires forall r | r in rows :: !gone(r)
    ensures Without(rows, gone) == rows
  {
    if rows != [] {
      assert rows == [rows[0]] + rows[1..];
      assert rows[0] in rows;
      KeepsAll(rows[1..], gone);
    }
  }

  lemma KeptIsTyped(rows: seq<Rec>, gone: Which)
    requires AllSeparable(rows)
    ensures AllTyped(rows) && AllTyped(Without(rows, gone))
  {
  }

  // ---------------------------------------------------------------------
  // Relocating the default partition
  // ---------------------------------------------------------------------

  /** relocate_default() re-inserts each row of the default partition, without
      its redaction stamp. */
  function Relocate(rows: seq<Rec>, inDefault: Which): (s: seq<Rec>)
    ensures |s| == |rows|
  {
    seq(|rows|, i requires 0 <= i < |rows| => if inDefault(rows[i]) then rows[i].(redactedAt := None) else rows[i])
  }

  predicate LosesStamp(rows: seq<Rec>, inDefault: Which) {
    exists r | r in rows :: inDefault(r) && r.redactedAt.Some?
  }

  /** Row by row, and as a bag of rows. */
  lemma RelocateKeepsRowsIffUnstamped(rows: seq<Rec>, inDefault: Which)
    ensures Relocate(rows, inDefault) == rows <==> !LosesStamp(rows, inDefault)
    ensures multiset(Relocate(rows, inDefault)) == multiset(rows) <==> !LosesStamp(rows, inDefault)
  {
    var moved := Relocate(rows, inDefault);
    if r :| r in rows && inDefault(r) && r.redactedAt.Some? {
      assert r in multiset(rows);
      forall i | 0 <= i < |rows| ensures moved[i] != r {}
      assert r !in moved;
      assert r !in multiset(moved);
    } else {
      forall i | 0 <= i < |rows| ensures moved[i] == rows[i] { assert rows[i] in rows; }
      assert moved == rows;
    }
  }

  lemma {:induction false} SpanOfRelocated(rows: seq<Rec>, inDefault: Which, from: nat, to: nat)
    ensures Span(Relocate(rows, inDefault), from, to) == Relocate(Span(rows, from, to), inDefault)
  {
    if rows != [] {
      var rest := rows[1..];
      assert Relocate(rows, inDefault)[1..] == Relocate(rest, inDefault);
      SpanOfRelocated(rest, inDefault, from, to);
      var tail := Span(rest, from, to);
      if InSpan(rows[0], from, to) {
        assert Relocate([rows[0]] + tail, inDefault) == Relocate([rows[0]], inDefault) + Relocate(tail, inDefault);
      } else {
        assert [] + tail == tail && [] + Relocate(tail, inDefault) == Relocate(tail, inDefault);
      }
    }
  }

  lemma RelocatedIsTyped(rows: seq<Rec>, inDefault: Which)
    requires AllSeparable(rows)
    ensures AllTyped(Relocate(rows, inDefault))
  {
    forall r | r in Relocate(rows, inDefault) ensures Typed(r) {
      var i :| 0 <= i < |rows| && Relocate(rows, inDefault)[i] == r;
      assert rows[i] in rows;
    }
  }

  /** Relocating writes no ledger entry, so an unexplained seal over the rows as
      they were reads 'TAMPERED' afterwards if and only if a relocated row in its
      span had been redacted. */
  lemma RelocateAlarmIffStamped(
      sha: Hash, texts: iset<string>, rows: seq<Rec>, ledger: seq<Ledger>, inDefault: Which, s: Seal)
    requires HexDigest(sha) && CollisionFree(sha, texts)
    requires AllSeparable(Span(rows, s.from, s.to)) && HashedIn(sha, texts, Span(rows, s.from, s.to))
    requires HashedIn(sha, texts, Span(Relocate(rows, inDefault), s.from, s.to))
    requires SealIntact(sha, s) && Unchanged(sha, rows, s) && !Lawful(s, ledger)
    ensures Judge(sha, Relocate(rows, inDefault), ledger, s.prev, s) == Tampered
      <==> LosesStamp(Span(rows, s.from, s.to), inDefault)
  {
    hide HashedIn, AllSeparable, AllTyped, Lawful, LosesStamp, Span, Judge, SealIntact;
    SpanOfRelocated(rows, inDefault, s.from, s.to);
    RelocatedIsTyped(Span(rows, s.from, s.to), inDefault);
    VerdictIsExact(sha, texts, rows, Relocate(rows, inDefault), ledger, s.prev, s);
    RelocateKeepsRowsIffUnstamped(Span(rows, s.from, s.to), inDefault);
  }

  // ---------------------------------------------------------------------
  // Removing twice
  // ---------------------------------------------------------------------

  lemma {:induction false} OnlyTwice(rows: seq<Rec>, p: Which, q: Which)
    requires forall r | r in rows && q(r) :: p(r)
    ensures Only(Only(rows, p), q) == Only(rows, q)
  {
    if rows != [] {
      assert rows == [rows[0]] + rows[1..];
      assert rows[0] in rows;
      OnlyTwice(rows[1..], p, q);
      if p(rows[0]) {
        assert Only(rows, p) == [rows[0]] + Only(rows[1..], p);
        assert Only(rows, p)[1..] == Only(rows[1..], p);
      } else {
        assert Only(rows, p) == Only(rows[1..], p);
        assert Only(rows, q) == Only(rows[1..], q);
      }
    }
  }

  lemma {:induction false} CountSplits(rows: seq<Rec>, p: Which)
    ensures |Only(rows, p)| + |Without(rows, p)| == |rows|
  {
    if rows != [] {
      CountSplits(rows[1..], p);
    }
  }
}
