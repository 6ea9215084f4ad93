/** What verification proves about a sealed history. */
module SealTheorems {
  import opened Options
  import opened Hashing
  import opened Sealing

  // ---------------------------------------------------------------------
  // Tamper detection
  // ---------------------------------------------------------------------

  /** Every text hashed for a span is among `texts`. */
  ghost predicate HashedIn(sha: Hash, texts: iset<string>, span: seq<Rec>) {
    Hashed(sha, Reprs(span)) <= texts
  }

  ghost predicate AllTyped(span: seq<Rec>) {
    forall r | r in span :: Typed(r)
  }

  ghost predicate AllSeparable(span: seq<Rec>) {
    forall r | r in span :: Separable(r)
  }

  /** Rows whose images may hold the separator and whose names may not. */
  ghost predicate AllPlain(images: iset<string>, span: seq<Rec>) {
    forall r | r in span :: Tidy(images, r) && Clean(r.actor) && Clean(r.dbUser)
  }

  ghost predicate AllTidy(images: iset<string>, span: seq<Rec>) {
    forall r | r in span :: Tidy(images, r)
  }

  /** Rows whose text has no second parse, and whose names hold no separator. */
  ghost predicate AllOneParse(images: iset<string>, span: seq<Rec>) {
    forall r | r in span :: Free(images, r) && Clean(r.actor) && Clean(r.dbUser) && OneParse(images, r)
  }

  ghost predicate AllFree(images: iset<string>, span: seq<Rec>) {
    forall r | r in span :: Free(images, r)
  }

  /** No row of one span is mistaken for a different row of the other. */
  ghost predicate ToldApart(a: seq<Rec>, b: seq<Rec>) {
    && (forall r | r in a + b :: r.id < Pow10(19))
    && (forall x, y | x in a && y in b && Repr(x) == Repr(y) :: x == y)
  }

  lemma SeparableToldApart(a: seq<Rec>, b: seq<Rec>)
    requires AllSeparable(a) && AllTyped(b)
    ensures ToldApart(a, b)
  {
    hide Repr, Pow10;
    forall x, y | x in a && y in b && Repr(x) == Repr(y) ensures x == y {
      ReprInjective(x, y);
    }
  }

  lemma PlainToldApart(images: iset<string>, a: seq<Rec>, b: seq<Rec>)
    requires ImageTexts(images) && AllPlain(images, a) && AllTidy(images, b)
    ensures ToldApart(a, b)
  {
    hide Repr, Pow10;
    forall x, y | x in a && y in b && Repr(x) == Repr(y) ensures x == y {
      TidyInjective(images, x, y);
    }
  }

  lemma OneParseToldApart(images: iset<string>, a: seq<Rec>, b: seq<Rec>)
    requires ImageTexts(images) && AllOneParse(images, a) && AllFree(images, b)
    ensures ToldApart(a, b)
  {
    hide Repr, Pow10, OneParse;
    forall x, y | x in a && y in b && Repr(x) == Repr(y) ensures x == y {
      OneParseInjective(images, x, y);
    }
  }

  lemma {:induction false} ReprsInjective(a: seq<Rec>, b: seq<Rec>)
    requires ToldApart(a, b) && Reprs(a) == Reprs(b)
    ensures a == b
  {
    hide Repr;
    assert |a| == |Reprs(a)| == |b|;
    forall i | 0 <= i < |a| ensures a[i] == b[i] {
      assert Reprs(a)[i] == Repr(a[i]) && Reprs(b)[i] == Repr(b[i]);
    }
  }

  lemma SpanHashInjective(sha: Hash, texts: iset<string>, a: seq<Rec>, b: seq<Rec>)
    requires HexDigest(sha) && CollisionFree(sha, texts)
    requires HashedIn(sha, texts, a) && HashedIn(sha, texts, b) && ToldApart(a, b)
    requires Fold(sha, Reprs(a)) == Fold(sha, Reprs(b))
    ensures a == b
  {
    hide Fold, Hashed, Repr, Separated, HexDigest, CollisionFree, Pow10;
    forall t | t in Reprs(a) ensures Separated(t) {
      var i :| 0 <= i < |a| && t == Repr(a[i]);
      assert a[i] in a + b;
      ReprSeparated(a[i]);
    }
    forall t | t in Reprs(b) ensures Separated(t) {
      var i :| 0 <= i < |b| && t == Repr(b[i]);
      assert b[i] in a + b;
      ReprSeparated(b[i]);
    }
    FoldInjective(sha, texts, Reprs(a), Reprs(b));
    ReprsInjective(a, b);
  }

  lemma VerdictWhenToldApart(
      sha: Hash, texts: iset<string>, sealed: seq<Rec>, rows: seq<Rec>, ledger: seq<Ledger>,
      prev: Option<string>, s: Seal)
    requires HexDigest(sha) && CollisionFree(sha, texts)
    requires HashedIn(sha, texts, Span(sealed, s.from, s.to)) && HashedIn(sha, texts, Span(rows, s.from, s.to))
    requires ToldApart(Span(sealed, s.from, s.to), Span(rows, s.from, s.to))
    requires s.content == SpanHash(sha, sealed, s.from, s.to)
    requires s.prev == prev && SealIntact(sha, s)
    ensures var same := Span(rows, s.from, s.to) == Span(sealed, s.from, s.to);
      var v := Judge(sha, rows, ledger, prev, s);
      && (v == AsSealed <==> same)
      && (v == Explained <==> !same && Lawful(s, ledger))
      && (v == Tampered <==> !same && !Lawful(s, ledger))
  {
    hide Span, Fold, HashedIn, ToldApart, Lawful;
    if SpanHash(sha, rows, s.from, s.to) == s.content {
      SpanHashInjective(sha, texts, Span(sealed, s.from, s.to), Span(rows, s.from, s.to));
    }
  }

  /** For a seal row that is unaltered and in its place, written over `sealed`
      rows, the verdict is exact, barring a collision on texts that were hashed:
      'ok' means the rows now in its id range are exactly those sealed, and
      'TAMPERED' means they are not and no later ledger entry overlaps.  Nothing is
      asked of the rows found now but what the columns' types give. */
  lemma VerdictIsExact(
      sha: Hash, texts: iset<string>, sealed: seq<Rec>, rows: seq<Rec>, ledger: seq<Ledger>,
      prev: Option<string>, s: Seal)
    requires HexDigest(sha) && CollisionFree(sha, texts)
    requires HashedIn(sha, texts, Span(sealed, s.from, s.to)) && HashedIn(sha, texts, Span(rows, s.from, s.to))
    requires AllSeparable(Span(sealed, s.from, s.to)) && AllTyped(Span(rows, s.from, s.to))
    requires s.content == SpanHash(sha, sealed, s.from, s.to)
    requires s.prev == prev && SealIntact(sha, s)
    ensures var same := Span(rows, s.from, s.to) == Span(sealed, s.from, s.to);
      var v := Judge(sha, rows, ledger, prev, s);
      && (v == AsSealed <==> same)
      && (v == Explained <==> !same && Lawful(s, ledger))
      && (v == Tampered <==> !same && !Lawful(s, ledger))
  {
    hide Span, HashedIn, AllSeparable, AllTyped, ToldApart, Judge, Lawful, SealIntact;
    SeparableToldApart(Span(sealed, s.from, s.to), Span(rows, s.from, s.to));
    VerdictWhenToldApart(sha, texts, sealed, rows, ledger, prev, s);
  }

  /** The verdict is as exact when the sealed images hold separators, as soon as
      the sealed actors and users and the table names found do not. */
  lemma VerdictIsExactWithImages(
      sha: Hash, texts: iset<string>, images: iset<string>, sealed: seq<Rec>, rows: seq<Rec>, ledger: seq<Ledger>,
      prev: Option<string>, s: Seal)
    requires HexDigest(sha) && CollisionFree(sha, texts) && ImageTexts(images)
    requires HashedIn(sha, texts, Span(sealed, s.from, s.to)) && HashedIn(sha, texts, Span(rows, s.from, s.to))
    requires AllPlain(images, Span(sealed, s.from, s.to)) && AllTidy(images, Span(rows, s.from, s.to))
    requires s.content == SpanHash(sha, sealed, s.from, s.to)
    requires s.prev == prev && SealIntact(sha, s)
    ensures var same := Span(rows, s.from, s.to) == Span(sealed, s.from, s.to);
      var v := Judge(sha, rows, ledger, prev, s);
      && (v == AsSealed <==> same)
      && (v == Explained <==> !same && Lawful(s, ledger))
      && (v == Tampered <==> !same && !Lawful(s, ledger))
  {
    hide Span, HashedIn, AllPlain, AllTidy, ToldApart, Judge, Lawful, SealIntact;
    PlainToldApart(images, Span(sealed, s.from, s.to), Span(rows, s.from, s.to));
    VerdictWhenToldApart(sha, texts, sealed, rows, ledger, prev, s);
  }

  /** And with nothing asked of the names found now, table names included, as soon
      as the texts of the sealed rows have no second parse. */
  lemma VerdictIsExactWithOneParse(
      sha: Hash, texts: iset<string>, images: iset<string>, sealed: seq<Rec>, rows: seq<Rec>, ledger: seq<Ledger>,
      prev: Option<string>, s: Seal)
    requires HexDigest(sha) && CollisionFree(sha, texts) && ImageTexts(images)
    requires HashedIn(sha, texts, Span(sealed, s.from, s.to)) && HashedIn(sha, texts, Span(rows, s.from, s.to))
    requires AllOneParse(images, Span(sealed, s.from, s.to)) && AllFree(images, Span(rows, s.from, s.to))
    requires s.content == SpanHash(sha, sealed, s.from, s.to)
    requires s.prev == prev && SealIntact(sha, s)
    ensures var same := Span(rows, s.from, s.to) == Span(sealed, s.from, s.to);
      var v := Judge(sha, rows, ledger, prev, s);
      && (v == AsSealed <==> same)
      && (v == Explained <==> !same && Lawful(s, ledger))
      && (v == Tampered <==> !same && !Lawful(s, ledger))
  {
    hide Span, HashedIn, AllOneParse, AllFree, ToldApart, Judge, Lawful, SealIntact;
    OneParseToldApart(images, Span(sealed, s.from, s.to), Span(rows, s.from, s.to));
    VerdictWhenToldApart(sha, texts, sealed, rows, ledger, prev, s);
  }

  // ---------------------------------------------------------------------
  // The chain
  // ---------------------------------------------------------------------

  /** Everything a seal row says but when it was sealed, which no hash covers. */
  predicate SameSeal(a: Seal, b: Seal) {
    a == b.(sealedAt := a.sealedAt)
  }

  ghost predicate ChainTexts(texts: iset<string>, seals: seq<Seal>) {
    forall s | s in seals :: SealText(s.prev, s.content, s.from, s.to, s.count) in texts
  }

  lemma LastFieldEqual(a: string, ra: string, b: string, rb: string)
    requires Clean(ra) && Clean(rb) && a + "|" + ra == b + "|" + rb
    ensures a == b && ra == rb
  {
    var x, y := a + "|" + ra, b + "|" + rb;
    assert x[|a|] == '|' && y[|b|] == '|';
    assert forall i | |a| < i < |x| :: x[i] == ra[i - |a| - 1];
    assert forall i | |b| < i < |y| :: y[i] == rb[i - |b| - 1];
    assert |a| == |b|;
    assert a == x[..|a|] && b == y[..|b|] && ra == x[|a| + 1..] && rb == y[|b| + 1..];
  }

  lemma SealTextParts(s: Seal)
    ensures SealText(s.prev, s.content, s.from, s.to, s.count)
      == OrEmpty(s.prev) + "|" + (((s.content + "|" + Dec(s.from)) + "|" + Dec(s.to)) + "|" + Dec(s.count))
  {
    hide Dec;
    var f := [OrEmpty(s.prev), s.content, Dec(s.from), Dec(s.to), Dec(s.count)];
    JoinStep(f, 0);
    JoinStep(f, 1);
    JoinStep(f, 2);
    JoinStep(f, 3);
    assert f[0..] == f && f[4..] == [Dec(s.count)];
  }

  /** The field between two ends that hold no separator is determined by them,
      whatever it holds itself. */
  lemma SealTextInjective(a: Seal, b: Seal)
    requires Clean(OrEmpty(a.prev)) && Clean(OrEmpty(b.prev))
    requires SealText(a.prev, a.content, a.from, a.to, a.count) == SealText(b.prev, b.content, b.from, b.to, b.count)
    ensures OrEmpty(a.prev) == OrEmpty(b.prev) && a.content == b.content
    ensures a.from == b.from && a.to == b.to && a.count == b.count
  {
    hide SealText, Dec;
    SealTextParts(a);
    SealTextParts(b);
    var a2, b2 := a.content + "|" + Dec(a.from), b.content + "|" + Dec(b.from);
    var a1, b1 := a2 + "|" + Dec(a.to), b2 + "|" + Dec(b.to);
    FirstFieldEqual(OrEmpty(a.prev), a1 + "|" + Dec(a.count), OrEmpty(b.prev), b1 + "|" + Dec(b.count));
    LastFieldEqual(a1, Dec(a.count), b1, Dec(b.count));
    LastFieldEqual(a2, Dec(a.to), b2, Dec(b.to));
    LastFieldEqual(a.content, Dec(a.from), b.content, Dec(b.from));
    DecInjective(a.from, b.from);
    DecInjective(a.to, b.to);
    DecInjective(a.count, b.count);
  }

  lemma PrefixChain(sha: Hash, texts: iset<string>, seals: seq<Seal>)
    requires ChainOk(sha, seals) && ChainTexts(texts, seals) && seals != []
    ensures var init := seals[..|seals| - 1];
      ChainOk(sha, init) && ChainTexts(texts, init) && seals[|seals| - 1].prev == LastChain(init)
  {
    hide SealIntact, SealText, Clean;
    var init := seals[..|seals| - 1];
    forall i | 0 <= i < |init| ensures LinkOk(sha, init, i) {
      assert LinkOk(sha, seals, i) && init[i] == seals[i];
    }
    assert LinkOk(sha, seals, |seals| - 1);
    assert forall s | s in init :: s in seals;
  }

  /** The last seals of two such tables are the same seal, and the tables before
      them end in the same chain_hash. */
  lemma LastSealsSame(sha: Hash, texts: iset<string>, a: seq<Seal>, b: seq<Seal>)
    requires HexDigest(sha) && CollisionFree(sha, texts)
    requires ChainOk(sha, a) && ChainOk(sha, b) && ChainTexts(texts, a) && ChainTexts(texts, b)
    requires a != [] && b != [] && LastChain(a) == LastChain(b)
    ensures SameSeal(a[|a| - 1], b[|b| - 1])
    ensures LastChain(a[..|a| - 1]) == LastChain(b[..|b| - 1])
  {
    hide ChainOk, SealText;
    var x, y := a[|a| - 1], b[|b| - 1];
    PrefixChain(sha, texts, a);
    PrefixChain(sha, texts, b);
    IntactAt(sha, a, |a| - 1);
    IntactAt(sha, b, |b| - 1);
    assert x in a && y in b;
    PrevIsDigest(sha, a[..|a| - 1]);
    PrevIsDigest(sha, b[..|b| - 1]);
    SealTextInjective(x, y);
  }

  lemma IntactAt(sha: Hash, seals: seq<Seal>, i: nat)
    requires ChainOk(sha, seals) && i < |seals|
    ensures SealIntact(sha, seals[i]) && seals[i].prev == PrevChain(seals, i)
  {
    assert LinkOk(sha, seals, i);
  }

  /** Two seal tables that both pass the link and seal-hash checks and end in the
      same chain_hash are the same seals, row by row and in number, barring a
      collision on texts that were hashed. */
  lemma {:induction false} ChainDeterminesSeals(sha: Hash, texts: iset<string>, a: seq<Seal>, b: seq<Seal>)
    requires HexDigest(sha) && CollisionFree(sha, texts)
    requires ChainOk(sha, a) && ChainOk(sha, b) && ChainTexts(texts, a) && ChainTexts(texts, b)
    requires LastChain(a) == LastChain(b)
    ensures |a| == |b| && forall i | 0 <= i < |a| :: SameSeal(a[i], b[i])
    decreases |a|
  {
    hide ChainOk, ChainTexts, HexDigest, CollisionFree, SameSeal;
    if a != [] {
      var a0, b0 := a[..|a| - 1], b[..|b| - 1];
      PrefixChain(sha, texts, a);
      PrefixChain(sha, texts, b);
      LastSealsSame(sha, texts, a, b);
      ChainDeterminesSeals(sha, texts, a0, b0);
      forall i | 0 <= i < |a| ensures SameSeal(a[i], b[i]) {
        if i < |a0| { assert a[i] == a0[i] && b[i] == b0[i] && SameSeal(a0[i], b0[i]); }
      }
    }
  }

  lemma PrevIsDigest(sha: Hash, seals: seq<Seal>)
    requires HexDigest(sha) && ChainOk(sha, seals)
    ensures LastChain(seals).Some? ==> |LastChain(seals).value| == 64 && Clean(LastChain(seals).value)
  {
    if seals != [] {
      assert LinkOk(sha, seals, |seals| - 1);
    }
  }

  // ---------------------------------------------------------------------
  // Tiling and progress
  // ---------------------------------------------------------------------

  /** A seal's span starts where the one before it ended, and is not empty. */
  predicate TileOk(seals: seq<Seal>, i: nat)
    requires i < |seals|
  {
    seals[i].from == (if i == 0 then 1 else seals[i - 1].to + 1) && seals[i].from <= seals[i].to
  }

  /** Consecutive spans from id 1 on, without gap or overlap. */
  ghost predicate Tiles(seals: seq<Seal>) {
    forall i | 0 <= i < |seals| :: TileOk(seals, i)
  }

  function SealOnce(sha: Hash, rows: seq<Rec>, seals: seq<Seal>, cap: nat, now: nat): seq<Seal> {
    match NextSeal(sha, rows, seals, cap, now)
    case None => seals
    case Some(s) => seals + [s]
  }

  /** With a cap of at least one a seal always covers at least one id; with a cap
      of zero it covers none, and sealing never advances. */
  lemma SealAdvancesIffCapped(sha: Hash, rows: seq<Rec>, seals: seq<Seal>, cap: nat, now: nat)
    requires NextSeal(sha, rows, seals, cap, now).Some?
    ensures var s := NextSeal(sha, rows, seals, cap, now).value;
      && s.from == LastTo(seals) + 1
      && (s.from <= s.to <==> cap >= 1)
      && (cap == 0 ==> s.to == LastTo(seals))
      && (cap >= 1 ==> exists r :: r in rows && s.to <= r.id)
  {
    var from := LastTo(seals) + 1;
    var newest := MaxId(From(rows, from)).value;
    var w :| w in From(rows, from) && w.id == newest;
    assert w in rows;
  }

  lemma SealKeepsTiling(sha: Hash, rows: seq<Rec>, seals: seq<Seal>, cap: nat, now: nat)
    requires Tiles(seals) && cap >= 1
    ensures Tiles(SealOnce(sha, rows, seals, cap, now))
  {
    hide NextSeal;
    if NextSeal(sha, rows, seals, cap, now).Some? {
      SealAdvancesIffCapped(sha, rows, seals, cap, now);
      var s := NextSeal(sha, rows, seals, cap, now).value;
      var next := seals + [s];
      forall i | 0 <= i < |next| ensures TileOk(next, i) {
        if i < |seals| { assert TileOk(seals, i); }
      }
    }
  }

  /** Every id up to the last one sealed lies in exactly one seal's span. */
  lemma {:induction false} EachIdSealedOnce(seals: seq<Seal>, id: nat) returns (i: nat)
    requires Tiles(seals) && 1 <= id <= LastTo(seals)
    ensures i < |seals| && seals[i].from <= id <= seals[i].to
    ensures forall j | 0 <= j < |seals| && seals[j].from <= id <= seals[j].to :: j == i
    decreases |seals|
  {
    var n := |seals| - 1;
    var init := seals[..n];
    forall i | 0 <= i < n ensures TileOk(init, i) { assert TileOk(seals, i); }
    assert TileOk(seals, n);
    if id >= seals[n].from {
      i := n;
      forall j | 0 <= j < n ensures seals[j].to < id { TilesRise(seals, j, n); }
    } else {
      assert n > 0;
      i := EachIdSealedOnce(init, id);
      forall j | 0 <= j < |seals| && seals[j].from <= id <= seals[j].to ensures j == i {
        if j < n { assert init[j] == seals[j]; }
      }
    }
  }

  lemma {:induction false} TilesRise(seals: seq<Seal>, j: nat, k: nat)
    requires Tiles(seals) && j < k < |seals|
    ensures seals[j].to < seals[k].from
    decreases k
  {
    assert TileOk(seals, k) && TileOk(seals, k - 1);
    if j < k - 1 {
      TilesRise(seals, j, k - 1);
    }
  }

  function SealTimes(sha: Hash, rows: seq<Rec>, seals: seq<Seal>, cap: nat, now: nat, calls: nat): seq<Seal>
    decreases calls
  {
    if calls == 0 then seals
    else SealTimes(sha, rows, SealOnce(sha, rows, seals, cap, now), cap, now + 1, calls - 1)
  }

  lemma OneCallCatchesUp(sha: Hash, rows: seq<Rec>, seals: seq<Seal>, cap: nat, now: nat, newest: Rec)
    requires cap >= 1 && newest in rows && (forall r | r in rows :: r.id <= newest.id)
    requires LastTo(seals) < newest.id
    ensures var next := SealOnce(sha, rows, seals, cap, now);
      LastTo(next) == if LastTo(seals) + cap < newest.id then LastTo(seals) + cap else newest.id
  {
    hide SpanHash, Span, SealText, From, MaxId;
    var from := LastTo(seals) + 1;
    assert newest in From(rows, from);
    var m := MaxId(From(rows, from));
    var w :| w in From(rows, from) && w.id == m.value;
    assert m == Some(newest.id);
  }

  lemma NoBacklog(sha: Hash, rows: seq<Rec>, seals: seq<Seal>, cap: nat, now: nat)
    requires forall r | r in rows :: r.id <= LastTo(seals)
    ensures SealOnce(sha, rows, seals, cap, now) == seals
  {
    var unsealed := From(rows, LastTo(seals) + 1);
    assert forall r :: r !in unsealed;
  }

  /** Calling seal() again and again seals any backlog: as soon as the calls'
      caps add up to the id distance to the newest row, that row is sealed. */
  lemma {:induction false} SealingCatchesUp(
      sha: Hash, rows: seq<Rec>, seals: seq<Seal>, cap: nat, now: nat, calls: nat, newest: Rec)
    requires cap >= 1 && newest in rows && (forall r | r in rows :: r.id <= newest.id)
    requires LastTo(seals) <= newest.id && newest.id - LastTo(seals) <= calls * cap
    ensures LastTo(SealTimes(sha, rows, seals, cap, now, calls)) == newest.id
    decreases calls
  {
    hide SealOnce, LastTo;
    if calls > 0 {
      var next := SealOnce(sha, rows, seals, cap, now);
      assert calls * cap == (calls - 1) * cap + cap;
      if LastTo(seals) < newest.id {
        OneCallCatchesUp(sha, rows, seals, cap, now, newest);
      } else {
        NoBacklog(sha, rows, seals, cap, now);
      }
      SealingCatchesUp(sha, rows, next, cap, now + 1, calls - 1, newest);
    }
  }
}
