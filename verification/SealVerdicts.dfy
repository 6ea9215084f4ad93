/** What a verification says about the seals themselves, and about how the rows of a
    sealed span came to differ. */
module SealVerdicts {
  import opened Options
  import opened Hashing
  import opened Sealing
  import opened SealTheorems

  /** Two seal tables on which verify reports no seal as forged or out of its place, and
      which end in one chain hash, are the same seals, whatever rows and ledgers they
      were verified against. */
  lemma CleanFindingsDetermineSeals(
      sha: Hash, texts: iset<string>, a: seq<Seal>, b: seq<Seal>, rows: seq<Rec>, ledger: seq<Ledger>,
      rows': seq<Rec>, ledger': seq<Ledger>)
    requires HexDigest(sha) && CollisionFree(sha, texts) && ChainTexts(texts, a) && ChainTexts(texts, b)
    requires NothingBroken(sha, rows, a, ledger) && NothingBroken(sha, rows', b, ledger')
    requires LastChain(a) == LastChain(b)
    ensures |a| == |b| && forall i | 0 <= i < |a| :: SameSeal(a[i], b[i])
  {
    hide NothingBroken, ChainOk, ChainTexts, SameSeal;
    VerdictsDecideChain(sha, rows, a, ledger);
    VerdictsDecideChain(sha, rows', b, ledger');
    ChainDeterminesSeals(sha, texts, a, b);
  }

  /** A seal row edited in place, its chain hash left alone: it reads as out of its
      place exactly if its link was changed, and as forged exactly if only its range,
      its count or its content was. */
  lemma EditedSealIsSeen(
      sha: Hash, texts: iset<string>, seals: seq<Seal>, i: nat, s': Seal, rows: seq<Rec>, ledger: seq<Ledger>)
    requires HexDigest(sha) && CollisionFree(sha, texts) && ChainOk(sha, seals) && i < |seals|
    requires ChainTexts(texts, seals + [s']) && s'.chain == seals[i].chain
    ensures var s, v := seals[i], FindingFor(sha, rows, ledger, PrevChain(seals, i), s').verdict;
      && (v == ChainBroken <==> s'.prev != s.prev)
      && (v == SealForged <==>
            s'.prev == s.prev && !(s'.from == s.from && s'.to == s.to && s'.count == s.count && s'.content == s.content))
  {
    hide Span, SpanHash, Lawful, KindOf, SealText, ChainOk;
    var s := seals[i];
    IntactAt(sha, seals, i);
    assert s in seals + [s'] && s' in seals + [s'];
    if s'.prev == s.prev {
      assert Clean(OrEmpty(s.prev)) by { PrevIsClean(sha, seals, i); }
      if SealIntact(sha, s') {
        SealTextInjective(s, s');
      }
    }
  }

  lemma PrevIsClean(sha: Hash, seals: seq<Seal>, i: nat)
    requires HexDigest(sha) && ChainOk(sha, seals) && i < |seals|
    ensures Clean(OrEmpty(seals[i].prev))
  {
    IntactAt(sha, seals, i);
    if i > 0 {
      IntactAt(sha, seals, i - 1);
    }
  }

  /** What the kind of a finding says, of a seal in place: against the rows it was
      taken over, rows are missing, or there are more, or as many and not the same; and
      nothing exactly if they are the same rows. */
  lemma KindTellsWhatChanged(
      sha: Hash, texts: iset<string>, sealed: seq<Rec>, seals: seq<Seal>, cap: nat, now: nat, rows: seq<Rec>,
      ledger: seq<Ledger>)
    requires HexDigest(sha) && CollisionFree(sha, texts) && NextSeal(sha, sealed, seals, cap, now).Some?
    requires var s := NextSeal(sha, sealed, seals, cap, now).value;
      && HashedIn(sha, texts, Span(sealed, s.from, s.to)) && HashedIn(sha, texts, Span(rows, s.from, s.to))
      && ToldApart(Span(sealed, s.from, s.to), Span(rows, s.from, s.to))
    ensures var s := NextSeal(sha, sealed, seals, cap, now).value;
      var was, is_ := Span(sealed, s.from, s.to), Span(rows, s.from, s.to);
      var f := FindingFor(sha, rows, ledger, LastChain(seals), s);
      && f.found == |is_| && f.verdict !in {ChainBroken, SealForged}
      && (f.kind == None <==> is_ == was)
      && (f.kind == Some(RowsRemoved) <==> |is_| < |was|)
      && (f.kind == Some(RowsInserted) <==> |is_| > |was|)
      && (f.kind == Some(AlteredInPlace) <==> |is_| == |was| && is_ != was)
  {
    hide Span, HashedIn, ToldApart, Lawful, From, SealText, Fold, Reprs;
    var s := NextSeal(sha, sealed, seals, cap, now).value;
    VerdictWhenToldApart(sha, texts, sealed, rows, ledger, LastChain(seals), s);
  }
}
