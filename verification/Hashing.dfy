/** Text that is hashed: fields joined with '|', decimal numbers, and digests. */
module Hashing {

  /** A hash function on text, hex-encoded. */
  type Hash = string -> string

  /** What SHA-256 in hex gives for every input: 64 characters, none a '|'. */
  ghost predicate HexDigest(sha: Hash) {
    forall x {:trigger sha(x)} :: |sha(x)| == 64 && Clean(sha(x))
  }

  /** No two different texts among those in `texts` have the same digest. */
  ghost predicate CollisionFree(sha: Hash, texts: iset<string>) {
    forall x, y | x in texts && y in texts && sha(x) == sha(y) :: x == y
  }

  predicate Clean(s: string) {
    '|' !in s
  }

  /** concat_ws('|', ...). */
  function Join(fields: seq<string>): string
    requires fields != []
  {
    if |fields| == 1 then fields[0] else fields[0] + "|" + Join(fields[1..])
  }

  lemma SeparatorInLonger(a: string, ra: string, b: string, rb: string)
    requires a + "|" + ra == b + "|" + rb && |a| < |b|
    ensures '|' in b
  {
    assert (a + "|" + ra)[|a|] == '|' && (b + "|" + rb)[|a|] == b[|a|];
  }

  /** Two separator-free fields before a separator are equal, and so is what
      follows it. */
  lemma FirstFieldEqual(a: string, ra: string, b: string, rb: string)
    requires Clean(a) && Clean(b) && a + "|" + ra == b + "|" + rb
    ensures a == b && ra == rb
  {
    var x, y := a + "|" + ra, b + "|" + rb;
    if |a| < |b| { SeparatorInLonger(a, ra, b, rb); }
    if |b| < |a| { SeparatorInLonger(b, rb, a, ra); }
    assert a == x[..|a|] && b == y[..|b|] && ra == x[|a| + 1..] && rb == y[|b| + 1..];
  }

  lemma {:induction false} JoinInjective(a: seq<string>, b: seq<string>)
    requires |a| == |b| > 0 && (forall f | f in a :: Clean(f)) && (forall f | f in b :: Clean(f))
    requires Join(a) == Join(b)
    ensures a == b
  {
    if |a| > 1 {
      FirstFieldEqual(a[0], Join(a[1..]), b[0], Join(b[1..]));
      JoinInjective(a[1..], b[1..]);
      assert a == [a[0]] + a[1..] && b == [b[0]] + b[1..];
    } else {
      assert a == [a[0]] && b == [b[0]];
    }
  }

  lemma {:induction false} JoinConcat(a: seq<string>, b: seq<string>)
    requires a != [] && b != []
    ensures Join(a + b) == Join(a) + "|" + Join(b)
  {
    assert (a + b)[1..] == a[1..] + b;
    if |a| > 1 {
      JoinConcat(a[1..], b);
    }
  }

  // ---------------------------------------------------------------------
  // Decimal numbers
  // ---------------------------------------------------------------------

  function Digit(d: nat): (c: char)
    requires d < 10
    ensures '0' <= c <= '9' && c as int - '0' as int == d
  {
    ('0' as int + d) as char
  }

  function Dec(n: nat): (s: string)
    ensures |s| > 0 && forall c | c in s :: '0' <= c <= '9'
    ensures Clean(s)
  {
    if n < 10 then [Digit(n)] else Dec(n / 10) + [Digit(n % 10)]
  }

  lemma DecLong(n: nat)
    ensures n >= 10 <==> |Dec(n)| > 1
  {
  }

  lemma {:induction false} DecInjective(m: nat, n: nat)
    requires Dec(m) == Dec(n)
    ensures m == n
  {
    var s, t := Dec(m), Dec(n);
    assert s[|s| - 1] == t[|t| - 1];
    DecLong(m);
    DecLong(n);
    if m >= 10 {
      assert Dec(m / 10) == s[..|s| - 1] && Dec(n / 10) == t[..|t| - 1];
      DecInjective(m / 10, n / 10);
    }
  }

  function Pow10(k: nat): (p: nat)
    ensures p > 0
  {
    if k == 0 then 1 else 10 * Pow10(k - 1)
  }

  lemma {:induction false} DecLength(n: nat, k: nat)
    requires 0 < k && n < Pow10(k)
    ensures |Dec(n)| <= k
  {
    if n >= 10 {
      DecLength(n / 10, k - 1);
    }
  }

  // ---------------------------------------------------------------------
  // Folding a span
  // ---------------------------------------------------------------------

  /** The running digest over a list of texts, oldest first. */
  function Fold(sha: Hash, reprs: seq<string>): string {
    if reprs == [] then "" else sha(Fold(sha, reprs[..|reprs| - 1]) + reprs[|reprs| - 1])
  }

  /** Every text that folding a list hashes. */
  ghost function Hashed(sha: Hash, reprs: seq<string>): iset<string> {
    iset i | 0 <= i < |reprs| :: Fold(sha, reprs[..i]) + reprs[i]
  }

  /** A row's text shows its first separator before a digest could end. */
  predicate Separated(r: string) {
    exists i | 0 <= i < |r| :: i < 64 && r[i] == '|'
  }

  lemma FoldLength(sha: Hash, reprs: seq<string>)
    requires HexDigest(sha)
    ensures reprs == [] ==> Fold(sha, reprs) == ""
    ensures reprs != [] ==> |Fold(sha, reprs)| == 64 && Clean(Fold(sha, reprs))
  {
  }

  lemma HashedPrefix(sha: Hash, reprs: seq<string>)
    requires reprs != []
    ensures Hashed(sha, reprs[..|reprs| - 1]) <= Hashed(sha, reprs)
    ensures Fold(sha, reprs[..|reprs| - 1]) + reprs[|reprs| - 1] in Hashed(sha, reprs)
  {
    var init := reprs[..|reprs| - 1];
    forall t | t in Hashed(sha, init) ensures t in Hashed(sha, reprs) {
      var i :| 0 <= i < |init| && t == Fold(sha, init[..i]) + init[i];
      assert init[..i] == reprs[..i] && init[i] == reprs[i];
    }
  }

  lemma SeparatorInDigest(h: string, r: string, whole: string)
    requires h + r == whole && |h| == 64 && Separated(whole)
    ensures '|' in h
  {
    var i :| 0 <= i < |whole| && i < 64 && whole[i] == '|';
    assert (h + r)[i] == h[i];
  }

  /** A running digest with the row that follows it can be taken apart again. */
  lemma SplitDigest(h: string, r: string, h': string, r': string)
    requires |h| in {0, 64} && |h'| in {0, 64} && Clean(h) && Clean(h')
    requires Separated(r) && Separated(r') && h + r == h' + r'
    ensures h == h' && r == r'
  {
    if |h| < |h'| {
      assert h + r == r;
      SeparatorInDigest(h', r', r);
    } else if |h'| < |h| {
      assert h' + r' == r';
      SeparatorInDigest(h, r, r');
    } else {
      assert h == (h + r)[..|h|] && h' == (h' + r')[..|h|];
      assert r == (h + r)[|h|..] && r' == (h' + r')[|h|..];
    }
  }

  /** Equal digests of two lists mean equal lists, unless the hash function has
      collided on texts that were in fact hashed. */
  lemma {:induction false} FoldInjective(sha: Hash, texts: iset<string>, a: seq<string>, b: seq<string>)
    requires HexDigest(sha) && CollisionFree(sha, texts)
    requires Hashed(sha, a) <= texts && Hashed(sha, b) <= texts
    requires (forall r | r in a :: Separated(r)) && (forall r | r in b :: Separated(r))
    requires Fold(sha, a) == Fold(sha, b)
    ensures a == b
    decreases |a|
  {
    FoldLength(sha, a);
    FoldLength(sha, b);
    if a != [] && b != [] {
      var a0, b0 := a[..|a| - 1], b[..|b| - 1];
      var ra, rb := a[|a| - 1], b[|b| - 1];
      HashedPrefix(sha, a);
      HashedPrefix(sha, b);
      FoldLength(sha, a0);
      FoldLength(sha, b0);
      SplitDigest(Fold(sha, a0), ra, Fold(sha, b0), rb);
      FoldInjective(sha, texts, a0, b0);
      assert a == a0 + [ra] && b == b0 + [rb];
    }
  }
}
