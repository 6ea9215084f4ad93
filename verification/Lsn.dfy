/** WAL positions as text: two hexadecimal numbers without leading zeros, and
    the order of texts, byte by byte. */
module Lsn {
  import opened Options

  const WORD := 0x1_0000_0000

  function HexDigit(d: nat): (c: char)
    requires d < 16
  {
    if d < 10 then ('0' as int + d) as char else ('A' as int + d - 10) as char
  }

  function Hex(n: nat): (s: string)
    ensures |s| > 0
  {
    if n < 16 then [HexDigit(n)] else Hex(n / 16) + [HexDigit(n % 16)]
  }

  /** An LSN as pglogrepl prints it. */
  function Text(lsn: nat): string {
    Hex(lsn / WORD) + "/" + Hex(lsn % WORD)
  }

  /** Go's `<` on strings. */
  predicate Before(a: string, b: string)
    decreases |a|
  {
    b != "" && (a == "" || a[0] < b[0] || (a[0] == b[0] && Before(a[1..], b[1..])))
  }

  /** Both numbers of two LSNs are printed with the same number of digits. */
  predicate SameWidth(a: nat, b: nat) {
    |Hex(a / WORD)| == |Hex(b / WORD)| && |Hex(a % WORD)| == |Hex(b % WORD)|
  }

  lemma {:induction false} BeforeConcat(p: string, q: string, p': string, q': string)
    requires |p| == |p'|
    ensures Before(p + q, p' + q') <==> Before(p, p') || (p == p' && Before(q, q'))
    decreases |p|
  {
    if p == "" {
      assert p + q == q && p' + q' == q';
    } else {
      assert (p + q)[1..] == p[1..] + q && (p' + q')[1..] == p'[1..] + q';
      BeforeConcat(p[1..], q, p'[1..], q');
      assert p == [p[0]] + p[1..] && p' == [p'[0]] + p'[1..];
    }
  }

  lemma HexDigitOrder(c: nat, d: nat)
    requires c < 16 && d < 16
    ensures c < d <==> HexDigit(c) < HexDigit(d)
  {
  }

  /** Among numbers of the same width the order of the texts is the order of the
      numbers. */
  lemma {:induction false} HexOrder(a: nat, b: nat)
    requires |Hex(a)| == |Hex(b)|
    ensures Before(Hex(a), Hex(b)) <==> a < b
    ensures Hex(a) == Hex(b) <==> a == b
    decreases a
  {
    HexDigitOrder(a % 16, b % 16);
    HexDigitOrder(b % 16, a % 16);
    if a >= 16 && b >= 16 {
      var p, q := Hex(a / 16), Hex(b / 16);
      HexOrder(a / 16, b / 16);
      var x, y := [HexDigit(a % 16)], [HexDigit(b % 16)];
      BeforeConcat(p, x, q, y);
      assert p == Hex(a)[..|p|] && q == Hex(b)[..|q|];
      assert Hex(a)[|p|] == x[0] && Hex(b)[|q|] == y[0];
    } else {
      assert a < 16 && b < 16 by { ShortHex(a); ShortHex(b); }
    }
  }

  lemma ShortHex(n: nat)
    ensures n < 16 <==> |Hex(n)| == 1
  {
  }

  /** What a hexadecimal digit stands for, as ParseLSN reads it. */
  function DigitValue(c: char): Option<nat> {
    if '0' <= c <= '9' then Some(c as int - '0' as int)
    else if 'A' <= c <= 'F' then Some(c as int - 'A' as int + 10)
    else None
  }

  function HexValue(s: string): Option<nat> {
    if s == "" then Some(0)
    else
      var init, last := HexValue(s[..|s| - 1]), DigitValue(s[|s| - 1]);
      if init.None? || last.None? then None else Some(16 * init.value + last.value)
  }

  lemma DigitReadsBack(d: nat)
    requires d < 16
    ensures DigitValue(HexDigit(d)) == Some(d) && HexDigit(d) != '/'
  {
  }

  lemma HexValueSnoc(s: string, c: char)
    requires HexValue(s).Some? && DigitValue(c).Some?
    ensures HexValue(s + [c]) == Some(16 * HexValue(s).value + DigitValue(c).value)
  {
    assert (s + [c])[..|s|] == s;
  }

  lemma {:induction false} HexReadsBack(n: nat)
    ensures HexValue(Hex(n)) == Some(n) && '/' !in Hex(n)
  {
    hide HexValue, DigitValue, HexDigit;
    DigitReadsBack(n % 16);
    var high := if n < 16 then "" else Hex(n / 16);
    assert HexValue("") == Some(0) by { NoDigits(); }
    if n >= 16 {
      HexReadsBack(n / 16);
    } else {
      assert [] + [HexDigit(n)] == [HexDigit(n)];
    }
    HexValueSnoc(high, HexDigit(n % 16));
  }

  lemma NoDigits()
    ensures HexValue("") == Some(0)
  {
  }

  /** A position is read back from its text: the two numbers around the only slash. */
  lemma TextReadsBack(lsn: nat)
    ensures var high, low := Hex(lsn / WORD), Hex(lsn % WORD);
      && Text(lsn) == high + "/" + low && '/' !in high && '/' !in low
      && HexValue(high).Some? && HexValue(low).Some?
      && lsn == HexValue(high).value * 0x1_0000_0000 + HexValue(low).value
  {
    HexReadsBack(lsn / WORD);
    HexReadsBack(lsn % WORD);
  }

  /** At equal width, comparing LSNs as text is comparing the positions. */
  lemma TextOrder(a: nat, b: nat)
    requires SameWidth(a, b)
    ensures Before(Text(a), Text(b)) <==> a < b
  {
    var p, q := Hex(a / WORD), Hex(b / WORD);
    var x, y := Hex(a % WORD), Hex(b % WORD);
    HexOrder(a / WORD, b / WORD);
    HexOrder(a % WORD, b % WORD);
    BeforeConcat(p + "/", x, q + "/", y);
    BeforeConcat(p, "/", q, "/");
    assert !Before("/", "/") by { assert "/"[1..] == ""; }
    assert p == (p + "/")[..|p|] && q == (q + "/")[..|q|];
  }

  /** At different widths it is not: the later position's text comes first. */
  lemma TextOrderFailsAcrossWidths()
    ensures 0x900_0000 < 0x1000_0000 && Before(Text(0x1000_0000), Text(0x900_0000))
  {
    var a, b := Text(0x1000_0000), Text(0x900_0000);
    assert Hex(1) == "1" && Hex(9) == "9" && Hex(0) == "0";
    Powers();
    TopDigit(1, 7);
    TopDigit(9, 6);
    assert a[..3] == "0/1" && b[..3] == "0/9";
    assert Before("1", "9") && Before("/1", "/9") by { assert "/1"[1..] == "1" && "/9"[1..] == "9"; }
    assert Before("0/1", "0/9") by { assert "0/1"[1..] == "/1" && "0/9"[1..] == "/9"; }
    BeforeConcat("0/1", a[3..], "0/9", b[3..]);
    assert a == "0/1" + a[3..] && b == "0/9" + b[3..];
  }

  function Pow16(k: nat): nat {
    if k == 0 then 1 else 16 * Pow16(k - 1)
  }

  /** A one-digit number shifted by `k` digits still starts with that digit. */
  lemma {:induction false} TopDigit(d: nat, k: nat)
    requires 0 < d < 16
    ensures Hex(d * Pow16(k))[0] == HexDigit(d)
  {
    if k > 0 {
      var p := Pow16(k - 1);
      var n := d * p;
      TopDigit(d, k - 1);
      PowPositive(k - 1);
      assert d * (16 * p) == 16 * n && n >= 1 by { Shift(d, p); }
      assert (16 * n) / 16 == n;
      assert Hex(16 * n)[0] == Hex(n)[0];
    }
  }

  lemma Shift(d: nat, p: nat)
    requires d > 0 && p > 0
    ensures d * (16 * p) == 16 * (d * p) && d * p >= 1
  {
  }

  lemma Powers()
    ensures Pow16(6) == 0x100_0000 && Pow16(7) == 0x1000_0000
  {
    assert Pow16(2) == 256 && Pow16(4) == 0x1_0000;
  }

  lemma {:induction false} PowPositive(k: nat)
    ensures Pow16(k) > 0
  {
    if k > 0 {
      PowPositive(k - 1);
    }
  }
}
