/** Reading a segment file back, line by line, the way bufio.Scanner splits it:
    a line ends at a line break or at the end of the file, and loses one
    carriage return at its end.  A line that does not fit the buffer with its
    line break ends the scan with an error. */
module Scanning {
  import opened Archive

  /** The scanner's buffer, 64 << 20 bytes. */
  const BUFFER: nat := 0x400_0000

  function FirstBreak(text: string): (n: nat)
    ensures n <= |text| && '\n' !in text[..n]
    ensures n < |text| ==> text[n] == '\n'
  {
    if text == "" || text[0] == '\n' then 0
    else
      assert forall m | 0 < m <= |text| :: text[..m] == [text[0]] + text[1..][..m - 1];
      1 + FirstBreak(text[1..])
  }

  function DropCr(line: string): string {
    if line != "" && line[|line| - 1] == '\r' then line[..|line| - 1] else line
  }

  /** The lines read, up to the first that does not fit. */
  function Scan(text: string): (lines: seq<string>)
    ensures forall l | l in lines :: '\n' !in l
    decreases |text|
  {
    if text == "" || FirstBreak(text) >= BUFFER then []
    else
      var n := FirstBreak(text);
      [DropCr(text[..n])] + if n == |text| then [] else Scan(text[n + 1..])
  }

  /** The scan reaches the end of the file. */
  predicate Scans(text: string)
    decreases |text|
  {
    text != "" ==>
      var n := FirstBreak(text);
      n < BUFFER && (n < |text| ==> Scans(text[n + 1..]))
  }

  predicate AllFit(lines: seq<string>) {
    forall l | l in lines :: |l| < 64 * 1024 * 1024
  }

  /** How a record's line looks: JSON escapes both line-break characters. */
  predicate Plain(line: string) {
    '\n' !in line && '\r' !in line
  }

  lemma BreakAt(line: string, rest: string)
    requires '\n' !in line
    ensures FirstBreak(line + "\n" + rest) == |line|
  {
    var text := line + "\n" + rest;
    var n := FirstBreak(text);
    assert forall i | 0 <= i < |line| :: text[i] == line[i];
    assert text[|line|] == '\n';
    assert forall i | 0 <= i < n :: text[..n][i] == text[i];
  }

  lemma ScanFirst(line: string, rest: string)
    requires '\n' !in line
    ensures Scans(line + "\n" + rest) <==> |line| < BUFFER && Scans(rest)
    ensures |line| < BUFFER ==> Scan(line + "\n" + rest) == [DropCr(line)] + Scan(rest)
  {
    var text := line + "\n" + rest;
    BreakAt(line, rest);
    assert text[..|line|] == line && text[|line| + 1..] == rest;
  }

  lemma {:induction false} TextCons(line: string, rest: seq<string>)
    ensures Text([line] + rest) == line + "\n" + Text(rest)
  {
    var lines := [line] + rest;
    if rest == [] {
      assert lines[..|lines| - 1] == [];
      assert "" + line + "\n" == line + "\n" + "";
    } else {
      var init := rest[..|rest| - 1];
      assert lines[..|lines| - 1] == [line] + init;
      TextCons(line, init);
    }
  }

  lemma ScanNothing()
    ensures Scan(Text([])) == [] && Scans(Text([]))
  {
  }

  /** The scan of what was written line by line reaches the end exactly if every
      line fits, and then reads those lines, each less one trailing carriage
      return. */
  lemma {:induction false} ScanText(lines: seq<string>)
    requires forall l | l in lines :: '\n' !in l
    ensures Scans(Text(lines)) <==> AllFit(lines)
    ensures AllFit(lines) ==> |Scan(Text(lines))| == |lines|
    ensures AllFit(lines) ==> forall i | 0 <= i < |lines| :: Scan(Text(lines))[i] == DropCr(lines[i])
    decreases |lines|
  {
    hide Text, Scan, Scans, FirstBreak, DropCr;
    if lines == [] {
      ScanNothing();
    } else {
      var rest := lines[1..];
      assert lines == [lines[0]] + rest;
      TextCons(lines[0], rest);
      ScanFirst(lines[0], Text(rest));
      ScanText(rest);
    }
  }

  lemma ScanPlain(lines: seq<string>)
    requires forall l | l in lines :: Plain(l)
    ensures Scans(Text(lines)) <==> AllFit(lines)
    ensures AllFit(lines) ==> Scan(Text(lines)) == lines
  {
    hide Text, Scan, Scans;
    ScanText(lines);
    forall i | 0 <= i < |lines| ensures DropCr(lines[i]) == lines[i] {
      assert Plain(lines[i]);
    }
  }

  lemma LongLineStops(long: string, rest: string)
    requires '\n' !in long && |long| >= 64 * 1024 * 1024
    ensures !Scans(long + "\n" + rest) && Scan(long + "\n" + rest) == []
  {
    BreakAt(long, rest);
  }

  /** The scan of a file with a line that does not fit stops there: the lines before it
      were read, and neither it nor any later one is. */
  lemma {:induction false} ScanStopsAtLongLine(before: seq<string>, long: string, rest: string)
    requires forall l | l in before :: '\n' !in l
    requires '\n' !in long && |long| >= 64 * 1024 * 1024 && AllFit(before)
    ensures var text := Text(before) + (long + "\n" + rest);
      && !Scans(text) && |Scan(text)| == |before|
      && forall i | 0 <= i < |before| :: Scan(text)[i] == DropCr(before[i])
    decreases |before|
  {
    hide Text, DropCr, Scan, Scans, FirstBreak;
    var tail := long + "\n" + rest;
    if before == [] {
      NoText();
      LongLineStops(long, rest);
      assert "" + tail == tail;
    } else {
      var line, more := before[0], before[1..];
      assert before == [line] + more;
      TextCons(line, more);
      ScanStopsAtLongLine(more, long, rest);
      assert (line + "\n" + Text(more)) + tail == line + "\n" + (Text(more) + tail);
      ScanFirst(line, Text(more) + tail);
    }
  }

  lemma NoText()
    ensures Text([]) == ""
  {
  }

  /** Lines without breaks can be told from their text. */
  lemma {:induction false} TextInjective(a: seq<string>, b: seq<string>)
    requires (forall l | l in a :: '\n' !in l) && (forall l | l in b :: '\n' !in l)
    requires Text(a) == Text(b)
    ensures a == b
    decreases |a|
  {
    if a != [] && b != [] {
      assert a == [a[0]] + a[1..] && b == [b[0]] + b[1..];
      var ta, tb := Text(a[1..]), Text(b[1..]);
      TextCons(a[0], a[1..]);
      TextCons(b[0], b[1..]);
      BreakAt(a[0], ta);
      BreakAt(b[0], tb);
      assert a[0] == Text(a)[..|a[0]|] && b[0] == Text(b)[..|b[0]|];
      assert ta == Text(a)[|a[0]| + 1..] && tb == Text(b)[|b[0]| + 1..];
      TextInjective(a[1..], b[1..]);
    }
  }
}
