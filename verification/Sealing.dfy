/** Tamper evidence: the canonical text of a change, sealing a span of the
    history, and verifying every seal. */
module Sealing {
  import opened Options
  import opened Hashing

  /** A row of change_log.  jsonb columns stand for their canonical text, and
      times for whole microseconds. */
  datatype Rec = Rec(
    id: nat, table: string, op: char, pk: string, before: Option<string>, after: Option<string>,
    actor: string, dbUser: string, txid: nat, ts: nat, redactedAt: Option<nat>)

  function OrEmpty(s: Option<string>): string {
    if s.Some? then s.value else ""
  }

  function TimeText(t: Option<nat>): string {
    if t.Some? then Dec(t.value) else ""
  }

  function HeadFields(r: Rec): seq<string> {
    [Dec(r.id), r.table, [r.op], r.pk, OrEmpty(r.before), OrEmpty(r.after)]
  }

  function TailFields(r: Rec): seq<string> {
    [Dec(r.txid), Dec(r.ts), TimeText(r.redactedAt)]
  }

  /** `_row_repr`. */
  function Repr(r: Rec): string {
    Join(Fields(r))
  }

  function Fields(r: Rec): seq<string> {
    HeadFields(r) + [r.actor, r.dbUser] + TailFields(r)
  }

  /** What the columns' types give of any row, whoever wrote it: ids are bigints
      and an image is never the empty text. */
  predicate Typed(r: Rec) {
    && r.id < Pow10(19)
    && (r.before.Some? ==> r.before.value != "")
    && (r.after.Some? ==> r.after.value != "")
  }

  /** No text field holds the separator. */
  predicate Separable(r: Rec) {
    && Typed(r)
    && Clean(r.table) && r.op != '|' && Clean(r.pk) && Clean(OrEmpty(r.before)) && Clean(OrEmpty(r.after))
    && Clean(r.actor) && Clean(r.dbUser)
  }

  lemma FieldsDetermine(a: Rec, b: Rec)
    requires Typed(a) && Typed(b) && Fields(a) == Fields(b)
    ensures a == b
  {
    var fa, fb := Fields(a), Fields(b);
    assert fa[0] == fb[0] && fa[1] == fb[1] && fa[2] == fb[2] && fa[3] == fb[3] && fa[4] == fb[4] && fa[5] == fb[5];
    assert fa[6] == fb[6] && fa[7] == fb[7] && fa[8] == fb[8] && fa[9] == fb[9] && fa[10] == fb[10];
    assert a.op == fa[2][0] && b.op == fb[2][0];
    DecInjective(a.id, b.id);
    DecInjective(a.txid, b.txid);
    DecInjective(a.ts, b.ts);
    if a.redactedAt.Some? && b.redactedAt.Some? {
      DecInjective(a.redactedAt.value, b.redactedAt.value);
    }
  }

  // ---------------------------------------------------------------------
  // Counting separators
  // ---------------------------------------------------------------------

  /** How many separators a text holds. */
  function Separators(s: string): nat {
    multiset(s)['|']
  }

  function SeparatorsIn(fields: seq<string>): nat {
    if fields == [] then 0 else Separators(fields[0]) + SeparatorsIn(fields[1..])
  }

  lemma {:induction false} JoinSeparators(fields: seq<string>)
    requires fields != []
    ensures Separators(Join(fields)) == |fields| - 1 + SeparatorsIn(fields)
  {
    if |fields| == 1 {
      assert SeparatorsIn(fields[1..]) == 0;
    } else {
      JoinSeparators(fields[1..]);
      assert Separators(fields[0] + "|" + Join(fields[1..])) == Separators(fields[0]) + 1 + Separators(Join(fields[1..]));
    }
  }

  lemma {:induction false} NoSeparatorsIff(fields: seq<string>)
    ensures SeparatorsIn(fields) == 0 <==> forall f | f in fields :: Clean(f)
  {
    if fields != [] {
      assert fields == [fields[0]] + fields[1..];
      assert Separators(fields[0]) == 0 <==> '|' !in multiset(fields[0]);
      assert '|' in multiset(fields[0]) <==> '|' in fields[0];
      assert fields[0] in fields && forall f | f in fields[1..] :: f in fields;
      NoSeparatorsIff(fields[1..]);
    }
  }

  /** A text joined from separator-free fields can only be joined in one way from
      as many fields, whatever those hold. */
  lemma CleanJoinDetermines(a: seq<string>, b: seq<string>)
    requires |a| == |b| > 0 && (forall f | f in a :: Clean(f)) && Join(a) == Join(b)
    ensures a == b
  {
    hide Join;
    JoinSeparators(a);
    JoinSeparators(b);
    NoSeparatorsIff(a);
    NoSeparatorsIff(b);
    JoinInjective(a, b);
  }

  /** No other row, whatever its fields hold, has the canonical text of a
      separator-free one. */
  lemma ReprInjective(a: Rec, b: Rec)
    requires Separable(a) && Typed(b) && Repr(a) == Repr(b)
    ensures a == b
  {
    hide Join, Pow10, Dec, Digit;
    assert forall f | f in Fields(a) :: Clean(f);
    CleanJoinDetermines(Fields(a), Fields(b));
    FieldsDetermine(a, b);
  }

  // ---------------------------------------------------------------------
  // Images that hold the separator
  // ---------------------------------------------------------------------

  /** Texts of jsonb objects: each ends where its braces close, so none is the
      beginning of another, and none starts with the separator. */
  ghost predicate ImageTexts(images: iset<string>) {
    && (forall x | x in images :: x != "" && x[0] != '|')
    && (forall x, y | x in images && y in images && x <= y :: x == y)
  }

  /** Key and images are object texts, which may hold the separator, as may every
      other text field. */
  ghost predicate Free(images: iset<string>, r: Rec) {
    && r.id < Pow10(19) && r.pk in images
    && (r.before.Some? ==> r.before.value in images)
    && (r.after.Some? ==> r.after.value in images)
  }

  /** The same, and the table's name does not hold it. */
  ghost predicate Tidy(images: iset<string>, r: Rec) {
    Free(images, r) && Clean(r.table)
  }

  function NameFields(r: Rec): seq<string> {
    [r.actor, r.dbUser] + TailFields(r)
  }

  /** The canonical text after the table's name, and after the id. */
  function AfterTable(r: Rec): string {
    [r.op] + "|" + (r.pk + "|" + (OrEmpty(r.before) + "|" + (OrEmpty(r.after) + "|" + Join(NameFields(r)))))
  }

  function AfterId(r: Rec): string {
    r.table + "|" + AfterTable(r)
  }

  lemma ReprLeftToRight(r: Rec)
    ensures Repr(r) == Dec(r.id) + "|" + AfterId(r)
  {
    var f := Fields(r);
    JoinStep(f, 0);
    JoinStep(f, 1);
    JoinStep(f, 2);
    JoinStep(f, 3);
    JoinStep(f, 4);
    JoinStep(f, 5);
    assert f[0..] == f && f[6..] == NameFields(r);
  }

  lemma JoinStep(f: seq<string>, i: nat)
    requires i + 1 < |f|
    ensures Join(f[i..]) == f[i] + "|" + Join(f[i + 1..])
  {
    assert f[i..][1..] == f[i + 1..];
  }

  /** An image, or the empty text of a missing one, is determined by a text that
      starts with it and a separator. */
  lemma ImageFirst(images: iset<string>, x: string, rx: string, y: string, ry: string)
    requires ImageTexts(images) && (x == "" || x in images) && (y == "" || y in images)
    requires x + "|" + rx == y + "|" + ry
    ensures x == y && rx == ry
  {
    if |x| <= |y| {
      ShorterImageFirst(images, x, rx, y, ry);
    } else {
      ShorterImageFirst(images, y, ry, x, rx);
    }
    SameLengthFirst(x, rx, y, ry);
  }

  lemma ShorterImageFirst(images: iset<string>, x: string, rx: string, y: string, ry: string)
    requires ImageTexts(images) && (x == "" || x in images) && (y == "" || y in images)
    requires |x| <= |y| && x + "|" + rx == y + "|" + ry
    ensures |x| == |y|
  {
    var whole := x + "|" + rx;
    assert whole[..|x|] == x && (y + "|" + ry)[..|x|] == y[..|x|];
    assert whole[|x|] == '|';
    assert y != "" ==> (y + "|" + ry)[0] == y[0];
    assert x <= y;
  }

  lemma SameLengthFirst(x: string, rx: string, y: string, ry: string)
    requires |x| == |y| && x + "|" + rx == y + "|" + ry
    ensures x == y && rx == ry
  {
    var whole := x + "|" + rx;
    assert whole[..|x|] == x && (y + "|" + ry)[..|x|] == y;
    assert rx == whole[|x| + 1..] && ry == (y + "|" + ry)[|x| + 1..];
  }

  lemma SameTextSameId(a: Rec, b: Rec)
    requires Repr(a) == Repr(b)
    ensures Dec(a.id) == Dec(b.id) && AfterId(a) == AfterId(b)
  {
    hide Dec, AfterId, Repr;
    ReprLeftToRight(a);
    ReprLeftToRight(b);
    FirstFieldEqual(Dec(a.id), AfterId(a), Dec(b.id), AfterId(b));
  }

  /** What follows the table's name delimits itself. */
  lemma RestDetermined(images: iset<string>, a: Rec, b: Rec)
    requires ImageTexts(images) && Free(images, a) && Free(images, b) && AfterTable(a) == AfterTable(b)
    ensures a.op == b.op && a.pk == b.pk && OrEmpty(a.before) == OrEmpty(b.before) && OrEmpty(a.after) == OrEmpty(b.after)
    ensures Join(NameFields(a)) == Join(NameFields(b))
  {
    hide Join, ImageTexts, Pow10;
    var a6, b6 := Join(NameFields(a)), Join(NameFields(b));
    var a5, b5 := OrEmpty(a.after) + "|" + a6, OrEmpty(b.after) + "|" + b6;
    var a4, b4 := OrEmpty(a.before) + "|" + a5, OrEmpty(b.before) + "|" + b5;
    SameLengthFirst([a.op], a.pk + "|" + a4, [b.op], b.pk + "|" + b4);
    ImageFirst(images, a.pk, a4, b.pk, b4);
    ImageFirst(images, OrEmpty(a.before), a5, OrEmpty(b.before), b5);
    ImageFirst(images, OrEmpty(a.after), a6, OrEmpty(b.after), b6);
  }

  /** Two rows of one text whose table names are equally long are one row, if the
      actor and db_user of one hold no separator. */
  lemma SameTableInjective(images: iset<string>, a: Rec, b: Rec)
    requires ImageTexts(images) && Free(images, a) && Free(images, b) && Repr(a) == Repr(b)
    requires |a.table| == |b.table| && Clean(a.actor) && Clean(a.dbUser)
    ensures a == b
  {
    hide Join, Dec, Repr, Pow10, AfterTable, ImageTexts;
    SameTextSameId(a, b);
    SameLengthFirst(a.table, AfterTable(a), b.table, AfterTable(b));
    RestDetermined(images, a, b);
    assert forall f | f in NameFields(a) :: Clean(f);
    CleanJoinDetermines(NameFields(a), NameFields(b));
    assert Fields(a) == HeadFields(a) + NameFields(a) && Fields(b) == HeadFields(b) + NameFields(b);
    ObjectTextsAreTyped(images, a);
    ObjectTextsAreTyped(images, b);
    FieldsDetermine(a, b);
  }

  lemma ObjectTextsAreTyped(images: iset<string>, r: Rec)
    requires ImageTexts(images) && Free(images, r)
    ensures Typed(r)
  {
  }

  /** With images that may hold the separator: a row whose actor and db_user do
      not has a text no other row with a separator-free table name has. */
  lemma TidyInjective(images: iset<string>, a: Rec, b: Rec)
    requires ImageTexts(images) && Tidy(images, a) && Tidy(images, b) && Repr(a) == Repr(b)
    requires Clean(a.actor) && Clean(a.dbUser)
    ensures a == b
  {
    hide Repr, Pow10, AfterTable;
    SameTextSameId(a, b);
    FirstFieldEqual(a.table, AfterTable(a), b.table, AfterTable(b));
    SameTableInjective(images, a, b);
  }

  /** Moving the boundary between actor and db_user past a separator gives a
      different change with the same text. */
  lemma MovedBoundary(images: iset<string>, a: Rec) returns (b: Rec)
    requires Free(images, a) && !(Clean(a.actor) && Clean(a.dbUser))
    ensures Free(images, b) && b.table == a.table && Repr(b) == Repr(a) && b != a
  {
    hide Join, HeadFields, TailFields;
    if !Clean(a.actor) {
      var i :| 0 <= i < |a.actor| && a.actor[i] == '|';
      b := a.(actor := a.actor[..i], dbUser := a.actor[i + 1..] + "|" + a.dbUser);
      assert a.actor == a.actor[..i] + "|" + a.actor[i + 1..];
    } else {
      var i :| 0 <= i < |a.dbUser| && a.dbUser[i] == '|';
      b := a.(actor := a.actor + "|" + a.dbUser[..i], dbUser := a.dbUser[i + 1..]);
      assert a.dbUser == a.dbUser[..i] + "|" + a.dbUser[i + 1..];
    }
    assert b.actor + "|" + b.dbUser == a.actor + "|" + a.dbUser;
    assert |b.actor| != |a.actor|;
    SameButForNames(a, b);
  }

  lemma ReprParts(r: Rec)
    ensures Repr(r) == Join(HeadFields(r)) + "|" + (r.actor + "|" + r.dbUser) + "|" + Join(TailFields(r))
  {
    JoinConcat(HeadFields(r) + [r.actor, r.dbUser], TailFields(r));
    JoinConcat(HeadFields(r), [r.actor, r.dbUser]);
    assert Join([r.actor, r.dbUser]) == r.actor + "|" + r.dbUser by {
      assert [r.actor, r.dbUser][1..] == [r.dbUser];
    }
  }

  lemma SameButForNames(a: Rec, b: Rec)
    requires b == a.(actor := b.actor, dbUser := b.dbUser)
    requires b.actor + "|" + b.dbUser == a.actor + "|" + a.dbUser
    ensures Repr(b) == Repr(a)
  {
    ReprParts(a);
    ReprParts(b);
  }

  /** Among rows whose table names hold no separator, and whatever their images
      hold: a change has a canonical text no other change has, if and only if
      neither its actor nor its db_user contains the separator. */
  lemma ReprIsExactIffSeparable(images: iset<string>, a: Rec)
    requires ImageTexts(images) && Tidy(images, a)
    ensures (forall b | Tidy(images, b) && Repr(b) == Repr(a) :: b == a) <==> Clean(a.actor) && Clean(a.dbUser)
  {
    hide Repr, Free, ImageTexts;
    if Clean(a.actor) && Clean(a.dbUser) {
      forall b | Tidy(images, b) && Repr(b) == Repr(a) ensures b == a {
        TidyInjective(images, a, b);
      }
    } else {
      var b := MovedBoundary(images, a);
    }
  }

  // ---------------------------------------------------------------------
  // When table names may hold the separator too
  // ---------------------------------------------------------------------

  /** The text reads as what follows a table's name in some row. */
  ghost predicate ReadsAsRest(images: iset<string>, text: string) {
    exists r :: Free(images, r) && text == AfterTable(r)
  }

  /** Behind no other separator than the one after the table's name does the text
      of the row read as the rest of a row. */
  ghost predicate OneParse(images: iset<string>, a: Rec) {
    forall p | 0 <= p < |AfterId(a)| && p != |a.table| && AfterId(a)[p] == '|' ::
      !ReadsAsRest(images, AfterId(a)[p + 1..])
  }

  lemma UnderAnotherTable(r: Rec, id: nat, table: string)
    ensures AfterId(r.(id := id, table := table)) == table + "|" + AfterTable(r)
  {
  }

  lemma SecondParse(images: iset<string>, a: Rec) returns (b: Rec)
    requires Free(images, a) && !OneParse(images, a)
    ensures Free(images, b) && Repr(b) == Repr(a) && b != a
  {
    hide Join, Dec, Repr, Pow10, AfterTable, AfterId;
    var text := AfterId(a);
    var p :| 0 <= p < |text| && p != |a.table| && text[p] == '|' && ReadsAsRest(images, text[p + 1..]);
    var r :| Free(images, r) && text[p + 1..] == AfterTable(r);
    b := r.(id := a.id, table := text[..p]);
    UnderAnotherTable(r, a.id, text[..p]);
    assert text == text[..p] + "|" + text[p + 1..];
    ReprLeftToRight(a);
    ReprLeftToRight(b);
  }

  /** Nothing asked of any name: a change has a canonical text no other change has,
      if and only if neither its actor nor its db_user holds the separator and its
      text has no second parse. */
  lemma ReprIsExactIffOneParse(images: iset<string>, a: Rec)
    requires ImageTexts(images) && Free(images, a)
    ensures (forall b | Free(images, b) && Repr(b) == Repr(a) :: b == a)
      <==> Clean(a.actor) && Clean(a.dbUser) && OneParse(images, a)
  {
    hide Repr, Free, ImageTexts, OneParse;
    if !OneParse(images, a) {
      var b := SecondParse(images, a);
    } else if !(Clean(a.actor) && Clean(a.dbUser)) {
      var b := MovedBoundary(images, a);
    } else {
      forall b | Free(images, b) && Repr(b) == Repr(a) ensures b == a {
        OneParseInjective(images, a, b);
      }
    }
  }

  lemma OneParseInjective(images: iset<string>, a: Rec, b: Rec)
    requires ImageTexts(images) && Free(images, a) && Free(images, b) && Repr(b) == Repr(a)
    requires Clean(a.actor) && Clean(a.dbUser) && OneParse(images, a)
    ensures a == b
  {
    hide Repr, AfterTable, ImageTexts, Pow10;
    SameTextSameId(a, b);
    var text, p := AfterId(b), |b.table|;
    assert text[p] == '|' && text[p + 1..] == AfterTable(b);
    assert ReadsAsRest(images, text[p + 1..]);
    SameTableInjective(images, a, b);
  }

  /** A joined text among the fields is the fields it was joined from. */
  lemma JoinNested(pre: seq<string>, sub: seq<string>, post: seq<string>)
    requires pre != [] && sub != [] && post != []
    ensures Join(pre + [Join(sub)] + post) == Join(pre + sub + post)
  {
    JoinConcat(pre + [Join(sub)], post);
    JoinConcat(pre, [Join(sub)]);
    JoinConcat(pre + sub, post);
    JoinConcat(pre, sub);
  }

  /** A key text that holds the separators of a whole row's rest: the same text is
      that of a row whose table name runs into the key. */
  lemma KeyReadAsRow(a: Rec, x: string, op: char, pk: string, y: string) returns (b: Rec)
    requires a.pk == Join([x, [op], pk, "", "", y])
    ensures b.table == Join([a.table, [a.op], x]) && b.op == op && b.pk == pk && b.id == a.id
    ensures b.before == None && b.after == None && b.actor == y
    ensures Repr(b) == Repr(a)
  {
    hide Dec, Join, TailFields;
    var rest := [OrEmpty(a.before), OrEmpty(a.after), a.actor, a.dbUser];
    b := a.(table := Join([a.table, [a.op], x]), op := op, pk := pk, before := None, after := None,
            actor := y, dbUser := Join(rest));
    var tail := TailFields(a);
    assert TailFields(b) == tail && tail != [] by { SameTail(a, b); }
    var key := [x, [op], pk, "", "", y];
    JoinNested([Dec(a.id), a.table, [a.op]], key, rest + tail);
    assert Fields(a) == [Dec(a.id), a.table, [a.op]] + [a.pk] + (rest + tail);
    var behind := [[op], pk, "", "", y];
    JoinNested([Dec(a.id)], [a.table, [a.op], x], behind + [b.dbUser] + tail);
    assert Fields(b) == [Dec(a.id)] + [b.table] + (behind + [b.dbUser] + tail);
    var front := [Dec(a.id)] + [a.table, [a.op], x] + behind;
    JoinNested(front, rest, tail);
    assert [Dec(a.id)] + [a.table, [a.op], x] + (behind + [b.dbUser] + tail) == front + [b.dbUser] + tail;
    assert [Dec(a.id), a.table, [a.op]] + key + (rest + tail) == front + rest + tail;
  }

  lemma SameTail(a: Rec, b: Rec)
    requires a.txid == b.txid && a.ts == b.ts && a.redactedAt == b.redactedAt
    ensures TailFields(a) == TailFields(b) && TailFields(a) != []
  {
  }

  const HEAD := "{\"k\":\"x"
  const TAIL := "y\"}"
  const PIPED_KEY := HEAD + "|I|{}|||" + TAIL

  lemma PipedKey()
    ensures PIPED_KEY == Join([HEAD, ['I'], "{}", "", "", TAIL])
  {
    hide HEAD, TAIL;
    var f := [HEAD, ['I'], "{}", "", "", TAIL];
    JoinStep(f, 0);
    JoinStep(f, 1);
    JoinStep(f, 2);
    JoinStep(f, 3);
    JoinStep(f, 4);
    assert f[0..] == f && f[5..] == [TAIL];
    assert ['I'] + "|" + "{}" + "|" + "|" + "|" == "I|{}|||";
  }

  lemma PipedImages()
    ensures ImageTexts(iset{PIPED_KEY, "{}"}) && PIPED_KEY != "{}"
  {
    assert PIPED_KEY[0] == '{' && PIPED_KEY[1] == '"' && "{}"[1] == '}' && |PIPED_KEY| > 2;
  }

  /** The smallest case: a change of table t and a row of table t|I|{"k":"x have one
      text, though every name of the change is free of the separator. */
  lemma TableNameCollision() returns (images: iset<string>, a: Rec, b: Rec)
    ensures ImageTexts(images) && Tidy(images, a) && Clean(a.actor) && Clean(a.dbUser)
    ensures Free(images, b) && b != a && Repr(b) == Repr(a)
  {
    hide Repr, Dec, Join, PIPED_KEY, HEAD, TAIL, ImageTexts;
    images := iset{PIPED_KEY, "{}"};
    a := Rec(1, "t", 'I', PIPED_KEY, None, None, "u", "v", 7, 8, None);
    PipedKey();
    PipedImages();
    b := KeyReadAsRow(a, HEAD, 'I', "{}", TAIL);
    assert Pow10(19) > 1 by { assert Pow10(19) == 10 * Pow10(18) && Pow10(18) > 0; }
  }

  lemma ReprSeparated(r: Rec)
    requires r.id < Pow10(19)
    ensures Separated(Repr(r))
  {
    DecLength(r.id, 19);
    var rest := Fields(r)[1..];
    assert Repr(r) == Dec(r.id) + "|" + Join(rest);
    assert Repr(r)[|Dec(r.id)|] == '|';
  }

  // ---------------------------------------------------------------------
  // Spans
  // ---------------------------------------------------------------------

  predicate InSpan(r: Rec, from: nat, to: nat) {
    from <= r.id <= to
  }

  /** The rows `WHERE id BETWEEN from AND to`, in id order. */
  function Span(rows: seq<Rec>, from: nat, to: nat): (s: seq<Rec>)
    ensures forall r | r in s :: r in rows && InSpan(r, from, to)
  {
    if rows == [] then []
    else
      assert rows == [rows[0]] + rows[1..];
      (if InSpan(rows[0], from, to) then [rows[0]] else []) + Span(rows[1..], from, to)
  }

  /** A span holds every row with an id in its range, both ends included, and no other. */
  lemma {:induction false} SpanHolds(rows: seq<Rec>, from: nat, to: nat, r: Rec)
    ensures r in Span(rows, from, to) <==> r in rows && from <= r.id <= to
  {
    if rows != [] {
      assert rows == [rows[0]] + rows[1..];
      SpanHolds(rows[1..], from, to, r);
    }
  }

  function Reprs(rows: seq<Rec>): (s: seq<string>)
    ensures |s| == |rows|
  {
    seq(|rows|, i requires 0 <= i < |rows| => Repr(rows[i]))
  }

  function SpanHash(sha: Hash, rows: seq<Rec>, from: nat, to: nat): string {
    Fold(sha, Reprs(Span(rows, from, to)))
  }

  /** `_hash_span`: the rows of a span are folded one at a time. */
  method HashSpan(sha: Hash, rows: seq<Rec>, from: nat, to: nat) returns (hash: string, count: nat)
    ensures hash == SpanHash(sha, rows, from, to) && count == |Span(rows, from, to)|
  {
    var span := Span(rows, from, to);
    hash, count := "", 0;
    for i := 0 to |span|
      invariant hash == Fold(sha, Reprs(span)[..i]) && count == i
    {
      assert Reprs(span)[..i + 1][..i] == Reprs(span)[..i];
      hash := sha(hash + Repr(span[i]));
      count := count + 1;
    }
    assert Reprs(span)[..|span|] == Reprs(span);
  }

  // ---------------------------------------------------------------------
  // Seals
  // ---------------------------------------------------------------------

  datatype Seal = Seal(
    from: nat, to: nat, count: nat, content: string, prev: Option<string>, chain: string, sealedAt: nat)

  /** The text a seal's chain_hash is over. */
  function SealText(prev: Option<string>, content: string, from: nat, to: nat, count: nat): string {
    Join([OrEmpty(prev), content, Dec(from), Dec(to), Dec(count)])
  }

  function LastTo(seals: seq<Seal>): nat {
    if seals == [] then 0 else seals[|seals| - 1].to
  }

  function LastChain(seals: seq<Seal>): Option<string> {
    if seals == [] then None else Some(seals[|seals| - 1].chain)
  }

  /** The largest id of a row, if there is a row. */
  function MaxId(rows: seq<Rec>): (m: Option<nat>)
    ensures rows == [] <==> m.None?
    ensures m.Some? ==> (forall r | r in rows :: r.id <= m.value) && exists r :: r in rows && r.id == m.value
  {
    if rows == [] then None
    else
      assert rows == [rows[0]] + rows[1..];
      var rest := MaxId(rows[1..]);
      if rest.Some? && rest.value > rows[0].id then
        var w :| w in rows[1..] && w.id == rest.value;
        assert w in rows;
        rest
      else
        assert rows[0] in rows;
        Some(rows[0].id)
  }

  function From(rows: seq<Rec>, from: nat): (s: seq<Rec>)
    ensures forall r :: r in s <==> r in rows && r.id >= from
  {
    if rows == [] then []
    else
      assert rows == [rows[0]] + rows[1..];
      (if rows[0].id >= from then [rows[0]] else []) + From(rows[1..], from)
  }

  /** The last id a seal starting at `from` covers, given the newest id. */
  function SealTo(from: nat, newest: nat, cap: nat): nat
    requires 1 <= from <= newest
  {
    if newest - from + 1 > cap then from + cap - 1 else newest
  }

  /** The seal that `seal()` writes next, if there is anything to seal. */
  function NextSeal(sha: Hash, rows: seq<Rec>, seals: seq<Seal>, cap: nat, now: nat): Option<Seal> {
    var from := LastTo(seals) + 1;
    match MaxId(From(rows, from))
    case None => None
    case Some(newest) =>
      var to := SealTo(from, newest, cap);
      var content, count := SpanHash(sha, rows, from, to), |Span(rows, from, to)|;
      var prev := LastChain(seals);
      Some(Seal(from, to, count, content, prev, sha(SealText(prev, content, from, to, count)), now))
  }

  /** A retention or erasure ledger entry. */
  datatype Ledger = Ledger(at: nat, from: Option<nat>, to: Option<nat>)

  /** Recorded after the seal, over ids that overlap it. */
  predicate Covers(l: Ledger, s: Seal) {
    l.from.Some? && l.to.Some? && l.at > s.sealedAt && l.from.value <= s.to && l.to.value >= s.from
  }

  predicate Lawful(s: Seal, ledger: seq<Ledger>) {
    exists l | l in ledger :: Covers(l, s)
  }

  datatype Verdict = AsSealed | Explained | Tampered | ChainBroken | SealForged

  datatype Kind = RowsRemoved | RowsInserted | AlteredInPlace

  predicate SealIntact(sha: Hash, s: Seal) {
    s.chain == sha(SealText(s.prev, s.content, s.from, s.to, s.count))
  }

  function Judge(sha: Hash, rows: seq<Rec>, ledger: seq<Ledger>, prev: Option<string>, s: Seal): Verdict {
    if s.prev != prev then ChainBroken
    else if !SealIntact(sha, s) then SealForged
    else if SpanHash(sha, rows, s.from, s.to) == s.content then AsSealed
    else if Lawful(s, ledger) then Explained
    else Tampered
  }

  function KindOf(sha: Hash, rows: seq<Rec>, s: Seal): Option<Kind> {
    var found := |Span(rows, s.from, s.to)|;
    if found < s.count then Some(RowsRemoved)
    else if found > s.count then Some(RowsInserted)
    else if SpanHash(sha, rows, s.from, s.to) != s.content then Some(AlteredInPlace)
    else None
  }

  datatype Finding = Finding(verdict: Verdict, kind: Option<Kind>, found: nat)

  function FindingFor(sha: Hash, rows: seq<Rec>, ledger: seq<Ledger>, prev: Option<string>, s: Seal): Finding {
    var v := Judge(sha, rows, ledger, prev, s);
    Finding(v, if v == AsSealed then None else KindOf(sha, rows, s), |Span(rows, s.from, s.to)|)
  }

  function PrevChain(seals: seq<Seal>, i: nat): Option<string>
    requires i < |seals|
  {
    if i == 0 then None else Some(seals[i - 1].chain)
  }

  lemma FirstHasNoPrev(seals: seq<Seal>)
    ensures seals != [] ==> PrevChain(seals, 0) == None
  {
  }

  lemma PrevOfNext(seals: seq<Seal>, i: nat)
    requires i < |seals|
    ensures i + 1 < |seals| ==> PrevChain(seals, i + 1) == Some(seals[i].chain)
  {
  }

  predicate LinkOk(sha: Hash, seals: seq<Seal>, i: nat)
    requires i < |seals|
  {
    seals[i].prev == PrevChain(seals, i) && SealIntact(sha, seals[i])
  }

  /** Every seal follows the one before it and is unaltered. */
  ghost predicate ChainOk(sha: Hash, seals: seq<Seal>) {
    forall i | 0 <= i < |seals| :: LinkOk(sha, seals, i)
  }

  /** The seal names the chain hash of the one before it, and the first none. */
  predicate Follows(seals: seq<Seal>, i: nat)
    requires i < |seals|
  {
    seals[i].prev == if i == 0 then None else Some(seals[i - 1].chain)
  }

  ghost predicate NothingBroken(sha: Hash, rows: seq<Rec>, seals: seq<Seal>, ledger: seq<Ledger>) {
    forall i | 0 <= i < |seals| ::
      FindingFor(sha, rows, ledger, PrevChain(seals, i), seals[i]).verdict !in {ChainBroken, SealForged}
  }

  /** The verdicts decide the chain: whatever the rows and the ledger, a seal reads as
      out of its place or as forged exactly if it is, and none does exactly if every
      seal follows the one before it and is unaltered. */
  lemma VerdictsDecideChain(sha: Hash, rows: seq<Rec>, seals: seq<Seal>, ledger: seq<Ledger>)
    ensures forall i | 0 <= i < |seals| ::
      var s, v := seals[i], FindingFor(sha, rows, ledger, PrevChain(seals, i), seals[i]).verdict;
      && (v == ChainBroken <==> !Follows(seals, i))
      && (v == SealForged <==> Follows(seals, i) && s.chain != sha(SealText(s.prev, s.content, s.from, s.to, s.count)))
    ensures NothingBroken(sha, rows, seals, ledger) <==> ChainOk(sha, seals)
  {
    hide SpanHash, Span, SealText, Lawful, KindOf;
    forall i | 0 <= i < |seals|
      ensures FindingFor(sha, rows, ledger, PrevChain(seals, i), seals[i]).verdict !in {ChainBroken, SealForged}
        <==> LinkOk(sha, seals, i)
    {
    }
  }

  lemma ChainFromFindings(sha: Hash, rows: seq<Rec>, seals: seq<Seal>, ledger: seq<Ledger>, findings: seq<Finding>)
    requires |findings| == |seals|
    requires forall i | 0 <= i < |seals| ::
      findings[i] == FindingFor(sha, rows, ledger, PrevChain(seals, i), seals[i])
    ensures forall i | 0 <= i < |seals| :: findings[i].verdict == ChainBroken <==> !Follows(seals, i)
    ensures forall i | 0 <= i < |seals| ::
      var s := seals[i];
      findings[i].verdict == SealForged
      <==> Follows(seals, i) && s.chain != sha(SealText(s.prev, s.content, s.from, s.to, s.count))
    ensures (forall i | 0 <= i < |seals| :: findings[i].verdict !in {ChainBroken, SealForged}) <==> ChainOk(sha, seals)
  {
    hide FindingFor, Follows, SealText, PrevChain, ChainOk;
    VerdictsDecideChain(sha, rows, seals, ledger);
  }

  /** How many ledger entries account for a change to a sealed span. */
  method CountLawful(s: Seal, ledger: seq<Ledger>) returns (n: nat)
    ensures n > 0 <==> Lawful(s, ledger)
  {
    n := 0;
    for k := 0 to |ledger|
      invariant n > 0 <==> exists j | 0 <= j < k :: Covers(ledger[j], s)
    {
      if Covers(ledger[k], s) {
        n := n + 1;
      }
    }
  }

  /** `verify`: re-hash every sealed span and re-walk the chain. */
  method Verify(sha: Hash, rows: seq<Rec>, seals: seq<Seal>, ledger: seq<Ledger>) returns (findings: seq<Finding>)
    ensures |findings| == |seals|
    ensures forall i | 0 <= i < |seals| ::
      findings[i] == FindingFor(sha, rows, ledger, PrevChain(seals, i), seals[i])
    ensures forall i | 0 <= i < |seals| :: findings[i].verdict == ChainBroken <==> !Follows(seals, i)
    ensures forall i | 0 <= i < |seals| ::
      var s := seals[i];
      findings[i].verdict == SealForged
      <==> Follows(seals, i) && s.chain != sha(SealText(s.prev, s.content, s.from, s.to, s.count))
    ensures (forall i | 0 <= i < |seals| :: findings[i].verdict !in {ChainBroken, SealForged}) <==> ChainOk(sha, seals)
  {
    hide SpanHash, Span, SealText, Lawful, Covers, PrevChain, Follows, ChainOk;
    findings := [];
    var prev: Option<string> := None;
    FirstHasNoPrev(seals);
    for i := 0 to |seals|
      invariant |findings| == i
      invariant i < |seals| ==> prev == PrevChain(seals, i)
      invariant forall j | 0 <= j < i ::
        findings[j] == FindingFor(sha, rows, ledger, PrevChain(seals, j), seals[j])
    {
      var s := seals[i];
      var hash, found := HashSpan(sha, rows, s.from, s.to);
      var chain := sha(SealText(s.prev, s.content, s.from, s.to, s.count));
      var kind := if found < s.count then Some(RowsRemoved)
                  else if found > s.count then Some(RowsInserted)
                  else if hash != s.content then Some(AlteredInPlace)
                  else None;
      var verdict;
      if s.prev != prev {
        verdict := ChainBroken;
      } else if chain != s.chain {
        verdict := SealForged;
      } else if hash == s.content {
        verdict, kind := AsSealed, None;
      } else {
        var lawful := CountLawful(s, ledger);
        verdict := if lawful > 0 then Explained else Tampered;
      }
      findings := findings + [Finding(verdict, kind, found)];
      prev := Some(s.chain);
      PrevOfNext(seals, i);
    }
    ChainFromFindings(sha, rows, seals, ledger, findings);
  }
}
