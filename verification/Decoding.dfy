/** Decoding pgoutput messages: tuples into row images, and messages into the
    records the archive keeps. */
module Decoding {
  import opened Options
  import opened JsonValues
  import opened Tables
  import opened Capture
  import opened Archive

  /** A column of a tuple: a null, an unchanged TOAST value that was not sent, or
      a value. */
  datatype Column = IsNull | Unchanged | Value(v: Json)

  type Tuple = seq<Column>

  datatype Relation = Relation(name: string, cols: seq<string>, pkCols: seq<string>)

  datatype Message =
    | RelationMsg(id: nat, rel: Relation)
    | BeginMsg
    | InsertMsg(id: nat, next: Tuple)
    | UpdateMsg(id: nat, prior: Option<Tuple>, next: Tuple)
    | DeleteMsg(id: nat, prior: Option<Tuple>)
    | TruncateMsg(ids: seq<nat>)

  type Relations = map<nat, Relation>

  // ---------------------------------------------------------------------
  // Tuples
  // ---------------------------------------------------------------------

  /** One column put into the image; an unsent value is carried over from the
      fallback when there is one. */
  function PutColumn(image: Row, name: string, col: Column, fallback: Option<Row>): Row {
    match col
    case IsNull => image[name := Null]
    case Value(v) => image[name := v]
    case Unchanged =>
      if fallback.Some? && name in fallback.value then image[name := fallback.value[name]] else image
  }

  function DecodedUpto(cols: seq<string>, t: Tuple, fallback: Option<Row>, n: nat): Row
    requires n <= |t| && n <= |cols|
  {
    if n == 0 then map[] else PutColumn(DecodedUpto(cols, t, fallback, n - 1), cols[n - 1], t[n - 1], fallback)
  }

  function Min(a: nat, b: nat): nat {
    if a < b then a else b
  }

  function Decoded(rel: Relation, t: Option<Tuple>, fallback: Option<Row>): Row {
    if t.None? then map[]
    else DecodedUpto(rel.cols, t.value, fallback, Min(|t.value|, |rel.cols|))
  }

  method TupleToMap(rel: Relation, t: Option<Tuple>, fallback: Option<Row>) returns (out: Row)
    ensures out == Decoded(rel, t, fallback)
  {
    out := map[];
    if t.None? {
      return;
    }
    for i := 0 to |t.value|
      invariant i <= |rel.cols| && out == DecodedUpto(rel.cols, t.value, fallback, i)
    {
      if i >= |rel.cols| {
        break;
      }
      var name := rel.cols[i];
      match t.value[i] {
        case IsNull => out := out[name := Null];
        case Unchanged =>
          if fallback.Some? && name in fallback.value {
            out := out[name := fallback.value[name]];
          }
        case Value(v) => out := out[name := v];
      }
    }
  }

  predicate Distinct(cols: seq<string>) {
    forall i, j | 0 <= i < j < |cols| :: cols[i] != cols[j]
  }

  /** What the image has in one column after its first `n` columns were put. */
  lemma {:induction false} DecodedColumn(cols: seq<string>, t: Tuple, fallback: Option<Row>, n: nat, i: nat)
    requires Distinct(cols) && n <= |t| && n <= |cols| && i < |cols|
    ensures var image := DecodedUpto(cols, t, fallback, n);
      if i >= n then cols[i] !in image
      else match t[i]
        case IsNull => cols[i] in image && image[cols[i]] == Null
        case Value(v) => cols[i] in image && image[cols[i]] == v
        case Unchanged =>
          if fallback.Some? && cols[i] in fallback.value
          then cols[i] in image && image[cols[i]] == fallback.value[cols[i]]
          else cols[i] !in image
  {
    if n > 0 {
      DecodedColumn(cols, t, fallback, n - 1, i);
    }
  }

  lemma {:induction false} DecodedOnlyColumns(cols: seq<string>, t: Tuple, fallback: Option<Row>, n: nat)
    requires n <= |t| && n <= |cols|
    ensures forall c | c in DecodedUpto(cols, t, fallback, n) :: c in cols
  {
    if n > 0 {
      DecodedOnlyColumns(cols, t, fallback, n - 1);
    }
  }

  // ---------------------------------------------------------------------
  // What the server sends for a row
  // ---------------------------------------------------------------------

  /** The relation message of a table describes its columns and its key. */
  ghost predicate Describes(rel: Relation, table: string, s: Schema) {
    && rel.name == table && Distinct(rel.cols)
    && (forall c :: c in rel.cols <==> c in s.cols)
    && (forall c :: c in rel.pkCols <==> c in s.pk)
  }

  function ColumnOf(row: Row, c: string, unsent: set<string>): Column
    requires c in row
  {
    if c in unsent then Unchanged else if row[c] == Null then IsNull else Value(row[c])
  }

  /** A row as a tuple, with some columns left unsent. */
  function TupleOf(cols: seq<string>, row: Row, unsent: set<string>): (t: Tuple)
    requires forall c | c in cols :: c in row
    ensures |t| == |cols|
  {
    seq(|cols|, i requires 0 <= i < |cols| => ColumnOf(row, cols[i], unsent))
  }

  /** Columns that an update may leave unsent: those it did not change. */
  predicate Unsendable(w: Write, unsent: set<string>)
    requires w.before.Some? && w.after.Some?
  {
    forall c | c in unsent && c in w.after.value :: c in w.before.value && w.before.value[c] == w.after.value[c]
  }

  /** A decoded row is the row, except that a column left unsent is what the
      fallback has for it. */
  lemma DecodedRow(rel: Relation, row: Row, unsent: set<string>, fallback: Option<Row>)
    requires Distinct(rel.cols) && forall c :: c in rel.cols <==> c in row
    ensures var image := Decoded(rel, Some(TupleOf(rel.cols, row, unsent)), fallback);
      forall c | c in row ::
        if c !in unsent then c in image && image[c] == row[c]
        else if fallback.Some? && c in fallback.value then c in image && image[c] == fallback.value[c]
        else c !in image
    ensures Decoded(rel, Some(TupleOf(rel.cols, row, unsent)), fallback).Keys <= row.Keys
  {
    var t := TupleOf(rel.cols, row, unsent);
    forall i | 0 <= i < |rel.cols| ensures t[i] == ColumnOf(row, rel.cols[i], unsent) {}
    forall c | c in row
      ensures var image := Decoded(rel, Some(t), fallback);
        if c !in unsent then c in image && image[c] == row[c]
        else if fallback.Some? && c in fallback.value then c in image && image[c] == fallback.value[c]
        else c !in image
    {
      var i :| 0 <= i < |rel.cols| && rel.cols[i] == c;
      DecodedColumn(rel.cols, t, fallback, |t|, i);
    }
    DecodedOnlyColumns(rel.cols, t, fallback, |t|);
  }

  /** A tuple with every column sent decodes to the row itself. */
  lemma DecodedWhole(rel: Relation, row: Row)
    requires Distinct(rel.cols) && forall c :: c in rel.cols <==> c in row
    ensures Decoded(rel, Some(TupleOf(rel.cols, row, {})), None) == row
  {
    hide Decoded, TupleOf;
    DecodedRow(rel, row, {}, None);
  }

  /** With the old tuple at hand, an update's new row is whole: what was left
      unsent is carried over. */
  lemma UpdateDecodesWhole(rel: Relation, w: Write, unsent: set<string>)
    requires w.before.Some? && w.after.Some? && Unsendable(w, unsent) && w.before.value.Keys == w.after.value.Keys
    requires Distinct(rel.cols) && forall c :: c in rel.cols <==> c in w.after.value
    ensures Decoded(rel, Some(TupleOf(rel.cols, w.before.value, {})), None) == w.before.value
    ensures Decoded(rel, Some(TupleOf(rel.cols, w.after.value, unsent)), w.before) == w.after.value
  {
    hide Decoded, TupleOf;
    DecodedWhole(rel, w.before.value);
    DecodedRow(rel, w.after.value, unsent, w.before);
  }

  /** Without the old tuple, loading the image back into a table's row yields the
      row exactly when every column left unsent was null. */
  lemma WithoutOldTupleIff(rel: Relation, s: Schema, row: Row, unsent: set<string>)
    requires s.Valid() && WfRow(s, row) && Distinct(rel.cols) && forall c :: c in rel.cols <==> c in row
    ensures Populate(s, Decoded(rel, Some(TupleOf(rel.cols, row, unsent)), None)) == row
      <==> forall c | c in unsent && c in row :: row[c] == Null
  {
    hide Decoded, TupleOf;
    DecodedRow(rel, row, unsent, None);
    var got := Populate(s, Decoded(rel, Some(TupleOf(rel.cols, row, unsent)), None));
    assert got.Keys == row.Keys;
    assert forall c | c in row :: got[c] == if c in unsent then Null else row[c];
  }

  // ---------------------------------------------------------------------
  // Records
  // ---------------------------------------------------------------------

  function PkUpto(pkCols: seq<string>, src: Row, n: nat): Row
    requires n <= |pkCols|
  {
    if n == 0 then map[]
    else
      var c, pk := pkCols[n - 1], PkUpto(pkCols, src, n - 1);
      if c in src then pk[c := src[c]] else pk
  }

  lemma {:induction false} PkIsRestriction(pkCols: seq<string>, src: Row, n: nat, keys: set<string>)
    requires n <= |pkCols| && forall c :: c in pkCols[..n] <==> c in keys
    ensures PkUpto(pkCols, src, n) == Restrict(src, keys)
  {
    PkColumns(pkCols, src, n);
  }

  lemma {:induction false} PkColumns(pkCols: seq<string>, src: Row, n: nat)
    requires n <= |pkCols|
    ensures forall c :: c in PkUpto(pkCols, src, n) <==> c in pkCols[..n] && c in src
    ensures forall c | c in PkUpto(pkCols, src, n) :: PkUpto(pkCols, src, n)[c] == src[c]
  {
    if n > 0 {
      PkColumns(pkCols, src, n - 1);
      assert pkCols[..n] == pkCols[..n - 1] + [pkCols[n - 1]];
    }
  }

  /** The record of one row change; without a key it is only a gap. */
  function ChangeOf(
      lsn: nat, rel: Relation, op: Op, pkSrc: Row, before: Option<Row>, after: Option<Row>): Change
  {
    var pk := PkUpto(rel.pkCols, pkSrc, |rel.pkCols|);
    if |pk| == 0 then KeylessGap(lsn, rel.name) else RowChange(lsn, rel.name, op, pk, before, after)
  }

  /** One gap for every truncated table the stream has described. */
  function TruncateGaps(rels: Relations, lsn: nat, ids: seq<nat>): seq<Change> {
    if ids == [] then []
    else
      TruncateGaps(rels, lsn, ids[..|ids| - 1]) +
      if ids[|ids| - 1] in rels then [TruncateGap(lsn, rels[ids[|ids| - 1]].name)] else []
  }

  /** The listed tables that the stream has described, in order. */
  function Known(rels: Relations, ids: seq<nat>): seq<nat> {
    if ids == [] then [] else (if ids[0] in rels then [ids[0]] else []) + Known(rels, ids[1..])
  }

  lemma {:induction false} KnownSnoc(rels: Relations, ids: seq<nat>, id: nat)
    ensures Known(rels, ids + [id]) == Known(rels, ids) + if id in rels then [id] else []
  {
    if ids == [] {
      assert ids + [id] == [id];
    } else {
      var more := ids[1..] + [id];
      assert (ids + [id])[0] == ids[0] && (ids + [id])[1..] == more;
      KnownSnoc(rels, ids[1..], id);
      var first, last := if ids[0] in rels then [ids[0]] else [], if id in rels then [id] else [];
      assert Known(rels, ids + [id]) == first + Known(rels, more);
      assert first + (Known(rels, ids[1..]) + last) == (first + Known(rels, ids[1..])) + last;
    }
  }

  /** A TRUNCATE becomes one gap for each listed table that has been described, in
      order, at the message's position. */
  lemma {:induction false} OneGapPerKnownTable(rels: Relations, lsn: nat, ids: seq<nat>)
    ensures RecordsOf(rels, lsn, TruncateMsg(ids)) == Some(TruncateGaps(rels, lsn, ids))
    ensures var gaps, known := TruncateGaps(rels, lsn, ids), Known(rels, ids);
      && |gaps| == |known|
      && forall i | 0 <= i < |known| :: known[i] in rels && gaps[i] == TruncateGap(lsn, rels[known[i]].name)
  {
    if ids != [] {
      var init, id := ids[..|ids| - 1], ids[|ids| - 1];
      assert ids == init + [id];
      KnownSnoc(rels, init, id);
      OneGapPerKnownTable(rels, lsn, init);
    }
  }

  /** A change is recorded as one exactly if some key column is in the image that is to
      identify it, and then with just the key columns found there; otherwise it is a gap
      of its table. */
  lemma KeyedIffAddressable(
      lsn: nat, rel: Relation, op: Op, pkSrc: Row, before: Option<Row>, after: Option<Row>)
    ensures var c := ChangeOf(lsn, rel, op, pkSrc, before, after);
      if exists k :: k in rel.pkCols && k in pkSrc then
        && c.RowChange? && c == RowChange(lsn, rel.name, op, c.pk, before, after)
        && (forall k :: k in c.pk <==> k in rel.pkCols && k in pkSrc)
        && (forall k | k in c.pk :: c.pk[k] == pkSrc[k])
      else c == KeylessGap(lsn, rel.name)
  {
    var n := |rel.pkCols|;
    PkColumns(rel.pkCols, pkSrc, n);
    assert rel.pkCols[..n] == rel.pkCols;
    var pk := PkUpto(rel.pkCols, pkSrc, n);
    if k :| k in rel.pkCols && k in pkSrc {
      assert k in pk;
    } else {
      assert pk.Keys == {};
      assert |pk.Keys| == 0;
    }
  }

  /** An update that came without its old row, on a table without REPLICA IDENTITY FULL:
      its record has no before image, and an after image that lacks what was not sent. */
  lemma UpdateWithoutOldTuple(rels: Relations, lsn: nat, id: nat, next: Tuple, i: nat)
    requires id in rels && Distinct(rels[id].cols) && |next| == |rels[id].cols| && i < |next|
    ensures RecordsOf(rels, lsn, UpdateMsg(id, None, next)).Some?
    ensures var cs := RecordsOf(rels, lsn, UpdateMsg(id, None, next)).value;
      |cs| == 1 && cs[0].lsn == lsn && (cs[0].RowChange? ==>
        && cs[0].op == U && cs[0].before.None? && cs[0].after.Some?
        && var image, c := cs[0].after.value, rels[id].cols[i];
           match next[i]
           case IsNull => c in image && image[c] == Null
           case Value(v) => c in image && image[c] == v
           case Unchanged => c !in image)
  {
    DecodedColumn(rels[id].cols, next, None, |next|, i);
    var image := Decoded(rels[id], Some(next), None);
    KeyedIffAddressable(lsn, rels[id], U, image, None, Some(image));
    hide ChangeOf;
  }

  /** The before and after images of an update; no old tuple, no before image. */
  function UpdateImages(rel: Relation, prior: Option<Tuple>, next: Tuple): (Option<Row>, Row) {
    var before := if prior.Some? then Some(Decoded(rel, prior, None)) else None;
    (before, Decoded(rel, Some(next), before))
  }

  /** The records a message stands for; none when it is about a relation the
      stream has not described. */
  function RecordsOf(rels: Relations, lsn: nat, m: Message): Option<seq<Change>> {
    match m
    case RelationMsg(_, _) => Some([])
    case BeginMsg => Some([])
    case InsertMsg(id, next) =>
      if id !in rels then None
      else
        var row := Decoded(rels[id], Some(next), None);
        Some([ChangeOf(lsn, rels[id], I, row, None, Some(row))])
    case UpdateMsg(id, prior, next) =>
      if id !in rels then None
      else
        var (before, row) := UpdateImages(rels[id], prior, next);
        Some([ChangeOf(lsn, rels[id], U, row, before, Some(row))])
    case DeleteMsg(id, prior) =>
      if id !in rels then None
      else
        var row := Decoded(rels[id], prior, None);
        Some([ChangeOf(lsn, rels[id], D, row, Some(row), None)])
    case TruncateMsg(ids) => Some(TruncateGaps(rels, lsn, ids))
  }

  /** Which messages can be handled, and how many records each makes: bookkeeping none, a
      row change one, a TRUNCATE one for each table the stream has described; and all
      are at the message's position. */
  lemma RecordsAre(rels: Relations, lsn: nat, m: Message)
    ensures RecordsOf(rels, lsn, m).None? <==> (m.InsertMsg? || m.UpdateMsg? || m.DeleteMsg?) && m.id !in rels
    ensures m.RelationMsg? || m.BeginMsg? ==> RecordsOf(rels, lsn, m) == Some([])
    ensures RecordsOf(rels, lsn, m).Some? && (m.InsertMsg? || m.UpdateMsg? || m.DeleteMsg?) ==>
      |RecordsOf(rels, lsn, m).value| == 1 && !RecordsOf(rels, lsn, m).value[0].TruncateGap?
    ensures m.TruncateMsg? ==> RecordsOf(rels, lsn, m).Some? && |RecordsOf(rels, lsn, m).value| == |Known(rels, m.ids)|
    ensures RecordsOf(rels, lsn, m).Some? ==> forall c | c in RecordsOf(rels, lsn, m).value :: c.lsn == lsn
  {
    hide Decoded, PkUpto;
    if m.TruncateMsg? {
      OneGapPerKnownTable(rels, lsn, m.ids);
    }
  }

  /** What the server sends for a row write on a table with REPLICA IDENTITY FULL. */
  ghost predicate Renders(rels: Relations, cat: Catalog, w: Write, m: Message) {
    && w.Shaped(cat)
    && (m.InsertMsg? || m.UpdateMsg? || m.DeleteMsg?) && m.id in rels && Describes(rels[m.id], w.table, cat[w.table])
    && var cols := rels[m.id].cols;
       match (w.before, w.after)
       case (None, Some(next)) => m == InsertMsg(m.id, TupleOf(cols, next, {}))
       case (Some(prior), None) => m == DeleteMsg(m.id, Some(TupleOf(cols, prior, {})))
       case (Some(prior), Some(next)) =>
         && m.UpdateMsg? && m.prior == Some(TupleOf(cols, prior, {}))
         && exists unsent :: Unsendable(w, unsent) && m.next == TupleOf(cols, next, unsent)
       case _ => false
  }

  /** The record of a write that the trigger would capture with full images. */
  function RecordOf(cat: Catalog, w: Write, lsn: nat): Change
    requires w.Shaped(cat)
  {
    var op := if w.before.None? then I else if w.after.None? then D else U;
    var row := if w.after.Some? then w.after.value else w.before.value;
    RowChange(lsn, w.table, op, KeyOf(cat[w.table], row), w.before, w.after)
  }

  /** The key columns of a complete row are found, and are the row's key. */
  lemma KeyIsFound(rel: Relation, table: string, s: Schema, lsn: nat, op: Op, row: Row, before: Option<Row>, after: Option<Row>)
    requires s.Valid() && s.pk != {} && WfRow(s, row) && Describes(rel, table, s)
    ensures ChangeOf(lsn, rel, op, row, before, after) == RowChange(lsn, table, op, KeyOf(s, row), before, after)
  {
    assert rel.pkCols[..|rel.pkCols|] == rel.pkCols;
    PkIsRestriction(rel.pkCols, row, |rel.pkCols|, s.pk);
    KeyIsNotEmpty(s, row);
  }

  lemma ColumnsOfRow(rel: Relation, table: string, s: Schema, row: Row)
    requires Describes(rel, table, s) && WfRow(s, row)
    ensures Distinct(rel.cols) && forall c :: c in rel.cols <==> c in row
  {
  }

  /** Decoding a write's message gives exactly the record of that write: the same
      operation, key and both whole images the trigger would have captured. */
  lemma DecodesToRecord(rels: Relations, cat: Catalog, w: Write, m: Message, lsn: nat)
    requires WfCatalog(cat) && Renders(rels, cat, w, m)
    ensures RecordsOf(rels, lsn, m) == Some([RecordOf(cat, w, lsn)])
  {
    hide Decoded, TupleOf, ChangeOf, WfRow, Describes, Distinct, KeyOf;
    var rel, s := rels[m.id], cat[w.table];
    match (w.before, w.after) {
      case (None, Some(next)) =>
        ColumnsOfRow(rel, w.table, s, next);
        DecodedWhole(rel, next);
        KeyIsFound(rel, w.table, s, lsn, I, next, None, Some(next));
      case (Some(prior), None) =>
        ColumnsOfRow(rel, w.table, s, prior);
        DecodedWhole(rel, prior);
        KeyIsFound(rel, w.table, s, lsn, D, prior, Some(prior), None);
      case (Some(prior), Some(next)) =>
        ColumnsOfRow(rel, w.table, s, prior);
        ColumnsOfRow(rel, w.table, s, next);
        var unsent :| Unsendable(w, unsent) && m.next == TupleOf(rel.cols, next, unsent);
        assert prior.Keys == next.Keys;
        UpdateDecodesWhole(rel, w, unsent);
        KeyIsFound(rel, w.table, s, lsn, U, next, Some(prior), Some(next));
      case _ =>
    }
  }

  lemma KeyIsNotEmpty(s: Schema, row: Row)
    requires s.Valid() && s.pk != {} && WfRow(s, row)
    ensures |KeyOf(s, row)| != 0
  {
    var k :| k in s.pk;
    assert k in KeyOf(s, row);
  }
}
