/** TRUNCATE of a partitioned table.  Its statement trigger fires on every
    relation of the tree; the history must hold each stored row once, under the
    name of the covered table. */
module PartitionTruncate {
  import opened Options
  import opened JsonValues
  import opened Tables
  import opened Capture
  import opened Plans
  import opened UndoTheorems
  import opened Engine

  /** A table, partitioned or not; only leaves store rows. */
  datatype Node = Leaf(name: string, rows: seq<Row>) | Inner(name: string, children: seq<Node>)

  /** A relation a TRUNCATE reaches, with its ancestors, the nearest first. */
  datatype Rel = Rel(name: string, up: seq<string>, isInner: bool, rows: seq<Row>)

  datatype FireError = NotRegistered | FireBlocked | FireTooManyRows

  const WALK_BOUND := 32

  /** The nearest covered ancestor, looking at most `left` levels up. */
  function CoveredAncestor(enabled: set<string>, up: seq<string>, left: nat): Option<string> {
    if up == [] || left == 0 then None
    else if up[0] in enabled then Some(up[0])
    else CoveredAncestor(enabled, up[1..], left - 1)
  }

  /** The table a relation's rows are recorded under. */
  function Owner(enabled: set<string>, r: Rel): Option<string> {
    if r.name in enabled then Some(r.name) else CoveredAncestor(enabled, r.up, WALK_BOUND)
  }

  /** The trigger on one relation. */
  function Fire(cat: Catalog, enabled: set<string>, mode: TruncateMode, cap: nat, r: Rel, id: nat)
    : Result<seq<Entry>, FireError>
    requires enabled <= cat.Keys
  {
    var owner := Owner(enabled, r);
    if owner.None? then Err(NotRegistered)
    else
      assert owner.value in enabled by { OwnerIsEnabled(enabled, r); }
      if r.isInner then Ok([])
      else match mode
        case Block => Err(FireBlocked)
        case CaptureRows =>
          if |r.rows| > cap then Err(FireTooManyRows) else Ok(TruncateImages(cat, owner.value, r.rows, id))
        case Allow => Ok([Entry(id, owner.value, T, map[], None, None)])
  }

  lemma OwnerIsEnabled(enabled: set<string>, r: Rel)
    requires Owner(enabled, r).Some?
    ensures Owner(enabled, r).value in enabled
  {
    AncestorIsEnabled(enabled, r.up, WALK_BOUND);
  }

  lemma {:induction false} AncestorIsEnabled(enabled: set<string>, up: seq<string>, left: nat)
    ensures CoveredAncestor(enabled, up, left).Some? ==> CoveredAncestor(enabled, up, left).value in enabled
  {
    if up != [] && left > 0 {
      AncestorIsEnabled(enabled, up[1..], left - 1);
    }
  }

  /** All the triggers of one statement; an error aborts the statement. */
  function FireAll(
      cat: Catalog, enabled: set<string>, mode: TruncateMode, cap: nat, rels: seq<Rel>, id: nat)
    : Result<seq<Entry>, FireError>
    requires enabled <= cat.Keys
    decreases |rels|
  {
    if rels == [] then Ok([])
    else
      match Fire(cat, enabled, mode, cap, rels[0], id)
      case Err(e) => Err(e)
      case Ok(images) => Behind(images, FireAll(cat, enabled, mode, cap, rels[1..], id + |images|))
  }

  /** What the rest of a statement records, behind what it recorded before. */
  function Behind(log: seq<Entry>, rest: Result<seq<Entry>, FireError>): Result<seq<Entry>, FireError> {
    if rest.Err? then rest else Ok(log + rest.result)
  }

  lemma BehindBoth(a: seq<Entry>, b: seq<Entry>, rest: Result<seq<Entry>, FireError>)
    ensures Behind([], rest) == rest && Behind(a, Ok([])) == Ok(a)
    ensures Behind(a, Behind(b, rest)) == Behind(a + b, rest)
  {
    if rest.Ok? {
      assert [] + rest.result == rest.result;
      assert a + (b + rest.result) == (a + b) + rest.result;
    }
    assert a + [] == a;
  }

  /** TRUNCATE of some relations of a tree, with their triggers. */
  method TruncateRelations(
      cat: Catalog, enabled: set<string>, mode: TruncateMode, cap: nat, rels: seq<Rel>, nextId: nat)
    returns (r: Result<seq<Entry>, FireError>)
    requires enabled <= cat.Keys
    ensures r == FireAll(cat, enabled, mode, cap, rels, nextId)
  {
    hide Fire, Behind;
    var log: seq<Entry> := [];
    assert rels[0..] == rels;
    BehindBoth([], [], FireAll(cat, enabled, mode, cap, rels, nextId));
    for i := 0 to |rels|
      invariant FireAll(cat, enabled, mode, cap, rels, nextId)
        == Behind(log, FireAll(cat, enabled, mode, cap, rels[i..], nextId + |log|))
    {
      assert rels[i..][1..] == rels[i + 1..];
      var fired := Fire(cat, enabled, mode, cap, rels[i], nextId + |log|);
      match fired {
        case Err(e) =>
          ErrorStays(log, e);
          return Err(e);
        case Ok(images) =>
          BehindBoth(log, images, FireAll(cat, enabled, mode, cap, rels[i + 1..], nextId + |log| + |images|));
          log := log + images;
      }
    }
    BehindBoth(log, [], Ok([]));
    assert rels[|rels|..] == [];
    return Ok(log);
  }

  lemma ErrorStays(log: seq<Entry>, e: FireError)
    ensures Behind(log, Err(e)) == Err(e)
  {
  }

  // ---------------------------------------------------------------------
  // The relations of a tree
  // ---------------------------------------------------------------------

  function Rels(t: Node, up: seq<string>): seq<Rel>
    decreases t, 0
  {
    match t
    case Leaf(name, rows) => [Rel(name, up, false, rows)]
    case Inner(name, children) => [Rel(name, up, true, [])] + RelsOfAll(children, [name] + up)
  }

  function RelsOfAll(ts: seq<Node>, up: seq<string>): seq<Rel>
    decreases ts, 1
  {
    if ts == [] then [] else Rels(ts[0], up) + RelsOfAll(ts[1..], up)
  }

  function StoredRows(t: Node): seq<Row>
    decreases t, 0
  {
    match t
    case Leaf(_, rows) => rows
    case Inner(_, children) => StoredInAll(children)
  }

  function StoredInAll(ts: seq<Node>): seq<Row>
    decreases ts, 1
  {
    if ts == [] then [] else StoredRows(ts[0]) + StoredInAll(ts[1..])
  }

  function RowsIn(rels: seq<Rel>): seq<Row> {
    if rels == [] then [] else rels[0].rows + RowsIn(rels[1..])
  }

  lemma {:induction false} RowsInConcat(a: seq<Rel>, b: seq<Rel>)
    ensures RowsIn(a + b) == RowsIn(a) + RowsIn(b)
  {
    if a == [] {
      assert a + b == b;
    } else {
      assert (a + b)[1..] == a[1..] + b;
      RowsInConcat(a[1..], b);
    }
  }

  lemma {:induction false} TreeRows(t: Node, up: seq<string>)
    ensures RowsIn(Rels(t, up)) == StoredRows(t)
    decreases t, 0
  {
    match t
    case Leaf(_, rows) =>
      assert RowsIn(Rels(t, up)[1..]) == [];
    case Inner(name, children) =>
      TreeRowsAll(children, [name] + up);
      RowsInConcat([Rel(name, up, true, [])], RelsOfAll(children, [name] + up));
      assert RowsIn([Rel(name, up, true, [])]) == [] by {
        assert [Rel(name, up, true, [])][1..] == [];
      }
  }

  lemma {:induction false} TreeRowsAll(ts: seq<Node>, up: seq<string>)
    ensures RowsIn(RelsOfAll(ts, up)) == StoredInAll(ts)
    decreases ts, 1
  {
    if ts != [] {
      TreeRows(ts[0], up);
      TreeRowsAll(ts[1..], up);
      RowsInConcat(Rels(ts[0], up), RelsOfAll(ts[1..], up));
    }
  }

  /** Whatever order the relations are visited in, the same rows are read, each
      as often. */
  lemma {:induction false} AnyOrderSameRows(a: seq<Rel>, b: seq<Rel>)
    requires multiset(a) == multiset(b)
    ensures multiset(RowsIn(a)) == multiset(RowsIn(b))
    decreases |a|
  {
    hide RowsIn;
    if a == [] {
      assert |multiset(b)| == 0;
      assert b == [];
    } else {
      var j := FirstAlsoIn(a, b);
      AnyOrderSameRows(a[1..], Less(b, j));
    }
  }

  /** The first relation of one order, found in the other, leaves the same rest. */
  lemma FirstAlsoIn(a: seq<Rel>, b: seq<Rel>) returns (j: nat)
    requires multiset(a) == multiset(b) && a != []
    ensures j < |b| && b[j] == a[0]
    ensures var rest := Less(b, j);
      && multiset(a[1..]) == multiset(rest)
      && multiset(RowsIn(a)) == multiset(a[0].rows) + multiset(RowsIn(a[1..]))
      && multiset(RowsIn(b)) == multiset(a[0].rows) + multiset(RowsIn(rest))
  {
    hide RowsIn, Less;
    j := IndexOf(b, a[0]) by {
      assert a[0] in multiset(b);
    }
    SplitHead(a);
    SplitOff(b, j);
  }

  function Less(b: seq<Rel>, j: nat): seq<Rel>
    requires j < |b|
  {
    b[..j] + b[j + 1..]
  }

  lemma IndexOf(b: seq<Rel>, r: Rel) returns (j: nat)
    requires r in multiset(b)
    ensures j < |b| && b[j] == r
  {
    j :| 0 <= j < |b| && b[j] == r;
  }

  lemma SplitHead(a: seq<Rel>)
    requires a != []
    ensures multiset(a[1..]) == multiset(a) - multiset{a[0]}
    ensures multiset(RowsIn(a)) == multiset(a[0].rows) + multiset(RowsIn(a[1..]))
  {
    assert a == [a[0]] + a[1..];
  }

  lemma SplitOff(b: seq<Rel>, j: nat)
    requires j < |b|
    ensures multiset(Less(b, j)) == multiset(b) - multiset{b[j]}
    ensures multiset(RowsIn(b)) == multiset(b[j].rows) + multiset(RowsIn(Less(b, j)))
  {
    hide RowsIn;
    SplitMembers(b[..j], b[j], b[j + 1..]);
    SplitRows(b[..j], b[j], b[j + 1..]);
    assert b == b[..j] + ([b[j]] + b[j + 1..]);
  }

  lemma SplitMembers(front: seq<Rel>, r: Rel, back: seq<Rel>)
    ensures multiset(front + back) == multiset(front + ([r] + back)) - multiset{r}
  {
  }

  lemma SplitRows(front: seq<Rel>, r: Rel, back: seq<Rel>)
    ensures multiset(RowsIn(front + ([r] + back))) == multiset(r.rows) + multiset(RowsIn(front + back))
  {
    RowsInConcat(front, [r] + back);
    RowsInConcat(front, back);
    RowsInCons(r, back);
    hide RowsIn;
  }

  lemma RowsInCons(r: Rel, back: seq<Rel>)
    ensures RowsIn([r] + back) == r.rows + RowsIn(back)
  {
    assert ([r] + back)[1..] == back;
  }

  // ---------------------------------------------------------------------
  // Attribution
  // ---------------------------------------------------------------------

  /** A relation of the covered table's tree: `beyond` is what lies above the
      covered table, and `path` the uncovered relations between the two. */
  ghost predicate Under(enabled: set<string>, root: string, beyond: seq<string>, r: Rel) {
    || (r.name == root && r.up == beyond && root in enabled)
    || exists path: seq<string> ::
         r.up == path + [root] + beyond && r.name !in enabled && (forall n | n in path :: n !in enabled) && root in enabled
  }

  function Level(beyond: seq<string>, r: Rel): int {
    |r.up| - |beyond|
  }

  predicate NothingCovered(enabled: set<string>, t: Node)
    decreases t, 0
  {
    t.name !in enabled && (t.Inner? ==> NothingCoveredInAny(enabled, t.children))
  }

  predicate NothingCoveredInAny(enabled: set<string>, ts: seq<Node>)
    decreases ts, 1
  {
    ts != [] ==> NothingCovered(enabled, ts[0]) && NothingCoveredInAny(enabled, ts[1..])
  }

  lemma {:induction false} WalkFindsRoot(enabled: set<string>, path: seq<string>, root: string, beyond: seq<string>, left: nat)
    requires root in enabled && forall n | n in path :: n !in enabled
    ensures CoveredAncestor(enabled, path + [root] + beyond, left) == if |path| < left then Some(root) else None
    decreases |path|
  {
    var up := path + [root] + beyond;
    if path != [] && left > 0 {
      assert path == [path[0]] + path[1..];
      assert up[0] == path[0] && up[1..] == path[1..] + [root] + beyond;
      WalkFindsRoot(enabled, path[1..], root, beyond, left - 1);
    }
  }

  /** A relation below the covered table is attributed to it exactly when it is
      within the bound of the walk. */
  lemma OwnedIffWithinBound(enabled: set<string>, root: string, beyond: seq<string>, r: Rel)
    requires Under(enabled, root, beyond, r)
    ensures Owner(enabled, r) == if Level(beyond, r) <= 32 then Some(root) else None
  {
    if !(r.name == root && r.up == beyond && root in enabled) {
      var path: seq<string> :|
        r.up == path + [root] + beyond && r.name !in enabled && (forall n | n in path :: n !in enabled) && root in enabled;
      WalkFindsRoot(enabled, path, root, beyond, WALK_BOUND);
      assert |r.up| == |path| + 1 + |beyond|;
    }
  }

  lemma {:induction false} BelowIsUnder(
      enabled: set<string>, root: string, beyond: seq<string>, path: seq<string>, t: Node)
    requires root in enabled && NothingCovered(enabled, t) && forall n | n in path :: n !in enabled
    ensures forall r | r in Rels(t, path + [root] + beyond) :: Under(enabled, root, beyond, r)
    decreases t, 0
  {
    var up := path + [root] + beyond;
    var own := Rel(t.name, up, t.Inner?, if t.Leaf? then t.rows else []);
    assert Under(enabled, root, beyond, own);
    if t.Inner? {
      assert [t.name] + up == [t.name] + path + [root] + beyond;
      AllBelowAreUnder(enabled, root, beyond, [t.name] + path, t.children);
    }
  }

  lemma {:induction false} AllBelowAreUnder(
      enabled: set<string>, root: string, beyond: seq<string>, path: seq<string>, ts: seq<Node>)
    requires root in enabled && NothingCoveredInAny(enabled, ts) && forall n | n in path :: n !in enabled
    ensures forall r | r in RelsOfAll(ts, path + [root] + beyond) :: Under(enabled, root, beyond, r)
    decreases ts, 1
  {
    if ts != [] {
      BelowIsUnder(enabled, root, beyond, path, ts[0]);
      AllBelowAreUnder(enabled, root, beyond, path, ts[1..]);
    }
  }

  /** Every relation of a covered table's tree is under it, if it is the only
      covered one. */
  lemma TreeIsUnder(enabled: set<string>, t: Node, beyond: seq<string>)
    requires t.name in enabled && (t.Inner? ==> NothingCoveredInAny(enabled, t.children))
    ensures forall r | r in Rels(t, beyond) :: Under(enabled, t.name, beyond, r)
  {
    if t.Inner? {
      assert [t.name] + beyond == [] + [t.name] + beyond;
      AllBelowAreUnder(enabled, t.name, beyond, [], t.children);
    }
  }

  // ---------------------------------------------------------------------
  // What a TRUNCATE records
  // ---------------------------------------------------------------------

  /** The statement is let through: every relation can be attributed, and no
      leaf holds more rows than may be copied. */
  ghost predicate Capturable(beyond: seq<string>, cap: nat, rels: seq<Rel>) {
    forall r | r in rels :: Level(beyond, r) <= 32 && (r.isInner || |r.rows| <= cap)
  }

  ghost predicate InnerIsEmpty(rels: seq<Rel>) {
    forall r | r in rels :: r.isInner ==> r.rows == []
  }

  lemma ImagesConcat(cat: Catalog, table: string, a: seq<Row>, b: seq<Row>, id: nat)
    requires table in cat
    ensures TruncateImages(cat, table, a + b, id) == TruncateImages(cat, table, a, id) + TruncateImages(cat, table, b, id + |a|)
  {
  }

  /** For the relations of a covered table's tree, in any selection and order: the
      statement is captured exactly when every relation is within the walk and the
      cap, and then the history gains one delete image for every row read, all
      under the covered table's name, and nothing for the inner relations. */
  lemma {:induction false} TruncateRecordsEachRow(
      cat: Catalog, enabled: set<string>, root: string, beyond: seq<string>, cap: nat, rels: seq<Rel>, id: nat)
    requires enabled <= cat.Keys && root in enabled
    requires InnerIsEmpty(rels) && forall r | r in rels :: Under(enabled, root, beyond, r)
    ensures var fired := FireAll(cat, enabled, CaptureRows, cap, rels, id);
      && (fired.Ok? <==> Capturable(beyond, cap, rels))
      && (fired.Ok? ==> fired.result == TruncateImages(cat, root, RowsIn(rels), id))
    decreases |rels|
  {
    hide Under, Owner, TruncateImages;
    if rels == [] {
      NoImages(cat, root, id);
    } else {
      var r, rest := rels[0], rels[1..];
      assert rels == [r] + rest;
      OwnedIffWithinBound(enabled, root, beyond, r);
      NoImages(cat, root, id);
      var images := Fire(cat, enabled, CaptureRows, cap, r, id);
      if images.Ok? {
        TruncateRecordsEachRow(cat, enabled, root, beyond, cap, rest, id + |images.result|);
        assert |images.result| == |r.rows|;
        ImagesConcat(cat, root, r.rows, RowsIn(rest), id);
      }
    }
  }

  /** Why a relation of the tree is refused, if it is: it lies too deep to be attributed;
      or, storing rows itself, truncates are blocked, or it holds too many to copy. */
  function Refusal(beyond: seq<string>, mode: TruncateMode, cap: nat, r: Rel): Option<FireError> {
    if Level(beyond, r) > 32 then Some(NotRegistered)
    else if !r.isInner && mode == Block then Some(FireBlocked)
    else if !r.isInner && mode == CaptureRows && |r.rows| > cap then Some(FireTooManyRows)
    else None
  }

  predicate FirstRefused(beyond: seq<string>, mode: TruncateMode, cap: nat, rels: seq<Rel>, i: int, e: FireError) {
    && 0 <= i < |rels| && Refusal(beyond, mode, cap, rels[i]) == Some(e)
    && forall j | 0 <= j < i :: Refusal(beyond, mode, cap, rels[j]).None?
  }

  lemma FirstRefusedInRest(
      beyond: seq<string>, mode: TruncateMode, cap: nat, r: Rel, rest: seq<Rel>, i: int, e: FireError)
    requires Refusal(beyond, mode, cap, r).None? && FirstRefused(beyond, mode, cap, rest, i, e)
    ensures FirstRefused(beyond, mode, cap, [r] + rest, i + 1, e)
  {
    var rels := [r] + rest;
    forall j | 0 <= j < i + 1 ensures Refusal(beyond, mode, cap, rels[j]).None? {
      assert rels[j] == if j == 0 then r else rest[j - 1];
    }
  }

  lemma FireOrRefuse(
      cat: Catalog, enabled: set<string>, root: string, beyond: seq<string>, mode: TruncateMode, cap: nat, r: Rel, id: nat)
    requires enabled <= cat.Keys && root in enabled && Under(enabled, root, beyond, r)
    ensures var fired := Fire(cat, enabled, mode, cap, r, id);
      if fired.Ok? then Refusal(beyond, mode, cap, r).None? else Refusal(beyond, mode, cap, r) == Some(fired.error)
  {
    hide Under, Owner;
    OwnedIffWithinBound(enabled, root, beyond, r);
  }

  /** The statement fails exactly if some relation is refused, and with the reason of the
      first that is, in each of the three modes. */
  lemma {:induction false} RefusedByFirst(
      cat: Catalog, enabled: set<string>, root: string, beyond: seq<string>, mode: TruncateMode, cap: nat,
      rels: seq<Rel>, id: nat)
    requires enabled <= cat.Keys && root in enabled && forall r | r in rels :: Under(enabled, root, beyond, r)
    ensures FireAll(cat, enabled, mode, cap, rels, id).Ok? <==> forall r | r in rels :: Refusal(beyond, mode, cap, r).None?
    ensures forall e | FireAll(cat, enabled, mode, cap, rels, id) == Err(e) ::
      exists i :: FirstRefused(beyond, mode, cap, rels, i, e)
    decreases |rels|
  {
    hide Under, Fire, Refusal;
    if rels != [] {
      var r, rest := rels[0], rels[1..];
      assert rels == [r] + rest;
      FireOrRefuse(cat, enabled, root, beyond, mode, cap, r, id);
      var fired := Fire(cat, enabled, mode, cap, r, id);
      if fired.Ok? {
        RefusedByFirst(cat, enabled, root, beyond, mode, cap, rest, id + |fired.result|);
        var rec := FireAll(cat, enabled, mode, cap, rest, id + |fired.result|);
        if rec.Err? {
          var i :| FirstRefused(beyond, mode, cap, rest, i, rec.error);
          FirstRefusedInRest(beyond, mode, cap, r, rest, i, rec.error);
        }
      } else {
        assert FirstRefused(beyond, mode, cap, rels, 0, fired.error);
      }
    }
  }

  function LeafCount(rels: seq<Rel>): nat {
    if rels == [] then 0 else (if rels[0].isInner then 0 else 1) + LeafCount(rels[1..])
  }

  /** A marker: rows of the table were truncated and not captured. */
  predicate IsMarker(x: Entry, table: string) {
    x.table == table && x.op == T && x.pk == map[] && x.before.None? && x.after.None?
  }

  /** A TRUNCATE that is let through uncaptured leaves one marker for each relation that
      stores rows, under the covered table's name, with the next ids; and no selection
      that holds a marker can be undone or replayed. */
  lemma {:induction false} AllowedLeavesMarkers(
      cat: Catalog, enabled: set<string>, root: string, beyond: seq<string>, cap: nat, rels: seq<Rel>, id: nat)
    requires enabled <= cat.Keys && root in enabled && forall r | r in rels :: Under(enabled, root, beyond, r)
    requires FireAll(cat, enabled, Allow, cap, rels, id).Ok?
    ensures var log := FireAll(cat, enabled, Allow, cap, rels, id).result;
      && |log| == LeafCount(rels)
      && forall i | 0 <= i < |log| :: log[i].id == id + i && IsMarker(log[i], root)
    decreases |rels|
  {
    hide Under, Owner, TruncateImages, Level;
    if rels != [] {
      var r, rest := rels[0], rels[1..];
      assert rels == [r] + rest;
      OwnedIffWithinBound(enabled, root, beyond, r);
      var images := Fire(cat, enabled, Allow, cap, r, id).result;
      AllowedLeavesMarkers(cat, enabled, root, beyond, cap, rest, id + |images|);
    }
  }

  lemma MarkersStopPlans(cat: Catalog, xs: seq<Entry>, x: Entry, dir: Direction)
    requires x in xs && IsMarker(x, x.table)
    ensures !Plannable(cat, xs, dir) && StmtFor(cat, x, dir) == Err(UncapturedTruncate)
  {
  }

  /** A blocked TRUNCATE that goes through reached no relation that stores rows, and
      leaves nothing. */
  lemma {:induction false} BlockedLeavesNothing(
      cat: Catalog, enabled: set<string>, root: string, beyond: seq<string>, cap: nat, rels: seq<Rel>, id: nat)
    requires enabled <= cat.Keys && root in enabled && forall r | r in rels :: Under(enabled, root, beyond, r)
    requires FireAll(cat, enabled, Block, cap, rels, id).Ok?
    ensures LeafCount(rels) == 0 && FireAll(cat, enabled, Block, cap, rels, id).result == []
    decreases |rels|
  {
    hide Under, Owner, TruncateImages, Level;
    if rels != [] {
      assert rels == [rels[0]] + rels[1..];
      OwnedIffWithinBound(enabled, root, beyond, rels[0]);
      BlockedLeavesNothing(cat, enabled, root, beyond, cap, rels[1..], id);
    }
  }

  lemma NoImages(cat: Catalog, table: string, id: nat)
    requires table in cat
    ensures TruncateImages(cat, table, [], id) == []
  {
  }

  lemma {:induction false} InnerRelsAreEmpty(t: Node, up: seq<string>)
    ensures InnerIsEmpty(Rels(t, up))
    decreases t, 0
  {
    if t.Inner? {
      InnerRelsOfAllAreEmpty(t.children, [t.name] + up);
    }
  }

  lemma {:induction false} InnerRelsOfAllAreEmpty(ts: seq<Node>, up: seq<string>)
    ensures InnerIsEmpty(RelsOfAll(ts, up))
    decreases ts, 1
  {
    if ts != [] {
      InnerRelsAreEmpty(ts[0], up);
      InnerRelsOfAllAreEmpty(ts[1..], up);
    }
  }

  // ---------------------------------------------------------------------
  // And so it can be undone
  // ---------------------------------------------------------------------

  /** The table holds these rows, each under its own key. */
  ghost predicate Holds(cat: Catalog, db: Db, table: string, rows: seq<Row>)
    requires table in cat
  {
    && (forall i | 0 <= i < |rows| :: At(db, Place(cat, table, rows[i])) == Some(rows[i]))
    && (forall i, j | 0 <= i < j < |rows| :: Place(cat, table, rows[i]) != Place(cat, table, rows[j]))
  }

  function Places(cat: Catalog, table: string, rows: seq<Row>): set<Addr>
    requires table in cat
  {
    if rows == [] then {} else {Place(cat, table, rows[0])} + Places(cat, table, rows[1..])
  }

  lemma {:induction false} RemovingIsDeletes(cat: Catalog, db: Db, table: string, rows: seq<Row>, mode: Mode)
    requires WfDb(cat, db) && table in cat && Holds(cat, db, table, rows)
    ensures Possible(cat, db, TruncateRun(table, rows, mode))
    ensures After(cat, db, TruncateRun(table, rows, mode)) == db - Places(cat, table, rows)
    ensures forall r | r in rows :: WfRow(cat[table], r)
    decreases |rows|
  {
    hide KeyOf, WfRow;
    if rows != [] {
      var a, rest, w := Place(cat, table, rows[0]), rows[1..], Write(table, Some(rows[0]), None);
      var run := TruncateRun(table, rows, mode);
      assert At(db, a) == Some(rows[0]);
      assert run[0].w == w && run[1..] == TruncateRun(table, rest, mode);
      assert Perform(cat, db, w) == db - {a};
      PerformKeepsWf(cat, db, w);
      forall i | 0 <= i < |rest| ensures At(db - {a}, Place(cat, table, rest[i])) == Some(rest[i]) {
        assert rest[i] == rows[i + 1] && Place(cat, table, rows[0]) != Place(cat, table, rows[i + 1]);
      }
      forall i, j | 0 <= i < j < |rest| ensures Place(cat, table, rest[i]) != Place(cat, table, rest[j]) {
        assert rest[i] == rows[i + 1] && rest[j] == rows[j + 1];
      }
      RemovingIsDeletes(cat, db - {a}, table, rest, mode);
      assert (db - {a}) - Places(cat, table, rest) == db - Places(cat, table, rows);
      assert rows == [rows[0]] + rest;
    }
  }

  /** Truncating any subtree of a covered partitioned table, relations visited in
      any order: when it is captured, the images are those of the subtree's rows
      and no others, and undoing them puts every row back. */
  lemma TruncatedSubtreeIsUndone(
      cat: Catalog, db: Db, enabled: set<string>, root: string, beyond: seq<string>, t: Node, up: seq<string>,
      order: seq<Rel>, cap: nat, mode: Mode, id: nat, skip: bool)
    requires WfCatalog(cat) && WfDb(cat, db) && enabled <= cat.Keys && root in enabled
    requires multiset(order) == multiset(Rels(t, up))
    requires forall r | r in Rels(t, up) :: Under(enabled, root, beyond, r)
    requires Holds(cat, db, root, RowsIn(order))
    requires FireAll(cat, enabled, CaptureRows, cap, order, id).Ok?
    ensures multiset(RowsIn(order)) == multiset(StoredRows(t))
    ensures var log := FireAll(cat, enabled, CaptureRows, cap, order, id).result;
      var left := db - Places(cat, root, RowsIn(order));
      && |log| == |StoredRows(t)| && Plannable(cat, Reverse(log), Undo)
      && var r := Apply(cat, Going(left, [], []), Stmts(cat, Reverse(log), Undo), Undo, skip);
         r.Going? && r.db == db && r.statuses == AllApplied(|log|)
  {
    hide Under, Holds, FireAll, Fire, WfDb, WfCatalog, Enabled, Perform, Rels, StoredRows, TruncateImages, LogOf, RowsIn;
    var rows := RowsIn(order);
    SameMembers(order, Rels(t, up));
    InnerRelsAreEmpty(t, up);
    TruncateRecordsEachRow(cat, enabled, root, beyond, cap, order, id);
    AnyOrderSameRows(order, Rels(t, up));
    TreeRows(t, up);
    assert |multiset(rows)| == |rows| && |multiset(StoredRows(t))| == |StoredRows(t)|;
    RemovingIsDeletes(cat, db, root, rows, mode);
    TruncateLog(cat, root, rows, mode, id);
    UndoInvertsCapture(cat, db, TruncateRun(root, rows, mode), id, skip);
  }

  lemma SameMembers(a: seq<Rel>, b: seq<Rel>)
    requires multiset(a) == multiset(b)
    ensures forall r :: r in a <==> r in b
  {
    forall r ensures r in a <==> r in b {
      assert r in multiset(a) <==> r in a;
      assert r in multiset(b) <==> r in b;
    }
  }
}
