/** The jsonb values that row images are made of, and the containment operator
    `@>` that every guard is written with (section 8.14.3 of the PostgreSQL
    documentation). */
module JsonValues {

  datatype Json =
    | Null
    | Bool(b: bool)
    | Num(n: int)
    | Str(s: string)
    | Arr(items: seq<Json>)
    | Obj(fields: map<string, Json>)

  /** A row image: column name to value, as `to_jsonb(row)` renders it. */
  type Row = map<string, Json>

  predicate Scalar(j: Json) {
    !j.Arr? && !j.Obj?
  }

  /** Every value of an image is a scalar. */
  predicate Scalars(image: Row) {
    forall c | c in image :: Scalar(image[c])
  }

  /** `a @> b`.  Objects and arrays are compared recursively, so `a` may hold
      more than `b` at any depth; scalars must be equal. */
  predicate Contains(a: Json, b: Json)
    decreases b
  {
    match b
    case Obj(g) =>
      a.Obj? && forall k | k in g :: k in a.fields && Contains(a.fields[k], g[k])
    case Arr(y) =>
      a.Arr? && forall v | v in y :: exists u | u in a.items :: Contains(u, v)
    case _ => a == b
  }

  /** The guard `to_jsonb(tgt) @> image`. */
  predicate Holds(live: Row, image: Row) {
    Contains(Obj(live), Obj(image))
  }

  /** What the documentation says the guard checks: the live row still has, in
      every captured column, exactly the captured value. */
  predicate Matches(live: Row, image: Row) {
    forall c | c in image :: c in live && live[c] == image[c]
  }

  lemma {:induction false} ContainsReflexive(a: Json)
    ensures Contains(a, a)
    decreases a
  {
    match a
    case Obj(f) =>
      forall k | k in f ensures Contains(f[k], f[k]) { ContainsReflexive(f[k]); }
    case Arr(x) =>
      forall v | v in x ensures Contains(v, v) { ContainsReflexive(v); }
    case _ =>
  }

  /** A row that still has the captured values always passes the guard. */
  lemma MatchingRowPassesGuard(live: Row, image: Row)
    requires Matches(live, image)
    ensures Holds(live, image)
  {
    forall c | c in image ensures Contains(live[c], image[c]) {
      ContainsReflexive(image[c]);
    }
  }

  /** A string that is not in a given finite set: longer than all of them. */
  lemma {:induction false} FreshName(names: set<string>) returns (n: string)
    ensures n !in names
    ensures forall m | m in names :: |m| < |n|
    decreases names
  {
    if names == {} {
      n := "a";
    } else {
      var m :| m in names;
      var shorter := FreshName(names - {m});
      n := if |m| < |shorter| then shorter else m + "a";
    }
  }

  /** For a value that is not a scalar there is always a different value that
      still contains it: containment cannot see an added key or element. */
  lemma ContainerHasLargerValue(v: Json) returns (larger: Json)
    requires !Scalar(v)
    ensures larger != v && Contains(larger, v) && !Scalar(larger)
  {
    ContainsReflexive(v);
    match v
    case Obj(g) =>
      var k := FreshName(g.Keys);
      larger := Obj(g[k := Null]);
    case Arr(y) =>
      larger := Arr(y + [Null]);
      forall u | u in y ensures Contains(u, u) { ContainsReflexive(u); }
      assert |y + [Null]| != |y|;
  }

  lemma HoldsByColumn(live: Row, image: Row)
    requires forall d | d in image :: d in live && Contains(live[d], image[d])
    ensures Holds(live, image)
  {
  }

  /** A row that passes the guard of an image with a container, and does not hold it. */
  lemma RowWithLargerValue(image: Row, c: string) returns (live: Row)
    requires c in image && !Scalar(image[c])
    ensures Holds(live, image) && !Matches(live, image)
  {
    hide Contains, Scalar, Holds;
    var larger := ContainerHasLargerValue(image[c]);
    live := image[c := larger];
    forall d | d in image ensures d in live && Contains(live[d], image[d]) {
      ContainsReflexive(image[d]);
    }
    HoldsByColumn(live, image);
    assert live[c] != image[c];
  }

  lemma ScalarsMustMatch(live: Row, image: Row)
    requires Scalars(image) && Holds(live, image)
    ensures Matches(live, image)
  {
    forall c | c in image ensures c in live && live[c] == image[c] {
      assert Contains(live[c], image[c]);
    }
  }

  /** Exactly when the guard means what it is documented to mean.  Passing the
      guard implies the live row still holds the captured values, for every
      live row, if and only if every captured value is a scalar. */
  lemma GuardIsExactIffScalar(image: Row)
    ensures (forall live: Row | Holds(live, image) :: Matches(live, image))
        <==> Scalars(image)
  {
    hide Holds, Matches;
    if Scalars(image) {
      forall live: Row | Holds(live, image) ensures Matches(live, image) {
        ScalarsMustMatch(live, image);
      }
    } else {
      var c :| c in image && !Scalar(image[c]);
      var live := RowWithLargerValue(image, c);
    }
  }
}
