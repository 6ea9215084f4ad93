/** Where the history's rows are kept: monthly partitions and a default one that
    takes what has no month yet.  Retention drops whole partitions, and
    relocation empties the default partition into months. */
module Partitions {
  import opened Options
  import opened Sealing
  import opened Retention
  import opened ChangeLog

  /** The month a time falls in, and where a month ends. */
  datatype Calendar = Calendar(monthOf: nat -> nat, end: nat -> nat) {
    ghost predicate Valid() {
      forall ts: nat, m: nat :: monthOf(ts) <= m <==> ts < end(m)
    }
  }

  datatype Month = Month(month: nat, rows: seq<Rec>)

  datatype Created = Exists | New | BlockedByDefault

  function RowsOf(parts: seq<Month>): seq<Rec> {
    if parts == [] then [] else parts[0].rows + RowsOf(parts[1..])
  }

  /** Relocation moves every row of the default partition. */
  predicate Moved(r: Rec) {
    true
  }

  lemma {:induction false} RowsOfConcat(a: seq<Month>, b: seq<Month>)
    ensures RowsOf(a + b) == RowsOf(a) + RowsOf(b)
  {
    if a == [] {
      assert a + b == b;
    } else {
      assert (a + b)[1..] == a[1..] + b;
      RowsOfConcat(a[1..], b);
    }
  }

  lemma RowsOfOne(p: Month)
    ensures RowsOf([p]) == p.rows
  {
    assert [p][1..] == [];
  }

  lemma {:induction false} OnlyConcat(a: seq<Rec>, b: seq<Rec>, which: Which)
    ensures Only(a + b, which) == Only(a, which) + Only(b, which)
  {
    if a == [] {
      assert a + b == b;
    } else {
      assert (a + b)[1..] == a[1..] + b;
      OnlyConcat(a[1..], b, which);
    }
  }

  lemma WithoutConcat(a: seq<Rec>, b: seq<Rec>, which: Which)
    ensures Without(a + b, which) == Without(a, which) + Without(b, which)
  {
    OnlyConcat(a, b, r => !which(r));
  }

  /** One more row in one partition. */
  lemma RowsOfGrown(parts: seq<Month>, i: nat, r: Rec)
    requires i < |parts|
    ensures var more := Month(parts[i].month, parts[i].rows + [r]);
      multiset(RowsOf(parts[i := more])) == multiset(RowsOf(parts)) + multiset{r}
  {
    hide RowsOf;
    var more := Month(parts[i].month, parts[i].rows + [r]);
    assert parts == parts[..i] + ([parts[i]] + parts[i + 1..]);
    assert parts[i := more] == parts[..i] + ([more] + parts[i + 1..]);
    RowsOfConcat(parts[..i], [parts[i]] + parts[i + 1..]);
    RowsOfConcat(parts[..i], [more] + parts[i + 1..]);
    RowsOfConcat([parts[i]], parts[i + 1..]);
    RowsOfConcat([more], parts[i + 1..]);
    RowsOfOne(parts[i]);
    RowsOfOne(more);
  }

  predicate HasMonth(parts: seq<Month>, m: nat) {
    exists i | 0 <= i < |parts| :: parts[i].month == m
  }

  /** Every row of a month's partition falls in that month, and a row in the
      default partition in none that has a partition. */
  ghost predicate Placed(cal: Calendar, parts: seq<Month>, fallback: seq<Rec>) {
    && (forall i, r | 0 <= i < |parts| && r in parts[i].rows :: cal.monthOf(r.ts) == parts[i].month)
    && (forall r | r in fallback :: !HasMonth(parts, cal.monthOf(r.ts)))
  }

  lemma {:induction false} NothingLeft(rows: seq<Rec>, gone: Which)
    requires forall r | r in rows :: gone(r)
    ensures Without(rows, gone) == []
  {
    if rows != [] {
      assert rows[0] in rows;
      NothingLeft(rows[1..], gone);
    }
  }

  lemma NoRows(which: Which)
    ensures RowsOf([]) == [] && Without([], which) == []
  {
  }

  lemma WholeMonthExpires(cal: Calendar, p: Month, cutoff: nat)
    requires cal.Valid() && cal.end(p.month) <= cutoff
    requires forall r | r in p.rows :: cal.monthOf(r.ts) == p.month
    ensures Without(p.rows, (r: Rec) => r.ts < cutoff) == []
  {
    forall r | r in p.rows ensures r.ts < cutoff {
      assert cal.monthOf(r.ts) <= p.month;
    }
    NothingLeft(p.rows, (r: Rec) => r.ts < cutoff);
  }

  class Table {
    const cal: Calendar
    var parts: seq<Month>
    var fallback: seq<Rec>

    ghost predicate Valid()
      reads this
    {
      cal.Valid() && Placed(cal, parts, fallback)
    }

    function AllRows(): seq<Rec>
      reads this
    {
      RowsOf(parts) + fallback
    }

    constructor (cal: Calendar)
      requires cal.Valid()
      ensures Valid() && AllRows() == [] && this.cal == cal
    {
      this.cal, parts, fallback := cal, [], [];
    }

    method FindMonth(m: nat) returns (i: nat)
      ensures i <= |parts|
      ensures i < |parts| ==> parts[i].month == m
      ensures i == |parts| <==> !HasMonth(parts, m)
    {
      i := 0;
      while i < |parts| && parts[i].month != m
        invariant i <= |parts| && forall j | 0 <= j < i :: parts[j].month != m
      {
        i := i + 1;
      }
    }

    /** A row goes to its month's partition, or to the default one. */
    method Insert(r: Rec)
      requires Valid()
      modifies this
      ensures Valid() && multiset(AllRows()) == old(multiset(AllRows())) + multiset{r}
      ensures HasMonth(old(parts), cal.monthOf(r.ts)) ==> fallback == old(fallback)
      ensures forall m :: HasMonth(parts, m) <==> HasMonth(old(parts), m)
    {
      hide RowsOf;
      var i := FindMonth(cal.monthOf(r.ts));
      if i < |parts| {
        RowsOfGrown(parts, i, r);
        parts := parts[i := Month(parts[i].month, parts[i].rows + [r])];
        assert forall j | 0 <= j < |parts| :: parts[j].month == old(parts)[j].month;
        SameMonths(old(parts), parts);
      } else {
        fallback := fallback + [r];
      }
    }

    /** Creating a month's partition is refused while the default one holds rows
        of that month. */
    method CreatePartition(m: nat) returns (c: Created)
      requires Valid()
      modifies this`parts
      ensures Valid() && RowsOf(parts) == old(RowsOf(parts))
      ensures c == if HasMonth(old(parts), m) then Exists
        else if exists r | r in fallback :: cal.monthOf(r.ts) == m then BlockedByDefault else New
      ensures forall n :: HasMonth(parts, n) <==> HasMonth(old(parts), n) || (n == m && c == New)
    {
      hide RowsOf;
      var i := FindMonth(m);
      if i < |parts| {
        return Exists;
      }
      if exists r | r in fallback :: cal.monthOf(r.ts) == m {
        return BlockedByDefault;
      }
      RowsOfConcat(parts, [Month(m, [])]);
      RowsOfOne(Month(m, []));
      MonthAdded(parts, m);
      parts := parts + [Month(m, [])];
      return New;
    }

    /** The months of the rows detached from the default partition. */
    method CreateMonths(loose: seq<Rec>)
      requires Valid() && fallback == []
      modifies this`parts
      ensures Valid() && RowsOf(parts) == old(RowsOf(parts))
      ensures forall j | 0 <= j < |loose| :: HasMonth(parts, cal.monthOf(loose[j].ts))
    {
      hide RowsOf, HasMonth;
      for i := 0 to |loose|
        invariant Valid() && RowsOf(parts) == old(RowsOf(parts))
        invariant forall j | 0 <= j < i :: HasMonth(parts, cal.monthOf(loose[j].ts))
      {
        var c := CreatePartition(cal.monthOf(loose[i].ts));
      }
    }

    /** Inserts the detached rows again, none of which may fall back. */
    method InsertCopies(loose: seq<Rec>)
      requires Valid() && fallback == []
      requires forall j | 0 <= j < |loose| :: HasMonth(parts, cal.monthOf(loose[j].ts))
      modifies this
      ensures Valid() && fallback == []
      ensures multiset(AllRows()) == old(multiset(AllRows())) + multiset(Relocate(loose, Moved))
    {
      hide RowsOf, HasMonth, Relocate;
      ghost var copies := Relocate(loose, Moved);
      for i := 0 to |loose|
        invariant Valid() && fallback == []
        invariant forall j | 0 <= j < |loose| :: HasMonth(parts, cal.monthOf(loose[j].ts))
        invariant multiset(AllRows()) == old(multiset(AllRows())) + multiset(copies[..i])
      {
        OneMoreCopy(loose, i);
        Insert(loose[i].(redactedAt := None));
      }
      assert copies[..|loose|] == copies;
    }

    /** relocate_default: detach the default partition, create the months of its
        rows, insert them again, and put an empty default partition back. */
    method RelocateDefault() returns (moved: nat)
      requires Valid()
      modifies this
      ensures Valid() && fallback == [] && moved == |old(fallback)|
      ensures multiset(AllRows()) == multiset(old(RowsOf(parts))) + multiset(Relocate(old(fallback), Moved))
    {
      hide RowsOf, HasMonth, Relocate;
      var loose := fallback;
      fallback := [];
      assert AllRows() == RowsOf(parts);
      if loose == [] {
        return 0;
      }
      CreateMonths(loose);
      assert AllRows() == RowsOf(parts);
      InsertCopies(loose);
      return |loose|;
    }

    /** Drops every partition that ends at or before the cutoff. */
    method DropExpired(cutoff: nat) returns (removed: seq<nat>)
      requires Valid()
      modifies this`parts
      ensures Valid()
      ensures Without(AllRows(), (r: Rec) => r.ts < cutoff) == Without(old(AllRows()), (r: Rec) => r.ts < cutoff)
      ensures |AllRows()| <= |old(AllRows())| && Sum(removed) == |old(AllRows())| - |AllRows()|
    {
      hide RowsOf, Only, HasMonth;
      ghost var expired := (r: Rec) => r.ts < cutoff;
      var kept: seq<Month> := [];
      removed := [];
      for i := 0 to |parts|
        invariant parts == old(parts)
        invariant forall p | p in kept :: p in parts
        invariant Without(RowsOf(kept), expired) == Without(RowsOf(parts[..i]), expired)
        invariant |RowsOf(kept)| <= |RowsOf(parts[..i])|
        invariant Sum(removed) == |RowsOf(parts[..i])| - |RowsOf(kept)|
      {
        var p := parts[i];
        OnePartMore(parts, i, kept, expired);
        if cal.end(p.month) <= cutoff {
          WholeMonthExpires(cal, p, cutoff);
          SumSnoc(removed, |p.rows|);
          removed := removed + [|p.rows|];
        } else {
          kept := kept + [p];
        }
      }
      assert parts[..|parts|] == parts;
      FewerStayPlaced(cal, parts, kept, fallback);
      WithoutConcat(RowsOf(kept), fallback, expired);
      WithoutConcat(RowsOf(parts), fallback, expired);
      parts := kept;
    }

    /** Deletes row by row what is older than the cutoff. */
    method DeleteOlder(cutoff: nat) returns (n: nat)
      requires Valid()
      modifies this
      ensures Valid() && AllRows() == Without(old(AllRows()), (r: Rec) => r.ts < cutoff)
      ensures n == |old(AllRows())| - |AllRows()|
    {
      hide RowsOf, Only, HasMonth;
      var expired := (r: Rec) => r.ts < cutoff;
      var kept: seq<Month> := [];
      n := 0;
      NoRows(expired);
      for i := 0 to |parts|
        invariant parts == old(parts) && fallback == old(fallback)
        invariant |kept| == i && forall j | 0 <= j < i ::
            kept[j].month == parts[j].month && kept[j].rows == Without(parts[j].rows, expired)
        invariant RowsOf(kept) == Without(RowsOf(parts[..i]), expired)
        invariant n == |RowsOf(parts[..i])| - |RowsOf(kept)|
      {
        var p := parts[i];
        var left := Month(p.month, Without(p.rows, expired));
        OnePartMore(parts, i, kept, expired);
        CountSplits(p.rows, expired);
        RowsOfConcat(kept, [left]);
        RowsOfOne(left);
        n := n + |p.rows| - |left.rows|;
        kept := kept + [left];
      }
      assert parts[..|parts|] == parts;
      WithoutConcat(RowsOf(parts), fallback, expired);
      CountSplits(fallback, expired);
      FilteredStayPlaced(cal, parts, kept, fallback, expired);
      n := n + |fallback| - |Without(fallback, expired)|;
      parts, fallback := kept, Without(fallback, expired);
    }

    /** purge(older_than): whole partitions first, then the straddling and the
        default one row by row.  Whatever is where, what is left is the rows at or
        after the cutoff, in place, and the reported counts add up to the rest. */
    method Purge(cutoff: nat) returns (removed: seq<nat>)
      requires Valid()
      modifies this
      ensures Valid() && AllRows() == Without(old(AllRows()), (r: Rec) => r.ts < cutoff)
      ensures Sum(removed) == |old(AllRows())| - |AllRows()|
    {
      hide RowsOf, Only, HasMonth, Sum;
      removed := DropExpired(cutoff);
      var n := DeleteOlder(cutoff);
      SumSnoc(removed, n);
      removed := removed + [n];
    }
  }

  lemma OneMoreCopy(rows: seq<Rec>, i: nat)
    requires i < |rows|
    ensures multiset(Relocate(rows, Moved)[..i + 1])
      == multiset(Relocate(rows, Moved)[..i]) + multiset{rows[i].(redactedAt := None)}
  {
    var copies := Relocate(rows, Moved);
    assert copies[i] == rows[i].(redactedAt := None);
    assert copies[..i + 1] == copies[..i] + [rows[i].(redactedAt := None)];
  }

  lemma SameMonths(a: seq<Month>, b: seq<Month>)
    requires |a| == |b| && forall i | 0 <= i < |a| :: a[i].month == b[i].month
    ensures forall m :: HasMonth(a, m) <==> HasMonth(b, m)
  {
  }

  lemma MonthAdded(parts: seq<Month>, m: nat)
    ensures forall n :: HasMonth(parts + [Month(m, [])], n) <==> HasMonth(parts, n) || n == m
  {
    var more := parts + [Month(m, [])];
    forall n ensures HasMonth(more, n) <==> HasMonth(parts, n) || n == m {
      if HasMonth(parts, n) {
        var i :| 0 <= i < |parts| && parts[i].month == n;
        assert more[i].month == n;
      }
      assert more[|parts|].month == m;
    }
  }

  /** The rows of one partition more, all of them and without the expired. */
  lemma OnePartMore(parts: seq<Month>, i: nat, kept: seq<Month>, expired: Which)
    requires i < |parts|
    ensures RowsOf(parts[..i + 1]) == RowsOf(parts[..i]) + parts[i].rows
    ensures Without(RowsOf(parts[..i + 1]), expired) == Without(RowsOf(parts[..i]), expired) + Without(parts[i].rows, expired)
    ensures RowsOf(kept + [parts[i]]) == RowsOf(kept) + parts[i].rows
    ensures Without(RowsOf(kept + [parts[i]]), expired) == Without(RowsOf(kept), expired) + Without(parts[i].rows, expired)
  {
    hide RowsOf, Only;
    assert parts[..i + 1] == parts[..i] + [parts[i]];
    RowsOfConcat(parts[..i], [parts[i]]);
    RowsOfConcat(kept, [parts[i]]);
    RowsOfOne(parts[i]);
    WithoutConcat(RowsOf(parts[..i]), parts[i].rows, expired);
    WithoutConcat(RowsOf(kept), parts[i].rows, expired);
  }

  lemma FewerStayPlaced(cal: Calendar, parts: seq<Month>, kept: seq<Month>, fallback: seq<Rec>)
    requires Placed(cal, parts, fallback) && forall p | p in kept :: p in parts
    ensures Placed(cal, kept, fallback)
  {
    forall i | 0 <= i < |kept| ensures exists j :: 0 <= j < |parts| && parts[j] == kept[i] {
      assert kept[i] in parts;
    }
  }

  lemma FilteredStayPlaced(
      cal: Calendar, parts: seq<Month>, kept: seq<Month>, fallback: seq<Rec>, expired: Which)
    requires Placed(cal, parts, fallback) && |kept| == |parts|
    requires forall j | 0 <= j < |kept| ::
      kept[j].month == parts[j].month && kept[j].rows == Without(parts[j].rows, expired)
    ensures Placed(cal, kept, Without(fallback, expired))
  {
    hide HasMonth;
    SameMonths(parts, kept);
  }
}
