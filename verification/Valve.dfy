/** When the safety valve opens, in bytes retained. */
module Valve {
  import opened Options
  import opened Archive
  import opened Decoding
  import opened Delivery
  import opened ExactlyOnce
  import opened Streaming

  /** The slot reports that it retains the ceiling or more. */
  predicate Reaches(ceiling: nat, t: Turn) {
    t.due.Some? && t.due.value.Reading? && ceiling > 0 && t.due.value.retained >= ceiling
  }

  /** The slot turns out to be gone, which ends the run. */
  predicate Lost(t: Turn) {
    t.due.Some? && t.due.value.SlotGone?
  }

  /** The valve opens in some turn the run gets to. */
  ghost predicate Opens(ceiling: nat, turns: seq<Turn>) {
    exists i :: 0 <= i < |turns| && Reaches(ceiling, turns[i]) && forall j | 0 <= j < i :: !Lost(turns[j])
  }

  lemma TurnOpensIff(ceiling: nat, rels: Relations, t: Turn)
    ensures (exists s :: s in TurnSteps(ceiling, rels, t) && s.Valve?) <==> Reaches(ceiling, t)
    ensures Reaches(ceiling, t) ==>
      Delivery.Valve(t.due.value.current, t.due.value.reported) in TurnSteps(ceiling, rels, t)
  {
    hide Arrived;
    var due, more := DueSteps(ceiling, t.due), Times(Count(ceiling, rels, t));
    assert forall s :: s in due + more <==> s in due || s in more;
    if Reaches(ceiling, t) {
      assert due[1] == Delivery.Valve(t.due.value.current, t.due.value.reported);
    }
  }

  lemma OpensCons(ceiling: nat, turns: seq<Turn>)
    requires turns != []
    ensures Opens(ceiling, turns) <==> Reaches(ceiling, turns[0]) || (!Lost(turns[0]) && Opens(ceiling, turns[1..]))
  {
    var rest := turns[1..];
    if i :| 0 <= i < |turns| && Reaches(ceiling, turns[i]) && forall j | 0 <= j < i :: !Lost(turns[j]) {
      if i > 0 {
        assert rest[i - 1] == turns[i];
        forall j | 0 <= j < i - 1 ensures !Lost(rest[j]) { assert rest[j] == turns[j + 1]; }
      }
    }
    if !Lost(turns[0]) && Opens(ceiling, rest) {
      var i :| 0 <= i < |rest| && Reaches(ceiling, rest[i]) && forall j | 0 <= j < i :: !Lost(rest[j]);
      assert turns[i + 1] == rest[i];
      forall j | 0 <= j < i + 1 ensures !Lost(turns[j]) { if j > 0 { assert turns[j] == rest[j - 1]; } }
    }
  }

  /** Over any turns: the loop's steps include an opened valve if and only if the slot
      reported as much as the ceiling, or more, in a turn it got to.  With a ceiling of
      zero, or below it, none does. */
  lemma {:induction false} ValveOpensIff(ceiling: nat, rels: Relations, turns: seq<Turn>)
    ensures NoValve(RunSteps(ceiling, rels, turns)) <==> !Opens(ceiling, turns)
    decreases |turns|
  {
    hide TurnSteps, Learnt, Opens;
    if turns == [] {
      NothingOpens(ceiling);
    } else {
      var first := TurnSteps(ceiling, rels, turns[0]);
      var rest := if Fails(ceiling, turns[0]) then [] else RunSteps(ceiling, Learnt(rels, turns[0]), turns[1..]);
      assert forall s :: s in first + rest <==> s in first || s in rest;
      TurnOpensIff(ceiling, rels, turns[0]);
      OpensCons(ceiling, turns);
      ValveOpensIff(ceiling, Learnt(rels, turns[0]), turns[1..]);
    }
  }

  lemma NothingOpens(ceiling: nat)
    ensures !Opens(ceiling, [])
  {
  }

  /** What ends the run, and nothing else does: the slot is gone; the gap could not be
      reported or acknowledged; or a change is of a table not yet described.  Whatever
      was to come then does not happen. */
  lemma RunEndsIff(enc: Encoding, max: nat, ceiling: nat, skipTo: nat, l: Loop, t: Turn, rest: seq<Turn>)
    ensures var (l', ok) := AfterTurn(enc, max, ceiling, skipTo, l, t);
      && (ok <==> !Lost(t) && !(Reaches(ceiling, t) && !t.due.value.reported) && !Unknown(l.rels, t))
      && AfterTurns(enc, max, ceiling, skipTo, l, [t] + rest)
         == if ok then AfterTurns(enc, max, ceiling, skipTo, l', rest) else (l', false)
  {
    hide Add, Feed, RecordsOf, Close, Described;
    assert ([t] + rest)[1..] == rest;
    if t.data.Some? {
      RecordsAre(l.rels, t.data.value.0, t.data.value.1);
    }
  }

  /** The turn brings a change of a table the stream has not described. */
  predicate Unknown(rels: Relations, t: Turn) {
    t.data.Some? && var m := t.data.value.1; (m.InsertMsg? || m.UpdateMsg? || m.DeleteMsg?) && m.id !in rels
  }

  /** What one turn below the ceiling tells the server, and what one at it does. */
  lemma TurnTells(enc: Encoding, max: nat, ceiling: nat, skipTo: nat, l: Loop, t: Turn)
    ensures var l' := AfterTurn(enc, max, ceiling, skipTo, l, t).0;
      var durable := if t.due.Some? then Max(l.acked, Resume(Close(l.rec))) else l.acked;
      && l'.acked == durable
      && (t.due.None? ==> l'.told == l.told)
      && (t.due.Some? && !(Reaches(ceiling, t) && t.due.value.reported) ==> l'.told == Max(l.told, durable))
      && (Reaches(ceiling, t) && t.due.value.reported ==> l'.told == Max(Max(l.told, durable), t.due.value.current))
  {
    hide Add, Feed, RecordsOf, Close;
  }
}
