/** The right to erasure over whole runs: what is forgotten is gone, stays gone, and
    takes nothing else with it. */
module Erasure {
  import opened Options
  import opened Hashing
  import opened Sealing
  import opened Retention

  /** Rows are captured as they are written, never already erased. */
  ghost predicate Fresh(steps: seq<Step>) {
    forall s | s in steps && s.Capture? :: s.r.redactedAt.None?
  }

  /** An erased row has no images and no actor. */
  ghost predicate ErasedAreEmpty(rows: seq<Rec>) {
    forall r | r in rows && r.redactedAt.Some? :: NoImages(r) && r.actor == "erased"
  }

  lemma {:induction false} InsertMembers(rows: seq<Rec>, r: Rec)
    ensures forall x :: x in Insert(rows, r) <==> x == r || x in rows
  {
    if rows != [] && rows[0].id <= r.id {
      assert rows == [rows[0]] + rows[1..];
      InsertMembers(rows[1..], r);
    }
  }

  lemma StepKeepsEmpty(sha: Hash, h: History, s: Step)
    requires ErasedAreEmpty(h.rows) && (s.Capture? ==> s.r.redactedAt.None?)
    ensures ErasedAreEmpty(Next(sha, h, s).rows)
  {
    hide NewSpans, EntryFor;
    if s.Capture? {
      InsertMembers(h.rows, s.r);
    }
  }

  lemma {:induction false} RunKeepsEmpty(sha: Hash, h: History, steps: seq<Step>)
    requires ErasedAreEmpty(h.rows) && Fresh(steps)
    ensures ErasedAreEmpty(EndOf(sha, h, steps).rows)
    decreases |steps|
  {
    hide Next, ErasedAreEmpty;
    if steps != [] {
      assert steps[0] in steps;
      StepKeepsEmpty(sha, h, steps[0]);
      RunKeepsEmpty(sha, Next(sha, h, steps[0]), steps[1..]);
    }
  }

  /** Forgetting a subject, in a history of any run: each of its rows is left without
      images, the first time with this call's stamp; no other row changes, and no row
      goes or changes its place. */
  lemma ForgottenAreEmpty(sha: Hash, steps: seq<Step>, subject: Which)
    requires Fresh(steps)
    ensures var h := EndOf(sha, EMPTY, steps);
      var h' := Next(sha, h, Forget(subject));
      && |h'.rows| == |h.rows|
      && forall i | 0 <= i < |h.rows| ::
           && ForgottenOne(h.rows[i], h'.rows[i], subject, h.clock)
           && (subject(h.rows[i]) ==> NoImages(h'.rows[i]) && h'.rows[i].actor == "erased")
  {
    hide EndOf, EntryFor, Redacted;
    RunKeepsEmpty(sha, EMPTY, steps);
    var h := EndOf(sha, EMPTY, steps);
    RedactedOneByOne(h.rows, subject, h.clock);
    assert forall i | 0 <= i < |h.rows| :: h.rows[i] in h.rows;
  }

  /** Forgetting a subject a second time changes no row. */
  lemma ForgetTwice(sha: Hash, h: History, subject: Which)
    requires forall r, at: nat | subject(r) :: subject(RedactOne(r, at))
    ensures var h' := Next(sha, h, Forget(subject));
      Next(sha, h', Forget(subject)).rows == h'.rows
  {
    hide EntryFor;
    var h' := Next(sha, h, Forget(subject));
    var h2 := Next(sha, h', Forget(subject));
    if Only(h.rows, subject) != [] {
      forall i | 0 <= i < |h'.rows| ensures h2.rows[i] == h'.rows[i] {
        assert h.rows[i] in h.rows;
      }
    }
  }

  /** A hard erasure leaves no row of the subject and every other. */
  lemma HardForgetLeavesNone(sha: Hash, h: History, subject: Which)
    ensures forall r :: r in Next(sha, h, Purge(subject, false)).rows <==> r in h.rows && !subject(r)
  {
    hide EntryFor;
    var victims := Only(h.rows, subject);
    forall r | r in h.rows && subject(r) ensures r in victims {
    }
  }
}
