/** Whole runs of the outbox: batches persisted, posts answered, and stops anywhere. */
module OutboxRuns {
  import opened Outbox

  datatype Post = Post(id: nat, target: string, ok: bool)

  /** `Answered`: the target has answered, the table has not been told yet. */
  datatype Phase = Idle | Answered(row: Row, ok: bool, at: int)

  /** `posts` lists what went out; the station keeps no such list. */
  datatype State = State(rows: seq<Row>, phase: Phase, posts: seq<Post>)

  datatype Step =
    | Persisted(target: string, payloads: seq<string>, clock: seq<int>)
    | Posted(target: string, now: int, ok: bool)
    | Settled
    | Stopped

  ghost predicate Enabled(s: State, step: Step) {
    match step
    case Persisted(target, payloads, clock) => target != "" && |clock| == |payloads|
    case Posted(target, now, _) => s.phase.Idle? && Due(s.rows, target, now).Some?
    case Settled => s.phase.Answered?
    case Stopped => true
  }

  /** `Stopped` is a crash, or the table refusing the write that follows an answer. */
  ghost function Apply(name: Naming, s: State, step: Step): State
    requires Enabled(s, step)
  {
    match step
    case Persisted(target, payloads, clock) => s.(rows := InsertAll(s.rows, name, target, payloads, clock))
    case Posted(target, now, ok) =>
      var row := Due(s.rows, target, now).value;
      s.(phase := Answered(row, ok, now), posts := s.posts + [Post(row.id, row.target, ok)])
    case Settled => s.(rows := Settle(s.rows, s.phase.row, s.phase.ok, s.phase.at), phase := Idle)
    case Stopped => s.(phase := Idle)
  }

  ghost predicate Run(name: Naming, states: seq<State>, steps: seq<Step>) {
    && |states| == |steps| + 1 && states[0] == State([], Idle, [])
    && forall i | 0 <= i < |steps| :: Enabled(states[i], steps[i]) && states[i + 1] == Apply(name, states[i], steps[i])
  }

  // ── What always holds ──────────────────────────────────────────────────────

  /** An answer that is still to be settled is the last post, for a row still there. */
  ghost predicate Inv(s: State) {
    && UniqueIds(s.rows)
    && (s.phase.Answered? ==>
          && Has(s.rows, s.phase.row.id)
          && s.posts != [] && s.posts[|s.posts| - 1] == Post(s.phase.row.id, s.phase.row.target, s.phase.ok))
  }

  lemma {:induction false} DeleteIs(rows: seq<Row>, id: nat)
    ensures forall r :: r in Delete(rows, id) <==> r in rows && r.id != id
    ensures UniqueIds(rows) ==> UniqueIds(Delete(rows, id))
    decreases |rows|
  {
    if rows != [] {
      DeleteIs(rows[1..], id);
      assert forall r :: r in rows <==> r == rows[0] || r in rows[1..];
      assert forall i | 0 <= i < |rows[1..]| :: rows[1..][i] == rows[i + 1];
      var kept := Delete(rows[1..], id);
      if UniqueIds(rows) {
        assert UniqueIds(rows[1..]);
        forall k | 0 <= k < |kept| ensures kept[k].id != rows[0].id {
          assert kept[k] in rows[1..];
        }
      }
    }
  }

  lemma HasIn(rows: seq<Row>, id: nat)
    ensures Has(rows, id) <==> exists r :: r in rows && r.id == id
  {
    if Has(rows, id) {
      var i :| 0 <= i < |rows| && rows[i].id == id;
      assert rows[i] in rows;
    }
  }

  lemma InvStep(name: Naming, s: State, step: Step)
    requires Inv(s) && Enabled(s, step)
    ensures Inv(Apply(name, s, step))
  {
    match step
    case Persisted(target, payloads, clock) =>
      InsertedStay(s.rows, name, target, payloads, clock);
    case Posted(target, now, ok) =>
      HasIn(s.rows, Due(s.rows, target, now).value.id);
    case Settled =>
      DeleteIs(s.rows, s.phase.row.id);
    case Stopped =>
  }

  lemma {:induction false} InvAlways(name: Naming, states: seq<State>, steps: seq<Step>, i: nat)
    requires Run(name, states, steps) && i <= |steps|
    ensures Inv(states[i])
    decreases i
  {
    hide Apply; hide Enabled;
    if i > 0 {
      InvAlways(name, states, steps, i - 1);
      InvStep(name, states[i - 1], steps[i - 1]);
    }
  }

  /** The row as it was inserted, apart from its retry bookkeeping. */
  ghost predicate Holds(rows: seq<Row>, r: Row) {
    exists x :: x in rows && x.id == r.id && x.target == r.target && x.payload == r.payload && x.createdAt == r.createdAt
  }

  // ── Nothing is lost ────────────────────────────────────────────────────────

  lemma StepKeeps(name: Naming, s: State, step: Step, r: Row)
    requires Enabled(s, step) && Holds(s.rows, r)
    ensures Holds(Apply(name, s, step).rows, r) || (step.Settled? && s.phase.Answered? && s.phase.ok && s.phase.row.id == r.id)
  {
    var x :| x in s.rows && x.id == r.id && x.target == r.target && x.payload == r.payload && x.createdAt == r.createdAt;
    match step
    case Persisted(target, payloads, clock) =>
      InsertedStay(s.rows, name, target, payloads, clock);
      assert x in Apply(name, s, step).rows;
    case Settled =>
      DeleteIs(s.rows, s.phase.row.id);
      var i :| 0 <= i < |s.rows| && s.rows[i] == x;
      if !s.phase.ok {
        assert Apply(name, s, step).rows[i] in Apply(name, s, step).rows;
      }
    case _ =>
      assert x in Apply(name, s, step).rows;
  }

  ghost predicate DeliveredAt(states: seq<State>, steps: seq<Step>, k: nat, id: nat)
    requires |states| == |steps| + 1
  {
    && k < |steps| && steps[k].Settled? && states[k].phase.Answered? && states[k].phase.row.id == id
    && states[k].posts != [] && states[k].posts[|states[k].posts| - 1].ok && states[k].posts[|states[k].posts| - 1].id == id
  }

  /** A row leaves the outbox only in a step that settles an accepted post of that very
      row: whatever stops in between, it is delivered or it is still there, unchanged
      but for its retry bookkeeping. */
  lemma {:induction false} NeverLost(name: Naming, states: seq<State>, steps: seq<Step>, i: nat, j: nat, r: Row)
    requires Run(name, states, steps) && i <= j <= |steps| && Holds(states[i].rows, r)
    ensures Holds(states[j].rows, r) || exists k | i <= k < j :: DeliveredAt(states, steps, k, r.id)
    decreases j
  {
    hide Holds; hide Apply; hide Enabled;
    if i < j {
      NeverLost(name, states, steps, i, j - 1, r);
      InvAlways(name, states, steps, j - 1);
      if Holds(states[j - 1].rows, r) && !Holds(states[j].rows, r) {
        StepKeeps(name, states[j - 1], steps[j - 1], r);
        assert DeliveredAt(states, steps, j - 1, r.id);
      }
    }
  }

  ghost predicate Named(name: Naming, rows: seq<Row>) { forall r | r in rows :: r.id == name(r.target, r.payload) }

  lemma NamedStep(name: Naming, s: State, step: Step)
    requires Named(name, s.rows) && Enabled(s, step)
    ensures Named(name, Apply(name, s, step).rows)
  {
    var after := Apply(name, s, step).rows;
    match step
    case Persisted(target, payloads, clock) =>
      InsertedStay(s.rows, name, target, payloads, clock);
    case Settled =>
      DeleteIs(s.rows, s.phase.row.id);
      if !s.phase.ok {
        forall r | r in after ensures r.id == name(r.target, r.payload) {
          var i :| 0 <= i < |after| && after[i] == r;
          assert s.rows[i] in s.rows;
        }
      }
    case _ =>
  }

  lemma {:induction false} NamedAlways(name: Naming, states: seq<State>, steps: seq<Step>, i: nat)
    requires Run(name, states, steps) && i <= |steps|
    ensures Named(name, states[i].rows)
    decreases i
  {
    hide Apply; hide Enabled;
    if i > 0 {
      NamedAlways(name, states, steps, i - 1);
      NamedStep(name, states[i - 1], steps[i - 1]);
    }
  }

  /** Every total persisted for a target is in the outbox ever after or was delivered. */
  lemma EveryTotalArrives(name: Naming, states: seq<State>, steps: seq<Step>, i: nat, j: nat, p: nat)
    requires Injective(name) && Run(name, states, steps) && i < j <= |steps|
    requires steps[i].Persisted? && p < |steps[i].payloads|
    ensures var id := name(steps[i].target, steps[i].payloads[p]);
            || (exists r :: r in states[j].rows && r.target == steps[i].target && r.payload == steps[i].payloads[p])
            || (exists k | i < k < j :: DeliveredAt(states, steps, k, id))
  {
    var id := name(steps[i].target, steps[i].payloads[p]);
    InsertedStay(states[i].rows, name, steps[i].target, steps[i].payloads, steps[i].clock);
    assert Has(states[i + 1].rows, id);
    HasIn(states[i + 1].rows, id);
    var r :| r in states[i + 1].rows && r.id == id;
    NamedAlways(name, states, steps, i + 1);
    assert Holds(states[i + 1].rows, r);
    NeverLost(name, states, steps, i + 1, j, r);
  }

  // ── Order ──────────────────────────────────────────────────────────────────

  /** No row is posted while an older one waits: everything for the target that was ever
      in the outbox and comes before the posted row has been delivered already. */
  lemma PostsInOrder(name: Naming, states: seq<State>, steps: seq<Step>, j: nat, i: nat, older: Row)
    requires Run(name, states, steps) && j <= i < |steps| && steps[i].Posted?
    requires older in states[j].rows && older.target == steps[i].target
    requires Due(states[i].rows, steps[i].target, steps[i].now).Some?
    requires Before(older, Due(states[i].rows, steps[i].target, steps[i].now).value)
    ensures exists k | j <= k < i :: DeliveredAt(states, steps, k, older.id)
  {
    assert Holds(states[j].rows, older);
    NeverLost(name, states, steps, j, i, older);
    OlderIsGone(states[i].rows, steps[i].target, older);
  }

  lemma OlderIsGone(rows: seq<Row>, target: string, older: Row)
    requires Head(rows, target).Some? && older.target == target && Before(older, Head(rows, target).value)
    ensures !Holds(rows, older)
  {
    HeadIsOldest(rows, target);
    var head := Head(rows, target).value;
    forall x | x in rows && x.target == target && x.id == older.id ensures x.createdAt != older.createdAt {
      assert !Before(x, head);
    }
  }

  // ── Duplicates ─────────────────────────────────────────────────────────────

  ghost predicate AcceptedAt(states: seq<State>, steps: seq<Step>, i: nat, id: nat)
    requires |states| == |steps| + 1
  {
    && i < |steps| && steps[i].Posted? && steps[i].ok
    && Due(states[i].rows, steps[i].target, steps[i].now).Some?
    && Due(states[i].rows, steps[i].target, steps[i].now).value.id == id
  }

  /** The first step after `i` that settles the answer or stops before it is settled. */
  ghost predicate Ends(steps: seq<Step>, i: nat, m: nat) {
    && i < m < |steps| && (steps[m].Settled? || steps[m].Stopped?)
    && forall k | i < k < m :: !steps[k].Settled? && !steps[k].Stopped?
  }

  /** The same totals were persisted anew after their row had gone. */
  ghost predicate ReinsertedAt(states: seq<State>, steps: seq<Step>, k: nat, id: nat)
    requires |states| == |steps| + 1
  {
    k < |steps| && steps[k].Persisted? && !Has(states[k].rows, id) && Has(states[k + 1].rows, id)
  }

  lemma InsertingKeeps(name: Naming, s: State, step: Step, id: nat)
    requires Enabled(s, step) && step.Persisted? && Has(s.rows, id)
    ensures Has(Apply(name, s, step).rows, id)
  {
    InsertedStay(s.rows, name, step.target, step.payloads, step.clock);
    HasIn(s.rows, id);
    HasIn(Apply(name, s, step).rows, id);
  }

  /** Between the answer and the step that ends it nothing but persisting happens. */
  lemma {:induction false} StaysAnswered(name: Naming, states: seq<State>, steps: seq<Step>, i: nat, k: nat, id: nat)
    requires Run(name, states, steps) && AcceptedAt(states, steps, i, id) && i < k <= |steps|
    requires forall l | i < l < k :: !steps[l].Settled? && !steps[l].Stopped?
    ensures var p := states[k].phase; p.Answered? && p.ok && p.row.id == id && Has(states[k].rows, id)
    ensures forall l | i < l < k :: steps[l].Persisted?
    decreases k
  {
    if k == i + 1 {
      HasIn(states[i].rows, id);
    } else {
      StaysAnswered(name, states, steps, i, k - 1, id);
      InsertingKeeps(name, states[k - 1], steps[k - 1], id);
    }
  }

  lemma OthersInsertNothing(name: Naming, s: State, step: Step, id: nat)
    requires Enabled(s, step) && !step.Persisted? && !Has(s.rows, id)
    ensures !Has(Apply(name, s, step).rows, id)
  {
    if step.Settled? && s.phase.ok {
      HasIn(s.rows, id);
      DeleteIs(s.rows, s.phase.row.id);
      HasIn(Apply(name, s, step).rows, id);
    }
  }

  lemma {:induction false} StaysGone(name: Naming, states: seq<State>, steps: seq<Step>, i: nat, j: nat, id: nat)
    requires Run(name, states, steps) && i <= j <= |steps| && !Has(states[i].rows, id)
    requires forall k | i <= k < j :: !ReinsertedAt(states, steps, k, id)
    ensures !Has(states[j].rows, id)
    decreases j
  {
    hide Apply; hide Enabled; hide Has;
    if i < j {
      StaysGone(name, states, steps, i, j - 1, id);
      assert !ReinsertedAt(states, steps, j - 1, id);
      if !steps[j - 1].Persisted? {
        OthersInsertNothing(name, states[j - 1], steps[j - 1], id);
      }
    }
  }

  /** What the ending step leaves of an accepted row. */
  lemma EndOfPost(name: Naming, states: seq<State>, steps: seq<Step>, i: nat, m: nat, id: nat)
    requires Run(name, states, steps) && AcceptedAt(states, steps, i, id) && Ends(steps, i, m)
    ensures Has(states[m + 1].rows, id) <==> steps[m].Stopped?
  {
    StaysAnswered(name, states, steps, i, m, id);
    assert Enabled(states[m], steps[m]) && states[m + 1] == Apply(name, states[m], steps[m]);
    if steps[m].Settled? {
      DeleteIs(states[m].rows, id);
      HasIn(states[m + 1].rows, id);
    }
  }

  /** Exactly when an accepted row is still in the outbox: until a later post of it is
      settled as accepted, and unless the same totals are inserted anew, it is there if
      and only if the station stopped between the answer and the deletion. */
  lemma AcceptedRowStaysIff(name: Naming, states: seq<State>, steps: seq<Step>, i: nat, m: nat, j: nat, id: nat)
    requires Run(name, states, steps) && AcceptedAt(states, steps, i, id) && Ends(steps, i, m) && m < j <= |steps|
    requires forall k | m < k < j :: !ReinsertedAt(states, steps, k, id) && !DeliveredAt(states, steps, k, id)
    ensures Has(states[j].rows, id) <==> steps[m].Stopped?
  {
    EndOfPost(name, states, steps, i, m, id);
    if steps[m].Stopped? {
      HasIn(states[m + 1].rows, id);
      var r :| r in states[m + 1].rows && r.id == id;
      assert Holds(states[m + 1].rows, r);
      NeverLost(name, states, steps, m + 1, j, r);
      HasIn(states[j].rows, id);
    } else {
      StaysGone(name, states, steps, m + 1, j, id);
    }
  }

  /** The answer to a post ends before the next post. */
  lemma PostEnds(name: Naming, states: seq<State>, steps: seq<Step>, i: nat, j: nat, id: nat) returns (m: nat)
    requires Run(name, states, steps) && AcceptedAt(states, steps, i, id) && i < j < |steps| && steps[j].Posted?
    ensures Ends(steps, i, m) && m < j
  {
    if forall l | i < l < j :: !steps[l].Settled? && !steps[l].Stopped? {
      StaysAnswered(name, states, steps, i, j, id);
    }
    m := i + 1;
    while !steps[m].Settled? && !steps[m].Stopped?
      invariant i < m < j && forall l | i < l < m :: !steps[l].Settled? && !steps[l].Stopped?
      invariant exists l | m <= l < j :: steps[l].Settled? || steps[l].Stopped?
      decreases j - m
    {
      m := m + 1;
    }
  }

  /** So a row the target accepted is posted a second time only if the station stopped
      between that answer and the deletion, or the same totals were inserted anew. */
  lemma DuplicatesNeedAStop(name: Naming, states: seq<State>, steps: seq<Step>, i: nat, j: nat, id: nat)
    requires Run(name, states, steps) && i < j < |steps|
    requires AcceptedAt(states, steps, i, id) && steps[j].Posted?
    requires Due(states[j].rows, steps[j].target, steps[j].now).Some? && Due(states[j].rows, steps[j].target, steps[j].now).value.id == id
    ensures exists m | i < m < j :: Ends(steps, i, m) && (steps[m].Stopped? || exists k | m < k < j :: ReinsertedAt(states, steps, k, id))
  {
    var m := PostEnds(name, states, steps, i, j, id);
    HasIn(states[j].rows, id);
    hide Apply; hide Enabled; hide Due; hide Has;
    EndOfPost(name, states, steps, i, m, id);
    if !steps[m].Stopped? && forall k | m < k < j :: !ReinsertedAt(states, steps, k, id) {
      StaysGone(name, states, steps, m + 1, j, id);
    }
  }

  /** And a stop does it: some run has one total accepted twice. */
  lemma StopDuplicates(name: Naming, target: string, payload: string)
    requires target != ""
    ensures exists states, steps :: Run(name, states, steps)
              && AcceptedAt(states, steps, 1, name(target, payload)) && AcceptedAt(states, steps, 3, name(target, payload))
  {
    var row := Row(name(target, payload), target, payload, 0, 0, 0);
    var post := Post(row.id, target, true);
    var a, b, c, d, e := State([], Idle, []), State([row], Idle, []), State([row], Answered(row, true, 0), [post]),
                         State([row], Idle, [post]), State([row], Answered(row, true, 0), [post, post]);
    var put, send := Persisted(target, [payload], [0]), Posted(target, 0, true);
    FirstInsert(name, target, payload);
    hide InsertAll; hide Head;
    assert Enabled(a, put) && b == Apply(name, a, put);
    assert Enabled(b, send) && c == Apply(name, b, send) && Enabled(c, Stopped) && d == Apply(name, c, Stopped);
    assert Enabled(d, send) && e == Apply(name, d, send);
    hide Enabled; hide Apply; hide InsertAll; hide Due;
    var states, steps := [a, b, c, d, e], [put, send, Stopped, send];
    assert Run(name, states, steps);
    assert AcceptedAt(states, steps, 1, row.id) && AcceptedAt(states, steps, 3, row.id);
  }

  lemma FirstInsert(name: Naming, target: string, payload: string)
    ensures var row := Row(name(target, payload), target, payload, 0, 0, 0);
            InsertAll([], name, target, [payload], [0]) == [row] && Head([row], target) == Some(row)
  {
    assert [payload][..0] == [] && [0][..0] == [];
  }
}
