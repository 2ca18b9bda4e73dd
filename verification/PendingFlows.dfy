/** The bounded table of sign-ins that wait for their callback (src/server/oauth.rs). */
module PendingFlows {
  import opened Common

  const FLOW_TTL_SECS := 600
  const MAX_FLOWS := 512

  datatype Provider = Google | Apple

  datatype PendingFlow = PendingFlow(
    provider: Provider,
    nonce: string,
    verifier: string,
    next: string,
    binding: string,
    startedAt: u64)

  type Table = map<string, PendingFlow>

  predicate IsFresh(flow: PendingFlow, now: u64) {
    SatSub(now, flow.startedAt) < FLOW_TTL_SECS
  }

  function Pruned(t: Table, now: u64): Table {
    map k | k in t && IsFresh(t[k], now) :: t[k]
  }

  predicate IsOldest(t: Table, k: string) {
    k in t && forall other | other in t :: t[k].startedAt <= t[other].startedAt
  }

  /** One of the oldest flows is dropped; which, when several are as old, is up to the hash map. */
  ghost predicate Evicted(t: Table, after: Table) {
    exists k :: IsOldest(t, k) && after == t - {k}
  }

  /** What `insert` may do to a table of at most `MAX_FLOWS` flows. */
  ghost predicate Inserted(t: Table, state: string, flow: PendingFlow, now: u64, after: Table) {
    var live := Pruned(t, now);
    if |live| < MAX_FLOWS then after == live[state := flow]
    else exists room :: Evicted(live, room) && after == room[state := flow]
  }

  ghost predicate Bounded(t: Table) {
    |t| <= MAX_FLOWS
  }

  lemma PrunedIsNoLarger(t: Table, now: u64)
    ensures |Pruned(t, now)| <= |t|
  {
    var live := Pruned(t, now);
    assert live.Keys <= t.Keys;
    assert |t.Keys| == |live.Keys| + |t.Keys - live.Keys| by {
      assert t.Keys == live.Keys + (t.Keys - live.Keys);
    }
  }

  lemma {:induction false} OldestExists(t: Table)
    requires t != map[]
    ensures exists k :: IsOldest(t, k)
    decreases |t|
  {
    var k :| k in t;
    var rest := t - {k};
    RemovalSize(t, k);
    if rest == map[] {
      assert forall other | other in t :: other == k || other in rest;
      assert IsOldest(t, k);
    } else {
      OldestExists(rest);
      var m :| IsOldest(rest, m);
      forall other | other in t ensures other == k || t[m].startedAt <= t[other].startedAt {
        assert other != k ==> other in rest;
      }
      assert IsOldest(t, if t[k].startedAt <= t[m].startedAt then k else m);
    }
  }

  lemma RemovalSize(t: Table, k: string)
    ensures |t - {k}| == if k in t then |t| - 1 else |t|
  {
  }

  lemma PutSize(t: Table, k: string, flow: PendingFlow)
    ensures |t[k := flow]| <= |t| + 1
  {
  }

  class Flows {
    var table: Table

    constructor ()
      ensures table == map[]
    {
      table := map[];
    }

    method Prune(now: u64)
      modifies this
      ensures table == Pruned(old(table), now)
    {
      table := map k | k in table && IsFresh(table[k], now) :: table[k];
    }

    method Insert(state: string, flow: PendingFlow, now: u64)
      requires Bounded(table)
      modifies this
      ensures Inserted(old(table), state, flow, now, table)
      ensures Bounded(table)
    {
      Prune(now);
      ghost var live := table;
      PrunedIsNoLarger(old(table), now);
      while |table| >= MAX_FLOWS
        invariant table == live || (|live| == MAX_FLOWS && Evicted(live, table))
        invariant |table| <= |live| && (table == live || |table| == |live| - 1)
        decreases |table|
      {
        OldestExists(table);
        var k :| k in table && IsOldest(table, k);
        RemovalSize(table, k);
        table := table - {k};
      }
      PutSize(table, state, flow);
      table := table[state := flow];
    }

    method Take(state: string, now: u64) returns (r: Option<PendingFlow>)
      modifies this
      ensures r == if state in Pruned(old(table), now) then Some(old(table)[state]) else None
      ensures table == Pruned(old(table), now) - {state}
    {
      Prune(now);
      r := if state in table then Some(table[state]) else None;
      table := table - {state};
    }
  }

  // ---- runs ----

  datatype Call =
    | Insert(state: string, flow: PendingFlow, now: u64)
    | Take(state: string, now: u64)

  ghost predicate StepOf(t: Table, call: Call, after: Table) {
    match call
    case Insert(state, flow, now) => Inserted(t, state, flow, now, after)
    case Take(state, now) => after == Pruned(t, now) - {state}
  }

  function Answer(t: Table, call: Call): Option<PendingFlow> {
    if call.Take? && call.state in Pruned(t, call.now) then Some(t[call.state]) else None
  }

  /** A run from the empty table: the tables between the calls, one more than the calls. */
  ghost predicate IsRun(tables: seq<Table>, calls: seq<Call>) {
    && |tables| == |calls| + 1 && tables[0] == map[]
    && forall i | 0 <= i < |calls| :: StepOf(tables[i], calls[i], tables[i + 1])
  }

  lemma StepStaysBounded(t: Table, call: Call, after: Table)
    requires Bounded(t) && StepOf(t, call, after)
    ensures Bounded(after)
  {
    PrunedIsNoLarger(t, call.now);
    var live := Pruned(t, call.now);
    match call {
      case Insert(state, flow, now) =>
        if |live| < MAX_FLOWS {
          PutSize(live, state, flow);
        } else {
          var room :| Evicted(live, room) && after == room[state := flow];
          var k :| IsOldest(live, k) && room == live - {k};
          RemovalSize(live, k);
          PutSize(room, state, flow);
        }
      case Take(state, now) =>
        RemovalSize(live, state);
    }
  }

  /** Whoever starts sign-ins, and however many, the table never holds more than its limit. */
  lemma {:induction false} RunStaysBounded(tables: seq<Table>, calls: seq<Call>, i: nat)
    requires IsRun(tables, calls) && i <= |calls|
    ensures |tables[i]| <= 512
  {
    if i > 0 {
      RunStaysBounded(tables, calls, i - 1);
      StepStaysBounded(tables[i - 1], calls[i - 1], tables[i]);
    }
  }

  /** The states of the flows started less than 600 seconds ago, or not yet. */
  function Live(t: Table, now: u64): set<string> {
    set k | k in t && now < t[k].startedAt + 600
  }

  lemma PrunedIsLive(t: Table, now: u64)
    ensures Pruned(t, now).Keys == Live(t, now) && |Pruned(t, now)| == |Live(t, now)|
    ensures forall k | k in Live(t, now) :: Pruned(t, now)[k] == t[k]
  {
    assert Pruned(t, now).Keys == Live(t, now);
  }

  /** An insertion loses expired flows, the flow it replaces, and at most one other, none older than it. */
  lemma InsertionSparesTheYoung(t: Table, state: string, flow: PendingFlow, now: u64, after: Table, k: string)
    requires Inserted(t, state, flow, now, after) && k in t && now < t[k].startedAt + 600 && k != state
    ensures after[state] == flow
    ensures k in after ==> after[k] == t[k]
    ensures k !in after ==>
            && |Live(t, now)| >= 512
            && (forall other | other in after && other != state :: other in t && t[k].startedAt <= t[other].startedAt)
            && (forall other | other in t && now < t[other].startedAt + 600 && other != k :: other in after)
  {
    PrunedIsLive(t, now);
  }

  // ---- single use ----

  function Insertions(calls: seq<Call>, state: string): nat {
    if calls == [] then 0
    else
      var last := calls[|calls| - 1];
      Insertions(calls[..|calls| - 1], state) + if last.Insert? && last.state == state then 1 else 0
  }

  /** How often a run has answered this state with a flow. */
  ghost function Answers(tables: seq<Table>, calls: seq<Call>, state: string): nat
    requires |tables| == |calls| + 1
  {
    if calls == [] then 0
    else
      var n := |calls| - 1;
      Answers(tables[..|calls|], calls[..n], state) +
      if calls[n].Take? && calls[n].state == state && Answer(tables[n], calls[n]).Some? then 1 else 0
  }

  lemma RunPrefix(tables: seq<Table>, calls: seq<Call>)
    requires IsRun(tables, calls) && calls != []
    ensures IsRun(tables[..|calls|], calls[..|calls| - 1])
  {
  }

  /** A flow is handed out at most as often as one was put in, and never while none is left. */
  lemma {:induction false} EachFlowIsTakenOnce(tables: seq<Table>, calls: seq<Call>, state: string)
    requires IsRun(tables, calls)
    ensures Answers(tables, calls, state) + (if state in tables[|calls|] then 1 else 0) <= Insertions(calls, state)
    decreases |calls|
  {
    if calls != [] {
      RunPrefix(tables, calls);
      EachFlowIsTakenOnce(tables[..|calls|], calls[..|calls| - 1], state);
      StepKeepsAccount(tables[|calls| - 1], calls[|calls| - 1], tables[|calls|], state);
    }
  }

  lemma StepKeepsAccount(t: Table, call: Call, after: Table, state: string)
    requires StepOf(t, call, after)
    ensures state in after ==> state in t || (call.Insert? && call.state == state)
    ensures call.Take? && call.state == state ==> state !in after && (Answer(t, call).Some? ==> state in t)
  {
  }

  /** What the table holds for a state is what the last insertion for that state put there. */
  ghost predicate LastInserted(calls: seq<Call>, state: string, flow: PendingFlow) {
    exists i :: 0 <= i < |calls| && calls[i].Insert? && calls[i].state == state && calls[i].flow == flow &&
      forall j | i < j < |calls| :: calls[j].state != state
  }

  lemma {:induction false} TableHoldsLastInserted(tables: seq<Table>, calls: seq<Call>, state: string)
    requires IsRun(tables, calls) && state in tables[|calls|]
    ensures LastInserted(calls, state, tables[|calls|][state])
    decreases |calls|
  {
    assert calls != [];
    var n := |calls| - 1;
    var t, call, after := tables[n], calls[n], tables[n + 1];
    StepKeepsFlow(t, call, after, state);
    if call.Insert? && call.state == state {
      assert calls[n].flow == after[state];
    } else {
      RunPrefix(tables, calls);
      TableHoldsLastInserted(tables[..|calls|], calls[..n], state);
      var i :| 0 <= i < n && calls[..n][i].Insert? && calls[..n][i].state == state && calls[..n][i].flow == t[state] &&
        forall j | i < j < n :: calls[..n][j].state != state;
      assert calls[i].flow == after[state];
      forall j | i < j < |calls| ensures calls[j].state != state {
        if j < n {
          assert calls[j] == calls[..n][j];
        }
      }
    }
  }

  lemma StepKeepsFlow(t: Table, call: Call, after: Table, state: string)
    requires StepOf(t, call, after) && state in after
    ensures if call.Insert? && call.state == state then after[state] == call.flow
            else call.state != state && state in t && after[state] == t[state]
  {
  }

  /**
   * A callback gets the flow most recently started under its state, not yet spent, and only within its
   * time limit.
   */
  lemma AnswerIsTheFreshLatest(tables: seq<Table>, calls: seq<Call>, state: string, now: u64)
    requires IsRun(tables, calls)
    ensures var r := Answer(tables[|calls|], Take(state, now));
            r.Some? ==> now < r.value.startedAt + 600 && LastInserted(calls, state, r.value)
  {
    if state in tables[|calls|] {
      TableHoldsLastInserted(tables, calls, state);
    }
  }

  /** The call leaves this flow in the table: nothing is evicted, or something older is. */
  ghost predicate Spares(t: Table, call: Call, flow: PendingFlow) {
    call.Insert? ==>
      |Live(t, call.now)| < 512 || exists k :: k in Live(t, call.now) && t[k].startedAt < flow.startedAt
  }

  lemma StepKeepsSpared(t: Table, call: Call, after: Table, state: string, flow: PendingFlow)
    requires StepOf(t, call, after) && call.state != state && state in t && t[state] == flow
    requires call.now < flow.startedAt + 600 && Spares(t, call, flow)
    ensures state in after && after[state] == flow
  {
    PrunedIsLive(t, call.now);
    var live := Pruned(t, call.now);
    if call.Insert? && |live| >= MAX_FLOWS {
      var room :| Evicted(live, room) && after == room[call.state := call.flow];
      var oldest :| IsOldest(live, oldest) && room == live - {oldest};
      var k :| k in Live(t, call.now) && t[k].startedAt < flow.startedAt;
      assert live[oldest].startedAt <= live[k].startedAt;
    }
  }

  /** Between its insertion and position `n` nothing happens that takes the flow out. */
  ghost predicate Undisturbed(tables: seq<Table>, calls: seq<Call>, j: nat, n: nat, state: string, flow: PendingFlow)
    requires |tables| == |calls| + 1
  {
    && j < n <= |calls| && calls[j].Insert? && calls[j].state == state && calls[j].flow == flow
    && forall i | j < i < n ::
         calls[i].state != state && calls[i].now < flow.startedAt + 600 && Spares(tables[i], calls[i], flow)
  }

  lemma {:induction false} FlowStays(
    tables: seq<Table>, calls: seq<Call>, j: nat, n: nat, state: string, flow: PendingFlow)
    requires IsRun(tables, calls) && Undisturbed(tables, calls, j, n, state, flow)
    ensures state in tables[n] && tables[n][state] == flow
    decreases n
  {
    hide StepOf, Spares;
    assert StepOf(tables[n - 1], calls[n - 1], tables[n]);
    if n == j + 1 {
      StepKeepsFlowPut(tables[j], calls[j], tables[n]);
    } else {
      FlowStays(tables, calls, j, n - 1, state, flow);
      StepKeepsSpared(tables[n - 1], calls[n - 1], tables[n], state, flow);
    }
  }

  /**
   * And the other way round: a flow put in is handed to the callback that comes for it within 600 seconds
   * of its start, as long as no other call for its state comes first, no clock in between has passed that
   * time, and older flows go first whenever the table is full.
   */
  lemma FreshFlowIsAnswered(
    tables: seq<Table>, calls: seq<Call>, j: nat, n: nat, state: string, flow: PendingFlow, now: u64)
    requires IsRun(tables, calls) && Undisturbed(tables, calls, j, n, state, flow)
    requires now < flow.startedAt + 600
    ensures Answer(tables[n], Take(state, now)) == Some(flow)
  {
    hide IsRun, Undisturbed;
    UndisturbedEnds(tables, calls, j, n, state, flow);
    FlowStays(tables, calls, j, n, state, flow);
    PrunedIsLive(tables[n], now);
  }

  lemma UndisturbedEnds(tables: seq<Table>, calls: seq<Call>, j: nat, n: nat, state: string, flow: PendingFlow)
    requires IsRun(tables, calls) && Undisturbed(tables, calls, j, n, state, flow)
    ensures n < |tables| == |calls| + 1
  {
  }

  lemma StepKeepsFlowPut(t: Table, call: Call, after: Table)
    requires StepOf(t, call, after) && call.Insert?
    ensures call.state in after && after[call.state] == call.flow
  {
  }
}
