/**
 The multi-agent work-in-progress gate (src/schemas/wip-gate.schema.ts): at most one slot per
 agent and a capacity per role, kept in a counter beside the set of active agents.
 */
module WipGate {
  import opened Prelude

  datatype Outcome = Acquired | AlreadyActive | CapReached | Released | NotActive

  /** `active` maps each agent to the role it acquired. */
  datatype State = State(active: map<string, string>, roleCounts: map<string, int>)
  datatype Op = TryAcquire(agent: string, role: string) | Release(agent: string, role: string)

  const EMPTY := State(map[], map[])

  function Count(s: State, role: string): int {
    if role in s.roleCounts then s.roleCounts[role] else 0
  }

  /** Capacities as the constructor leaves them: `default` is always present. */
  function Capacity(capacities: map<string, int>, role: string): int {
    if role in capacities then capacities[role]
    else if "default" in capacities then capacities["default"] else 1
  }

  function Step(s: State, capacities: map<string, int>, op: Op): (State, Outcome) {
    match op
    case TryAcquire(agent, role) =>
      if agent in s.active then (s, AlreadyActive)
      else if Count(s, role) >= Capacity(capacities, role) then (s, CapReached)
      else (State(s.active[agent := role], s.roleCounts[role := Count(s, role) + 1]), Acquired)
    case Release(agent, role) =>
      if agent !in s.active then (s, NotActive)
      else
        var active := s.active - {agent};
        (if Count(s, role) > 0 then State(active, s.roleCounts[role := Count(s, role) - 1])
         else s.(active := active), Released)
  }

  class MultiAgentWipGate {
    var active: map<string, string>
    var roleCounts: map<string, int>
    const capacities: map<string, int>

    constructor (roleCapacities: map<string, int>, defaultCapacity: Option<int>)
      ensures Current() == EMPTY
      ensures capacities == roleCapacities["default" := if defaultCapacity.Some? then defaultCapacity.value else 1]
    {
      active, roleCounts := map[], map[];
      capacities := roleCapacities["default" := if defaultCapacity.Some? then defaultCapacity.value else 1];
    }

    ghost function Current(): State
      reads this
    {
      State(active, roleCounts)
    }

    method TryAcquireSlot(agent: string, role: string) returns (r: Outcome)
      modifies this
      ensures (Current(), r) == Step(old(Current()), capacities, TryAcquire(agent, role))
    {
      if agent in active { return AlreadyActive; }
      var currentCount := if role in roleCounts then roleCounts[role] else 0;
      if currentCount >= Capacity(capacities, role) { return CapReached; }
      active := active[agent := role];
      roleCounts := roleCounts[role := currentCount + 1];
      return Acquired;
    }

    method ReleaseSlot(agent: string, role: string) returns (r: Outcome)
      modifies this
      ensures (Current(), r) == Step(old(Current()), capacities, Release(agent, role))
    {
      if agent !in active { return NotActive; }
      active := active - {agent};
      var currentCount := if role in roleCounts then roleCounts[role] else 0;
      if currentCount > 0 { roleCounts := roleCounts[role := currentCount - 1]; }
      return Released;
    }
  }

  // ---------------------------------------------------------------------------
  // Counters against the set of active agents
  // ---------------------------------------------------------------------------

  function Run(s: State, capacities: map<string, int>, ops: seq<Op>): State {
    if ops == [] then s else Step(Run(s, capacities, ops[..|ops| - 1]), capacities, ops[|ops| - 1]).0
  }

  ghost function AgentsIn(active: map<string, string>, role: string): set<string> {
    set agent | agent in active && active[agent] == role
  }

  /** The counter of every role is the number of agents active in it. */
  ghost predicate Honest(s: State) {
    forall role: string :: Count(s, role) == |AgentsIn(s.active, role)|
  }

  /** A release names the role under which its agent is active. */
  ghost predicate Matched(s: State, op: Op) {
    op.Release? && op.agent in s.active ==> s.active[op.agent] == op.role
  }

  ghost predicate MatchedRun(capacities: map<string, int>, ops: seq<Op>) {
    ops == []
    || var front := ops[..|ops| - 1];
       MatchedRun(capacities, front) && Matched(Run(EMPTY, capacities, front), ops[|ops| - 1])
  }

  lemma AgentJoins(active: map<string, string>, agent: string, joined: string, role: string)
    requires agent !in active
    ensures |AgentsIn(active[agent := joined], role)| == |AgentsIn(active, role)| + if joined == role then 1 else 0
  {
    assert AgentsIn(active[agent := joined], role) == AgentsIn(active, role) + if joined == role then {agent} else {};
  }

  lemma AgentLeaves(active: map<string, string>, agent: string, role: string)
    requires agent in active
    ensures |AgentsIn(active - {agent}, role)| == |AgentsIn(active, role)| - if active[agent] == role then 1 else 0
  {
    assert AgentsIn(active - {agent}, role) == AgentsIn(active, role) - if active[agent] == role then {agent} else {};
  }

  /** One operation keeps the counters honest exactly when a successful release names the right role. */
  lemma StepHonestIffMatched(s: State, capacities: map<string, int>, op: Op)
    requires Honest(s)
    ensures Honest(Step(s, capacities, op).0) <==> Matched(s, op)
  {
    var after := Step(s, capacities, op).0;
    match op
    case TryAcquire(agent, joined) =>
      if agent !in s.active {
        forall role: string ensures Count(after, role) == |AgentsIn(after.active, role)| {
          AgentJoins(s.active, agent, joined, role);
        }
      }
    case Release(agent, named) =>
      if agent in s.active {
        var held := s.active[agent];
        forall role: string
          ensures |AgentsIn(after.active, role)| == |AgentsIn(s.active, role)| - if held == role then 1 else 0
        {
          AgentLeaves(s.active, agent, role);
        }
        assert agent in AgentsIn(s.active, held);
        assert Count(s, held) > 0;
        if named != held { assert Count(after, held) != |AgentsIn(after.active, held)|; }
      }
  }

  /** Over every run whose releases are matched, each counter is the number of active agents in the role. */
  lemma {:induction false} MatchedRunsAreHonest(capacities: map<string, int>, ops: seq<Op>)
    requires MatchedRun(capacities, ops)
    ensures Honest(Run(EMPTY, capacities, ops))
  {
    if ops == [] {
      forall role: string ensures |AgentsIn(EMPTY.active, role)| == 0 { assert AgentsIn(EMPTY.active, role) == {}; }
    } else {
      MatchedRunsAreHonest(capacities, ops[..|ops| - 1]);
      StepHonestIffMatched(Run(EMPTY, capacities, ops[..|ops| - 1]), capacities, ops[|ops| - 1]);
    }
  }

  /** The first mismatched release of a run breaks the agreement, whatever the run did before. */
  lemma FirstMismatchBreaksHonesty(capacities: map<string, int>, ops: seq<Op>, op: Op)
    requires MatchedRun(capacities, ops) && !Matched(Run(EMPTY, capacities, ops), op)
    ensures !Honest(Run(EMPTY, capacities, ops + [op]))
  {
    MatchedRunsAreHonest(capacities, ops);
    StepHonestIffMatched(Run(EMPTY, capacities, ops), capacities, op);
    assert (ops + [op])[..|ops|] == ops;
  }

  /** The counters agree with the active agents after every prefix of the run. */
  ghost predicate HonestThroughout(capacities: map<string, int>, ops: seq<Op>) {
    Honest(Run(EMPTY, capacities, ops)) && (ops == [] || HonestThroughout(capacities, ops[..|ops| - 1]))
  }

  /** The counters agree with the active agents all through a run exactly when every release in it is matched. */
  lemma {:induction false} HonestThroughoutIffMatched(capacities: map<string, int>, ops: seq<Op>)
    ensures HonestThroughout(capacities, ops) <==> MatchedRun(capacities, ops)
  {
    if ops == [] {
      MatchedRunsAreHonest(capacities, []);
    } else {
      var front := ops[..|ops| - 1];
      HonestThroughoutIffMatched(capacities, front);
      if MatchedRun(capacities, front) {
        MatchedRunsAreHonest(capacities, front);
        StepHonestIffMatched(Run(EMPTY, capacities, front), capacities, ops[|ops| - 1]);
      }
    }
  }

  /** Matched or not, no counter ever leaves the range from zero to the capacity. */
  lemma {:induction false} CountsStayInRange(capacities: map<string, int>, ops: seq<Op>, role: string)
    ensures var capacity := Capacity(capacities, role);
            0 <= Count(Run(EMPTY, capacities, ops), role) <= if capacity > 0 then capacity else 0
  {
    if ops == [] {
    } else {
      CountsStayInRange(capacities, ops[..|ops| - 1], role);
    }
  }

  /** The capacity of a role: its own, or the default, or one slot when neither is given. */
  ghost predicate Allows(capacities: map<string, int>, role: string, others: int) {
    && (role in capacities ==> others < capacities[role])
    && (role !in capacities && "default" in capacities ==> others < capacities["default"])
    && (role !in capacities && "default" !in capacities ==> others < 1)
  }

  /**
   After a run of matched releases, an agent gets a slot exactly if it has none and fewer agents are
   active in the role than its capacity, or the default, allows; and a release succeeds exactly if
   the agent has a slot. The slot is the only one that changes.
   */
  lemma SlotsAreGivenIff(capacities: map<string, int>, ops: seq<Op>, agent: string, role: string)
    requires MatchedRun(capacities, ops)
    ensures var s := Run(EMPTY, capacities, ops);
            var (acquired, r) := Step(s, capacities, TryAcquire(agent, role));
            var (released, r') := Step(s, capacities, Release(agent, role));
            && r == (if agent in s.active then AlreadyActive
                     else if Allows(capacities, role, |AgentsIn(s.active, role)|) then Acquired else CapReached)
            && acquired.active == (if r == Acquired then s.active[agent := role] else s.active)
            && r' == (if agent in s.active then Released else NotActive)
            && released.active == s.active - {agent}
  {
    MatchedRunsAreHonest(capacities, ops);
    var s := Run(EMPTY, capacities, ops);
    assert Count(s, role) == |AgentsIn(s.active, role)|;
    if agent !in s.active { assert s.active - {agent} == s.active; }
  }

  lemma FourSteps(caps: map<string, int>, a: Op, b: Op, c: Op, d: Op)
    ensures Run(EMPTY, caps, [a, b]) == Step(Step(EMPTY, caps, a).0, caps, b).0
    ensures Run(EMPTY, caps, [a, b, c, d]) == Step(Step(Run(EMPTY, caps, [a, b]), caps, c).0, caps, d).0
  {
    assert [a, b, c, d][..3] == [a, b, c] && [a, b, c][..2] == [a, b] && [a, b][..1] == [a] && [a][..0] == [];
    assert Run(EMPTY, caps, [a]) == Step(EMPTY, caps, a).0;
    assert Run(EMPTY, caps, [a, b, c]) == Step(Run(EMPTY, caps, [a, b]), caps, c).0;
  }

  /**
   With mismatched releases the capacity no longer bounds the agents: two agents are active at once
   in a role whose capacity is one, after a single release that named the role of another agent.
   */
  lemma MismatchOverfillsRole(caps: map<string, int>, role: string, other: string, x: string, y: string, r: string)
    requires Capacity(caps, role) == 1 && Capacity(caps, other) >= 1 && role != other
    requires x != y && x != r && y != r
    ensures var ops := [TryAcquire(x, role), TryAcquire(r, other), Release(r, role), TryAcquire(y, role)];
            var s := Run(EMPTY, caps, ops);
            AgentsIn(s.active, role) == {x, y} && |AgentsIn(s.active, role)| == 2
  {
    FourSteps(caps, TryAcquire(x, role), TryAcquire(r, other), Release(r, role), TryAcquire(y, role));
    var two := State(map[x := role, r := other], map[role := 1, other := 1]);
    var three := State(map[x := role], map[role := 0, other := 1]);
    assert Run(EMPTY, caps, [TryAcquire(x, role), TryAcquire(r, other)]) == two;
    assert two.active - {r} == three.active;
    assert Step(two, caps, Release(r, role)).0 == three;
    assert Step(three, caps, TryAcquire(y, role)).0.active == map[x := role, y := role];
    assert AgentsIn(map[x := role, y := role], role) == {x, y};
  }
}
