/**
 Where the agents and tokens of the spawn registry come from (src/schemas/agent-registry.schema.ts:49-153):
 names and numbers, and what became of each operation's agent or token by the end of a run.
 */
module RegistryHistory {
  import opened Prelude
  import opened Registry

  // ---------------------------------------------------------------------------
  // Names
  // ---------------------------------------------------------------------------

  /** The id a successful operation is about. */
  ghost function SubjectOf(op: Op): string {
    match op
    case Spawn(_, _, Some(token), _) => token
    case Kill(id) => id
    case _ => op.freshId
  }

  /** The agents of a role, stopped ones too. */
  ghost function EverIn(s: State, role: string): set<string> {
    set id | id in s.agents && s.agents[id].roleName == role
  }

  ghost predicate NamedBy(a: Agent, n: nat) {
    a.instanceName == a.roleName + "-" + Decimal(n)
  }

  ghost predicate HasNumber(a: Agent, next: nat) {
    exists n: nat :: 1 <= n < next && NamedBy(a, n)
  }

  ghost predicate DistinctNames(agents: map<string, Agent>) {
    forall a, b | a in agents && b in agents && a != b :: agents[a].instanceName != agents[b].instanceName
  }

  /** Every agent has one of the numbers below the next, and no two have the same name. */
  ghost predicate Named(agents: map<string, Agent>, next: nat) {
    (forall id | id in agents :: agents[id].roleName in ROLES && HasNumber(agents[id], next)) && DistinctNames(agents)
  }

  ghost predicate CountedIn(s: State, role: string) {
    (if role in s.counters then s.counters[role] else 1) == |EverIn(s, role)| + 1
  }

  /** The numbers count the agents ever launched, in all and role by role. */
  ghost predicate Counted(s: State) {
    s.nextCounter == |s.agents| + 1 && forall role: string :: CountedIn(s, role)
  }

  ghost predicate Numbered(s: State) {
    Counted(s) && Named(s.agents, s.nextCounter)
  }

  lemma BeforeFirstDash(a: string, x: string, b: string, y: string)
    requires '-' !in a && '-' !in b
    ensures a + "-" + x == b + "-" + y ==> a == b && x == y
  {
    var s, t := a + "-" + x, b + "-" + y;
    assert forall i | 0 <= i < |a| :: s[i] == a[i] && a[i] in a;
    assert forall i | 0 <= i < |b| :: t[i] == b[i] && b[i] in b;
    assert s[|a|] == '-' && t[|b|] == '-';
    assert a == s[..|a|] && b == t[..|b|] && x == s[|a| + 1..] && y == t[|b| + 1..];
    if s == t { assert |a| == |b|; }
  }

  lemma RolesHaveNoDash(role: string)
    requires role in ROLES
    ensures '-' !in role
  {
    assert '-' !in "awaiter" && '-' !in "explorer" && '-' !in "builder" && '-' !in "reviewer";
  }

  lemma NewNameIsNew(a: Agent, b: Agent, n: nat)
    requires a.roleName in ROLES && b.roleName in ROLES && HasNumber(a, n) && NamedBy(b, n)
    ensures a.instanceName != b.instanceName
  {
    var m: nat :| 1 <= m < n && NamedBy(a, m);
    RolesHaveNoDash(a.roleName);
    RolesHaveNoDash(b.roleName);
    BeforeFirstDash(a.roleName, Decimal(m), b.roleName, Decimal(n));
    if a.instanceName == b.instanceName { DecimalIsInjective(m, n); }
  }

  lemma NameAdded(agents: map<string, Agent>, next: nat, id: string, a: Agent)
    requires Named(agents, next) && id !in agents && next >= 1 && a.roleName in ROLES && NamedBy(a, next)
    ensures Named(agents[id := a], next + 1)
  {
    var after := agents[id := a];
    forall x | x in after ensures HasNumber(after[x], next + 1) {
      if x in agents {
        var n: nat :| 1 <= n < next && NamedBy(agents[x], n);
        assert NamedBy(after[x], n);
      }
    }
    forall x | x in agents ensures agents[x].instanceName != a.instanceName {
      NewNameIsNew(agents[x], a, next);
    }
  }

  lemma NameKept(agents: map<string, Agent>, next: nat, id: string)
    requires Named(agents, next) && id in agents
    ensures Named(agents[id := agents[id].(running := false)], next)
  {
    var n: nat :| 1 <= n < next && NamedBy(agents[id], n);
    assert NamedBy(agents[id].(running := false), n);
  }

  lemma LaunchIsCountedIn(s: State, id: string, parentId: string, role: string, r: string)
    requires CountedIn(s, r) && id !in s.agents
    ensures CountedIn(Launched(s, id, parentId, role), r)
  {
    assert EverIn(Launched(s, id, parentId, role), r) == EverIn(s, r) + if r == role then {id} else {};
  }

  lemma LaunchIsCounted(s: State, id: string, parentId: string, role: string)
    requires Counted(s) && id !in s.agents
    ensures Counted(Launched(s, id, parentId, role))
  {
    var after := Launched(s, id, parentId, role);
    assert after.agents.Keys == s.agents.Keys + {id} && |after.agents| == |after.agents.Keys|;
    forall r: string ensures CountedIn(after, r) { LaunchIsCountedIn(s, id, parentId, role, r); }
  }

  lemma SameAgentsSameCount(s: State, after: State)
    requires Counted(s) && after.counters == s.counters && after.nextCounter == s.nextCounter
    requires after.agents.Keys == s.agents.Keys
    requires forall id | id in s.agents :: after.agents[id].roleName == s.agents[id].roleName
    ensures Counted(after)
  {
    assert |after.agents| == |after.agents.Keys|;
    forall r: string ensures CountedIn(after, r) { assert CountedIn(s, r) && EverIn(after, r) == EverIn(s, r); }
  }

  lemma LaunchKeepsNumbers(s: State, id: string, parentId: string, role: string)
    requires Numbered(s) && id !in s.agents && role in ROLES
    ensures Numbered(Launched(s, id, parentId, role))
  {
    LaunchIsCounted(s, id, parentId, role);
    NameAdded(s.agents, s.nextCounter, id, Agent(role + "-" + Decimal(s.nextCounter), role, parentId, true));
  }

  lemma SpawnKeepsNumbers(s: State, opts: Options, op: Op)
    requires Disjoint(s) && Fresh(s, op) && Numbered(s) && op.Spawn? && Step(s, opts, op).1.Issued?
    ensures Numbered(Step(s, opts, op).0)
  {
    var spent := s.(tokens := Step(s, opts, op).0.tokens);
    SameAgentsSameCount(s, spent);
    LaunchKeepsNumbers(spent, SubjectOf(op), op.parentId, op.role);
  }

  lemma StepKeepsNumbers(s: State, opts: Options, op: Op)
    requires Disjoint(s) && Fresh(s, op) && Numbered(s)
    ensures Numbered(Step(s, opts, op).0)
  {
    if Step(s, opts, op).1.Issued? {
      match op
      case Reserve(_, _) => SameAgentsSameCount(s, Step(s, opts, op).0);
      case Spawn(_, _, _, _) => SpawnKeepsNumbers(s, opts, op);
      case Kill(id) =>
        SameAgentsSameCount(s, Step(s, opts, op).0);
        NameKept(s.agents, s.nextCounter, id);
    }
  }

  /** Over every run the agents ever launched bear distinct names, numbered in the order of their launch. */
  lemma {:induction false} NamesAreDistinct(opts: Options, ops: seq<Op>)
    requires FreshRun(EMPTY, opts, ops)
    ensures Numbered(Run(EMPTY, opts, ops))
  {
    if ops == [] {
      forall r: string ensures EverIn(EMPTY, r) == {} {
      }
    } else {
      var front, last := ops[..|ops| - 1], ops[|ops| - 1];
      NamesAreDistinct(opts, front);
      LimitsHoldOverRuns(opts, front, "");
      StepKeepsNumbers(Run(EMPTY, opts, front), opts, last);
    }
  }

  // ---------------------------------------------------------------------------
  // Where agents and tokens come from
  // ---------------------------------------------------------------------------

  /** Operation `j` of the run launched the agent: its role and parent, and the next number in its name. */
  ghost predicate LaunchedBy(opts: Options, ops: seq<Op>, j: nat, id: string, a: Agent)
    requires j < |ops|
  {
    var before := Run(EMPTY, opts, ops[..j]);
    && ops[j].Spawn? && Step(before, opts, ops[j]).1 == Issued(id) && id !in before.agents
    && a.roleName == ops[j].role && a.parentId == ops[j].parentId && NamedBy(a, |before.agents| + 1)
  }

  /** The agent was launched by one of the operations, and runs exactly if it has not been killed since. */
  ghost predicate HasHistory(opts: Options, ops: seq<Op>, id: string, a: Agent) {
    exists j :: && 0 <= j < |ops| && LaunchedBy(opts, ops, j, id, a)
                && (a.running <==> forall k | j < k < |ops| :: ops[k] != Kill(id))
  }

  lemma HistoryGoesOn(opts: Options, ops: seq<Op>, op: Op, id: string, a: Agent)
    requires HasHistory(opts, ops, id, a)
    ensures HasHistory(opts, ops + [op], id, if op == Kill(id) then a.(running := false) else a)
  {
    var j :| && 0 <= j < |ops| && LaunchedBy(opts, ops, j, id, a)
             && (a.running <==> forall k | j < k < |ops| :: ops[k] != Kill(id));
    var more, b := ops + [op], if op == Kill(id) then a.(running := false) else a;
    assert more[..j] == ops[..j] && more[j] == ops[j];
    assert LaunchedBy(opts, more, j, id, b);
    assert forall k | j < k < |ops| :: more[k] == ops[k];
    assert more[|ops|] == op;
  }

  lemma HistoryBegins(opts: Options, ops: seq<Op>, op: Op, id: string, a: Agent)
    requires LaunchedBy(opts, ops + [op], |ops|, id, a) && a.running
    ensures HasHistory(opts, ops + [op], id, a)
  {
  }

  lemma AgentsAfter(opts: Options, ops: seq<Op>, op: Op, id: string)
    requires var s := Run(EMPTY, opts, ops); Disjoint(s) && Numbered(s) && Fresh(s, op)
    requires id in Step(Run(EMPTY, opts, ops), opts, op).0.agents
    ensures var s := Run(EMPTY, opts, ops);
            var a := Step(s, opts, op).0.agents[id];
            if id in s.agents then a == (if op == Kill(id) then s.agents[id].(running := false) else s.agents[id])
            else LaunchedBy(opts, ops + [op], |ops|, id, a) && a.running
  {
    assert (ops + [op])[..|ops|] == ops;
  }

  /**
   In every reachable state each agent was launched by one spawn of the run, which gave it its role,
   its parent and the number of its launch, and it runs exactly if no kill has named it since.
   */
  lemma {:induction false} AgentsHaveHistory(opts: Options, ops: seq<Op>)
    requires FreshRun(EMPTY, opts, ops)
    ensures forall id | id in Run(EMPTY, opts, ops).agents ::
              HasHistory(opts, ops, id, Run(EMPTY, opts, ops).agents[id])
  {
    if ops == [] {
    } else {
      var front, last := ops[..|ops| - 1], ops[|ops| - 1];
      assert ops == front + [last];
      AgentsHaveHistory(opts, front);
      NamesAreDistinct(opts, front);
      LimitsHoldOverRuns(opts, front, "");
      forall id | id in Run(EMPTY, opts, ops).agents
        ensures HasHistory(opts, ops, id, Run(EMPTY, opts, ops).agents[id])
      {
        AgentsAfter(opts, front, last, id);
        if id in Run(EMPTY, opts, front).agents {
          HistoryGoesOn(opts, front, last, id, Run(EMPTY, opts, front).agents[id]);
        } else {
          HistoryBegins(opts, front, last, id, Run(EMPTY, opts, ops).agents[id]);
        }
      }
    }
  }

  /** The token was issued for its role by a reservation, and no spawn has redeemed it since. */
  ghost predicate Outstanding(opts: Options, ops: seq<Op>, id: string, role: string) {
    exists j :: && 0 <= j < |ops| && ops[j] == Reserve(role, id)
                && Step(Run(EMPTY, opts, ops[..j]), opts, ops[j]).1 == Issued(id)
                && forall k | j < k < |ops| && ops[k].Spawn? && ops[k].token == Some(id) :: ops[k].role != role
  }

  lemma TokenOneMore(opts: Options, ops: seq<Op>, op: Op, id: string, role: string)
    requires Outstanding(opts, ops, id, role) && !(op.Spawn? && op.token == Some(id) && op.role == role)
    ensures Outstanding(opts, ops + [op], id, role)
  {
    var j :| && 0 <= j < |ops| && ops[j] == Reserve(role, id)
             && Step(Run(EMPTY, opts, ops[..j]), opts, ops[j]).1 == Issued(id)
             && forall k | j < k < |ops| && ops[k].Spawn? && ops[k].token == Some(id) :: ops[k].role != role;
    var more := ops + [op];
    assert more[..j] == ops[..j] && more[j] == ops[j] && more[|ops|] == op;
    assert forall k | j < k < |ops| :: more[k] == ops[k];
  }

  lemma TokenIssued(opts: Options, ops: seq<Op>, id: string, role: string)
    requires Step(Run(EMPTY, opts, ops), opts, Reserve(role, id)).1.Issued?
    ensures Outstanding(opts, ops + [Reserve(role, id)], id, role)
  {
    var more := ops + [Reserve(role, id)];
    assert more[..|ops|] == ops && more[|ops|] == Reserve(role, id);
  }

  lemma TokensAfter(s: State, opts: Options, op: Op, id: string)
    requires Disjoint(s) && Fresh(s, op) && id in Step(s, opts, op).0.tokens
    ensures var (after, r) := Step(s, opts, op);
            if id in s.tokens then
              && after.tokens[id] == s.tokens[id]
              && !(op.Spawn? && op.token == Some(id) && op.role == s.tokens[id])
            else op == Reserve(after.tokens[id], id) && r.Issued?
  {
  }

  /** In every reachable state each token is one that was reserved for its role and not redeemed since. */
  lemma {:induction false} TokensAreOutstanding(opts: Options, ops: seq<Op>)
    requires FreshRun(EMPTY, opts, ops)
    ensures forall id | id in Run(EMPTY, opts, ops).tokens ::
              Outstanding(opts, ops, id, Run(EMPTY, opts, ops).tokens[id])
  {
    if ops == [] {
    } else {
      var front, last := ops[..|ops| - 1], ops[|ops| - 1];
      assert ops == front + [last];
      TokensAreOutstanding(opts, front);
      LimitsHoldOverRuns(opts, front, "");
      forall id | id in Run(EMPTY, opts, ops).tokens
        ensures Outstanding(opts, ops, id, Run(EMPTY, opts, ops).tokens[id])
      {
        TokensAfter(Run(EMPTY, opts, front), opts, last, id);
        if id in Run(EMPTY, opts, front).tokens {
          TokenOneMore(opts, front, last, id, Run(EMPTY, opts, front).tokens[id]);
        } else {
          TokenIssued(opts, front, id, last.role);
        }
      }
    }
  }
}
