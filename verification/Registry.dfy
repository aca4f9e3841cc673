/**
 The spawn registry: reserve, spawn, kill (src/schemas/agent-registry.schema.ts).
 */
module Registry {
  import opened Prelude

  datatype Agent = Agent(instanceName: string, roleName: string, parentId: string, running: bool)
  datatype Options = Options(maxSpawns: Option<int>, roleLimits: map<string, int>)
  datatype Failure = UnknownRole | LimitReached | InvalidToken | NotFound
  datatype Outcome = Issued(id: string) | Failed(error: Failure)

  /** `tokens` maps an outstanding lease token to the role it was reserved for. */
  datatype State = State(
    agents: map<string, Agent>, tokens: map<string, string>, counters: map<string, nat>, nextCounter: nat)

  const ROLES: set<string> := {"awaiter", "explorer", "builder", "reviewer"}
  const EMPTY := State(map[], map[], map[], 1)

  function Limit(opts: Options, role: string): Option<int> {
    if role in opts.roleLimits then Some(opts.roleLimits[role]) else opts.maxSpawns
  }

  /** What a limit allows: nothing when it is not positive. */
  function Room(opts: Options, role: string): nat
    requires Limit(opts, role).Some?
  {
    if Limit(opts, role).value > 0 then Limit(opts, role).value else 0
  }

  function ActiveIds(s: State, role: string): set<string> {
    set id | id in s.agents && s.agents[id].roleName == role && s.agents[id].running
  }

  function KeysWith<K, V(==)>(m: map<K, V>, v: V): set<K> {
    set k | k in m && m[k] == v
  }

  function TokenIds(s: State, role: string): set<string> {
    KeysWith(s.tokens, role)
  }

  /** Running agents plus outstanding tokens of one role. */
  function Reserved(s: State, role: string): nat {
    |ActiveIds(s, role)| + |TokenIds(s, role)|
  }

  predicate AtLimit(s: State, opts: Options, role: string) {
    Limit(opts, role).Some? && Reserved(s, role) >= Limit(opts, role).value
  }

  // ---------------------------------------------------------------------------
  // Specification of the three operations
  // ---------------------------------------------------------------------------

  datatype Op =
    | Reserve(role: string, freshId: string)
    | Spawn(parentId: string, role: string, token: Option<string>, freshId: string)
    | Kill(id: string)

  function Launched(s: State, id: string, parentId: string, role: string): State {
    s.(agents := s.agents[id := Agent(role + "-" + Decimal(s.nextCounter), role, parentId, true)],
       counters := s.counters[role := (if role in s.counters then s.counters[role] else 1) + 1],
       nextCounter := s.nextCounter + 1)
  }

  function Step(s: State, opts: Options, op: Op): (State, Outcome) {
    match op
    case Reserve(role, freshId) =>
      if role !in ROLES then (s, Failed(UnknownRole))
      else if AtLimit(s, opts, role) then (s, Failed(LimitReached))
      else (s.(tokens := s.tokens[freshId := role]), Issued(freshId))
    case Spawn(parentId, role, token, freshId) =>
      if role !in ROLES then (s, Failed(UnknownRole))
      else if token.Some? then
        if token.value !in s.tokens || s.tokens[token.value] != role then (s, Failed(InvalidToken))
        else (Launched(s.(tokens := s.tokens - {token.value}), token.value, parentId, role), Issued(token.value))
      else if AtLimit(s, opts, role) then (s, Failed(LimitReached))
      else (Launched(s, freshId, parentId, role), Issued(freshId))
    case Kill(id) =>
      if id !in s.agents then (s, Failed(NotFound))
      else (s.(agents := s.agents[id := s.agents[id].(running := false)]), Issued(id))
  }

  class AgentRoleRegistry {
    const opts: Options
    var agents: map<string, Agent>
    var tokens: map<string, string>
    var counters: map<string, nat>
    var nextCounter: nat

    constructor (opts: Options)
      ensures this.opts == opts && Current() == EMPTY
    {
      this.opts, agents, tokens, counters, nextCounter := opts, map[], map[], map[], 1;
    }

    ghost function Current(): State
      reads this
    {
      State(agents, tokens, counters, nextCounter)
    }

    /** Counts by walking all agents. */
    method CountActiveForRole(role: string) returns (count: nat)
      ensures count == |ActiveIds(Current(), role)|
    {
      count := 0;
      var todo := agents.Keys;
      ghost var counted: set<string> := {};
      while todo != {}
        invariant todo <= agents.Keys
        invariant counted == ActiveIds(Current(), role) - todo
        invariant count == |counted|
        decreases todo
      {
        var id :| id in todo;
        todo := todo - {id};
        if agents[id].roleName == role && agents[id].running {
          count := count + 1;
          counted := counted + {id};
        }
      }
      assert counted == ActiveIds(Current(), role);
    }

    /** Adds the outstanding tokens of the role to the running agents. */
    method CountReservedForRole(role: string) returns (count: nat)
      ensures count == Reserved(Current(), role)
    {
      var active := CountActiveForRole(role);
      count := active;
      var todo := tokens.Keys;
      ghost var counted: set<string> := {};
      while todo != {}
        invariant todo <= tokens.Keys
        invariant counted == TokenIds(Current(), role) - todo
        invariant count == active + |counted|
        decreases todo
      {
        var id :| id in todo;
        todo := todo - {id};
        if tokens[id] == role {
          count := count + 1;
          counted := counted + {id};
        }
      }
      assert counted == TokenIds(Current(), role);
    }

    method ReserveToken(role: string, freshId: string) returns (r: Outcome)
      modifies this
      ensures (Current(), r) == Step(old(Current()), opts, Reserve(role, freshId))
    {
      if role !in ROLES { return Failed(UnknownRole); }
      var current := CountReservedForRole(role);
      var limit := Limit(opts, role);
      if limit.Some? && current >= limit.value { return Failed(LimitReached); }
      tokens := tokens[freshId := role];
      return Issued(freshId);
    }

    method SpawnAgent(parentId: string, role: string, token: Option<string>, freshId: string) returns (r: Outcome)
      modifies this
      ensures (Current(), r) == Step(old(Current()), opts, Spawn(parentId, role, token, freshId))
    {
      if role !in ROLES { return Failed(UnknownRole); }
      var agentId := freshId;
      if token.Some? {
        if token.value !in tokens || tokens[token.value] != role { return Failed(InvalidToken); }
        agentId := token.value;
        tokens := tokens - {token.value};
      } else {
        var current := CountReservedForRole(role);
        var limit := Limit(opts, role);
        if limit.Some? && current >= limit.value { return Failed(LimitReached); }
      }
      var counter := nextCounter;
      nextCounter := nextCounter + 1;
      counters := counters[role := (if role in counters then counters[role] else 1) + 1];
      agents := agents[agentId := Agent(role + "-" + Decimal(counter), role, parentId, true)];
      return Issued(agentId);
    }

    method KillAgent(id: string) returns (r: Outcome)
      modifies this
      ensures (Current(), r) == Step(old(Current()), opts, Kill(id))
    {
      if id !in agents { return Failed(NotFound); }
      agents := agents[id := agents[id].(running := false)];
      return Issued(id);
    }
  }

  // ---------------------------------------------------------------------------
  // What every run keeps
  // ---------------------------------------------------------------------------

  ghost predicate Disjoint(s: State) {
    && s.agents.Keys !! s.tokens.Keys
    && (forall id | id in s.agents :: s.agents[id].roleName in ROLES)
    && (forall id | id in s.tokens :: s.tokens[id] in ROLES)
  }

  ghost predicate WithinLimit(s: State, opts: Options, role: string) {
    Limit(opts, role).Some? ==> Reserved(s, role) <= Room(opts, role)
  }

  /** The id factory never repeats an id that is in use; killing and redeeming a token need no new id. */
  ghost predicate Fresh(s: State, op: Op) {
    op.Reserve? || (op.Spawn? && op.token.None?) ==> op.freshId !in s.agents && op.freshId !in s.tokens
  }

  lemma KeyAdded<K, V>(m: map<K, V>, k: K, w: V, v: V)
    requires k !in m
    ensures |KeysWith(m[k := w], v)| == |KeysWith(m, v)| + if w == v then 1 else 0
  {
    assert KeysWith(m[k := w], v) == KeysWith(m, v) + if w == v then {k} else {};
  }

  lemma KeyRemoved<K, V>(m: map<K, V>, k: K, v: V)
    requires k in m
    ensures |KeysWith(m - {k}, v)| == |KeysWith(m, v)| - if m[k] == v then 1 else 0
  {
    assert KeysWith(m - {k}, v) == KeysWith(m, v) - if m[k] == v then {k} else {};
  }

  lemma UnionSize<T>(a: set<T>, b: set<T>)
    requires a !! b
    ensures |a + b| == |a| + |b|
  {
  }

  /** The keys of a map with four distinct possible values, counted value by value. */
  lemma KeysByValue<K, V>(m: map<K, V>, a: V, b: V, c: V, d: V)
    requires a != b && a != c && a != d && b != c && b != d && c != d
    requires forall k | k in m :: m[k] == a || m[k] == b || m[k] == c || m[k] == d
    ensures |m.Keys| == |KeysWith(m, a)| + |KeysWith(m, b)| + |KeysWith(m, c)| + |KeysWith(m, d)|
  {
    var x, y, z, w := KeysWith(m, a), KeysWith(m, b), KeysWith(m, c), KeysWith(m, d);
    assert m.Keys == x + y + z + w;
    UnionSize(x, y);
    UnionSize(x + y, z);
    UnionSize(x + y + z, w);
  }

  lemma RolesDiffer()
    ensures "awaiter" != "explorer" && "awaiter" != "builder" && "awaiter" != "reviewer"
    ensures "explorer" != "builder" && "explorer" != "reviewer" && "builder" != "reviewer"
  {
    assert "awaiter"[0] == 'a' && "explorer"[0] == 'e' && "builder"[0] == 'b' && "reviewer"[0] == 'r';
  }

  lemma TokenAdded(s: State, id: string, opRole: string, role: string)
    requires id !in s.tokens
    ensures Reserved(s.(tokens := s.tokens[id := opRole]), role) == Reserved(s, role) + if opRole == role then 1 else 0
  {
    assert ActiveIds(s.(tokens := s.tokens[id := opRole]), role) == ActiveIds(s, role);
    KeyAdded(s.tokens, id, opRole, role);
  }

  lemma TokenRemoved(s: State, id: string, role: string)
    requires id in s.tokens
    ensures Reserved(s.(tokens := s.tokens - {id}), role) == Reserved(s, role) - if s.tokens[id] == role then 1 else 0
  {
    assert ActiveIds(s.(tokens := s.tokens - {id}), role) == ActiveIds(s, role);
    KeyRemoved(s.tokens, id, role);
  }

  lemma AgentAdded(s: State, id: string, parentId: string, opRole: string, role: string)
    requires id !in s.agents
    ensures Reserved(Launched(s, id, parentId, opRole), role) == Reserved(s, role) + if opRole == role then 1 else 0
  {
    var after := Launched(s, id, parentId, opRole);
    assert ActiveIds(after, role) == ActiveIds(s, role) + if opRole == role then {id} else {};
    assert TokenIds(after, role) == TokenIds(s, role);
  }

  lemma AgentStopped(s: State, id: string, role: string)
    requires id in s.agents
    ensures Reserved(s.(agents := s.agents[id := s.agents[id].(running := false)]), role)
         == Reserved(s, role) - if s.agents[id].roleName == role && s.agents[id].running then 1 else 0
  {
    var after := s.(agents := s.agents[id := s.agents[id].(running := false)]);
    assert ActiveIds(after, role)
        == ActiveIds(s, role) - if s.agents[id].roleName == role && s.agents[id].running then {id} else {};
    assert TokenIds(after, role) == TokenIds(s, role);
  }

  /**
   How an operation moves the sum of one role: a reservation or a spawn without token adds one, a
   spawn that redeems a token leaves it, stopping a running agent takes one, a failure changes nothing.
   */
  lemma StepMovesSum(s: State, opts: Options, op: Op, role: string)
    requires Disjoint(s) && Fresh(s, op)
    ensures var (after, r) := Step(s, opts, op);
            Reserved(after, role) ==
              if r.Failed? then Reserved(s, role)
              else match op
                   case Reserve(opRole, _) => Reserved(s, role) + if opRole == role then 1 else 0
                   case Spawn(_, opRole, token, _) => Reserved(s, role) + if opRole == role && token.None? then 1 else 0
                   case Kill(id) =>
                     Reserved(s, role) - if s.agents[id].roleName == role && s.agents[id].running then 1 else 0
  {
    if Step(s, opts, op).1.Issued? {
      match op
      case Reserve(opRole, id) => TokenAdded(s, id, opRole, role);
      case Spawn(parentId, opRole, token, freshId) =>
        if token.Some? {
          TokenRemoved(s, token.value, role);
          AgentAdded(s.(tokens := s.tokens - {token.value}), token.value, parentId, opRole, role);
        } else {
          AgentAdded(s, freshId, parentId, opRole, role);
        }
      case Kill(id) => AgentStopped(s, id, role);
    }
  }

  lemma StepKeepsDisjoint(s: State, opts: Options, op: Op)
    requires Disjoint(s) && Fresh(s, op)
    ensures Disjoint(Step(s, opts, op).0)
  {
  }

  function Run(s: State, opts: Options, ops: seq<Op>): State {
    if ops == [] then s else Step(Run(s, opts, ops[..|ops| - 1]), opts, ops[|ops| - 1]).0
  }

  ghost predicate FreshRun(s: State, opts: Options, ops: seq<Op>) {
    ops == [] || (FreshRun(s, opts, ops[..|ops| - 1]) && Fresh(Run(s, opts, ops[..|ops| - 1]), ops[|ops| - 1]))
  }

  /** In every reachable state no role exceeds its limit and no id is both token and agent. */
  lemma {:induction false} LimitsHoldOverRuns(opts: Options, ops: seq<Op>, role: string)
    requires FreshRun(EMPTY, opts, ops)
    ensures Disjoint(Run(EMPTY, opts, ops)) && WithinLimit(Run(EMPTY, opts, ops), opts, role)
  {
    if ops == [] {
      assert ActiveIds(EMPTY, role) == {} && TokenIds(EMPTY, role) == {};
    } else {
      var front, last := ops[..|ops| - 1], ops[|ops| - 1];
      LimitsHoldOverRuns(opts, front, role);
      StepMovesSum(Run(EMPTY, opts, front), opts, last, role);
      StepKeepsDisjoint(Run(EMPTY, opts, front), opts, last);
    }
  }

  lemma {:induction false} AgentsAreNeverForgotten(s: State, opts: Options, ops: seq<Op>, id: string)
    requires id in s.agents
    ensures id in Run(s, opts, ops).agents
  {
    if ops == [] {
    } else {
      AgentsAreNeverForgotten(s, opts, ops[..|ops| - 1], id);
    }
  }

  lemma {:induction false} DisjointOverRuns(s: State, opts: Options, ops: seq<Op>)
    requires Disjoint(s) && FreshRun(s, opts, ops)
    ensures Disjoint(Run(s, opts, ops))
  {
    if ops == [] {
    } else {
      var front, last := ops[..|ops| - 1], ops[|ops| - 1];
      DisjointOverRuns(s, opts, front);
      StepKeepsDisjoint(Run(s, opts, front), opts, last);
    }
  }

  /** A token that has spawned once is refused ever after, whatever happens in between. */
  lemma TokenSpawnsOnce(s: State, opts: Options, token: string, parent: string, role: string, freshId: string,
                        ops: seq<Op>, again: Op)
    requires Disjoint(s) && Fresh(s, Spawn(parent, role, Some(token), freshId))
    requires Step(s, opts, Spawn(parent, role, Some(token), freshId)).1.Issued?
    requires FreshRun(Step(s, opts, Spawn(parent, role, Some(token), freshId)).0, opts, ops)
    requires again.Spawn? && again.token == Some(token) && again.role in ROLES
    ensures Step(Run(Step(s, opts, Spawn(parent, role, Some(token), freshId)).0, opts, ops), opts, again).1
         == Failed(InvalidToken)
  {
    var first := Step(s, opts, Spawn(parent, role, Some(token), freshId)).0;
    StepKeepsDisjoint(s, opts, Spawn(parent, role, Some(token), freshId));
    AgentsAreNeverForgotten(first, opts, ops, token);
    DisjointOverRuns(first, opts, ops);
  }

  // ---------------------------------------------------------------------------
  // The total
  // ---------------------------------------------------------------------------

  function RunningIds(s: State): set<string> {
    set id | id in s.agents && s.agents[id].running
  }

  /** Running agents and outstanding tokens of all roles together. */
  function Total(s: State): nat {
    |RunningIds(s)| + |s.tokens.Keys|
  }

  ghost function RunningRoles(s: State): map<string, string> {
    map id | id in s.agents && s.agents[id].running :: s.agents[id].roleName
  }

  lemma ActiveIdsAreKeys(s: State, role: string)
    ensures ActiveIds(s, role) == KeysWith(RunningRoles(s), role)
  {
  }

  lemma RunningByRole(s: State)
    requires Disjoint(s)
    ensures |RunningIds(s)| == |ActiveIds(s, "awaiter")| + |ActiveIds(s, "explorer")|
                               + |ActiveIds(s, "builder")| + |ActiveIds(s, "reviewer")|
  {
    RolesDiffer();
    ActiveIdsAreKeys(s, "awaiter");
    ActiveIdsAreKeys(s, "explorer");
    ActiveIdsAreKeys(s, "builder");
    ActiveIdsAreKeys(s, "reviewer");
    assert RunningRoles(s).Keys == RunningIds(s);
    KeysByValue(RunningRoles(s), "awaiter", "explorer", "builder", "reviewer");
  }

  lemma TokensByRole(s: State)
    requires Disjoint(s)
    ensures |s.tokens.Keys| == |TokenIds(s, "awaiter")| + |TokenIds(s, "explorer")|
                               + |TokenIds(s, "builder")| + |TokenIds(s, "reviewer")|
  {
    RolesDiffer();
    KeysByValue(s.tokens, "awaiter", "explorer", "builder", "reviewer");
  }

  /** The total is the sum over the four built-in roles. */
  lemma TotalIsSumOverRoles(s: State)
    requires Disjoint(s)
    ensures Total(s) == Reserved(s, "awaiter") + Reserved(s, "explorer")
                        + Reserved(s, "builder") + Reserved(s, "reviewer")
  {
    RunningByRole(s);
    TokensByRole(s);
  }

  predicate AllLimited(opts: Options) {
    Limit(opts, "awaiter").Some? && Limit(opts, "explorer").Some?
    && Limit(opts, "builder").Some? && Limit(opts, "reviewer").Some?
  }

  function SumOfLimits(opts: Options): nat
    requires AllLimited(opts)
  {
    Room(opts, "awaiter") + Room(opts, "explorer") + Room(opts, "builder") + Room(opts, "reviewer")
  }

  /** When every role is limited, the total never passes the sum of the four limits. */
  lemma TotalBound(opts: Options, ops: seq<Op>)
    requires AllLimited(opts) && FreshRun(EMPTY, opts, ops)
    ensures Total(Run(EMPTY, opts, ops)) <= SumOfLimits(opts)
  {
    LimitsHoldOverRuns(opts, ops, "awaiter");
    LimitsHoldOverRuns(opts, ops, "explorer");
    LimitsHoldOverRuns(opts, ops, "builder");
    LimitsHoldOverRuns(opts, ops, "reviewer");
    TotalIsSumOverRoles(Run(EMPTY, opts, ops));
  }

  // ---------------------------------------------------------------------------
  // Filling the roles
  // ---------------------------------------------------------------------------

  lemma RunOneMore(s: State, opts: Options, ops: seq<Op>, op: Op)
    ensures Run(s, opts, ops + [op]) == Step(Run(s, opts, ops), opts, op).0
    ensures FreshRun(s, opts, ops + [op]) <==> FreshRun(s, opts, ops) && Fresh(Run(s, opts, ops), op)
  {
    assert (ops + [op])[..|ops|] == ops;
  }

  /** A state reached by reservations alone, all their ids shorter than `bound`. */
  ghost predicate OnlyReserved(opts: Options, ops: seq<Op>, bound: nat) {
    FreshRun(EMPTY, opts, ops) && var s := Run(EMPTY, opts, ops);
    Disjoint(s) && s.agents == map[] && forall id | id in s.tokens :: |id| < bound
  }

  /** The role can take `n` more. */
  predicate HasRoom(opts: Options, reserved: nat, role: string, n: nat) {
    Limit(opts, role).Some? ==> reserved + n <= Room(opts, role)
  }

  lemma ReserveOnce(opts: Options, ops: seq<Op>, role: string, id: string)
    requires OnlyReserved(opts, ops, |id|) && role in ROLES
    requires HasRoom(opts, Reserved(Run(EMPTY, opts, ops), role), role, 1)
    ensures var more := ops + [Reserve(role, id)];
            && OnlyReserved(opts, more, |id| + 1)
            && forall r :: Reserved(Run(EMPTY, opts, more), r)
                           == Reserved(Run(EMPTY, opts, ops), r) + if r == role then 1 else 0
  {
    var s := Run(EMPTY, opts, ops);
    RunOneMore(EMPTY, opts, ops, Reserve(role, id));
    forall r ensures Reserved(s.(tokens := s.tokens[id := role]), r) == Reserved(s, r) + if r == role then 1 else 0 {
      TokenAdded(s, id, role, r);
    }
  }

  lemma AString(n: nat) returns (id: string)
    ensures |id| == n
  {
    id := seq(n, _ => 'x');
  }

  /** `n` reservations in a row for a role that has the room. */
  lemma {:induction false} Fill(opts: Options, ops: seq<Op>, bound: nat, role: string, n: nat)
    returns (more: seq<Op>, bound': nat)
    requires OnlyReserved(opts, ops, bound) && role in ROLES
    requires HasRoom(opts, Reserved(Run(EMPTY, opts, ops), role), role, n)
    ensures OnlyReserved(opts, more, bound')
    ensures forall r :: Reserved(Run(EMPTY, opts, more), r)
                        == Reserved(Run(EMPTY, opts, ops), r) + if r == role then n else 0
    decreases n
  {
    more, bound' := ops, bound;
    if n == 0 {
    } else {
      var id := AString(bound);
      ReserveOnce(opts, ops, role, id);
      more, bound' := Fill(opts, ops + [Reserve(role, id)], bound + 1, role, n - 1);
    }
  }

  lemma FillHalf(opts: Options, a: nat, e: nat) returns (ops: seq<Op>, bound: nat)
    requires HasRoom(opts, 0, "awaiter", a) && HasRoom(opts, 0, "explorer", e)
    ensures OnlyReserved(opts, ops, bound)
    ensures var s := Run(EMPTY, opts, ops);
            && Reserved(s, "awaiter") == a && Reserved(s, "explorer") == e
            && Reserved(s, "builder") == 0 && Reserved(s, "reviewer") == 0
  {
    RolesDiffer();
    assert forall role :: ActiveIds(EMPTY, role) == {} && TokenIds(EMPTY, role) == {};
    ops, bound := Fill(opts, [], 0, "awaiter", a);
    ops, bound := Fill(opts, ops, bound, "explorer", e);
  }

  /** Any number of reservations per role that its limit allows is reached by some run. */
  lemma LimitsAreAttained(opts: Options, a: nat, e: nat, b: nat, r: nat) returns (ops: seq<Op>)
    requires HasRoom(opts, 0, "awaiter", a) && HasRoom(opts, 0, "explorer", e)
    requires HasRoom(opts, 0, "builder", b) && HasRoom(opts, 0, "reviewer", r)
    ensures FreshRun(EMPTY, opts, ops) && Total(Run(EMPTY, opts, ops)) == a + e + b + r
    ensures var s := Run(EMPTY, opts, ops);
            && Reserved(s, "awaiter") == a && Reserved(s, "explorer") == e
            && Reserved(s, "builder") == b && Reserved(s, "reviewer") == r
  {
    RolesDiffer();
    var half, bound := FillHalf(opts, a, e);
    ops, bound := Fill(opts, half, bound, "builder", b);
    ops, bound := Fill(opts, ops, bound, "reviewer", r);
    TotalIsSumOverRoles(Run(EMPTY, opts, ops));
  }

  /** How far a role can be filled, up to `most`. */
  function Filled(opts: Options, role: string, most: nat): nat {
    if Limit(opts, role).Some? && Room(opts, role) < most then Room(opts, role) else most
  }

  /**
   A global cap on running agents and outstanding tokens holds over all runs exactly when every role
   is limited and the four limits together stay within the cap.
   */
  lemma GlobalCapIff(opts: Options, m: nat)
    ensures (forall ops | FreshRun(EMPTY, opts, ops) :: Total(Run(EMPTY, opts, ops)) <= m) <==>
            AllLimited(opts) && SumOfLimits(opts) <= m
  {
    if AllLimited(opts) && SumOfLimits(opts) <= m {
      forall ops | FreshRun(EMPTY, opts, ops) ensures Total(Run(EMPTY, opts, ops)) <= m {
        TotalBound(opts, ops);
      }
    } else {
      var ops := LimitsAreAttained(opts, Filled(opts, "awaiter", m + 1), Filled(opts, "explorer", m + 1),
                                   Filled(opts, "builder", m + 1), Filled(opts, "reviewer", m + 1));
      assert Total(Run(EMPTY, opts, ops)) > m;
    }
  }

  /** With `maxSpawns` alone, that number is a global cap only if it is zero. */
  lemma MaxSpawnsIsGlobalIff(m: nat)
    ensures (forall ops | FreshRun(EMPTY, Options(Some(m), map[]), ops) ::
               Total(Run(EMPTY, Options(Some(m), map[]), ops)) <= m) <==> m == 0
  {
    GlobalCapIff(Options(Some(m), map[]), m);
  }

  // ---------------------------------------------------------------------------
  // When each operation succeeds, and what it does then
  // ---------------------------------------------------------------------------

  /** Running agents of the role and tokens outstanding for it. */
  ghost function Holders(s: State, role: string): set<string> {
    (set id | id in s.agents && s.agents[id].running && s.agents[id].roleName == role)
    + (set id | id in s.tokens && s.tokens[id] == role)
  }

  /** A built-in role with room: under its own limit if it has one, else under `maxSpawns` if that is set. */
  ghost predicate Open(s: State, opts: Options, role: string) {
    && role in {"awaiter", "explorer", "builder", "reviewer"}
    && (role in opts.roleLimits ==> |Holders(s, role)| < opts.roleLimits[role])
    && (role !in opts.roleLimits && opts.maxSpawns.Some? ==> |Holders(s, role)| < opts.maxSpawns.value)
  }

  lemma HoldersAreReserved(s: State, role: string)
    requires s.agents.Keys !! s.tokens.Keys
    ensures |Holders(s, role)| == Reserved(s, role)
  {
    UnionSize(ActiveIds(s, role), TokenIds(s, role));
    assert Holders(s, role) == ActiveIds(s, role) + TokenIds(s, role);
  }

  lemma OpenIffBelowLimit(s: State, opts: Options, role: string)
    requires s.agents.Keys !! s.tokens.Keys
    ensures Open(s, opts, role) <==> role in ROLES && !AtLimit(s, opts, role)
  {
    HoldersAreReserved(s, role);
  }

  /**
   A token is issued, and an agent without a token launched, exactly when the role is built in and has
   room; a token is redeemed exactly when it is outstanding for that role; a kill succeeds exactly on a
   known id. What fails changes nothing.
   */
  lemma OperationsSucceedIff(s: State, opts: Options, op: Op)
    requires Disjoint(s)
    ensures var (after, r) := Step(s, opts, op);
            && (r.Failed? ==> after == s)
            && (r.Issued? <==>
                  match op
                  case Reserve(role, _) => Open(s, opts, role)
                  case Spawn(_, role, None, _) => Open(s, opts, role)
                  case Spawn(_, role, Some(token), _) => token in s.tokens && s.tokens[token] == role
                  case Kill(id) => id in s.agents)
            && (r.Failed? ==>
                  r.error == match op
                             case Kill(_) => NotFound
                             case Spawn(_, role, Some(_), _) => if role in ROLES then InvalidToken else UnknownRole
                             case _ => if op.role in ROLES then LimitReached else UnknownRole)
  {
    match op
    case Reserve(role, _) => OpenIffBelowLimit(s, opts, role);
    case Spawn(_, role, _, _) => OpenIffBelowLimit(s, opts, role);
    case Kill(_) =>
  }
}
