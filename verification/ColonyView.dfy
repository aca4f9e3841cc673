/**
 The colony overview of the claims command (src/cli/commands/claims-cmd.ts:40-81): ants in flight
 from two sources, and the files more than one of them touches.
 */
module ColonyView {
  import opened Prelude

  /** `owner` is the recorded, non-empty owner; `files` are the declared files. */
  datatype Node = Node(id: string, inProgress: bool, owner: Option<string>, files: seq<string>)

  datatype Claim = Claim(agentId: string, resourceId: string, expiresAt: string)
  datatype Ant = Ant(agentId: string, taskId: string, files: seq<string>, lease: Option<string>)

  const TASK_PREFIX := "task:"

  /** The task behind a lease key; keys outside the task namespace have none. */
  function TaskOf(resourceId: string): Option<string> {
    if TASK_PREFIX <= resourceId then Some(resourceId[|TASK_PREFIX|..]) else None
  }

  /** A lease key names a task exactly if it is that task's id behind the prefix, whatever the id. */
  lemma LeaseKeyNamesTask(resourceId: string, task: string)
    ensures TaskOf(resourceId) == Some(task) <==> resourceId == "task:" + task
    ensures TaskOf(resourceId).None? <==> !exists id :: resourceId == "task:" + id
  {
    if TaskOf(resourceId).Some? { assert resourceId == "task:" + resourceId[5..]; }
  }

  function Key(agent: string, task: string): string {
    agent + "|" + task
  }

  function FilesOf(nodes: seq<Node>, task: string): seq<string> {
    if nodes == [] then [] else if nodes[0].id == task then nodes[0].files else FilesOf(nodes[1..], task)
  }

  function AddNode(view: map<string, Ant>, n: Node): map<string, Ant> {
    if n.inProgress && n.owner.Some?
    then view[Key(n.owner.value, n.id) := Ant(n.owner.value, n.id, n.files, None)] else view
  }

  function AddClaim(view: map<string, Ant>, nodes: seq<Node>, c: Claim): map<string, Ant> {
    match TaskOf(c.resourceId)
    case None => view
    case Some(task) =>
      var key := Key(c.agentId, task);
      var existing := if key in view then view[key] else Ant(c.agentId, task, FilesOf(nodes, task), None);
      view[key := existing.(lease := Some(c.expiresAt))]
  }

  function NodesView(nodes: seq<Node>): map<string, Ant> {
    if nodes == [] then map[] else AddNode(NodesView(nodes[..|nodes| - 1]), nodes[|nodes| - 1])
  }

  function FullView(nodes: seq<Node>, claims: seq<Claim>): map<string, Ant> {
    if claims == [] then NodesView(nodes)
    else AddClaim(FullView(nodes, claims[..|claims| - 1]), nodes, claims[|claims| - 1])
  }

  /** The agents whose entries list a file. */
  function AgentsOn(view: map<string, Ant>, file: string): set<string> {
    set key | key in view && file in view[key].files :: view[key].agentId
  }

  // ---------------------------------------------------------------------------
  // The loops of the source
  // ---------------------------------------------------------------------------

  function Agents(owners: map<string, set<string>>, file: string): set<string> {
    if file in owners then owners[file] else {}
  }

  /** Adds one agent to the owners of each of its files. */
  method AddFiles(owners: map<string, set<string>>, ant: Ant) returns (r: map<string, set<string>>)
    ensures forall file :: Agents(r, file) == Agents(owners, file) + if file in ant.files then {ant.agentId} else {}
  {
    r := owners;
    var i := 0;
    while i < |ant.files|
      invariant 0 <= i <= |ant.files|
      invariant forall file ::
                  Agents(r, file) == Agents(owners, file) + if file in ant.files[..i] then {ant.agentId} else {}
    {
      var file := ant.files[i];
      assert ant.files[..i + 1] == ant.files[..i] + [file];
      r := r[file := Agents(r, file) + {ant.agentId}];
      i := i + 1;
    }
    assert ant.files[..i] == ant.files;
  }

  lemma AgentsOnStep(view: map<string, Ant>, key: string, ant: Ant, file: string)
    requires key !in view
    ensures AgentsOn(view[key := ant], file) == AgentsOn(view, file) + if file in ant.files then {ant.agentId} else {}
  {
    var after := view[key := ant];
    assert after[key] == ant && forall k | k in view :: after[k] == view[k];
    forall agent | agent in AgentsOn(view, file)
      ensures agent in AgentsOn(after, file)
    {
      var k :| k in view && file in view[k].files && view[k].agentId == agent;
      assert k in after && after[k] == view[k];
    }
    if file in ant.files { assert key in after; }
  }

  method CollectOwners(view: map<string, Ant>) returns (owners: map<string, set<string>>)
    ensures forall file :: Agents(owners, file) == AgentsOn(view, file)
  {
    owners := map[];
    var todo := view.Keys;
    ghost var done: map<string, Ant> := map[];
    while todo != {}
      invariant todo <= view.Keys && done == view - todo
      invariant forall file :: Agents(owners, file) == AgentsOn(done, file)
      decreases todo
    {
      var key :| key in todo;
      ghost var before := done;
      var after := AddFiles(owners, view[key]);
      todo := todo - {key};
      done := done[key := view[key]];
      forall file ensures Agents(after, file) == AgentsOn(done, file) {
        AgentsOnStep(before, key, view[key], file);
        assert Agents(owners, file) == AgentsOn(before, file);
      }
      owners := after;
    }
    assert done == view;
  }

  /** The overview: the ants in flight, and the files with more than one agent on them. */
  method BuildColonyView(nodes: seq<Node>, claims: seq<Claim>)
    returns (colony: map<string, Ant>, overlaps: map<string, set<string>>)
    ensures colony == FullView(nodes, claims)
    ensures forall file :: file in overlaps <==> |AgentsOn(colony, file)| > 1
    ensures forall file | file in overlaps :: overlaps[file] == AgentsOn(colony, file)
  {
    var byKey: map<string, Ant> := map[];
    var i := 0;
    while i < |nodes|
      invariant 0 <= i <= |nodes| && byKey == NodesView(nodes[..i])
    {
      assert nodes[..i + 1][..i] == nodes[..i];
      byKey := AddNode(byKey, nodes[i]);
      i := i + 1;
    }
    assert nodes[..i] == nodes;
    i := 0;
    while i < |claims|
      invariant 0 <= i <= |claims| && byKey == FullView(nodes, claims[..i])
    {
      assert claims[..i + 1][..i] == claims[..i];
      byKey := AddClaim(byKey, nodes, claims[i]);
      i := i + 1;
    }
    assert claims[..i] == claims;
    colony := byKey;
    var owners := CollectOwners(colony);
    overlaps := map file | file in owners && |owners[file]| > 1 :: owners[file];
    forall file ensures file in overlaps <==> |AgentsOn(colony, file)| > 1 {
      assert Agents(owners, file) == AgentsOn(colony, file);
    }
    assert forall file | file in overlaps :: Agents(owners, file) == AgentsOn(colony, file);
  }

  // ---------------------------------------------------------------------------
  // Exactly one entry per agent and task
  // ---------------------------------------------------------------------------

  ghost predicate Owned(nodes: seq<Node>, agent: string, task: string) {
    exists n :: n in nodes && n.inProgress && n.owner == Some(agent) && n.id == task
  }

  ghost predicate Claimed(claims: seq<Claim>, agent: string, task: string) {
    exists c :: c in claims && c.agentId == agent && TaskOf(c.resourceId) == Some(task)
  }

  /** An ant in flight: the agent owns or claims the task. */
  ghost predicate InPlay(nodes: seq<Node>, claims: seq<Claim>, agent: string, task: string) {
    Owned(nodes, agent, task) || Claimed(claims, agent, task)
  }

  /** No two ants in flight join to the same key. */
  ghost predicate NoCollision(nodes: seq<Node>, claims: seq<Claim>) {
    forall a, t, a', t' | InPlay(nodes, claims, a, t) && InPlay(nodes, claims, a', t') && Key(a, t) == Key(a', t') ::
      a == a' && t == t'
  }

  /** Two ants share a key exactly when one agent's name carries on with a bar into the other's task. */
  lemma KeysCollideIff(a: string, t: string, a': string, t': string)
    requires |a| <= |a'|
    ensures Key(a, t) == Key(a', t') <==>
            (a == a' && t == t') || exists x :: a' == Key(a, x) && t == Key(x, t')
  {
    var k, k' := Key(a, t), Key(a', t');
    if k == k' {
      assert a == k[..|a|] && a' == k[..|a'|] && t == k[|a| + 1..] && t' == k[|a'| + 1..];
      if |a| < |a'| {
        var x := a'[|a| + 1..];
        assert a'[|a|] == k[|a|] == '|';
        assert a' == a'[..|a|] + [a'[|a|]] + x;
        assert a' == Key(a, x);
        assert k == Key(Key(a, x), t');
        assert t == Key(x, t');
      }
    }
    forall x | a' == Key(a, x) && t == Key(x, t') ensures k == k' {
      assert k == a + "|" + (x + "|" + t') == (a + "|" + x) + "|" + t';
    }
  }

  lemma BarsOfCollision(a: string, t: string, a': string, t': string)
    requires |a| <= |a'| && Key(a, t) == Key(a', t') && !(a == a' && t == t')
    ensures '|' in a' && '|' in t
  {
    KeysCollideIff(a, t, a', t');
    var x :| a' == Key(a, x) && t == Key(x, t');
    assert a'[|a|] == '|' && t[|x|] == '|';
  }

  /** A collision takes a bar in an agent name and a bar in a task id. */
  lemma CollisionNeedsTwoBars(nodes: seq<Node>, claims: seq<Claim>)
    ensures !NoCollision(nodes, claims) ==>
              && (exists agent, task :: InPlay(nodes, claims, agent, task) && '|' in agent)
              && (exists agent, task :: InPlay(nodes, claims, agent, task) && '|' in task)
  {
    if !NoCollision(nodes, claims) {
      var a, t, a', t' :| InPlay(nodes, claims, a, t) && InPlay(nodes, claims, a', t') && Key(a, t) == Key(a', t')
                          && !(a == a' && t == t');
      if |a| <= |a'| { BarsOfCollision(a, t, a', t'); } else { BarsOfCollision(a', t', a, t); }
    }
  }

  ghost predicate UniqueIds(nodes: seq<Node>) {
    forall i, j | 0 <= i < j < |nodes| :: nodes[i].id != nodes[j].id
  }

  lemma {:induction false} FilesOfMember(nodes: seq<Node>, n: Node)
    requires UniqueIds(nodes) && n in nodes
    ensures FilesOf(nodes, n.id) == n.files
  {
    assert nodes == [nodes[0]] + nodes[1..];
    if nodes[0] == n {
    } else {
      FilesOfMember(nodes[1..], n);
    }
  }

  /** Every entry is kept under its own key, belongs to an ant in flight, and lists the files of its task. */
  ghost predicate Sound(view: map<string, Ant>, all: seq<Node>, nodes: seq<Node>, claims: seq<Claim>) {
    forall key | key in view ::
      var ant := view[key];
      && key == Key(ant.agentId, ant.taskId) && InPlay(nodes, claims, ant.agentId, ant.taskId)
      && ant.files == FilesOf(all, ant.taskId)
  }

  ghost predicate Complete(view: map<string, Ant>, nodes: seq<Node>, claims: seq<Claim>) {
    forall agent, task | InPlay(nodes, claims, agent, task) :: Key(agent, task) in view
  }

  /** The expiry of the last claim under a key, if there is one. */
  function LeaseOf(claims: seq<Claim>, key: string): Option<string> {
    if claims == [] then None
    else
      var c := claims[|claims| - 1];
      if TaskOf(c.resourceId).Some? && Key(c.agentId, TaskOf(c.resourceId).value) == key then Some(c.expiresAt)
      else LeaseOf(claims[..|claims| - 1], key)
  }

  ghost predicate Leased(view: map<string, Ant>, claims: seq<Claim>) {
    forall key | key in view :: view[key].lease == LeaseOf(claims, key)
  }

  lemma OwnedStep(front: seq<Node>, n: Node, agent: string, task: string)
    ensures Owned(front + [n], agent, task) <==>
            Owned(front, agent, task) || (n.inProgress && n.owner == Some(agent) && n.id == task)
  {
    if Owned(front, agent, task) {
      var m :| m in front && m.inProgress && m.owner == Some(agent) && m.id == task;
      assert m in front + [n];
    }
    if n.inProgress && n.owner == Some(agent) && n.id == task { assert n in front + [n]; }
  }

  lemma ClaimedStep(front: seq<Claim>, c: Claim, agent: string, task: string)
    ensures Claimed(front + [c], agent, task) <==>
            Claimed(front, agent, task) || (c.agentId == agent && TaskOf(c.resourceId) == Some(task))
  {
    if Claimed(front, agent, task) {
      var d :| d in front && d.agentId == agent && TaskOf(d.resourceId) == Some(task);
      assert d in front + [c];
    }
    if c.agentId == agent && TaskOf(c.resourceId) == Some(task) { assert c in front + [c]; }
  }

  lemma {:induction false} NodesViewIsExact(all: seq<Node>, nodes: seq<Node>)
    requires UniqueIds(all) && forall n | n in nodes :: n in all
    ensures Sound(NodesView(nodes), all, nodes, []) && Complete(NodesView(nodes), nodes, [])
    ensures Leased(NodesView(nodes), [])
  {
    if nodes == [] {
    } else {
      var front, n := nodes[..|nodes| - 1], nodes[|nodes| - 1];
      assert nodes == front + [n];
      NodesViewIsExact(all, front);
      FilesOfMember(all, n);
      forall agent, task
        ensures Owned(nodes, agent, task) <==>
                Owned(front, agent, task) || (n.inProgress && n.owner == Some(agent) && n.id == task)
      {
        OwnedStep(front, n, agent, task);
      }
    }
  }

  lemma {:induction false} LeaseOfClaimed(claims: seq<Claim>, key: string)
    ensures LeaseOf(claims, key).Some? <==> exists a, t :: Claimed(claims, a, t) && Key(a, t) == key
  {
    if claims == [] {
    } else {
      var front, c := claims[..|claims| - 1], claims[|claims| - 1];
      assert claims == front + [c];
      LeaseOfClaimed(front, key);
      forall a, t
        ensures Claimed(claims, a, t) <==>
                Claimed(front, a, t) || (c.agentId == a && TaskOf(c.resourceId) == Some(t))
      {
        ClaimedStep(front, c, a, t);
      }
    }
  }

  lemma NoLeaseWithoutEntry(view: map<string, Ant>, nodes: seq<Node>, claims: seq<Claim>, key: string)
    requires Complete(view, nodes, claims) && key !in view
    ensures LeaseOf(claims, key).None?
  {
    LeaseOfClaimed(claims, key);
  }

  lemma ClaimAddedIsExact(view: map<string, Ant>, nodes: seq<Node>, front: seq<Claim>, c: Claim)
    requires Sound(view, nodes, nodes, front) && Complete(view, nodes, front) && Leased(view, front)
    ensures Sound(AddClaim(view, nodes, c), nodes, nodes, front + [c])
    ensures Complete(AddClaim(view, nodes, c), nodes, front + [c])
    ensures Leased(AddClaim(view, nodes, c), front + [c])
  {
    forall agent, task
      ensures Claimed(front + [c], agent, task) <==>
              Claimed(front, agent, task) || (c.agentId == agent && TaskOf(c.resourceId) == Some(task))
    {
      ClaimedStep(front, c, agent, task);
    }
    assert (front + [c])[..|front|] == front;
    if TaskOf(c.resourceId).Some? {
      var key := Key(c.agentId, TaskOf(c.resourceId).value);
      if key !in view { NoLeaseWithoutEntry(view, nodes, front, key); }
    }
  }

  /** What the view says of any input with unique node ids, colliding keys or not. */
  lemma {:induction false} ViewIsSound(nodes: seq<Node>, claims: seq<Claim>)
    requires UniqueIds(nodes)
    ensures Sound(FullView(nodes, claims), nodes, nodes, claims)
    ensures Complete(FullView(nodes, claims), nodes, claims)
    ensures Leased(FullView(nodes, claims), claims)
  {
    if claims == [] {
      NodesViewIsExact(nodes, nodes);
    } else {
      var front, c := claims[..|claims| - 1], claims[|claims| - 1];
      assert claims == front + [c];
      ViewIsSound(nodes, front);
      ClaimAddedIsExact(FullView(nodes, front), nodes, front, c);
    }
  }

  /** Each ant in flight has an entry of its own. */
  ghost predicate OwnEntries(view: map<string, Ant>, nodes: seq<Node>, claims: seq<Claim>) {
    forall agent, task | InPlay(nodes, claims, agent, task) ::
      && Key(agent, task) in view
      && view[Key(agent, task)].agentId == agent && view[Key(agent, task)].taskId == task
  }

  /**
   Every entry belongs to an ant in flight and lists its task's files. Each owned or claimed
   (agent, task) has an entry of its own exactly when no two of them share a key, and a lease is then
   shown exactly where that agent claims that task.
   */
  lemma ViewIsExact(nodes: seq<Node>, claims: seq<Claim>)
    requires UniqueIds(nodes)
    ensures var view := FullView(nodes, claims);
            && Sound(view, nodes, nodes, claims)
            && (OwnEntries(view, nodes, claims) <==> NoCollision(nodes, claims))
            && (NoCollision(nodes, claims) ==>
                  forall key | key in view ::
                    view[key].lease.Some? <==> Claimed(claims, view[key].agentId, view[key].taskId))
  {
    var view := FullView(nodes, claims);
    ViewIsSound(nodes, claims);
    if NoCollision(nodes, claims) {
      forall key | key in view
        ensures view[key].lease.Some? <==> Claimed(claims, view[key].agentId, view[key].taskId)
      {
        LeaseOfClaimed(claims, key);
      }
    }
  }

  lemma TwoRows(n1: Node, n2: Node)
    ensures FullView([n1, n2], []) == AddNode(AddNode(map[], n1), n2)
  {
    assert [n1, n2][..1] == [n1] && [n1][..0] == [];
    assert NodesView([n1]) == AddNode(map[], n1);
    assert NodesView([n1, n2]) == AddNode(NodesView([n1]), n2);
  }

  /** With a bar in an agent name two ants share a key, one of them is lost, and row order decides which. */
  lemma BarInNameLosesAnAnt()
    ensures var n1, n2 := Node("c", true, Some("a|b"), ["f"]), Node("b|c", true, Some("a"), ["g"]);
            && UniqueIds([n1, n2]) && !NoCollision([n1, n2], [])
            && |FullView([n1, n2], [])| == 1
            && AgentsOn(FullView([n1, n2], []), "f") == {}
            && AgentsOn(FullView([n2, n1], []), "f") == {"a|b"}
  {
    var n1, n2 := Node("c", true, Some("a|b"), ["f"]), Node("b|c", true, Some("a"), ["g"]);
    var ant1, ant2 := Ant("a|b", "c", ["f"], None), Ant("a", "b|c", ["g"], None);
    assert |"c"| != |"b|c"|;
    assert "f"[0] != "g"[0];
    assert Key("a|b", "c") == "a|b|c" && Key("a", "b|c") == "a|b|c";
    TwoRows(n1, n2);
    TwoRows(n2, n1);
    assert FullView([n1, n2], []) == map["a|b|c" := ant2];
    assert FullView([n2, n1], []) == map["a|b|c" := ant1];
    assert "a|b|c" in FullView([n2, n1], []);
    assert n1 in [n1, n2] && n2 in [n1, n2];
    assert InPlay([n1, n2], [], "a|b", "c") && InPlay([n1, n2], [], "a", "b|c");
  }

  // ---------------------------------------------------------------------------
  // Who survives a collision
  // ---------------------------------------------------------------------------

  predicate OwnsUnder(n: Node, key: string) {
    n.inProgress && n.owner.Some? && Key(n.owner.value, n.id) == key
  }

  predicate ClaimsUnder(c: Claim, key: string) {
    TaskOf(c.resourceId).Some? && Key(c.agentId, TaskOf(c.resourceId).value) == key
  }

  /** The last owned row under a key has the entry. */
  ghost predicate LastOwner(nodes: seq<Node>, agent: string, task: string) {
    exists i :: && 0 <= i < |nodes| && nodes[i].inProgress && nodes[i].owner == Some(agent) && nodes[i].id == task
                && forall j | i < j < |nodes| :: !OwnsUnder(nodes[j], Key(agent, task))
  }

  /** Without an owned row the first claim under the key has it. */
  ghost predicate FirstClaimant(nodes: seq<Node>, claims: seq<Claim>, agent: string, task: string) {
    && (forall n | n in nodes :: !OwnsUnder(n, Key(agent, task)))
    && exists i :: && 0 <= i < |claims| && claims[i].agentId == agent && TaskOf(claims[i].resourceId) == Some(task)
                   && forall j | 0 <= j < i :: !ClaimsUnder(claims[j], Key(agent, task))
  }

  /** The ant that the entry under its key belongs to, told by the inputs alone. */
  ghost predicate Survives(nodes: seq<Node>, claims: seq<Claim>, agent: string, task: string) {
    LastOwner(nodes, agent, task) || FirstClaimant(nodes, claims, agent, task)
  }

  /** An agent survives with a file: an entry of its own declares it. */
  ghost predicate SurvivesOn(nodes: seq<Node>, claims: seq<Claim>, agent: string, file: string) {
    exists task :: Survives(nodes, claims, agent, task) && file in FilesOf(nodes, task)
  }

  ghost predicate HasEntry(view: map<string, Ant>, agent: string, task: string) {
    Key(agent, task) in view && view[Key(agent, task)].agentId == agent && view[Key(agent, task)].taskId == task
  }

  lemma LastOwnerStep(front: seq<Node>, n: Node, agent: string, task: string)
    ensures LastOwner(front + [n], agent, task) <==>
              if OwnsUnder(n, Key(agent, task)) then n.owner == Some(agent) && n.id == task
              else LastOwner(front, agent, task)
  {
    var nodes := front + [n];
    if OwnsUnder(n, Key(agent, task)) {
      if n.owner == Some(agent) && n.id == task { assert nodes[|front|] == n; }
      if LastOwner(nodes, agent, task) {
        var i :| && 0 <= i < |nodes| && nodes[i].inProgress && nodes[i].owner == Some(agent) && nodes[i].id == task
                 && forall j | i < j < |nodes| :: !OwnsUnder(nodes[j], Key(agent, task));
        assert nodes[|front|] == n;
      }
    } else {
      if LastOwner(front, agent, task) {
        var i :| && 0 <= i < |front| && front[i].inProgress && front[i].owner == Some(agent) && front[i].id == task
                 && forall j | i < j < |front| :: !OwnsUnder(front[j], Key(agent, task));
        assert nodes[i] == front[i];
      }
      if LastOwner(nodes, agent, task) {
        var i :| && 0 <= i < |nodes| && nodes[i].inProgress && nodes[i].owner == Some(agent) && nodes[i].id == task
                 && forall j | i < j < |nodes| :: !OwnsUnder(nodes[j], Key(agent, task));
        assert front[i] == nodes[i];
        assert forall j | i < j < |front| :: front[j] == nodes[j];
      }
    }
  }

  lemma {:induction false} NodeEntries(nodes: seq<Node>, agent: string, task: string)
    ensures HasEntry(NodesView(nodes), agent, task) <==> LastOwner(nodes, agent, task)
    ensures Key(agent, task) in NodesView(nodes) <==> exists n :: n in nodes && OwnsUnder(n, Key(agent, task))
  {
    if nodes == [] {
    } else {
      var front, n := nodes[..|nodes| - 1], nodes[|nodes| - 1];
      assert nodes == front + [n];
      NodeEntries(front, agent, task);
      LastOwnerStep(front, n, agent, task);
    }
  }

  lemma FirstClaimantStep(nodes: seq<Node>, front: seq<Claim>, c: Claim, agent: string, task: string)
    requires forall n | n in nodes :: !OwnsUnder(n, Key(agent, task))
    ensures FirstClaimant(nodes, front + [c], agent, task) <==>
              || FirstClaimant(nodes, front, agent, task)
              || (c.agentId == agent && TaskOf(c.resourceId) == Some(task)
                  && forall d | d in front :: !ClaimsUnder(d, Key(agent, task)))
  {
    var claims := front + [c];
    if FirstClaimant(nodes, front, agent, task) {
      var i :| && 0 <= i < |front| && front[i].agentId == agent && TaskOf(front[i].resourceId) == Some(task)
               && forall j | 0 <= j < i :: !ClaimsUnder(front[j], Key(agent, task));
      assert claims[i] == front[i] && forall j | 0 <= j < i :: claims[j] == front[j];
    }
    if FirstClaimant(nodes, claims, agent, task) {
      var i :| && 0 <= i < |claims| && claims[i].agentId == agent && TaskOf(claims[i].resourceId) == Some(task)
               && forall j | 0 <= j < i :: !ClaimsUnder(claims[j], Key(agent, task));
      assert forall j | 0 <= j < i && j < |front| :: front[j] == claims[j];
      assert i < |front| ==> front[i] == claims[i];
    }
    if c.agentId == agent && TaskOf(c.resourceId) == Some(task)
       && forall d | d in front :: !ClaimsUnder(d, Key(agent, task)) {
      assert claims[|front|] == c && forall j | 0 <= j < |front| :: claims[j] in front;
    }
  }

  lemma {:induction false} KeyIsTaken(nodes: seq<Node>, claims: seq<Claim>, key: string)
    ensures key in FullView(nodes, claims) <==>
            key in NodesView(nodes) || exists c :: c in claims && ClaimsUnder(c, key)
  {
    if claims == [] {
    } else {
      var front, c := claims[..|claims| - 1], claims[|claims| - 1];
      KeyIsTaken(nodes, front, key);
      assert claims == front + [c];
      assert key in FullView(nodes, claims) <==> key in FullView(nodes, front) || ClaimsUnder(c, key);
      assert c in claims && forall d | d in front :: d in claims;
    }
  }

  lemma {:induction false} ClaimedEntries(nodes: seq<Node>, claims: seq<Claim>, agent: string, task: string)
    ensures HasEntry(FullView(nodes, claims), agent, task) <==> Survives(nodes, claims, agent, task)
  {
    NodeEntries(nodes, agent, task);
    if claims == [] {
    } else {
      var front, c := claims[..|claims| - 1], claims[|claims| - 1];
      assert claims == front + [c];
      ClaimedEntries(nodes, front, agent, task);
      KeyIsTaken(nodes, front, Key(agent, task));
      if forall n | n in nodes :: !OwnsUnder(n, Key(agent, task)) {
        FirstClaimantStep(nodes, front, c, agent, task);
      }
    }
  }

  /**
   For any input with unique node ids, colliding keys or not, the agents on a file are exactly those
   of the survivors whose task declares the file.
   */
  lemma AgentsOnAreSurvivors(nodes: seq<Node>, claims: seq<Claim>, file: string)
    requires UniqueIds(nodes)
    ensures forall agent :: agent in AgentsOn(FullView(nodes, claims), file) <==>
                            SurvivesOn(nodes, claims, agent, file)
  {
    var view := FullView(nodes, claims);
    ViewIsSound(nodes, claims);
    forall agent
      ensures agent in AgentsOn(view, file) <==> SurvivesOn(nodes, claims, agent, file)
    {
      if agent in AgentsOn(view, file) {
        var key :| key in view && file in view[key].files && view[key].agentId == agent;
        ClaimedEntries(nodes, claims, agent, view[key].taskId);
        assert HasEntry(view, agent, view[key].taskId);
      }
      if task :| Survives(nodes, claims, agent, task) && file in FilesOf(nodes, task) {
        ClaimedEntries(nodes, claims, agent, task);
        assert Key(agent, task) in view && file in view[Key(agent, task)].files;
      }
    }
  }

  // ---------------------------------------------------------------------------
  // Overlaps
  // ---------------------------------------------------------------------------

  /** An agent has a file in flight: it owns or claims a task that declares the file. */
  ghost predicate InFlight(nodes: seq<Node>, claims: seq<Claim>, agent: string, file: string) {
    exists task :: InPlay(nodes, claims, agent, task) && file in FilesOf(nodes, task)
  }

  lemma AgentsOnAreInFlight(nodes: seq<Node>, claims: seq<Claim>, file: string)
    requires UniqueIds(nodes)
    ensures forall agent | agent in AgentsOn(FullView(nodes, claims), file) :: InFlight(nodes, claims, agent, file)
    ensures NoCollision(nodes, claims) ==>
              forall agent | InFlight(nodes, claims, agent, file) :: agent in AgentsOn(FullView(nodes, claims), file)
  {
    ViewIsExact(nodes, claims);
    var view := FullView(nodes, claims);
    if NoCollision(nodes, claims) {
      forall agent | InFlight(nodes, claims, agent, file)
        ensures agent in AgentsOn(view, file)
      {
        var task :| InPlay(nodes, claims, agent, task) && file in FilesOf(nodes, task);
        assert view[Key(agent, task)].agentId == agent;
      }
    }
  }

  lemma TwoMembers<T>(s: set<T>)
    ensures |s| > 1 <==> exists a, b :: a in s && b in s && a != b
  {
    if |s| > 1 {
      var a :| a in s;
      assert |s - {a}| > 0;
      var b :| b in s - {a};
    }
    if a, b :| a in s && b in s && a != b {
      assert {a, b} <= s;
      assert |s - {a, b}| == |s| - 2;
    }
  }

  /**
   A file is reported exactly when two distinct agents survive with it, so a report always has two
   distinct agents with the file in flight; without colliding keys every such file is reported.
   */
  lemma OverlapIffTwoAgents(nodes: seq<Node>, claims: seq<Claim>, file: string)
    requires UniqueIds(nodes)
    ensures var reported := |AgentsOn(FullView(nodes, claims), file)| > 1;
            var shared := exists a, b :: a != b && InFlight(nodes, claims, a, file) && InFlight(nodes, claims, b, file);
            && (reported <==>
                  exists a, b :: a != b && SurvivesOn(nodes, claims, a, file) && SurvivesOn(nodes, claims, b, file))
            && (reported ==> shared) && (NoCollision(nodes, claims) ==> (reported <==> shared))
  {
    AgentsOnAreSurvivors(nodes, claims, file);
    AgentsOnAreInFlight(nodes, claims, file);
    TwoMembers(AgentsOn(FullView(nodes, claims), file));
  }

  lemma {:induction false} NoFilesWithoutNode(nodes: seq<Node>, task: string)
    requires forall n | n in nodes :: n.id != task
    ensures FilesOf(nodes, task) == []
  {
    if nodes == [] {
    } else {
      assert nodes == [nodes[0]] + nodes[1..];
      NoFilesWithoutNode(nodes[1..], task);
    }
  }

  lemma FilesOfSameMembers(nodes: seq<Node>, nodes': seq<Node>, task: string)
    requires UniqueIds(nodes) && UniqueIds(nodes') && forall n :: n in nodes <==> n in nodes'
    ensures FilesOf(nodes, task) == FilesOf(nodes', task)
  {
    if n :| n in nodes && n.id == task {
      FilesOfMember(nodes, n);
      FilesOfMember(nodes', n);
    } else {
      NoFilesWithoutNode(nodes, task);
      NoFilesWithoutNode(nodes', task);
    }
  }

  /** Without colliding keys, reordering nodes or claims changes no file's agents, and so no overlap. */
  lemma OverlapsIgnoreOrder(nodes: seq<Node>, nodes': seq<Node>, claims: seq<Claim>, claims': seq<Claim>, file: string)
    requires UniqueIds(nodes) && UniqueIds(nodes') && (forall n :: n in nodes <==> n in nodes')
    requires forall c :: c in claims <==> c in claims'
    requires NoCollision(nodes, claims)
    ensures AgentsOn(FullView(nodes, claims), file) == AgentsOn(FullView(nodes', claims'), file)
  {
    forall agent, task
      ensures InPlay(nodes, claims, agent, task) <==> InPlay(nodes', claims', agent, task)
    {
    }
    AgentsOnAreInFlight(nodes, claims, file);
    AgentsOnAreInFlight(nodes', claims', file);
    forall agent
      ensures InFlight(nodes, claims, agent, file) <==> InFlight(nodes', claims', agent, file)
    {
      forall task ensures FilesOf(nodes, task) == FilesOf(nodes', task) { FilesOfSameMembers(nodes, nodes', task); }
    }
  }
}
