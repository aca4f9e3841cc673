/**
 Permission profiles and their `extends` inheritance (src/schemas/permissions-profile.schema.ts).
 */
module Permissions {
  import opened Prelude
  import opened Chains

  datatype Access = Read | Write | Deny
  datatype FsPath = PathAt(path: string) | Glob(pattern: string) | Special(value: string)

  /**
   The three shapes an entry can have: `path` is a string (a bare `Path` object also has one, and
   no access), `path` is an object, or there is no `path` at all (a bare glob or special path).
   */
  datatype Entry =
    | Named(path: string, access: Option<Access>)
    | Located(at: FsPath, access: Option<Access>)
    | Bare(at: FsPath)

  datatype Kind = Restricted | Unrestricted | ExternalSandbox
  datatype Network = Network(enabled: bool, domains: map<string, bool>, sockets: map<string, bool>)

  datatype Profile = Profile(
    ext: Option<string>, kind: Kind, entries: seq<Entry>, network: Network,
    workspaceRoots: Option<seq<(string, Access)>>, description: Option<string>)

  const CLOSED_NETWORK := Network(false, map[], map[])

  const READ_ONLY := Profile(
    None, Restricted, [Named("/", Some(Read)), Named("/tmp", Some(Write))], CLOSED_NETWORK, Some([]),
    Some("Read-only access to the filesystem with write to /tmp"))

  const WORKSPACE := Profile(
    None, Restricted, [Named(":workspace_roots", Some(Write))], CLOSED_NETWORK, Some([]),
    Some("Read-write access to workspace roots with restricted network"))

  const DANGER_FULL_ACCESS := Profile(
    None, Unrestricted, [], Network(true, map[], map[]), Some([]),
    Some("Full filesystem and network access (dangerous)"))

  function BuiltIn(name: string): Option<Profile> {
    if name == ":read-only" then Some(READ_ONLY)
    else if name == ":workspace" then Some(WORKSPACE)
    else if name == ":danger-full-access" then Some(DANGER_FULL_ACCESS)
    else None
  }

  type Profiles = map<string, Profile>

  /** An empty `extends` counts as none. */
  predicate HasParent(p: Profile) {
    p.ext.Some? && p.ext.value != ""
  }

  // ---------------------------------------------------------------------------
  // Materialising entries
  // ---------------------------------------------------------------------------

  /** Position of the first slash, or the length when there is none. */
  function SlashAt(path: string): (i: nat)
    ensures i <= |path|
  {
    if path == "" || path[0] == '/' then 0 else 1 + SlashAt(path[1..])
  }

  /** The first workspace root; without any the source prints the word for a missing value. */
  function FirstRoot(roots: seq<string>): string {
    if roots == [] then "undefined" else roots[0]
  }

  function MaterializeEntry(e: Entry, roots: seq<string>): Entry {
    match e
    case Named(path, access) =>
      if path[..SlashAt(path)] == ":workspace_roots"
      then Located(PathAt(FirstRoot(roots) + path[SlashAt(path)..]), access)
      else Located(PathAt(path), access)
    case _ => e
  }

  function Materialized(es: seq<Entry>, roots: seq<string>): seq<Entry> {
    if es == [] then [] else [MaterializeEntry(es[0], roots)] + Materialized(es[1..], roots)
  }

  function MaterializeProfile(p: Profile, roots: seq<string>): Profile {
    p.(entries := Materialized(p.entries, roots))
  }

  /** An extending profile gives its bare patterns write access. */
  function WrapEntry(e: Entry): Entry {
    match e
    case Bare(at) => Located(at, Some(Write))
    case _ => e
  }

  function Wrapped(es: seq<Entry>): seq<Entry> {
    if es == [] then [] else [WrapEntry(es[0])] + Wrapped(es[1..])
  }

  lemma {:induction false} MaterializedConcat(a: seq<Entry>, b: seq<Entry>, roots: seq<string>)
    ensures Materialized(a + b, roots) == Materialized(a, roots) + Materialized(b, roots)
  {
    if a == [] {
      assert a + b == b;
    } else {
      assert (a + b)[1..] == a[1..] + b;
      MaterializedConcat(a[1..], b, roots);
    }
  }

  /** Materialising a second time, with whatever roots, changes nothing. */
  lemma {:induction false} MaterializedTwice(es: seq<Entry>, roots: seq<string>, other: seq<string>)
    ensures Materialized(Materialized(es, roots), other) == Materialized(es, roots)
  {
    if es == [] {
    } else {
      MaterializedTwice(es[1..], roots, other);
    }
  }

  // ---------------------------------------------------------------------------
  // Resolution
  // ---------------------------------------------------------------------------

  function OrElse<T>(a: Option<T>, b: Option<T>): Option<T> {
    if a.Some? then a else b
  }

  /** The child laid over its resolved parent. */
  function Inherit(parent: Profile, custom: Profile): Profile {
    Profile(parent.ext, custom.kind, parent.entries + Wrapped(custom.entries), custom.network,
            OrElse(custom.workspaceRoots, parent.workspaceRoots), OrElse(custom.description, parent.description))
  }

  /** The recursive resolver with a call stack of `depth` frames; None is a stack overflow. */
  function Resolve(name: string, profiles: Profiles, roots: seq<string>, depth: nat): Option<Profile>
    decreases depth
  {
    if depth == 0 then None
    else if BuiltIn(name).Some? then Some(MaterializeProfile(BuiltIn(name).value, roots))
    else if name !in profiles then Some(READ_ONLY)
    else if HasParent(profiles[name]) then
      match Resolve(profiles[name].ext.value, profiles, roots, depth - 1)
      case None => None
      case Some(parent) => Some(MaterializeProfile(Inherit(parent, profiles[name]), roots))
    else Some(MaterializeProfile(profiles[name], roots))
  }

  function ParentOf(profiles: Profiles): Link {
    name =>
      if BuiltIn(name).None? && name in profiles && HasParent(profiles[name]) then profiles[name].ext else None
  }

  lemma RootEnds(next: Link, name: string)
    requires next(name).None?
    ensures Walk(next, name, 1).None?
  {
    assert Walk(next, name, 0) == Some(name);
  }

  lemma ResolveStep(name: string, profiles: Profiles, roots: seq<string>, depth: nat)
    requires depth > 0
    ensures Resolve(name, profiles, roots, depth).Some? <==>
            match ParentOf(profiles)(name)
            case None => true
            case Some(up) => Resolve(up, profiles, roots, depth - 1).Some?
  {
  }

  lemma {:induction false} ResolveNeedsTheWalk(name: string, profiles: Profiles, roots: seq<string>, depth: nat)
    ensures Resolve(name, profiles, roots, depth).Some? <==> Walk(ParentOf(profiles), name, depth).None?
    decreases depth
  {
    var next := ParentOf(profiles);
    if depth == 0 {
    } else {
      ResolveStep(name, profiles, roots, depth);
      if next(name).Some? {
        WalkShift(next, name, depth - 1);
        ResolveNeedsTheWalk(next(name).value, profiles, roots, depth - 1);
      } else {
        RootEnds(next, name);
        EndPersists(next, name, 1, depth);
      }
    }
  }

  /** Some stack suffices exactly when `extends` does not cycle, and then one frame per profile and one more does. */
  lemma ResolveTerminatesIffAcyclic(name: string, profiles: Profiles, roots: seq<string>)
    ensures (exists depth :: Resolve(name, profiles, roots, depth).Some?) <==> !Cycles(ParentOf(profiles), name)
    ensures !Cycles(ParentOf(profiles), name) ==> Resolve(name, profiles, roots, |profiles.Keys| + 1).Some?
  {
    var next := ParentOf(profiles);
    EndsIffNoCycle(next, name, profiles.Keys);
    if !Cycles(next, name) {
      AcyclicWalkIsShort(next, name, profiles.Keys);
      ResolveNeedsTheWalk(name, profiles, roots, |profiles.Keys| + 1);
    } else if depth: nat :| Resolve(name, profiles, roots, depth).Some? {
      ResolveNeedsTheWalk(name, profiles, roots, depth);
    }
  }

  // ---------------------------------------------------------------------------
  // What the resolved profile contains
  // ---------------------------------------------------------------------------

  /** The names from the leaf up to the root of the walk. */
  ghost function Lineage(profiles: Profiles, name: string, depth: nat): seq<string>
    decreases depth
  {
    if depth == 0 then []
    else [name] + match ParentOf(profiles)(name)
                  case None => []
                  case Some(up) => Lineage(profiles, up, depth - 1)
  }

  /** The profile a root name stands for. */
  function RootProfile(name: string, profiles: Profiles): Profile {
    if BuiltIn(name).Some? then BuiltIn(name).value else if name in profiles then profiles[name] else READ_ONLY
  }

  function OwnProfile(name: string, profiles: Profiles): Profile {
    if name in profiles then profiles[name] else READ_ONLY
  }

  /** Root entries first, then each descendant's wrapped entries, every one materialised once. */
  ghost function RootToLeaf(lineage: seq<string>, profiles: Profiles, roots: seq<string>): seq<Entry> {
    if lineage == [] then []
    else if |lineage| == 1 then Materialized(RootProfile(lineage[0], profiles).entries, roots)
    else
      RootToLeaf(lineage[1..], profiles, roots)
      + Materialized(Wrapped(OwnProfile(lineage[0], profiles).entries), roots)
  }

  /** The nearest ancestor that says something. */
  ghost function Nearest<T>(lineage: seq<string>, profiles: Profiles, field: Profile -> Option<T>): Option<T> {
    if lineage == [] then None
    else if |lineage| == 1 then field(RootProfile(lineage[0], profiles))
    else
      match field(OwnProfile(lineage[0], profiles))
      case Some(value) => Some(value)
      case None => Nearest(lineage[1..], profiles, field)
  }

  predicate Known(name: string, profiles: Profiles) {
    BuiltIn(name).Some? || name in profiles
  }

  function DescriptionOf(p: Profile): Option<string> { p.description }
  function RootsOf(p: Profile): Option<seq<(string, Access)>> { p.workspaceRoots }

  lemma {:induction false} LineageStep(profiles: Profiles, name: string, depth: nat)
    requires depth > 0
    ensures var lineage := Lineage(profiles, name, depth);
            && lineage != [] && lineage[0] == name
            && lineage[1..] == match ParentOf(profiles)(name)
                               case None => []
                               case Some(up) => Lineage(profiles, up, depth - 1)
  {
  }

  /** The entries of an extending profile: the parent's, then its own, all materialised. */
  lemma EntriesStep(name: string, profiles: Profiles, roots: seq<string>, depth: nat)
    requires Resolve(name, profiles, roots, depth).Some? && ParentOf(profiles)(name).Some?
    ensures depth > 0 && Known(name, profiles) && name in profiles
    ensures var parent := Resolve(ParentOf(profiles)(name).value, profiles, roots, depth - 1);
            && parent.Some?
            && Resolve(name, profiles, roots, depth).value.entries
               == Materialized(parent.value.entries, roots) + Materialized(Wrapped(profiles[name].entries), roots)
  {
    var parent := Resolve(ParentOf(profiles)(name).value, profiles, roots, depth - 1);
    MaterializedConcat(parent.value.entries, Wrapped(profiles[name].entries), roots);
  }

  lemma RootToLeafStep(lineage: seq<string>, profiles: Profiles, roots: seq<string>)
    requires |lineage| > 1
    ensures RootToLeaf(lineage, profiles, roots)
         == RootToLeaf(lineage[1..], profiles, roots)
            + Materialized(Wrapped(OwnProfile(lineage[0], profiles).entries), roots)
  {
  }

  lemma EntriesAtRoot(name: string, profiles: Profiles, roots: seq<string>, depth: nat)
    requires Resolve(name, profiles, roots, depth).Some? && ParentOf(profiles)(name).None?
    ensures Lineage(profiles, name, depth) == [name]
    ensures Resolve(name, profiles, roots, depth).value.entries
         == if Known(name, profiles) then Materialized(RootProfile(name, profiles).entries, roots)
            else READ_ONLY.entries
    ensures RootToLeaf([name], profiles, roots) == Materialized(RootProfile(name, profiles).entries, roots)
    ensures !Known(name, profiles) ==> RootProfile(name, profiles) == READ_ONLY
  {
  }

  lemma {:induction false} ResolvedEntriesAreFixed(
    name: string, profiles: Profiles, roots: seq<string>, depth: nat, other: seq<string>)
    requires Known(name, profiles) && Resolve(name, profiles, roots, depth).Some?
    ensures var es := Resolve(name, profiles, roots, depth).value.entries; Materialized(es, other) == es
  {
    if BuiltIn(name).Some? {
      MaterializedTwice(BuiltIn(name).value.entries, roots, other);
    } else if HasParent(profiles[name]) {
      var parent := Resolve(profiles[name].ext.value, profiles, roots, depth - 1).value;
      MaterializedTwice(Inherit(parent, profiles[name]).entries, roots, other);
    } else {
      MaterializedTwice(profiles[name].entries, roots, other);
    }
  }

  /** Materialising the resolved entries gives the root-to-leaf concatenation, for known and unknown names alike. */
  lemma {:induction false} EntriesFlatten(name: string, profiles: Profiles, roots: seq<string>, depth: nat)
    requires Resolve(name, profiles, roots, depth).Some?
    ensures var es := Resolve(name, profiles, roots, depth).value.entries;
            var flat := RootToLeaf(Lineage(profiles, name, depth), profiles, roots);
            && Materialized(es, roots) == flat
            && (if Known(name, profiles) then es == flat else es == READ_ONLY.entries)
    decreases depth
  {
    if Known(name, profiles) { ResolvedEntriesAreFixed(name, profiles, roots, depth, roots); }
    if ParentOf(profiles)(name).None? {
      EntriesAtRoot(name, profiles, roots, depth);
    } else {
      var up := ParentOf(profiles)(name).value;
      LineageStep(profiles, name, depth);
      LineageStep(profiles, up, depth - 1);
      EntriesStep(name, profiles, roots, depth);
      EntriesFlatten(up, profiles, roots, depth - 1);
      RootToLeafStep(Lineage(profiles, name, depth), profiles, roots);
    }
  }

  lemma {:induction false} FieldsComeFromLineage(name: string, profiles: Profiles, roots: seq<string>, depth: nat)
    requires Resolve(name, profiles, roots, depth).Some?
    ensures var p := Resolve(name, profiles, roots, depth).value;
            && p.kind == RootProfile(name, profiles).kind
            && p.network == RootProfile(name, profiles).network
            && p.description == Nearest(Lineage(profiles, name, depth), profiles, DescriptionOf)
            && p.workspaceRoots == Nearest(Lineage(profiles, name, depth), profiles, RootsOf)
    decreases depth
  {
    LineageStep(profiles, name, depth);
    if ParentOf(profiles)(name).None? {
    } else {
      var up := ParentOf(profiles)(name).value;
      FieldsComeFromLineage(up, profiles, roots, depth - 1);
      LineageStep(profiles, up, depth - 1);
    }
  }

  /**
   A resolved profile holds the root-to-leaf concatenation of its lineage, takes kind and network
   from the leaf, and description and workspace roots from the nearest profile that has them. Only
   an unknown name resolved on its own keeps the raw entries of the read-only profile.
   */
  lemma ResolveFlattens(name: string, profiles: Profiles, roots: seq<string>, depth: nat)
    requires Resolve(name, profiles, roots, depth).Some?
    ensures var p := Resolve(name, profiles, roots, depth).value;
            var lineage := Lineage(profiles, name, depth);
            && lineage != [] && lineage[0] == name
            && p.entries == (if Known(name, profiles) then RootToLeaf(lineage, profiles, roots) else READ_ONLY.entries)
            && p.kind == RootProfile(name, profiles).kind
            && p.network == RootProfile(name, profiles).network
            && p.description == Nearest(lineage, profiles, DescriptionOf)
            && p.workspaceRoots == Nearest(lineage, profiles, RootsOf)
  {
    LineageStep(profiles, name, depth);
    EntriesFlatten(name, profiles, roots, depth);
    FieldsComeFromLineage(name, profiles, roots, depth);
  }

  lemma ResolvedIsFixed(name: string, profiles: Profiles, roots: seq<string>, depth: nat, other: seq<string>)
    requires Known(name, profiles) && Resolve(name, profiles, roots, depth).Some?
    ensures var p := Resolve(name, profiles, roots, depth).value; MaterializeProfile(p, other) == p
  {
    ResolvedEntriesAreFixed(name, profiles, roots, depth, other);
  }

  /** The sandbox policy: the materialised file system part of a profile. */
  function CompileProfile(p: Profile, roots: seq<string>): (Kind, seq<Entry>) {
    (p.kind, MaterializeProfile(p, roots).entries)
  }

  /** Compiling a resolved profile, with any roots, hands out its entries unchanged iff the name was known. */
  lemma CompileKeepsResolvedIffKnown(
    name: string, profiles: Profiles, roots: seq<string>, depth: nat, other: seq<string>)
    requires Resolve(name, profiles, roots, depth).Some?
    ensures var p := Resolve(name, profiles, roots, depth).value;
            CompileProfile(p, other) == (p.kind, p.entries) <==> Known(name, profiles)
  {
    if Known(name, profiles) {
      ResolvedIsFixed(name, profiles, roots, depth, other);
    } else {
      var es := READ_ONLY.entries;
      assert Materialized(es, other)[0] == MaterializeEntry(es[0], other);
      assert es[0].Named?;
    }
  }

  // ---------------------------------------------------------------------------
  // The validator and the cycle check
  // ---------------------------------------------------------------------------

  predicate Terminal(name: string, profiles: Profiles) {
    BuiltIn(name).Some? || (name in profiles && !HasParent(profiles[name]))
  }

  /** The walk reaches a built-in or a profile that extends nothing. */
  ghost predicate ValidWalk(name: string, profiles: Profiles) {
    exists n: nat ::
      Walk(ParentOf(profiles), name, n).Some? && Terminal(Walk(ParentOf(profiles), name, n).value, profiles)
  }

  ghost predicate DanglingWalk(name: string, profiles: Profiles) {
    exists n: nat ::
      Walk(ParentOf(profiles), name, n).Some? && !Known(Walk(ParentOf(profiles), name, n).value, profiles)
  }

  lemma NoLaterStop(next: Link, name: string, n: nat, m: nat)
    requires Walk(next, name, n).Some? && next(Walk(next, name, n).value).None? && n <= m
    requires Walk(next, name, m).Some?
    ensures n == m
  {
    assert Walk(next, name, n + 1).None?;
    if n < m { EndPersists(next, name, n + 1, m); }
  }

  lemma LastStop(next: Link, name: string, n: nat, m: nat)
    requires Walk(next, name, n).Some? && next(Walk(next, name, n).value).None?
    requires Walk(next, name, m).Some? && next(Walk(next, name, m).value).None?
    ensures n == m
  {
    if n <= m { NoLaterStop(next, name, n, m); } else { NoLaterStop(next, name, m, n); }
  }

  lemma StopRulesOutCycle(next: Link, name: string, n: nat)
    requires Walk(next, name, n).Some? && next(Walk(next, name, n).value).None?
    ensures !Cycles(next, name)
  {
    assert Walk(next, name, n + 1).None?;
    if Cycles(next, name) {
      var i: nat, j: nat :| i < j && Walk(next, name, i).Some? && Walk(next, name, i) == Walk(next, name, j);
      CycleNeverEnds(next, name, i, j, n + 1);
    }
  }

  lemma {:induction false} FindStop(next: Link, name: string, n: nat) returns (m: nat)
    requires Walk(next, name, n).None?
    ensures m < n && Walk(next, name, m).Some? && next(Walk(next, name, m).value).None?
  {
    if Walk(next, name, n - 1).None? { m := FindStop(next, name, n - 1); } else { m := n - 1; }
  }

  /** Every name is exactly one of: valid, dangling, cyclic. Resolution gives up only on the last. */
  lemma ThreeFatesOfAWalk(name: string, profiles: Profiles)
    ensures ValidWalk(name, profiles) ==> !DanglingWalk(name, profiles) && !Cycles(ParentOf(profiles), name)
    ensures DanglingWalk(name, profiles) ==> !Cycles(ParentOf(profiles), name)
    ensures ValidWalk(name, profiles) || DanglingWalk(name, profiles) || Cycles(ParentOf(profiles), name)
  {
    var next := ParentOf(profiles);
    if ValidWalk(name, profiles) {
      var n: nat :| Walk(next, name, n).Some? && Terminal(Walk(next, name, n).value, profiles);
      StopRulesOutCycle(next, name, n);
      if DanglingWalk(name, profiles) {
        var m: nat :| Walk(next, name, m).Some? && !Known(Walk(next, name, m).value, profiles);
        LastStop(next, name, n, m);
      }
    }
    if DanglingWalk(name, profiles) {
      var m: nat :| Walk(next, name, m).Some? && !Known(Walk(next, name, m).value, profiles);
      StopRulesOutCycle(next, name, m);
    }
    if !Cycles(next, name) {
      AcyclicWalkIsShort(next, name, profiles.Keys);
      var m := FindStop(next, name, |profiles.Keys| + 1);
    }
  }

  lemma TerminalIsValid(name: string, profiles: Profiles, n: nat)
    requires Walk(ParentOf(profiles), name, n).Some? && Terminal(Walk(ParentOf(profiles), name, n).value, profiles)
    ensures ValidWalk(name, profiles)
  {
  }

  lemma UnknownIsNotValid(name: string, profiles: Profiles, n: nat)
    requires Walk(ParentOf(profiles), name, n).Some? && !Known(Walk(ParentOf(profiles), name, n).value, profiles)
    ensures !ValidWalk(name, profiles)
  {
    assert DanglingWalk(name, profiles);
    ThreeFatesOfAWalk(name, profiles);
  }

  lemma RepeatIsNotValid(name: string, profiles: Profiles, n: nat)
    requires Walk(ParentOf(profiles), name, n).Some?
    requires Walk(ParentOf(profiles), name, n).value in Visited(ParentOf(profiles), name, n)
    ensures !ValidWalk(name, profiles)
  {
    var next := ParentOf(profiles);
    var k := VisitedMember(next, name, n, Walk(next, name, n).value);
    assert Cycles(next, name);
    ThreeFatesOfAWalk(name, profiles);
  }

  lemma FewerLeft<T>(all: set<T>, seen: set<T>, x: T)
    requires x in all && x !in seen
    ensures |all - (seen + {x})| < |all - seen|
  {
    assert all - (seen + {x}) == (all - seen) - {x};
  }

  /** One more link of the validator's walk. */
  lemma ValidatorStep(name: string, profiles: Profiles, n: nat, current: string)
    requires Walk(ParentOf(profiles), name, n) == Some(current)
    requires current in profiles && BuiltIn(current).None? && HasParent(profiles[current])
    ensures Walk(ParentOf(profiles), name, n + 1) == profiles[current].ext
    ensures Visited(ParentOf(profiles), name, n + 2)
         == Visited(ParentOf(profiles), name, n + 1) + {profiles[current].ext.value}
  {
  }

  /** The validator's loop answers true exactly for valid walks. */
  method ValidateExtends(extendsName: string, allProfiles: Profiles) returns (ok: bool)
    ensures ok <==> ValidWalk(extendsName, allProfiles)
  {
    ghost var next := ParentOf(allProfiles);
    ghost var n: nat := 0;
    assert Walk(next, extendsName, 0) == Some(extendsName);
    if BuiltIn(extendsName).Some? {
      TerminalIsValid(extendsName, allProfiles, 0);
      return true;
    }
    if extendsName !in allProfiles {
      UnknownIsNotValid(extendsName, allProfiles, 0);
      return false;
    }
    var chain := {extendsName};
    var current := extendsName;
    assert chain == Visited(next, extendsName, 1);
    while HasParent(allProfiles[current])
      invariant current in allProfiles && BuiltIn(current).None?
      invariant Walk(next, extendsName, n) == Some(current)
      invariant chain == Visited(next, extendsName, n + 1)
      decreases |allProfiles.Keys - chain|
    {
      ValidatorStep(extendsName, allProfiles, n, current);
      current := allProfiles[current].ext.value;
      n := n + 1;
      if BuiltIn(current).Some? {
        TerminalIsValid(extendsName, allProfiles, n);
        return true;
      }
      if current in chain {
        RepeatIsNotValid(extendsName, allProfiles, n);
        return false;
      }
      if current !in allProfiles {
        UnknownIsNotValid(extendsName, allProfiles, n);
        return false;
      }
      FewerLeft(allProfiles.Keys, chain, current);
      chain := chain + {current};
    }
    TerminalIsValid(extendsName, allProfiles, n);
    return true;
  }

  /** The separate cycle check looks only at the custom profiles. */
  function ChainExists(name: string, profiles: Profiles, visited: set<string>): bool
    decreases |profiles.Keys - visited|
  {
    if name in visited then true
    else if name !in profiles || !HasParent(profiles[name]) then false
    else
      FewerLeft(profiles.Keys, visited, name);
      ChainExists(profiles[name].ext.value, profiles, visited + {name})
  }

  function RawParentOf(profiles: Profiles): Link {
    name => if name in profiles && HasParent(profiles[name]) then profiles[name].ext else None
  }

  /** The check after `n` links, with the names already passed marked as visited. */
  ghost function CheckFrom(start: string, profiles: Profiles, n: nat): bool
    requires Walk(RawParentOf(profiles), start, n).Some?
  {
    ChainExists(Walk(RawParentOf(profiles), start, n).value, profiles, Visited(RawParentOf(profiles), start, n))
  }

  lemma CheckStep(start: string, profiles: Profiles, n: nat)
    requires Walk(RawParentOf(profiles), start, n).Some?
    ensures var name := Walk(RawParentOf(profiles), start, n).value;
            var visited := Visited(RawParentOf(profiles), start, n);
            if name in visited then CheckFrom(start, profiles, n)
            else if RawParentOf(profiles)(name).None? then !CheckFrom(start, profiles, n)
            else && Walk(RawParentOf(profiles), start, n + 1).Some?
                 && CheckFrom(start, profiles, n) == CheckFrom(start, profiles, n + 1)
                 && Visited(RawParentOf(profiles), start, n + 1) == visited + {name}
                 && name in profiles
  {
  }

  lemma {:induction false} ChainExistsFrom(start: string, profiles: Profiles, n: nat)
    requires Walk(RawParentOf(profiles), start, n).Some?
    ensures CheckFrom(start, profiles, n) <==> Cycles(RawParentOf(profiles), start)
    decreases |profiles.Keys - Visited(RawParentOf(profiles), start, n)|
  {
    var next := RawParentOf(profiles);
    var name := Walk(next, start, n).value;
    var visited := Visited(next, start, n);
    CheckStep(start, profiles, n);
    if name in visited {
      var k := VisitedMember(next, start, n, name);
      assert Cycles(next, start);
    } else if next(name).None? {
      StopRulesOutCycle(next, start, n);
    } else {
      FewerLeft(profiles.Keys, visited, name);
      ChainExistsFrom(start, profiles, n + 1);
    }
  }

  /** From an empty visited set the check answers true exactly when the custom links cycle. */
  lemma ChainExistsIffCycle(name: string, profiles: Profiles)
    ensures ChainExists(name, profiles, {}) <==> Cycles(RawParentOf(profiles), name)
  {
    assert Walk(RawParentOf(profiles), name, 0) == Some(name);
    assert Visited(RawParentOf(profiles), name, 0) == {};
    ChainExistsFrom(name, profiles, 0);
  }

  lemma {:induction false} WalksAgree(name: string, profiles: Profiles, n: nat)
    requires Walk(ParentOf(profiles), name, n).Some?
    ensures Walk(RawParentOf(profiles), name, n) == Walk(ParentOf(profiles), name, n)
  {
    if n == 0 {
    } else {
      WalksAgree(name, profiles, n - 1);
    }
  }

  lemma {:induction false} CycleMovesAlong(next: Link, name: string, n: nat)
    requires Walk(next, name, n).Some?
    ensures Ends(next, name) <==> Ends(next, Walk(next, name, n).value)
  {
    if n == 0 {
    } else {
      CycleMovesAlong(next, name, n - 1);
      EndsStep(next, Walk(next, name, n - 1).value);
    }
  }

  /**
   The validator and the cycle check disagree on a valid name exactly when its walk stops at a
   built-in that the custom profiles redefine with a cycle behind it.
   */
  lemma ValidButCyclic(name: string, profiles: Profiles)
    requires ValidWalk(name, profiles)
    ensures ChainExists(name, profiles, {}) <==>
            exists n: nat :: && Walk(ParentOf(profiles), name, n).Some?
                             && BuiltIn(Walk(ParentOf(profiles), name, n).value).Some?
                             && Cycles(RawParentOf(profiles), Walk(ParentOf(profiles), name, n).value)
    ensures (forall b | b in profiles :: BuiltIn(b).None?) ==> !ChainExists(name, profiles, {})
  {
    var next, raw := ParentOf(profiles), RawParentOf(profiles);
    ChainExistsIffCycle(name, profiles);
    var n: nat :| Walk(next, name, n).Some? && Terminal(Walk(next, name, n).value, profiles);
    var stop := Walk(next, name, n).value;
    WalksAgree(name, profiles, n);
    CycleMovesAlong(raw, name, n);
    EndsIffNoCycle(raw, name, profiles.Keys);
    EndsIffNoCycle(raw, stop, profiles.Keys);
    if BuiltIn(stop).None? || stop !in profiles {
      assert Walk(raw, stop, 0) == Some(stop);
      StopRulesOutCycle(raw, stop, 0);
    }
    forall m: nat | Walk(next, name, m).Some? && BuiltIn(Walk(next, name, m).value).Some?
      ensures m == n
    {
      LastStop(next, name, n, m);
    }
  }

  /** The disagreement does occur. */
  lemma RedefinedBuiltInFoolsTheCheck()
    ensures var p := map[":workspace" := WORKSPACE.(ext := Some(":workspace"))];
            ValidWalk(":workspace", p) && ChainExists(":workspace", p, {})
  {
    var p := map[":workspace" := WORKSPACE.(ext := Some(":workspace"))];
    assert Walk(ParentOf(p), ":workspace", 0) == Some(":workspace");
  }
}
