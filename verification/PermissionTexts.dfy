/**
 What inheritance makes of each single entry, told by the entry's text
 (src/schemas/permissions-profile.schema.ts:41-77, 177-269).
 */
module PermissionTexts {
  import opened Prelude
  import opened Chains
  import opened Permissions

  /** The token that stands for the first workspace root. */
  const TOKEN := ":workspace_roots"

  /** The path is the token, alone or with a path below it. */
  ghost predicate BelowToken(path: string, sub: string) {
    path == TOKEN + sub && (sub == "" || sub[0] == '/')
  }

  /**
   What becomes of an entry: below the token the rest of the path follows the first root, any other
   string is a path as it stands, both with their access; objects stay; and the bare pattern of a
   profile that extends another gets write access.
   */
  ghost predicate Appears(e: Entry, extending: bool, roots: seq<string>, out: Entry) {
    match e
    case Named(path, access) =>
      && out.Located? && out.access == access
      && (forall sub | BelowToken(path, sub) ::
            out.at == PathAt((if roots == [] then "undefined" else roots[0]) + sub))
      && ((forall sub :: !BelowToken(path, sub)) ==> out.at == PathAt(path))
    case Located(_, _) => out == e
    case Bare(at) => if extending then out == Located(at, Some(Write)) else out == e
  }

  lemma {:induction false} SlashFound(path: string)
    ensures '/' !in path[..SlashAt(path)]
    ensures SlashAt(path) < |path| ==> path[SlashAt(path)] == '/'
  {
    if path == "" || path[0] == '/' {
    } else {
      SlashFound(path[1..]);
      assert path[..SlashAt(path)] == [path[0]] + path[1..][..SlashAt(path[1..])];
    }
  }

  lemma {:induction false} SlashBehind(front: string, sub: string)
    requires '/' !in front && (sub == "" || sub[0] == '/')
    ensures SlashAt(front + sub) == |front|
  {
    if front == "" {
      assert front + sub == sub;
    } else {
      assert front[0] in front;
      assert (front + sub)[1..] == front[1..] + sub;
      SlashBehind(front[1..], sub);
    }
  }

  lemma TokenIffBelow(path: string)
    ensures path[..SlashAt(path)] == TOKEN ==> BelowToken(path, path[SlashAt(path)..])
    ensures forall sub | BelowToken(path, sub) :: path[..SlashAt(path)] == TOKEN && path[SlashAt(path)..] == sub
  {
    SlashFound(path);
    assert path == path[..SlashAt(path)] + path[SlashAt(path)..];
    assert '/' !in TOKEN;
    forall sub | BelowToken(path, sub) ensures path[..SlashAt(path)] == TOKEN && path[SlashAt(path)..] == sub {
      SlashBehind(TOKEN, sub);
    }
  }

  lemma EntryAppears(e: Entry, extending: bool, roots: seq<string>)
    ensures Appears(e, extending, roots, MaterializeEntry(if extending then WrapEntry(e) else e, roots))
  {
    if e.Named? { TokenIffBelow(e.path); }
  }

  // ---------------------------------------------------------------------------
  // Whole profiles
  // ---------------------------------------------------------------------------

  /** The entries of a profile, each with the mark whether the profile extends another. */
  ghost function Marked(es: seq<Entry>, extending: bool): seq<(Entry, bool)> {
    seq(|es|, i requires 0 <= i < |es| => (es[i], extending))
  }

  /** All entries of the lineage as they are written, the root's first. */
  ghost function Sources(lineage: seq<string>, profiles: Profiles): seq<(Entry, bool)> {
    if lineage == [] then []
    else if |lineage| == 1 then Marked(RootProfile(lineage[0], profiles).entries, false)
    else Sources(lineage[1..], profiles) + Marked(OwnProfile(lineage[0], profiles).entries, true)
  }

  ghost predicate AllAppear(sources: seq<(Entry, bool)>, roots: seq<string>, out: seq<Entry>) {
    |out| == |sources| && forall i | 0 <= i < |out| :: Appears(sources[i].0, sources[i].1, roots, out[i])
  }

  lemma {:induction false} MaterializedAt(es: seq<Entry>, roots: seq<string>)
    ensures |Materialized(es, roots)| == |es|
    ensures forall i | 0 <= i < |es| :: Materialized(es, roots)[i] == MaterializeEntry(es[i], roots)
  {
    if es == [] {
    } else {
      MaterializedAt(es[1..], roots);
    }
  }

  lemma {:induction false} WrappedAt(es: seq<Entry>)
    ensures |Wrapped(es)| == |es| && forall i | 0 <= i < |es| :: Wrapped(es)[i] == WrapEntry(es[i])
  {
    if es == [] {
    } else {
      WrappedAt(es[1..]);
    }
  }

  lemma ProfileAppears(es: seq<Entry>, extending: bool, roots: seq<string>)
    ensures AllAppear(Marked(es, extending), roots, Materialized(if extending then Wrapped(es) else es, roots))
  {
    WrappedAt(es);
    MaterializedAt(if extending then Wrapped(es) else es, roots);
    forall i | 0 <= i < |es|
      ensures Appears(es[i], extending, roots, Materialized(if extending then Wrapped(es) else es, roots)[i])
    {
      EntryAppears(es[i], extending, roots);
    }
  }

  lemma {:induction false} LineageAppears(lineage: seq<string>, profiles: Profiles, roots: seq<string>)
    ensures AllAppear(Sources(lineage, profiles), roots, RootToLeaf(lineage, profiles, roots))
  {
    if lineage == [] {
    } else if |lineage| == 1 {
      ProfileAppears(RootProfile(lineage[0], profiles).entries, false, roots);
    } else {
      LineageAppears(lineage[1..], profiles, roots);
      ProfileAppears(OwnProfile(lineage[0], profiles).entries, true, roots);
    }
  }

  /** A resolved known profile shows the entries of its lineage one by one, in their order. */
  lemma ResolvedEntriesAppear(name: string, profiles: Profiles, roots: seq<string>, depth: nat)
    requires Resolve(name, profiles, roots, depth).Some? && Known(name, profiles)
    ensures AllAppear(Sources(Lineage(profiles, name, depth), profiles), roots,
                      Resolve(name, profiles, roots, depth).value.entries)
  {
    EntriesFlatten(name, profiles, roots, depth);
    LineageAppears(Lineage(profiles, name, depth), profiles, roots);
  }

  /** Compiling any profile by itself takes its kind and shows its entries as they are written, none extending. */
  lemma CompiledEntriesAppear(p: Profile, roots: seq<string>)
    ensures CompileProfile(p, roots).0 == p.kind
    ensures AllAppear(Marked(p.entries, false), roots, CompileProfile(p, roots).1)
  {
    ProfileAppears(p.entries, false, roots);
  }

  /** A name with no profile behind it, or one that names no profile to extend. */
  ghost predicate EndsLineage(name: string, profiles: Profiles) {
    || name in {":read-only", ":workspace", ":danger-full-access"}
    || name !in profiles || profiles[name].ext == None || profiles[name].ext == Some("")
  }

  /** Each name but the last extends the one after it, and the last extends nothing. */
  ghost predicate FollowsExtends(lineage: seq<string>, profiles: Profiles) {
    && lineage != [] && EndsLineage(lineage[|lineage| - 1], profiles)
    && forall i | 0 <= i < |lineage| - 1 ::
         !EndsLineage(lineage[i], profiles) && profiles[lineage[i]].ext == Some(lineage[i + 1])
  }

  lemma FollowsInFront(name: string, lineage: seq<string>, profiles: Profiles)
    requires FollowsExtends(lineage, profiles)
    requires !EndsLineage(name, profiles) && profiles[name].ext == Some(lineage[0])
    ensures FollowsExtends([name] + lineage, profiles)
  {
  }

  lemma ParentIffNoEnd(name: string, profiles: Profiles)
    ensures ParentOf(profiles)(name).None? <==> EndsLineage(name, profiles)
    ensures ParentOf(profiles)(name).Some? ==> ParentOf(profiles)(name) == profiles[name].ext
  {
  }

  /** The lineage goes from the name along non-empty `extends` entries, and ends where there is none to follow. */
  lemma {:induction false} LineageFollowsExtends(name: string, profiles: Profiles, roots: seq<string>, depth: nat)
    requires Resolve(name, profiles, roots, depth).Some?
    ensures Lineage(profiles, name, depth) != [] && Lineage(profiles, name, depth)[0] == name
    ensures FollowsExtends(Lineage(profiles, name, depth), profiles)
    decreases depth
  {
    LineageStep(profiles, name, depth);
    ParentIffNoEnd(name, profiles);
    if ParentOf(profiles)(name).None? {
      assert Lineage(profiles, name, depth) == [name];
    } else {
      var up := ParentOf(profiles)(name).value;
      var above := Lineage(profiles, up, depth - 1);
      LineageFollowsExtends(up, profiles, roots, depth - 1);
      FollowsInFront(name, above, profiles);
      assert Lineage(profiles, name, depth) == [name] + above;
    }
  }

  lemma ReadOnlyMaterialized(roots: seq<string>)
    ensures Materialized(READ_ONLY.entries, roots)
         == [Located(PathAt("/"), Some(Read)), Located(PathAt("/tmp"), Some(Write))]
  {
    var es := READ_ONLY.entries;
    MaterializedAt(es, roots);
    assert !BelowToken("/", "") && "/"[0] != TOKEN[0] && "/tmp"[0] != TOKEN[0];
    EntryAppears(es[0], false, roots);
    EntryAppears(es[1], false, roots);
  }

  lemma WorkspaceMaterialized(roots: seq<string>)
    requires roots != []
    ensures Materialized(WORKSPACE.entries, roots) == [Located(PathAt(roots[0]), Some(Write))]
  {
    var es := WORKSPACE.entries;
    MaterializedAt(es, roots);
    EntryAppears(es[0], false, roots);
    assert TOKEN + "" == TOKEN && BelowToken(TOKEN, "");
    assert roots[0] + "" == roots[0];
  }

  lemma NamesDiffer()
    ensures ":workspace" != ":read-only" && ":danger-full-access" !in {":read-only", ":workspace"}
  {
    assert ":workspace"[1] == 'w' && ":read-only"[1] == 'r' && ":danger-full-access"[1] == 'd';
  }

  /** What the built-in names resolve to, whatever the custom profiles say. */
  lemma BuiltInsResolve(profiles: Profiles, roots: seq<string>, depth: nat)
    requires depth > 0
    ensures Resolve(":read-only", profiles, roots, depth)
         == Some(Profile(None, Restricted, [Located(PathAt("/"), Some(Read)), Located(PathAt("/tmp"), Some(Write))],
                         Network(false, map[], map[]), Some([]),
                         Some("Read-only access to the filesystem with write to /tmp")))
    ensures roots != [] ==>
              Resolve(":workspace", profiles, roots, depth)
              == Some(Profile(None, Restricted, [Located(PathAt(roots[0]), Some(Write))],
                              Network(false, map[], map[]), Some([]),
                              Some("Read-write access to workspace roots with restricted network")))
    ensures Resolve(":danger-full-access", profiles, roots, depth)
         == Some(Profile(None, Unrestricted, [], Network(true, map[], map[]), Some([]),
                         Some("Full filesystem and network access (dangerous)")))
  {
    NamesDiffer();
    ReadOnlyMaterialized(roots);
    if roots != [] { WorkspaceMaterialized(roots); }
  }

  /** A name that no profile stands for resolves to the read-only profile as it is written. */
  lemma UnknownIsReadOnly(name: string, profiles: Profiles, roots: seq<string>, depth: nat)
    requires depth > 0 && name !in profiles && name !in {":read-only", ":workspace", ":danger-full-access"}
    ensures Resolve(name, profiles, roots, depth)
         == Some(Profile(None, Restricted, [Named("/", Some(Read)), Named("/tmp", Some(Write))],
                         Network(false, map[], map[]), Some([]),
                         Some("Read-only access to the filesystem with write to /tmp")))
  {
  }
}
