/**
 * The older manager generation (src/pluginmanager.cpp): `PluginManager`
 * searches directories for plugin libraries, checks their dependencies,
 * sorts them with `Graph` into a loading order, instantiates them in that
 * order and unloads them in reverse. Its private part holds the same three
 * fields as the newer generation's, so `PlugMgrPrivate` is shared; the two
 * unloading loops are the same code in both generations.
 *
 * Listing a directory and opening each library found there are parameters:
 * the listing's outcome and, per path, what opening the library gives.
 */
module PluginManagers {
  import opened Wrappers
  import opened TriBools
  import opened ReturnCodes
  import opened SharedLib
  import opened PluginInfos
  import opened Plugins
  import opened Dependencies
  import opened PlugMgrPrivates
  import opened Sequences
  import Graphs

  /**
   * What constructing `boost::dll::shared_library` on a path gives:
   * `bad_alloc`, or the library, whether it exports both `jp_name` and
   * `jp_metadata`, the text of `jp_name`, and what `parseMetadata` makes of
   * `jp_metadata` (None for the record with a null name it returns when the
   * metadata cannot be parsed or has an incompatible API version).
   */
  datatype Probe =
    | OutOfMemory
    | Library(lib: LibState, exportsSymbols: bool, name: string, info: Option<PluginInfoStd>)

  /** A loaded JustPlug library whose metadata parses: a plugin, unless its name is taken. */
  predicate Candidate(probe: Probe)
  {
    probe.Library? && probe.lib.IsLoaded() && probe.exportsSymbols && probe.info.Some?
  }

  /** The entry a search registers for the plugin found at `path`. */
  function Entry(path: string, probe: Probe): (p: Plugin)
    requires Candidate(probe)
    ensures p.dependenciesExists.IsIndeterminate() && p.graphId == -1 && p.iplugin == None
    ensures p.lib == probe.lib && p.lib.IsLoaded() && p.path == path && p.info == probe.info.value
  {
    NewPlugin(probe.lib, path, probe.info.value)
  }

  /** One iteration of the search loop: a candidate whose name is new is registered under it. */
  function ScanOne(m: Registry, path: string, probe: Probe): Registry
  {
    if Candidate(probe) && probe.name !in m then m[probe.name := Entry(path, probe)] else m
  }

  /** The registry after the search loop has gone through `paths`, in order. */
  function Scan(m: Registry, paths: seq<string>, probe: string -> Probe): (r: Registry)
    ensures m.Keys <= r.Keys
    ensures forall k :: k in m ==> r[k] == m[k]
  {
    if paths == [] then m
    else ScanOne(Scan(m, paths[..|paths| - 1], probe), paths[|paths| - 1], probe(paths[|paths| - 1]))
  }

  /** Whether the library at `path` is a candidate registered as `name`. */
  predicate Names(probe: string -> Probe, path: string, name: string)
  {
    Candidate(probe(path)) && probe(path).name == name
  }

  /** The first of `paths` holding a candidate named `name`. */
  function FirstNaming(paths: seq<string>, probe: string -> Probe, name: string): (r: Option<nat>)
    ensures r.Some? ==> r.value < |paths| && Names(probe, paths[r.value], name)
    ensures r.Some? ==> forall j :: 0 <= j < r.value ==> !Names(probe, paths[j], name)
    ensures r.None? ==> forall j :: 0 <= j < |paths| ==> !Names(probe, paths[j], name)
  {
    if paths == [] then None
    else
      var first := FirstNaming(paths[..|paths| - 1], probe, name);
      if first.Some? then first
      else if Names(probe, paths[|paths| - 1], name) then Some(|paths| - 1)
      else None
  }

  /**
   * A name not registered before the search is registered by it exactly when
   * some path holds a candidate of that name, and then with the entry of
   * the first such path: a later duplicate is skipped.
   */
  lemma {:induction false} ScanRegisters(m: Registry, paths: seq<string>, probe: string -> Probe, name: string)
    requires name !in m
    ensures name in Scan(m, paths, probe) <==> FirstNaming(paths, probe, name).Some?
    ensures name in Scan(m, paths, probe) ==>
              var i := FirstNaming(paths, probe, name).value;
              Scan(m, paths, probe)[name] == Entry(paths[i], probe(paths[i]))
  {
    if paths != [] {
      var init := paths[..|paths| - 1];
      ScanRegisters(m, init, probe, name);
      assert forall j :: 0 <= j < |init| ==> init[j] == paths[j];
    }
  }

  /** Every name a search adds comes from a candidate, with a fresh entry. */
  lemma {:induction false} ScanAddsFresh(m: Registry, paths: seq<string>, probe: string -> Probe)
    ensures var r := Scan(m, paths, probe);
            forall k :: k in r && k !in m ==>
              r[k].dependenciesExists.IsIndeterminate() && r[k].graphId == -1 && r[k].iplugin == None && r[k].lib.IsLoaded()
  {
    if paths != [] {
      ScanAddsFresh(m, paths[..|paths| - 1], probe);
    }
  }

  /**
   * The registry invariant of this generation: a True cache entry has only
   * usable, True dependencies, and only True entries carry a graph node.
   */
  ghost predicate Consistent(m: Registry, compatible: (string, string) -> bool)
  {
    TrueClosed(m, compatible) &&
    forall k :: k in m && m[k].graphId != -1 ==> m[k].dependenciesExists.EqualsBool(true)
  }

  /** A search keeps the registry consistent: it only adds fresh entries and leaves the others alone. */
  lemma ScanConsistent(m: Registry, paths: seq<string>, probe: string -> Probe, compatible: (string, string) -> bool)
    requires Consistent(m, compatible)
    ensures Consistent(Scan(m, paths, probe), compatible)
  {
    var r := Scan(m, paths, probe);
    ScanAddsFresh(m, paths, probe);
    forall k | k in r && r[k].dependenciesExists.EqualsBool(true)
      ensures forall d :: d in r[k].info.dependencies ==>
                Usable(Infos(r), compatible, d) && r[d.name].dependenciesExists.EqualsBool(true)
    {
      assert k in m && r[k] == m[k];
    }
  }

  /** `m2` differs from `m1` only in cache entries that were unset and in graph nodes. */
  ghost predicate CheckedOnly(m1: Registry, m2: Registry)
  {
    m2.Keys == m1.Keys &&
    forall k :: k in m1 ==>
      m2[k] == m1[k].(dependenciesExists := m2[k].dependenciesExists, graphId := m2[k].graphId) &&
      (!m1[k].dependenciesExists.IsIndeterminate() ==> m2[k].dependenciesExists == m1[k].dependenciesExists)
  }

  /** What the check reports depends only on the metadata and the cache entries. */
  lemma {:induction false} SameFlagsSameReports(m1: Registry, m2: Registry, compatible: (string, string) -> bool,
                                                rank: map<string, nat>, x: string)
    requires Infos(m2) == Infos(m1) && Ranked(Infos(m1), compatible, rank) && x in m1
    requires forall k :: k in m1 ==> m2[k].dependenciesExists == m1[k].dependenciesExists
    ensures Cached(m2, compatible, rank, x) == Cached(m1, compatible, rank, x)
    decreases rank[x]
  {
    assert Infos(m2)[x] == Infos(m1)[x];
    if m1[x].dependenciesExists.IsIndeterminate() {
      forall d | d in m1[x].info.dependencies && Usable(Infos(m1), compatible, d)
        ensures Cached(m2, compatible, rank, d.name) == Cached(m1, compatible, rank, d.name)
      {
        SameFlagsSameReports(m1, m2, compatible, rank, d.name);
      }
    }
  }

  /** Giving an entry a graph node changes no report and keeps the cache closed. */
  lemma NumberEntry(m: Registry, compatible: (string, string) -> bool, rank: map<string, nat>, k: string, g: int)
    requires k in m && Ranked(Infos(m), compatible, rank)
    ensures var m' := m[k := m[k].(graphId := g)];
            Coherent(m, m', compatible, rank) && (TrueClosed(m, compatible) ==> TrueClosed(m', compatible))
  {
    var m' := m[k := m[k].(graphId := g)];
    assert forall x :: x in m ==> Infos(m')[x] == Infos(m)[x];
    forall x | x in m
      ensures Cached(m', compatible, rank, x) == Cached(m, compatible, rank, x)
    {
      SameFlagsSameReports(m, m', compatible, rank, x);
    }
  }

  /**
   * Progress of the first loop of `loadPlugins` from registry `m0`: the
   * plugins in `done` have been checked; the cache agrees with what the
   * check reports; each of them is True exactly when its check passes, and
   * then it was numbered: `names[i]` has graph node `i`. No other entry
   * got a node.
   */
  ghost predicate Checking(m0: Registry, cur: Registry, compatible: (string, string) -> bool, rank: map<string, nat>,
                           done: set<string>, names: seq<string>)
  {
    CacheChecked(m0, cur, compatible, rank, done) && NodesNumbered(m0, cur, done, names)
  }

  /** The cache part of `Checking`. */
  ghost predicate CacheChecked(m0: Registry, cur: Registry, compatible: (string, string) -> bool,
                               rank: map<string, nat>, done: set<string>)
  {
    CheckedOnly(m0, cur) && Coherent(m0, cur, compatible, rank) && TrueClosed(cur, compatible) &&
    done <= m0.Keys && Decided(m0, cur, compatible, rank, done)
  }

  /** Each plugin of `done` is cached as True exactly when its check passes. */
  ghost predicate Decided(m0: Registry, cur: Registry, compatible: (string, string) -> bool,
                          rank: map<string, nat>, done: set<string>)
    requires done <= m0.Keys && done <= cur.Keys && Ranked(Infos(m0), compatible, rank)
  {
    forall k :: k in done ==> (cur[k].dependenciesExists.EqualsBool(true) <==> Cached(m0, compatible, rank, k))
  }

  /** The graph-node part of `Checking`. */
  ghost predicate NodesNumbered(m0: Registry, cur: Registry, done: set<string>, names: seq<string>)
    requires cur.Keys == m0.Keys
  {
    Distinct(names) &&
    (forall i :: 0 <= i < |names| ==> names[i] in done && names[i] in cur && cur[names[i]].graphId == i) &&
    (forall k :: k in done && k in cur ==> (k in names <==> cur[k].dependenciesExists.EqualsBool(true))) &&
    (forall k :: k in cur && k !in names ==> cur[k].graphId == m0[k].graphId)
  }

  /** A check run in the middle of the loop keeps its progress, and decides the plugin it ran for. */
  lemma CheckingChecked(m0: Registry, cur: Registry, next: Registry, compatible: (string, string) -> bool,
                        rank: map<string, nat>, done: set<string>, names: seq<string>, key: string)
    requires Checking(m0, cur, compatible, rank, done, names) && key in m0
    requires FlagsOnly(cur, next) && Coherent(cur, next, compatible, rank)
    requires TrueClosed(cur, compatible) ==> TrueClosed(next, compatible)
    requires next[key].dependenciesExists.EqualsBool(true) <==> Cached(cur, compatible, rank, key)
    ensures Checking(m0, next, compatible, rank, done, names)
    ensures next[key].dependenciesExists.EqualsBool(true) <==> Cached(m0, compatible, rank, key)
  {
    forall k | k in done
      ensures next[k].dependenciesExists.EqualsBool(true) <==> Cached(m0, compatible, rank, k)
    {
      assert Cached(next, compatible, rank, k) == Cached(m0, compatible, rank, k);
    }
  }

  lemma CheckedOnlyTrans(m0: Registry, m1: Registry, m2: Registry)
    requires CheckedOnly(m0, m1) && CheckedOnly(m1, m2)
    ensures CheckedOnly(m0, m2)
  {
    forall k | k in m0
      ensures m2[k] == m0[k].(dependenciesExists := m2[k].dependenciesExists, graphId := m2[k].graphId)
    {
    }
  }

  lemma CoherentTrans(m0: Registry, m1: Registry, m2: Registry, compatible: (string, string) -> bool,
                      rank: map<string, nat>)
    requires Coherent(m0, m1, compatible, rank) && Coherent(m1, m2, compatible, rank)
    ensures Coherent(m0, m2, compatible, rank)
  {
  }

  /** Numbering a plugin that checked out keeps the cache part. */
  lemma CacheNumber(m0: Registry, cur: Registry, compatible: (string, string) -> bool,
                    rank: map<string, nat>, done: set<string>, key: string, g: int)
    requires CacheChecked(m0, cur, compatible, rank, done) && key in m0
    requires cur[key].dependenciesExists.EqualsBool(true) <==> Cached(m0, compatible, rank, key)
    ensures CacheChecked(m0, cur[key := cur[key].(graphId := g)], compatible, rank, done + {key})
  {
    var next := cur[key := cur[key].(graphId := g)];
    NumberEntry(cur, compatible, rank, key, g);
    CoherentTrans(m0, cur, next, compatible, rank);
    NumberCheckedOnly(cur, key, g);
    CheckedOnlyTrans(m0, cur, next);
    assert Decided(m0, next, compatible, rank, done + {key}) by {
      forall k | k in done + {key}
        ensures next[k].dependenciesExists.EqualsBool(true) <==> Cached(m0, compatible, rank, k)
      {
        assert next[k].dependenciesExists == cur[k].dependenciesExists;
      }
    }
  }

  /** Giving an entry a graph node changes nothing else. */
  lemma NumberCheckedOnly(m: Registry, key: string, g: int)
    requires key in m
    ensures CheckedOnly(m, m[key := m[key].(graphId := g)])
  {
    var next := m[key := m[key].(graphId := g)];
    forall k | k in m
      ensures next[k] == m[k].(dependenciesExists := next[k].dependenciesExists, graphId := next[k].graphId)
    {
    }
  }

  /** Numbering a plugin that checked out, as the next node, keeps the node part. */
  lemma NodesNumber(m0: Registry, cur: Registry, done: set<string>, names: seq<string>, key: string)
    requires cur.Keys == m0.Keys && NodesNumbered(m0, cur, done, names)
    requires key in m0 && key !in done && cur[key].dependenciesExists.EqualsBool(true)
    ensures NodesNumbered(m0, cur[key := cur[key].(graphId := |names|)], done + {key}, names + [key])
  {
    var next := cur[key := cur[key].(graphId := |names|)];
    var names' := names + [key];
    assert key !in names;
    AppendFresh(names, key);
    forall i | 0 <= i < |names'|
      ensures names'[i] in done + {key} && names'[i] in next && next[names'[i]].graphId == i
    {
      if i < |names| {
        assert names'[i] == names[i];
      }
    }
  }

  /** A plugin that checked out joins the checked ones as the next graph node. */
  lemma CheckingNumber(m0: Registry, cur: Registry, compatible: (string, string) -> bool,
                       rank: map<string, nat>, done: set<string>, names: seq<string>, key: string)
    requires Checking(m0, cur, compatible, rank, done, names) && key in m0 && key !in done
    requires cur[key].dependenciesExists.EqualsBool(true) && Cached(m0, compatible, rank, key)
    ensures Checking(m0, cur[key := cur[key].(graphId := |names|)], compatible, rank, done + {key}, names + [key])
  {
    CacheNumber(m0, cur, compatible, rank, done, key, |names|);
    NodesNumber(m0, cur, done, names, key);
  }

  /** A plugin that did not check out joins the checked ones without a node. */
  lemma CheckingSkip(m0: Registry, cur: Registry, compatible: (string, string) -> bool,
                     rank: map<string, nat>, done: set<string>, names: seq<string>, key: string)
    requires Checking(m0, cur, compatible, rank, done, names) && key in m0 && key !in done
    requires !cur[key].dependenciesExists.EqualsBool(true) && !Cached(m0, compatible, rank, key)
    ensures Checking(m0, cur, compatible, rank, done + {key}, names)
  {
    assert key !in names;
  }

  /** The nodes made so far: one per numbered plugin, in order, with no parents yet. */
  ghost predicate Unlinked(nodeList: seq<Graphs.Node>, names: seq<string>)
  {
    |nodeList| == |names| && forall i :: 0 <= i < |names| ==> nodeList[i] == Graphs.Node(names[i], [], Graphs.Unmarked)
  }

  lemma UnlinkedSnoc(nodeList: seq<Graphs.Node>, names: seq<string>, key: string)
    requires Unlinked(nodeList, names)
    ensures Unlinked(nodeList + [Graphs.Node(key, [], Graphs.Unmarked)], names + [key])
  {
  }

  /**
   * The first loop of `loadPlugins` part-way: `remaining` are the plugins
   * still to check, and when a failure stops everything (`strict`), every
   * plugin checked so far passed.
   */
  ghost predicate CheckLoop(m0: Registry, cur: Registry, compatible: (string, string) -> bool, rank: map<string, nat>,
                            remaining: set<string>, done: set<string>, names: seq<string>, nodeList: seq<Graphs.Node>,
                            strict: bool)
  {
    remaining == m0.Keys - done && Checking(m0, cur, compatible, rank, done, names) && Unlinked(nodeList, names) &&
    (strict ==> forall k :: k in done ==> Cached(m0, compatible, rank, k))
  }

  /** A check run in the middle of the loop keeps its progress, and decides the plugin it ran for. */
  lemma CheckLoopChecked(m0: Registry, cur: Registry, next: Registry, compatible: (string, string) -> bool,
                         rank: map<string, nat>, remaining: set<string>, done: set<string>, names: seq<string>,
                         nodeList: seq<Graphs.Node>, strict: bool, key: string)
    requires CheckLoop(m0, cur, compatible, rank, remaining, done, names, nodeList, strict) && key in m0
    requires FlagsOnly(cur, next) && Coherent(cur, next, compatible, rank)
    requires TrueClosed(cur, compatible) ==> TrueClosed(next, compatible)
    requires next[key].dependenciesExists.EqualsBool(true) <==> Cached(cur, compatible, rank, key)
    ensures CheckLoop(m0, next, compatible, rank, remaining, done, names, nodeList, strict)
    ensures next[key].dependenciesExists.EqualsBool(true) <==> Cached(m0, compatible, rank, key)
  {
    CheckingChecked(m0, cur, next, compatible, rank, done, names, key);
  }

  /** The plugin just checked passed: it becomes the next node. */
  lemma CheckLoopNumber(m0: Registry, cur: Registry, compatible: (string, string) -> bool,
                        rank: map<string, nat>, remaining: set<string>, done: set<string>, names: seq<string>,
                        nodeList: seq<Graphs.Node>, strict: bool, key: string)
    requires CheckLoop(m0, cur, compatible, rank, remaining, done, names, nodeList, strict) && key in remaining
    requires cur[key].dependenciesExists.EqualsBool(true) && Cached(m0, compatible, rank, key)
    ensures CheckLoop(m0, cur[key := cur[key].(graphId := |names|)], compatible, rank, remaining - {key}, done + {key},
                      names + [key], nodeList + [Graphs.Node(key, [], Graphs.Unmarked)], strict)
  {
    CheckingNumber(m0, cur, compatible, rank, done, names, key);
    UnlinkedSnoc(nodeList, names, key);
  }

  /** The plugin just checked did not pass: it gets no node. */
  lemma CheckLoopSkip(m0: Registry, cur: Registry, compatible: (string, string) -> bool,
                      rank: map<string, nat>, remaining: set<string>, done: set<string>, names: seq<string>,
                      nodeList: seq<Graphs.Node>, strict: bool, key: string)
    requires CheckLoop(m0, cur, compatible, rank, remaining, done, names, nodeList, strict) && key in remaining
    requires !cur[key].dependenciesExists.EqualsBool(true) && !Cached(m0, compatible, rank, key) && !strict
    ensures CheckLoop(m0, cur, compatible, rank, remaining - {key}, done + {key}, names, nodeList, strict)
  {
    CheckingSkip(m0, cur, compatible, rank, done, names, key);
  }

  /** While the loop runs, the registry stays consistent. */
  lemma CheckingConsistent(m0: Registry, cur: Registry, compatible: (string, string) -> bool,
                           rank: map<string, nat>, done: set<string>, names: seq<string>)
    requires Checking(m0, cur, compatible, rank, done, names) && Consistent(m0, compatible)
    ensures Consistent(cur, compatible)
  {
    forall k | k in cur && cur[k].graphId != -1
      ensures cur[k].dependenciesExists.EqualsBool(true)
    {
      if k in names {
        var i :| 0 <= i < |names| && names[i] == k;
      }
    }
  }

  /**
   * Plugin `names[i]` has graph node `i`: the numbered plugins are exactly
   * the True entries, and the other entries have no node.
   */
  ghost predicate Numbered(m: Registry, compatible: (string, string) -> bool, names: seq<string>)
  {
    TrueClosed(m, compatible) && Distinct(names) &&
    (forall i :: 0 <= i < |names| ==> names[i] in m && m[names[i]].graphId == i) &&
    (forall k :: k in m ==> (m[k].dependenciesExists.EqualsBool(true) <==> k in names)) &&
    (forall k :: k in m && k !in names ==> m[k].graphId == -1)
  }

  /** Once every plugin is checked, the True ones, which are those whose check passes, are numbered. */
  lemma CheckingDone(m0: Registry, cur: Registry, compatible: (string, string) -> bool,
                     rank: map<string, nat>, names: seq<string>)
    requires Checking(m0, cur, compatible, rank, m0.Keys, names) && Consistent(m0, compatible)
    ensures Numbered(cur, compatible, names) && Consistent(cur, compatible)
    ensures forall k :: k in m0 ==> (k in names <==> Cached(m0, compatible, rank, k))
  {
    CheckingConsistent(m0, cur, compatible, rank, m0.Keys, names);
  }

  /** Every dependency of a numbered plugin is numbered, as the plugin of its own node. */
  lemma NumberedDeps(m: Registry, compatible: (string, string) -> bool, names: seq<string>, n: int)
    requires Numbered(m, compatible, names) && 0 <= n < |names|
    ensures forall d :: d in m[names[n]].info.dependencies ==>
              Usable(Infos(m), compatible, d) && d.name in m && 0 <= m[d.name].graphId < |names| &&
              names[m[d.name].graphId] == d.name
  {
    forall d | d in m[names[n]].info.dependencies
      ensures Usable(Infos(m), compatible, d) && d.name in m && 0 <= m[d.name].graphId < |names| &&
              names[m[d.name].graphId] == d.name
    {
      assert m[names[n]].dependenciesExists.EqualsBool(true);
      assert d.name in names;
      var i :| 0 <= i < |names| && names[i] == d.name;
    }
  }

  /** `pluginsMap[dep.name]->graphId` for each dependency, in declared order. */
  function DepIds(m: Registry, deps: seq<Dependency>): (ids: seq<int>)
    requires forall d :: d in deps ==> d.name in m
    ensures |ids| == |deps| && forall j :: 0 <= j < |deps| ==> ids[j] == m[deps[j].name].graphId
  {
    if deps == [] then [] else DepIds(m, deps[..|deps| - 1]) + [m[deps[|deps| - 1].name].graphId]
  }

  /** The parent lists the second loop of `loadPlugins` gives the numbered plugins. */
  ghost function Parents(m: Registry, compatible: (string, string) -> bool, names: seq<string>): (ps: seq<seq<int>>)
    requires Numbered(m, compatible, names)
    ensures |ps| == |names|
  {
    NumberedAllDeps(m, compatible, names);
    seq(|names|, n requires 0 <= n < |names| && names[n] in m && (forall d :: d in m[names[n]].info.dependencies ==> d.name in m)
                   => DepIds(m, m[names[n]].info.dependencies))
  }

  lemma NumberedAllDeps(m: Registry, compatible: (string, string) -> bool, names: seq<string>)
    requires Numbered(m, compatible, names)
    ensures forall n :: 0 <= n < |names| ==> names[n] in m && forall d :: d in m[names[n]].info.dependencies ==> d.name in m
  {
    forall n | 0 <= n < |names|
      ensures forall d :: d in m[names[n]].info.dependencies ==> d.name in m
    {
      NumberedDeps(m, compatible, names, n);
    }
  }

  /** The parents of node `n` are the nodes of the dependencies of plugin `names[n]`. */
  lemma ParentsAt(m: Registry, compatible: (string, string) -> bool, names: seq<string>, n: int)
    requires Numbered(m, compatible, names) && 0 <= n < |names|
    ensures names[n] in m && forall d :: d in m[names[n]].info.dependencies ==> d.name in m
    ensures Parents(m, compatible, names)[n] == DepIds(m, m[names[n]].info.dependencies)
  {
    NumberedAllDeps(m, compatible, names);
  }

  /** Each parent of node `n` is the node of a usable dependency of plugin `names[n]`. */
  lemma ParentIsDependency(m: Registry, compatible: (string, string) -> bool, names: seq<string>, n: int, q: int)
    requires Numbered(m, compatible, names) && 0 <= n < |names| && q in Parents(m, compatible, names)[n]
    ensures 0 <= q < |names|
    ensures exists d :: d in m[names[n]].info.dependencies && Usable(Infos(m), compatible, d) && d.name == names[q]
  {
    NumberedDeps(m, compatible, names, n);
    var deps := m[names[n]].info.dependencies;
    var j :| 0 <= j < |deps| && DepIds(m, deps)[j] == q;
    assert deps[j] in deps;
  }

  /** Every parent index names a node. */
  lemma ParentsInRange(m: Registry, compatible: (string, string) -> bool, names: seq<string>)
    requires Numbered(m, compatible, names)
    ensures Graphs.ParentsValid(Parents(m, compatible, names))
  {
    var ps := Parents(m, compatible, names);
    forall n, j | 0 <= n < |ps| && 0 <= j < |ps[n]|
      ensures 0 <= ps[n][j] < |ps|
    {
      ParentIsDependency(m, compatible, names, n, ps[n][j]);
    }
  }

  /** Along a parent edge the rank of the plugin goes down. */
  lemma ParentRankLower(m: Registry, compatible: (string, string) -> bool, names: seq<string>,
                        rank: map<string, nat>, n: int, q: int)
    requires Numbered(m, compatible, names) && Ranked(Infos(m), compatible, rank)
    requires 0 <= n < |names| && q in Parents(m, compatible, names)[n]
    ensures 0 <= q < |names| && names[n] in rank && names[q] in rank && rank[names[q]] < rank[names[n]]
  {
    ParentIsDependency(m, compatible, names, n, q);
    assert names[n] in Infos(m);
  }

  /** Going `j` steps down a path lowers the rank by at least `j`. */
  lemma {:induction false} PathDescends(m: Registry, compatible: (string, string) -> bool, names: seq<string>,
                                        rank: map<string, nat>, c: seq<int>, j: int)
    requires Numbered(m, compatible, names) && Ranked(Infos(m), compatible, rank)
    requires Graphs.IsPath(Parents(m, compatible, names), c) && 0 <= j < |c|
    ensures names[c[j]] in rank && names[c[0]] in rank && rank[names[c[j]]] + j <= rank[names[c[0]]]
  {
    if j == 0 {
      assert names[c[0]] in Infos(m);
    } else {
      PathDescends(m, compatible, names, rank, c, j - 1);
      ParentRankLower(m, compatible, names, rank, c[j - 1], c[j]);
    }
  }

  /**
   * When the accepted dependencies are ranked, the graph of the numbered
   * plugins has no cycle, so the sort cannot report one.
   */
  lemma NumberedAcyclic(m: Registry, compatible: (string, string) -> bool, names: seq<string>, rank: map<string, nat>)
    requires Numbered(m, compatible, names) && Ranked(Infos(m), compatible, rank)
    ensures Graphs.Acyclic(Parents(m, compatible, names))
  {
    var ps := Parents(m, compatible, names);
    forall c | Graphs.IsCycle(ps, c)
      ensures false
    {
      PathDescends(m, compatible, names, rank, c, |c| - 1);
      ParentRankLower(m, compatible, names, rank, c[|c| - 1], c[0]);
    }
  }

  /**
   * A topological order of the numbered plugins' graph, read as names,
   * lists every dependency of a plugin before it.
   */
  lemma SortedDependenciesFirst(m: Registry, compatible: (string, string) -> bool, names: seq<string>,
                                list: seq<string>, ids: seq<int>)
    requires Numbered(m, compatible, names)
    requires Graphs.Lists(names, list, ids) && Graphs.TopologicalOrder(Parents(m, compatible, names), ids)
    ensures DependenciesFirst(m, list)
  {
    var ps := Parents(m, compatible, names);
    forall i, d | 0 <= i < |list| && list[i] in m && d in m[list[i]].info.dependencies
      ensures d.name in list[..i]
    {
      var n := ids[i];
      NumberedDeps(m, compatible, names, n);
      var deps := m[names[n]].info.dependencies;
      var j :| 0 <= j < |deps| && deps[j] == d;
      var q := m[d.name].graphId;
      assert ps[n][j] == q;
      assert q in ids[..i];
      var i' :| 0 <= i' < i && ids[i'] == q;
      assert list[i'] == d.name;
    }
  }

  /** A sort that emitted every node lists each numbered plugin once. */
  lemma SortedAll(names: seq<string>, list: seq<string>, ids: seq<int>)
    requires Distinct(names) && Graphs.Lists(names, list, ids) && Graphs.Distinct(ids)
    requires forall n :: 0 <= n < |names| ==> n in ids
    ensures Distinct(list) && forall k :: k in list <==> k in names
  {
    forall i, j | 0 <= i < j < |list|
      ensures list[i] != list[j]
    {
      if list[i] == list[j] {
        DistinctIndex(names, ids[i], ids[j]);
      }
    }
    DistinctFromPairs(list);
    forall k | k in names
      ensures k in list
    {
      var n :| 0 <= n < |names| && names[n] == k;
      var i := Graphs.IndexOf(ids, n);
      assert list[i] == k;
    }
  }

  /**
   * The fourth step of `loadPlugins`: each listed plugin without an object
   * gets one from its creator, which is given only the request function,
   * and `loaded()` is called on it; plugins with an object are skipped.
   */
  function LoadIfMissing(loader: Loader, m: Registry, key: string): (r: (Registry, seq<Event>))
    requires key in m
    ensures r.0.Keys == m.Keys && forall k :: k in m && k != key ==> r.0[k] == m[k]
    ensures m[key].iplugin.Some? ==> r == (m, [])
    ensures m[key].iplugin.None? ==> r.0[key] == Instantiated(loader, key, m[key]) && r.1 == [Created(key, []), Loaded(key)]
  {
    if m[key].iplugin.Some? then (m, [])
    else (m[key := Instantiated(loader, key, m[key])], [Created(key, []), Loaded(key)])
  }

  function LoadMissing(loader: Loader, m: Registry, list: seq<string>): (r: (Registry, seq<Event>))
    requires forall k :: k in list ==> k in m
    ensures r.0.Keys == m.Keys
    ensures forall k :: k in m ==>
              r.0[k] == if k in list && m[k].iplugin.None? then Instantiated(loader, k, m[k]) else m[k]
  {
    if list == [] then (m, [])
    else
      var prefix, last := list[..|list| - 1], list[|list| - 1];
      assert forall k :: k in list <==> k in prefix || k == last;
      var (m1, e1) := LoadMissing(loader, m, prefix);
      var (m2, e2) := LoadIfMissing(loader, m1, last);
      (m2, e1 + e2)
  }

  /** The fourth step on one more name: it gets an object and is loaded unless it has one already. */
  lemma LoadMissingSnoc(loader: Loader, m: Registry, list: seq<string>, name: string)
    requires forall k :: k in list + [name] ==> k in m
    ensures forall k :: k in list ==> k in m
    ensures var r := LoadMissing(loader, m, list);
            LoadMissing(loader, m, list + [name]).0 == LoadIfMissing(loader, r.0, name).0 &&
            LoadMissing(loader, m, list + [name]).1 == r.1 + LoadIfMissing(loader, r.0, name).1
  {
    var all := list + [name];
    assert all[..|all| - 1] == list;
    assert forall k :: k in list ==> k in all;
  }

  /** After the fourth step every listed plugin has an object: one it had, or one on which `loaded()` was called. */
  lemma {:induction false} LoadMissingLive(loader: Loader, m: Registry, list: seq<string>)
    requires forall k :: k in list ==> k in m
    ensures forall k :: k in list ==> m[k].iplugin.Some? || Loaded(k) in LoadMissing(loader, m, list).1
    ensures forall k :: Loaded(k) in LoadMissing(loader, m, list).1 ==> k in list && m[k].iplugin.None?
  {
    if list != [] {
      var prefix, last := list[..|list| - 1], list[|list| - 1];
      assert forall k :: k in list <==> k in prefix || k == last;
      LoadMissingLive(loader, m, prefix);
    }
  }

  /**
   * In trace `t`, `loaded()` is only called on a registered plugin once each
   * of its dependencies is registered and has an object: one it had in `m`,
   * or one already `loaded()`.
   */
  ghost predicate LoadsAfterDependencies(m: Registry, t: seq<Event>)
  {
    forall a :: 0 <= a < |t| && t[a].Loaded? ==>
      t[a].key in m && forall d :: d in m[t[a].key].info.dependencies ==>
        d.name in m && (m[d.name].iplugin.Some? || Loaded(d.name) in t[..a])
  }

  /** Creating and loading a plugin whose dependencies all have objects keeps the trace in order. */
  lemma LoadsStep(m: Registry, t: seq<Event>, k: string)
    requires LoadsAfterDependencies(m, t) && k in m
    requires forall d :: d in m[k].info.dependencies ==> d.name in m && (m[d.name].iplugin.Some? || Loaded(d.name) in t)
    ensures LoadsAfterDependencies(m, t + [Created(k, []), Loaded(k)])
  {
    var t' := t + [Created(k, []), Loaded(k)];
    forall a | 0 <= a < |t'| && t'[a].Loaded?
      ensures t'[a].key in m && forall d :: d in m[t'[a].key].info.dependencies ==>
                d.name in m && (m[d.name].iplugin.Some? || Loaded(d.name) in t'[..a])
    {
      if a < |t| {
        assert t'[a] == t[a] && t'[..a] == t[..a];
      } else {
        assert t'[a] == Loaded(k) && t'[..a] == t + [Created(k, [])];
      }
    }
  }

  /** Dropping the last plugin of a list with dependencies first: the rest keeps the order, and holds its dependencies. */
  lemma DependenciesFirstInit(m: Registry, list: seq<string>)
    requires DependenciesFirst(m, list) && list != []
    ensures DependenciesFirst(m, list[..|list| - 1])
    ensures list[|list| - 1] in m ==>
              forall d :: d in m[list[|list| - 1]].info.dependencies ==> d.name in list[..|list| - 1]
  {
    var prefix := list[..|list| - 1];
    forall i, d | 0 <= i < |prefix| && prefix[i] in m && d in m[prefix[i]].info.dependencies
      ensures d.name in prefix[..i]
    {
      assert list[i] == prefix[i] && list[..i] == prefix[..i];
    }
  }

  /**
   * In a list where every dependency comes first, `loaded()` is only called
   * on a plugin once each of its dependencies is registered and has an
   * object.
   */
  lemma {:induction false} LoadedAfterDependencies(loader: Loader, m: Registry, list: seq<string>)
    requires forall k :: k in list ==> k in m
    requires DependenciesFirst(m, list)
    ensures LoadsAfterDependencies(m, LoadMissing(loader, m, list).1)
  {
    if list != [] {
      var prefix, last := list[..|list| - 1], list[|list| - 1];
      assert forall k :: k in list <==> k in prefix || k == last;
      DependenciesFirstInit(m, list);
      LoadedAfterDependencies(loader, m, prefix);
      LoadMissingLive(loader, m, prefix);
      var (m1, e1) := LoadMissing(loader, m, prefix);
      if m1[last].iplugin.None? {
        LoadsStep(m, e1, last);
      } else {
        assert e1 + [] == e1;
      }
    }
  }

  /** Creating objects changes neither metadata, cache nor graph nodes, so the registry stays consistent. */
  lemma LoadMissingConsistent(loader: Loader, m: Registry, list: seq<string>, compatible: (string, string) -> bool)
    requires forall k :: k in list ==> k in m
    requires Consistent(m, compatible)
    ensures Consistent(LoadMissing(loader, m, list).0, compatible)
  {
    var r := LoadMissing(loader, m, list).0;
    assert SameRecords(m, r) by {
      forall k | k in m
        ensures r[k] == m[k].(iplugin := r[k].iplugin, lib := r[k].lib)
      {
      }
    }
    SameRecordsConsistent(m, r, compatible);
  }

  /** Entries that differ only in object and library are consistent together. */
  lemma SameRecordsConsistent(m1: Registry, m2: Registry, compatible: (string, string) -> bool)
    requires SameRecords(m1, m2) && Consistent(m1, compatible)
    ensures Consistent(m2, compatible)
  {
    assert Infos(m2) == Infos(m1);
  }

  // The getters over a registry value. The class's getters below are these
  // applied to `p.pluginsMap`; the request dispatcher, which is handed the
  // registry rather than a manager object, uses them directly.

  /** `pluginsCount()`: every registered plugin, found by a search, loaded or not. */
  function Count(m: Registry): nat
  {
    |m|
  }

  /** `hasPlugin(name)`. */
  predicate Has(m: Registry, name: string)
  {
    name in m
  }

  /** `isPluginLoaded(name)`: registered, with its library loaded and an object created. */
  predicate LoadedIn(m: Registry, name: string)
  {
    Has(m, name) && m[name].lib.IsLoaded() && m[name].iplugin.Some?
  }

  /** `pluginInfo(name)`: the C record of a registered plugin; None for the record with null fields. */
  function InfoOf(m: Registry, name: string): Option<PluginInfo>
  {
    if Has(m, name) then Some(CInfo(m[name].info)) else None
  }

  /** The older generation's `PluginManager`, over its private part `_p`. */
  class PluginManager {
    const p: PlugMgrPrivate

    /** The invariant every operation keeps. */
    ghost predicate Valid()
      reads p
    {
      Consistent(p.pluginsMap, p.compatible) && Distinct(p.loadOrderList)
    }

    /** `PluginManager()`: an empty registry. */
    constructor(loader: Loader, compatible: (string, string) -> bool)
      ensures Valid() && fresh(p)
      ensures p.pluginsMap == map[] && p.loadOrderList == [] && p.locations == [] && p.events == []
      ensures p.loader == loader && p.compatible == compatible
    {
      p := new PlugMgrPrivate(loader, compatible);
    }

    function PluginsCount(): (n: nat)
      reads p
      ensures n == |p.pluginsMap.Keys|
    {
      Count(p.pluginsMap)
    }

    predicate HasPlugin(name: string)
      reads p
      ensures HasPlugin(name) <==> Has(p.pluginsMap, name)
    {
      Has(p.pluginsMap, name)
    }

    /** `hasPlugin(name, minVersion)`: registered, in a version compatible with `minVersion`. */
    predicate HasPluginMinVersion(name: string, minVersion: string)
      reads p
      ensures HasPluginMinVersion(name, minVersion) ==> HasPlugin(name)
      ensures HasPluginMinVersion(name, minVersion) <==>
                HasPlugin(name) && p.compatible(p.pluginsMap[name].info.version, minVersion)
    {
      Has(p.pluginsMap, name) && p.compatible(p.pluginsMap[name].info.version, minVersion)
    }

    predicate IsPluginLoaded(name: string)
      reads p
      ensures IsPluginLoaded(name) ==> HasPlugin(name)
      ensures IsPluginLoaded(name) <==> LoadedIn(p.pluginsMap, name)
    {
      LoadedIn(p.pluginsMap, name)
    }

    function PluginInfoOf(name: string): (info: Option<PluginInfo>)
      reads p
      ensures info.Some? <==> HasPlugin(name)
      ensures info.Some? ==> info.value == CInfo(p.pluginsMap[name].info)
    {
      InfoOf(p.pluginsMap, name)
    }

    /**
     * `searchForPlugins(pluginDir, recursive)`, with the listing's outcome
     * (`listed`: no error; `libList`: the paths found, possibly some even
     * after an error) and the result of opening each path as parameters.
     * A listing error with no path gives SEARCH_LISTFILES_ERROR and changes
     * nothing; otherwise every path is tried in order, and the result is
     * SUCCESS when at least one new plugin was registered, in which case
     * `pluginDir` joins `locations` unless it is there already.
     */
    method SearchForPlugins(pluginDir: string, listed: bool, libList: seq<string>, probe: string -> Probe)
      returns (code: ReturnCode)
      requires Valid()
      modifies p`pluginsMap, p`locations
      ensures Valid()
      ensures !listed && libList == [] ==>
                code.kind == SearchListFilesError && p.pluginsMap == old(p.pluginsMap) && p.locations == old(p.locations)
      ensures listed || libList != [] ==>
                p.pluginsMap == Scan(old(p.pluginsMap), libList, probe) &&
                (code.IsSuccess() <==> p.pluginsMap.Keys != old(p.pluginsMap.Keys)) &&
                (!code.IsSuccess() ==> code.kind == SearchNothingFound) &&
                p.locations == if code.IsSuccess() && pluginDir !in old(p.locations)
                               then old(p.locations) + [pluginDir] else old(p.locations)
      ensures Distinct(old(p.locations)) ==> Distinct(p.locations)
    {
      if !listed && libList == [] {
        return ReturnCode(SearchListFilesError);
      }
      ghost var m0 := p.pluginsMap;
      var atLeastOneFound := false;
      var i := 0;
      while i < |libList|
        invariant 0 <= i <= |libList|
        invariant p.pluginsMap == Scan(m0, libList[..i], probe)
        invariant atLeastOneFound <==> p.pluginsMap.Keys != m0.Keys
        invariant p.locations == old(p.locations)
      {
        var path := libList[i];
        var found := probe(path);
        assert libList[..i + 1][..i] == libList[..i];
        if found.Library? && found.lib.IsLoaded() && found.exportsSymbols {
          var name := found.name;
          if name !in p.pluginsMap && found.info.Some? {
            p.pluginsMap := p.pluginsMap[name := NewPlugin(found.lib, path, found.info.value)];
            atLeastOneFound := true;
          }
        }
        i := i + 1;
      }
      assert libList[..i] == libList;
      ScanConsistent(m0, libList, probe, p.compatible);
      if atLeastOneFound {
        if pluginDir !in p.locations {
          if Distinct(p.locations) {
            AppendFresh(p.locations, pluginDir);
          }
          p.locations := p.locations + [pluginDir];
        }
        return ReturnCode(Success);
      }
      return ReturnCode(SearchNothingFound);
    }

    /**
     * The first loop of `loadPlugins`: `checkDependencies` on every
     * registered plugin, in the map's order. Unless `tryToContinue`, the
     * first failure is returned at once. Each plugin whose cache entry is
     * then True becomes the next graph node, with no parents yet. On
     * completion the nodes are exactly the plugins whose check passes.
     */
    method CheckAll(tryToContinue: bool, ghost rank: map<string, nat>)
      returns (failure: Option<ReturnCode>, nodeList: seq<Graphs.Node>, ghost names: seq<string>)
      requires Consistent(p.pluginsMap, p.compatible) && Ranked(Infos(p.pluginsMap), p.compatible, rank)
      modifies p`pluginsMap
      ensures CheckedOnly(old(p.pluginsMap), p.pluginsMap) && Coherent(old(p.pluginsMap), p.pluginsMap, p.compatible, rank)
      ensures Consistent(p.pluginsMap, p.compatible)
      ensures failure.Some? ==>
                !tryToContinue &&
                (failure.value.kind == LoadDependencyNotFound || failure.value.kind == LoadDependencyBadVersion) &&
                exists k :: k in old(p.pluginsMap) && !Cached(old(p.pluginsMap), p.compatible, rank, k)
      ensures failure.None? && !tryToContinue ==>
                forall k :: k in old(p.pluginsMap) ==> Cached(old(p.pluginsMap), p.compatible, rank, k)
      ensures failure.None? ==>
                Numbered(p.pluginsMap, p.compatible, names) &&
                (forall k :: k in old(p.pluginsMap) ==> (k in names <==> Cached(old(p.pluginsMap), p.compatible, rank, k))) &&
                |nodeList| == |names| &&
                forall i :: 0 <= i < |names| ==> nodeList[i] == Graphs.Node(names[i], [], Graphs.Unmarked)
    {
      ghost var m0 := p.pluginsMap;
      var remaining := p.pluginsMap.Keys;
      ghost var done: set<string> := {};
      nodeList, names := [], [];
      while remaining != {}
        invariant CheckLoop(m0, p.pluginsMap, p.compatible, rank, remaining, done, names, nodeList, !tryToContinue)
        decreases remaining
      {
        var key :| key in remaining;
        var retCode := CheckOne(key, m0, rank, remaining, done, names, nodeList, !tryToContinue);
        if !tryToContinue && !retCode.IsSuccess() {
          CheckingConsistent(m0, p.pluginsMap, p.compatible, rank, done, names);
          return Some(retCode), nodeList, names;
        }
        if p.pluginsMap[key].dependenciesExists.EqualsBool(true) {
          CheckLoopNumber(m0, p.pluginsMap, p.compatible, rank, remaining, done, names, nodeList, !tryToContinue, key);
          assert |nodeList| == |names|;
          nodeList := nodeList + [Graphs.Node(key, [], Graphs.Unmarked)];
          assert |nodeList| - 1 == |names|;
          p.pluginsMap := p.pluginsMap[key := p.pluginsMap[key].(graphId := |nodeList| - 1)];
          names := names + [key];
        } else {
          CheckLoopSkip(m0, p.pluginsMap, p.compatible, rank, remaining, done, names, nodeList, !tryToContinue, key);
        }
        remaining := remaining - {key};
        done := done + {key};
      }
      CheckingDone(m0, p.pluginsMap, p.compatible, rank, names);
      return None, nodeList, names;
    }

    /** `checkDependencies` on one plugin in the first loop of `loadPlugins`. */
    method CheckOne(key: string, ghost m0: Registry, ghost rank: map<string, nat>, ghost remaining: set<string>,
                    ghost done: set<string>, ghost names: seq<string>, ghost nodeList: seq<Graphs.Node>, ghost strict: bool)
      returns (retCode: ReturnCode)
      requires CheckLoop(m0, p.pluginsMap, p.compatible, rank, remaining, done, names, nodeList, strict) && key in remaining
      modifies p`pluginsMap
      ensures CheckLoop(m0, p.pluginsMap, p.compatible, rank, remaining, done, names, nodeList, strict)
      ensures key in p.pluginsMap && (p.pluginsMap[key].dependenciesExists.EqualsBool(true) <==> Cached(m0, p.compatible, rank, key))
      ensures retCode.IsSuccess() <==> Cached(m0, p.compatible, rank, key)
      ensures retCode.kind == Success || retCode.kind == LoadDependencyNotFound || retCode.kind == LoadDependencyBadVersion
    {
      var checked;
      retCode, checked := CheckDependencies(p.pluginsMap, key, p.compatible, rank);
      CheckLoopChecked(m0, p.pluginsMap, checked, p.compatible, rank, remaining, done, names, nodeList, strict, key);
      p.pluginsMap := checked;
    }

    /**
     * The second loop of `loadPlugins`: the node of every numbered plugin
     * gets, in declared order, the node of each of its dependencies as a
     * parent.
     */
    method LinkParents(nodeList: seq<Graphs.Node>, ghost names: seq<string>) returns (nodes: seq<Graphs.Node>)
      requires Numbered(p.pluginsMap, p.compatible, names) && |nodeList| == |names|
      requires forall i :: 0 <= i < |names| ==> nodeList[i] == Graphs.Node(names[i], [], Graphs.Unmarked)
      ensures |nodes| == |names|
      ensures forall i :: 0 <= i < |names| ==>
                nodes[i] == Graphs.Node(names[i], Parents(p.pluginsMap, p.compatible, names)[i], Graphs.Unmarked)
    {
      var m := p.pluginsMap;
      ghost var ps := Parents(m, p.compatible, names);
      NumberedAllDeps(m, p.compatible, names);
      nodes := nodeList;
      var todo := m.Keys;
      while todo != {}
        invariant todo <= m.Keys && |nodes| == |names|
        invariant forall i :: 0 <= i < |names| ==>
                    nodes[i] == Graphs.Node(names[i], if names[i] in todo then [] else ps[i], Graphs.Unmarked)
        decreases todo
      {
        var key :| key in todo;
        var nodeId := m[key].graphId;
        if nodeId != -1 {
          assert key in names;
          ghost var n :| 0 <= n < |names| && names[n] == key;
          assert n == nodeId && nodes[nodeId].parentNodes == [];
          ParentsAt(m, p.compatible, names, nodeId);
          nodes := LinkOne(nodes, nodeId, m[key].info.dependencies);
          EmptyConcat(ps[nodeId]);
          assert nodes[nodeId] == Graphs.Node(key, ps[nodeId], Graphs.Unmarked);
        }
        forall i | 0 <= i < |names|
          ensures nodes[i] == Graphs.Node(names[i], if names[i] in todo - {key} then [] else ps[i], Graphs.Unmarked)
        {
          if names[i] == key {
            assert nodeId == i;
          } else if nodeId != -1 {
            assert i != nodeId;
          }
        }
        todo := todo - {key};
      }
    }

    /** The inner loop of the second loop: the node of each dependency, pushed in declared order. */
    method LinkOne(nodes: seq<Graphs.Node>, nodeId: int, deps: seq<Dependency>) returns (linked: seq<Graphs.Node>)
      requires 0 <= nodeId < |nodes| && forall d :: d in deps ==> d.name in p.pluginsMap
      ensures linked == nodes[nodeId := nodes[nodeId].(parentNodes := nodes[nodeId].parentNodes + DepIds(p.pluginsMap, deps))]
    {
      linked := nodes;
      assert nodes[nodeId].parentNodes + DepIds(p.pluginsMap, deps[..0]) == nodes[nodeId].parentNodes;
      var j := 0;
      while j < |deps|
        invariant 0 <= j <= |deps|
        invariant linked == nodes[nodeId := nodes[nodeId].(parentNodes := nodes[nodeId].parentNodes + DepIds(p.pluginsMap, deps[..j]))]
      {
        assert deps[..j + 1][..j] == deps[..j];
        AppendAssoc(nodes[nodeId].parentNodes, DepIds(p.pluginsMap, deps[..j]), [p.pluginsMap[deps[j].name].graphId]);
        linked := linked[nodeId := linked[nodeId].(parentNodes := linked[nodeId].parentNodes + [p.pluginsMap[deps[j].name].graphId])];
        j := j + 1;
      }
      assert deps[..j] == deps;
    }

    /**
     * The fourth step of `loadPlugins`: for each name of `loadOrderList`,
     * in order, a plugin without an object gets one from `jp_createPlugin`,
     * then `loaded()` is called on it. `get` dereferences the symbol, so it
     * must be exported and not null.
     */
    method LoadInOrder()
      requires forall k :: k in p.loadOrderList ==>
                 k in p.pluginsMap && (p.pluginsMap[k].iplugin.None? ==> ExportsCreator(p.loader, k))
      modifies p`pluginsMap, p`events
      ensures p.pluginsMap == LoadMissing(p.loader, old(p.pluginsMap), p.loadOrderList).0
      ensures p.events == old(p.events) + LoadMissing(p.loader, old(p.pluginsMap), p.loadOrderList).1
    {
      ghost var m0 := p.pluginsMap;
      ghost var e0 := p.events;
      var list := p.loadOrderList;
      var i := 0;
      while i < |list|
        invariant 0 <= i <= |list|
        invariant forall k :: k in list[..i] ==> k in list
        invariant p.pluginsMap == LoadMissing(p.loader, m0, list[..i]).0
        invariant p.events == e0 + LoadMissing(p.loader, m0, list[..i]).1
      {
        var name := list[i];
        ghost var done := list[..i];
        assert list[..i + 1] == done + [name];
        assert forall k :: k in done + [name] ==> k in list;
        LoadMissingSnoc(p.loader, m0, done, name);
        ghost var before := LoadMissing(p.loader, m0, done);
        assert name in m0 && (m0[name].iplugin.None? ==> ExportsCreator(p.loader, name));
        assert before.0[name].iplugin.None? ==> m0[name].iplugin.None?;
        CreateIfMissing(name);
        AppendAssoc(e0, before.1, LoadIfMissing(p.loader, before.0, name).1);
        i := i + 1;
        assert list[..i] == done + [name];
      }
      assert list[..i] == list;
    }

    /**
     * The second and third steps of `loadPlugins`: the parents are linked,
     * the graph is built and sorted. On a cycle the list is empty;
     * otherwise it lists each numbered plugin once, every dependency
     * before the plugins that need it.
     */
    method SortNodes(nodeList: seq<Graphs.Node>, ghost names: seq<string>) returns (list: seq<string>, error: bool)
      requires Numbered(p.pluginsMap, p.compatible, names) && Unlinked(nodeList, names)
      ensures error ==> list == [] && !Graphs.Acyclic(Parents(p.pluginsMap, p.compatible, names))
      ensures !error ==> Distinct(list) && (forall k :: k in list <==> k in names) && DependenciesFirst(p.pluginsMap, list)
    {
      var nodes := LinkParents(nodeList, names);
      ghost var ps := Parents(p.pluginsMap, p.compatible, names);
      ParentsInRange(p.pluginsMap, p.compatible, names);
      var graph := new Graphs.Graph(nodes);
      assert graph.names == names && graph.parents == ps;
      ghost var ids, cycle;
      list, error, ids, cycle := graph.TopologicalSort();
      if !error {
        SortedAll(names, list, ids);
        SortedDependenciesFirst(p.pluginsMap, p.compatible, names, list, ids);
      }
    }

    /** One name of the fourth step: `jp_createPlugin` and `loaded()` unless the plugin has an object. */
    method CreateIfMissing(name: string)
      requires name in p.pluginsMap && (p.pluginsMap[name].iplugin.None? ==> ExportsCreator(p.loader, name))
      modifies p`pluginsMap, p`events
      ensures p.pluginsMap == LoadIfMissing(p.loader, old(p.pluginsMap), name).0
      ensures p.events == old(p.events) + LoadIfMissing(p.loader, old(p.pluginsMap), name).1
    {
      var plugin := p.pluginsMap[name];
      if plugin.iplugin.None? {
        ghost var e0 := p.events;
        var lib := plugin.lib.GetImpl(p.loader.createSymbol(name)).1;
        p.events := p.events + [Created(name, [])];
        p.pluginsMap := p.pluginsMap[name := plugin.(iplugin := Some(Instance(name)), lib := lib)];
        p.events := p.events + [Loaded(name)];
        assert p.events == e0 + [Created(name, []), Loaded(name)];
        assert p.pluginsMap[name] == Instantiated(p.loader, name, plugin);
      } else {
        assert p.events + [] == p.events;
      }
    }

    /**
     * `loadPlugins(tryToContinue)`. `rank` ranks every compatible
     * dependency below its plugin, which makes every `checkDependencies`
     * call return; `checked` is the registry once every check has run.
     * A failed check stops everything unless `tryToContinue`. The cycle
     * branch is kept as the source has it, but under the ranking the graph
     * has no cycle, so it is never taken. Otherwise `loadOrderList` holds
     * exactly the plugins whose dependencies check out, each after its
     * dependencies, and those without an object are created and loaded in
     * that order.
     */
    method LoadPlugins(tryToContinue: bool, ghost rank: map<string, nat>) returns (code: ReturnCode, ghost checked: Registry)
      requires Valid() && Ranked(Infos(p.pluginsMap), p.compatible, rank)
      requires forall k :: k in p.pluginsMap && Cached(p.pluginsMap, p.compatible, rank, k) && p.pluginsMap[k].iplugin.None? ==>
                 ExportsCreator(p.loader, k)
      modifies p`pluginsMap, p`loadOrderList, p`events
      ensures Valid()
      ensures CheckedOnly(old(p.pluginsMap), checked) && Coherent(old(p.pluginsMap), checked, p.compatible, rank)
      // LOAD_DEPENDENCY_CYCLE is never returned: the ranking leaves the sorted graph without a cycle.
      ensures code.kind == Success || code.kind == LoadDependencyNotFound || code.kind == LoadDependencyBadVersion
      ensures !code.IsSuccess() ==> p.pluginsMap == checked && p.events == old(p.events)
      ensures code.kind == LoadDependencyNotFound || code.kind == LoadDependencyBadVersion ==>
                !tryToContinue && p.loadOrderList == old(p.loadOrderList) &&
                exists k :: k in old(p.pluginsMap) && !Cached(old(p.pluginsMap), p.compatible, rank, k)
      ensures code.IsSuccess() ==>
                (forall k :: k in p.loadOrderList <==> k in old(p.pluginsMap) && Cached(old(p.pluginsMap), p.compatible, rank, k)) &&
                DependenciesFirst(checked, p.loadOrderList) &&
                p.pluginsMap == LoadMissing(p.loader, checked, p.loadOrderList).0 &&
                p.events == old(p.events) + LoadMissing(p.loader, checked, p.loadOrderList).1
      ensures code.IsSuccess() && !tryToContinue ==> forall k :: k in old(p.pluginsMap) ==> k in p.loadOrderList
    {
      ghost var m0 := p.pluginsMap;
      var failure, nodeList, names := CheckAll(tryToContinue, rank);
      checked := p.pluginsMap;
      if failure.Some? {
        return failure.value, checked;
      }
      assert Infos(checked) == Infos(m0);
      NumberedAcyclic(checked, p.compatible, names, rank);
      var list, error := SortNodes(nodeList, names);
      p.loadOrderList := list;
      if error {
        assert false;
        return ReturnCode(LoadDependencyCycle), checked;
      }
      forall k | k in list
        ensures k in checked && (checked[k].iplugin.None? ==> ExportsCreator(p.loader, k))
      {
        assert Cached(m0, p.compatible, rank, k) && checked[k].iplugin == m0[k].iplugin;
      }
      LoadInOrder();
      LoadMissingConsistent(p.loader, checked, list, p.compatible);
      return ReturnCode(Success), checked;
    }

    /**
     * `unloadPlugins()`: the plugins of `loadOrderList` are unloaded from the
     * back, then all the others; the registry and `locations` end empty, so
     * a new search is needed. UNLOAD_NOT_ALL when some library stayed loaded.
     */
    method UnloadPlugins() returns (code: ReturnCode, ghost order: seq<string>)
      requires Valid() && forall k :: k in p.loadOrderList ==> k in p.pluginsMap
      modifies p`pluginsMap, p`events, p`locations
      ensures Valid() && PluginsCount() == 0 && p.locations == []
      ensures code.kind == Success || code.kind == UnloadNotAll
      ensures UnloadedInOrder(p.loader, old(p.pluginsMap), old(p.events), p.loadOrderList, p.events, code.IsSuccess(), order)
    {
      var allUnloaded;
      allUnloaded, order := p.UnloadPluginsInOrder();
      if !allUnloaded {
        return ReturnCode(UnloadNotAll), order;
      }
      return ReturnCode(Success), order;
    }
  }
}
