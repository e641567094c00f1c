/**
 * The load and unload pipeline of the newer manager generation
 * (src/pluginmanagerprivate.cpp): plugins are instantiated front to back in
 * `loadOrderList`, each creator receiving the objects of its dependencies,
 * and unloaded back to front, then whatever is left in the registry.
 *
 * The calls into plugin objects and libraries are recorded, in order, in a
 * ghost trace of `Event`s. The dynamic loader's answers for each plugin's
 * library are a parameter (`Loader`).
 */
module PlugMgrPrivates {
  import opened Wrappers
  import opened SharedLib
  import opened PluginInfos
  import opened Plugins
  import opened Dependencies
  import opened Sequences

  /**
   * What the loader answers for the library of the plugin registered under a
   * name: the lookup of `jp_createPlugin`, the `dlclose` of `unloadPlugin`
   * and the `dlclose` of the destructor that follows it.
   */
  datatype Loader = Loader(createSymbol: string -> DlSym, closeFirst: string -> DlClose, closeAgain: string -> DlClose)

  /** `get` dereferences the creator symbol, so it must be found and not null. */
  predicate ExportsCreator(loader: Loader, key: string)
  {
    loader.createSymbol(key).Found? && loader.createSymbol(key).address != 0
  }

  /**
   * `pluginsMap[name]` on a missing name inserts an empty pointer, which is
   * then dereferenced: every dependency must be registered.
   */
  predicate DepsRegistered(m: Registry, key: string)
    requires key in m
  {
    forall d :: d in m[key].info.dependencies ==> d.name in m
  }

  /** What `loadPlugin` needs of each name it is given. */
  predicate Loadable(loader: Loader, m: Registry, key: string)
  {
    key in m && ExportsCreator(loader, key) && DepsRegistered(m, key)
  }

  /** The array handed to the creator: the current object of each dependency, in declared order. */
  function DependencyObjects(m: Registry, deps: seq<Dependency>): (objs: seq<Option<Instance>>)
    requires forall d :: d in deps ==> d.name in m
    ensures |objs| == |deps|
    ensures forall j :: 0 <= j < |deps| ==> objs[j] == m[deps[j].name].iplugin
  {
    if deps == [] then []
    else DependencyObjects(m, deps[..|deps| - 1]) + [m[deps[|deps| - 1].name].iplugin]
  }

  /** The entry after `loadPlugin`: a new object, and the library's error cleared by the symbol lookup. */
  function Instantiated(loader: Loader, key: string, p: Plugin): Plugin
  {
    p.(iplugin := Some(Instance(key)), lib := p.lib.GetImpl(loader.createSymbol(key)).1)
  }

  /**
   * `loadPlugin` on the entry registered under `key`: the creator runs with
   * the dependency objects, the previous object (if any) is deleted once the
   * new one is stored, then `loaded()` is called on the new one.
   */
  function LoadOne(loader: Loader, m: Registry, key: string): (r: (Registry, seq<Event>))
    requires Loadable(loader, m, key)
    ensures r.0.Keys == m.Keys && r.0[key] == Instantiated(loader, key, m[key])
    ensures r.0[key].iplugin == Some(Instance(key)) && !r.0[key].lib.HasError() && r.0[key].lib.handle == m[key].lib.handle
    ensures forall k :: k in m && k != key ==> r.0[k] == m[k]
    ensures |r.1| >= 2 && r.1[0] == Created(key, DependencyObjects(m, m[key].info.dependencies))
    ensures r.1[|r.1| - 1] == Loaded(key) && forall i :: 0 < i < |r.1| ==> !r.1[i].Created?
    ensures m[key].iplugin.Some? <==> |r.1| == 3 && r.1[1] == Released(key)
    ensures forall i :: 0 <= i < |r.1| ==> r.1[i].key == key
  {
    var created := [Created(key, DependencyObjects(m, m[key].info.dependencies))];
    var released := if m[key].iplugin.Some? then [Released(key)] else [];
    (m[key := Instantiated(loader, key, m[key])], created + released + [Loaded(key)])
  }

  /** Every listed name can be loaded. */
  predicate AllLoadable(loader: Loader, m: Registry, list: seq<string>)
  {
    forall k :: k in list ==> Loadable(loader, m, k)
  }

  /** `m2` differs from `m1` at most in the object and library of each entry. */
  ghost predicate SameRecords(m1: Registry, m2: Registry)
  {
    m2.Keys == m1.Keys &&
    forall k :: k in m1 ==> m2[k] == m1[k].(iplugin := m2[k].iplugin, lib := m2[k].lib)
  }

  /** Records that differ at most in object and library can load the same names. */
  lemma SameRecordsLoadable(loader: Loader, m1: Registry, m2: Registry, list: seq<string>)
    requires SameRecords(m1, m2) && AllLoadable(loader, m1, list)
    ensures AllLoadable(loader, m2, list)
  {
    forall k | k in list
      ensures Loadable(loader, m2, k)
    {
      assert m2[k].info == m1[k].info;
    }
  }

  /** `loadPluginsInOrder`: `loadPlugin` on each listed name, front to back. */
  function LoadAll(loader: Loader, m: Registry, list: seq<string>): (r: (Registry, seq<Event>))
    requires AllLoadable(loader, m, list)
    ensures SameRecords(m, r.0)
  {
    if list == [] then (m, [])
    else
      var (m1, e1) := LoadAll(loader, m, list[..|list| - 1]);
      var last := list[|list| - 1];
      assert last in list && m1[last].info == m[last].info;
      var (m2, e2) := LoadOne(loader, m1, last);
      assert forall k :: k in m1 ==> m2[k] == m1[k].(iplugin := m2[k].iplugin, lib := m2[k].lib);
      (m2, e1 + e2)
  }

  /** Loading one more name: `loadPlugin` on it after the others. */
  lemma LoadAllSnoc(loader: Loader, m: Registry, list: seq<string>, name: string)
    requires AllLoadable(loader, m, list + [name])
    ensures AllLoadable(loader, m, list)
    ensures var r := LoadAll(loader, m, list);
            Loadable(loader, r.0, name) &&
            LoadAll(loader, m, list + [name]) == (LoadOne(loader, r.0, name).0, r.1 + LoadOne(loader, r.0, name).1)
  {
    var all := list + [name];
    assert all[..|all| - 1] == list;
    assert forall k :: k in list ==> k in all;
    SameRecordsLoadable(loader, m, LoadAll(loader, m, list).0, [name]);
  }

  /**
   * After `loadPluginsInOrder` every listed plugin has its object, every
   * other entry is as it was, `loaded()` was called on exactly the listed
   * plugins, and no other plugin was touched.
   */
  lemma {:induction false} LoadAllEffect(loader: Loader, m: Registry, list: seq<string>)
    requires AllLoadable(loader, m, list)
    ensures var r := LoadAll(loader, m, list);
            (forall k :: k in list ==> r.0[k].iplugin == Some(Instance(k))) &&
            (forall k :: k in m && k !in list ==> r.0[k] == m[k]) &&
            (forall k :: Loaded(k) in r.1 <==> k in list) &&
            (forall e :: e in r.1 ==> e.key in list)
  {
    if list != [] {
      var prefix := list[..|list| - 1];
      var last := list[|list| - 1];
      assert forall k :: k in list <==> k in prefix || k == last;
      LoadAllEffect(loader, m, prefix);
      var (m1, e1) := LoadAll(loader, m, prefix);
      assert last in list && m1[last].info == m[last].info;
      var (m2, e2) := LoadOne(loader, m1, last);
      assert LoadAll(loader, m, list) == (m2, e1 + e2);
      assert Loaded(last) in e2;
    }
  }

  /** Every dependency of a listed plugin is listed before it. */
  ghost predicate DependenciesFirst(m: Registry, list: seq<string>)
  {
    forall i, d :: 0 <= i < |list| && list[i] in m && d in m[list[i]].info.dependencies ==> d.name in list[..i]
  }

  /**
   * The creator call `e` is given the object of every dependency of its
   * plugin, in declared order, none of them null, and each of them already
   * had `loaded()` called in `before`.
   */
  ghost predicate CreatorOk(m: Registry, e: Event, before: seq<Event>)
    requires e.Created?
  {
    e.key in m &&
    |e.deps| == |m[e.key].info.dependencies| &&
    forall j :: 0 <= j < |e.deps| ==>
      e.deps[j] == Some(Instance(m[e.key].info.dependencies[j].name)) &&
      Loaded(m[e.key].info.dependencies[j].name) in before
  }

  /** Each creator runs with the loaded objects of all its dependencies. */
  ghost predicate CreatorsGetLoadedDependencies(m: Registry, events: seq<Event>)
  {
    forall i :: 0 <= i < |events| && events[i].Created? ==> CreatorOk(m, events[i], events[..i])
  }

  /** Calls whose only creator call is the first one, and that one is well served, keep creators well served. */
  lemma CreatorsAppend(m: Registry, e1: seq<Event>, e2: seq<Event>)
    requires CreatorsGetLoadedDependencies(m, e1)
    requires forall i :: 0 < i < |e2| ==> !e2[i].Created?
    requires |e2| > 0 && e2[0].Created? ==> CreatorOk(m, e2[0], e1)
    ensures CreatorsGetLoadedDependencies(m, e1 + e2)
  {
    var ev := e1 + e2;
    forall i | 0 <= i < |ev| && ev[i].Created?
      ensures CreatorOk(m, ev[i], ev[..i])
    {
      if i < |e1| {
        assert ev[i] == e1[i] && ev[..i] == e1[..i];
      } else {
        assert ev[i] == e2[i - |e1|] && ev[..i] == e1;
      }
    }
  }

  /** The objects handed to a creator whose dependencies were all loaded. */
  lemma LiveObjects(m: Registry, deps: seq<Dependency>)
    requires forall d :: d in deps ==> d.name in m && m[d.name].iplugin == Some(Instance(d.name))
    ensures DependencyObjects(m, deps) == seq(|deps|, j requires 0 <= j < |deps| => Some(Instance(deps[j].name)))
  {
    assert forall j :: 0 <= j < |deps| ==> deps[j] in deps;
  }

  /** Loading `last` after `prefix`, where its dependencies all come in `prefix`: its creator is well served. */
  lemma LastCreatorOk(loader: Loader, m: Registry, prefix: seq<string>, last: string)
    requires AllLoadable(loader, m, prefix + [last]) && last in m
    requires forall d :: d in m[last].info.dependencies ==> d.name in prefix
    ensures AllLoadable(loader, m, prefix)
    ensures var r := LoadAll(loader, m, prefix);
            Loadable(loader, r.0, last) && CreatorOk(m, LoadOne(loader, r.0, last).1[0], r.1)
  {
    LoadAllSnoc(loader, m, prefix, last);
    LoadAllEffect(loader, m, prefix);
    var (m1, e1) := LoadAll(loader, m, prefix);
    var deps := m[last].info.dependencies;
    assert m1[last].info.dependencies == deps;
    LiveObjects(m1, deps);
    forall j | 0 <= j < |deps|
      ensures Loaded(deps[j].name) in e1
    {
      assert deps[j] in deps;
    }
  }

  /**
   * In a list where every dependency comes first, `loadPluginsInOrder`
   * calls every creator with the live objects of its dependencies, after
   * their `loaded()`.
   */
  lemma {:induction false} LoadAllGivesLoadedDependencies(loader: Loader, m: Registry, list: seq<string>)
    requires AllLoadable(loader, m, list) && DependenciesFirst(m, list)
    ensures CreatorsGetLoadedDependencies(m, LoadAll(loader, m, list).1)
  {
    if list != [] {
      var prefix := list[..|list| - 1];
      var last := list[|list| - 1];
      assert list == prefix + [last];
      assert DependenciesFirst(m, prefix) by {
        forall i, d | 0 <= i < |prefix| && prefix[i] in m && d in m[prefix[i]].info.dependencies
          ensures d.name in prefix[..i]
        {
          assert list[i] == prefix[i] && list[..i] == prefix[..i];
        }
      }
      assert forall d :: d in m[last].info.dependencies ==> d.name in prefix by {
        assert last in list && list[..|list| - 1] == prefix;
      }
      assert Loadable(loader, m, last);
      LastCreatorOk(loader, m, prefix, last);
      LoadAllGivesLoadedDependencies(loader, m, prefix);
      var (m1, e1) := LoadAll(loader, m, prefix);
      CreatorsAppend(m, e1, LoadOne(loader, m1, last).1);
    }
  }

  /**
   * `unloadPlugin` on the entry registered under `key`: `aboutToBeUnloaded()`
   * on a live object, then the object is deleted, then `lib.unload()`; the
   * result is whether the library is no longer loaded. Resetting the
   * pointer then runs the destructor, which unloads once more when the
   * first unload failed.
   */
  function UnloadPlugin(loader: Loader, key: string, p: Plugin): (r: (bool, seq<Event>))
    ensures r.0 <==> !p.lib.IsLoaded() || loader.closeFirst(key).Closed?
    ensures |r.1| == (if p.iplugin.Some? then 3 else 1) + (if r.0 then 0 else 1)
    ensures p.iplugin.Some? ==> r.1[0] == AboutToBeUnloaded(key) && r.1[1] == Released(key) && r.1[2] == LibraryUnload(key)
    ensures p.iplugin.None? ==> r.1[0] == LibraryUnload(key)
    ensures forall i :: 0 <= i < |r.1| && r.1[i].AboutToBeUnloaded? ==> i == 0 && p.iplugin.Some?
    ensures !r.0 ==> r.1[|r.1| - 1] == LibraryUnload(key)
    ensures forall i :: 0 <= i < |r.1| ==> r.1[i].key == key
  {
    var hook := if p.iplugin.Some? then [AboutToBeUnloaded(key), Released(key)] else [];
    var (_, lib) := p.lib.Unload(loader.closeFirst(key));
    var isLoaded := lib.IsLoaded();
    var (destroyed, _) := p.(iplugin := None, lib := lib).Destroy(key, loader.closeAgain(key));
    (!isLoaded, hook + [LibraryUnload(key)] + destroyed)
  }

  /** The calls made while unloading each entry of `m` named in `order`. */
  function Segments(loader: Loader, m: Registry, order: seq<string>): (segs: seq<seq<Event>>)
    requires forall k :: k in order ==> k in m
    ensures |segs| == |order|
    ensures forall i, k :: 0 <= i < |order| && 0 <= k < |segs[i]| ==> segs[i][k].key == order[i]
  {
    seq(|order|, i requires 0 <= i < |order| => UnloadPlugin(loader, order[i], m[order[i]]).1)
  }

  /** The calls made while unloading the entries of `m` named in `order`, one after the other. */
  function UnloadTrace(loader: Loader, m: Registry, order: seq<string>): seq<Event>
    requires forall k :: k in order ==> k in m
  {
    Concat(Segments(loader, m, order))
  }

  /** Whether every entry named in `order` reported its library unloaded. */
  predicate AllUnloaded(loader: Loader, m: Registry, order: seq<string>)
    requires forall k :: k in order ==> k in m
  {
    forall i :: 0 <= i < |order| ==> UnloadPlugin(loader, order[i], m[order[i]]).0
  }

  /** When `order` names exactly the entries, all of them reported their library unloaded iff each entry did. */
  lemma AllUnloadedKeys(loader: Loader, m: Registry, order: seq<string>)
    requires forall k :: k in order <==> k in m
    ensures AllUnloaded(loader, m, order) <==> forall k :: k in m ==> UnloadPlugin(loader, k, m[k]).0
  {
    if AllUnloaded(loader, m, order) {
      forall k | k in m
        ensures UnloadPlugin(loader, k, m[k]).0
      {
        var i :| 0 <= i < |order| && order[i] == k;
      }
    }
  }

  /** One more entry unloaded: its calls follow, and its result joins the others. */
  lemma UnloadOneMore(loader: Loader, m: Registry, order: seq<string>, name: string)
    requires forall k :: k in order ==> k in m
    requires name in m
    ensures forall k :: k in order + [name] ==> k in m
    ensures UnloadTrace(loader, m, order + [name]) == UnloadTrace(loader, m, order) + UnloadPlugin(loader, name, m[name]).1
    ensures AllUnloaded(loader, m, order + [name]) <==> AllUnloaded(loader, m, order) && UnloadPlugin(loader, name, m[name]).0
  {
    var segs := Segments(loader, m, order + [name]);
    assert segs[..|order|] == Segments(loader, m, order);
  }

  /** Segment `i` of `segs` holds only calls concerning `order[i]`. */
  ghost predicate Keyed(segs: seq<seq<Event>>, order: seq<string>)
  {
    |segs| == |order| &&
    forall i, k :: 0 <= i < |segs| && 0 <= k < |segs[i]| ==> segs[i][k].key == order[i]
  }

  /** The entry a call of the concatenated segments concerns, and the stretch of segments it lies in. */
  lemma LocateKeyed(segs: seq<seq<Event>>, order: seq<string>, a: int) returns (i: nat)
    requires Keyed(segs, order) && 0 <= a < |Concat(segs)|
    ensures i < |order| && Concat(segs)[a].key == order[i]
    ensures |Concat(segs[..i])| <= a < |Concat(segs[..i])| + |segs[i]|
  {
    i := ConcatLocate(segs, a);
  }

  /** Of two calls, one concerning `order[p]` and one concerning a later `order[q]`, the first comes first. */
  lemma KeyedBefore(segs: seq<seq<Event>>, order: seq<string>, p: int, q: int, a: int, b: int)
    requires Keyed(segs, order) && Distinct(order) && 0 <= p < q < |order|
    requires 0 <= a < |Concat(segs)| && Concat(segs)[a].key == order[p]
    requires 0 <= b < |Concat(segs)| && Concat(segs)[b].key == order[q]
    ensures a < b
  {
    var ia := LocateKeyed(segs, order, a);
    var ib := LocateKeyed(segs, order, b);
    DistinctIndex(order, ia, p);
    DistinctIndex(order, ib, q);
    ConcatGrows(segs, p, q);
  }

  /**
   * Unloading is sequential: every call concerning the entry at position
   * `p` of `order` is made before every call concerning a later entry.
   */
  lemma EarlierUnloadedFirst(loader: Loader, m: Registry, order: seq<string>, p: int, q: int)
    requires forall k :: k in order ==> k in m
    requires Distinct(order) && 0 <= p < q < |order|
    ensures var t := UnloadTrace(loader, m, order);
            forall a, b :: 0 <= a < |t| && 0 <= b < |t| && t[a].key == order[p] && t[b].key == order[q] ==> a < b
  {
    var segs := Segments(loader, m, order);
    assert Keyed(segs, order);
    var t := Concat(segs);
    forall a, b | 0 <= a < |t| && 0 <= b < |t| && t[a].key == order[p] && t[b].key == order[q]
      ensures a < b
    {
      KeyedBefore(segs, order, p, q, a, b);
    }
  }

  /**
   * Progress of the unloading loops from registry `m0` and trace `e0`: the
   * entries named in `order` have been unloaded and erased, in that order.
   */
  ghost predicate Unloading(loader: Loader, m0: Registry, e0: seq<Event>, m: Registry, events: seq<Event>,
                            allUnloaded: bool, order: seq<string>)
  {
    Erased(m0, m, order) &&
    (allUnloaded <==> AllUnloaded(loader, m0, order)) &&
    events == e0 + UnloadTrace(loader, m0, order)
  }

  /** One more entry unloaded and erased. */
  lemma UnloadingStep(loader: Loader, m0: Registry, e0: seq<Event>, m: Registry, events: seq<Event>,
                      allUnloaded: bool, order: seq<string>, name: string)
    requires Unloading(loader, m0, e0, m, events, allUnloaded, order) && name in m
    ensures var r := UnloadPlugin(loader, name, m[name]);
            Unloading(loader, m0, e0, m - {name}, events + r.1, allUnloaded && r.0, order + [name])
  {
    ErasedStep(m0, m, order, name);
    UnloadOneMore(loader, m0, order, name);
    AppendAssoc(e0, UnloadTrace(loader, m0, order), UnloadPlugin(loader, name, m[name]).1);
  }

  /** Unloading `list` in reverse, a call concerning `list[i]` comes before one concerning an earlier `list[j]`. */
  lemma KeyedReversedBefore(segs: seq<seq<Event>>, list: seq<string>, order: seq<string>, i: int, j: int, a: int, b: int)
    requires Keyed(segs, order) && Distinct(order)
    requires |list| <= |order| && order[..|list|] == Reversed(list) && 0 <= j < i < |list|
    requires 0 <= a < |Concat(segs)| && Concat(segs)[a].key == list[i]
    requires 0 <= b < |Concat(segs)| && Concat(segs)[b].key == list[j]
    ensures a < b
  {
    var t := Concat(segs);
    ReversedPositions(list, order, i, j, t[a].key, t[b].key);
    KeyedBefore(segs, order, |list| - 1 - i, |list| - 1 - j, a, b);
  }

  /**
   * The outcome of `unloadPluginsInOrder` on registry `m0` with load order
   * `list`: every entry was unloaded, once, in `order`, which starts with
   * `list` reversed; the result says whether each library reported itself
   * unloaded; and the calls made are those of the entries, one after the
   * other in that order.
   */
  ghost predicate UnloadedInOrder(loader: Loader, m0: Registry, e0: seq<Event>, list: seq<string>,
                                  events: seq<Event>, allUnloaded: bool, order: seq<string>)
  {
    Distinct(order) && (forall k :: k in order <==> k in m0) &&
    |list| <= |order| && order[..|list|] == Reversed(list) &&
    (allUnloaded <==> AllUnloaded(loader, m0, order)) &&
    (allUnloaded <==> forall k :: k in m0 ==> UnloadPlugin(loader, k, m0[k]).0) &&
    events == e0 + UnloadTrace(loader, m0, order)
  }

  /** Both loops done: every entry was unloaded and erased, the listed ones first, from the back. */
  lemma UnloadDone(loader: Loader, m0: Registry, e0: seq<Event>, events: seq<Event>, allUnloaded: bool,
                   list: seq<string>, listed: seq<string>, order: seq<string>)
    requires Unloading(loader, m0, e0, map[], events, allUnloaded, order)
    requires |listed| <= |order| && order[..|listed|] == listed && listed == Reversed(list)
    ensures UnloadedInOrder(loader, m0, e0, list, events, allUnloaded, order)
  {
    ErasedAll(m0, order);
    StartsReversed(order, listed, list);
    AllUnloadedKeys(loader, m0, order);
  }

  /**
   * Unloading a list where every dependency comes first in reverse: every
   * call concerning a plugin, down to the unloading of its library, is made
   * before any call concerning one of its dependencies, so the dependencies
   * stay valid until `aboutToBeUnloaded()` has returned.
   */
  lemma UnloadDependentsFirst(loader: Loader, m: Registry, list: seq<string>, order: seq<string>)
    requires forall k :: k in order ==> k in m
    requires forall k :: k in list ==> k in m
    requires Distinct(order) && |list| <= |order| && order[..|list|] == Reversed(list)
    requires DependenciesFirst(m, list)
    ensures var t := UnloadTrace(loader, m, order);
            forall i, d, a, b ::
              (0 <= i < |list| && d in m[list[i]].info.dependencies &&
               0 <= a < |t| && 0 <= b < |t| && t[a].key == list[i] && t[b].key == d.name) ==> a < b
  {
    var segs := Segments(loader, m, order);
    assert Keyed(segs, order);
    var t := Concat(segs);
    forall i, d, a, b | 0 <= i < |list| && d in m[list[i]].info.dependencies &&
                        0 <= a < |t| && 0 <= b < |t| && t[a].key == list[i] && t[b].key == d.name
      ensures a < b
    {
      var j := PrefixIndex(list, i, d.name);
      KeyedReversedBefore(segs, list, order, i, j, a, b);
    }
  }

  /** The newer generation's `PlugMgrPrivate`: the registry, the last load order and the search locations. */
  class PlugMgrPrivate {
    var pluginsMap: Registry
    var loadOrderList: seq<string>
    var locations: seq<string>
    /** The calls made into plugin objects and libraries so far. */
    ghost var events: seq<Event>
    const loader: Loader
    /** `Version(have).compatible(want)`, from the version library. */
    const compatible: (string, string) -> bool

    constructor(loader: Loader, compatible: (string, string) -> bool)
      ensures pluginsMap == map[] && loadOrderList == [] && locations == [] && events == []
      ensures this.loader == loader && this.compatible == compatible
    {
      this.loader := loader;
      this.compatible := compatible;
      pluginsMap := map[];
      loadOrderList := [];
      locations := [];
      events := [];
    }

    /** `loadPlugin(pluginsMap[key])`. */
    method LoadPlugin(key: string)
      requires Loadable(loader, pluginsMap, key)
      modifies this
      ensures (pluginsMap, events) == (LoadOne(loader, old(pluginsMap), key).0,
                                       old(events) + LoadOne(loader, old(pluginsMap), key).1)
      ensures loadOrderList == old(loadOrderList) && locations == old(locations)
    {
      var plugin := pluginsMap[key];
      var lib := plugin.lib.GetImpl(loader.createSymbol(key)).1;
      var deps := plugin.info.dependencies;
      var depPlugins: seq<Option<Instance>> := [];
      var i := 0;
      while i < |deps|
        invariant 0 <= i <= |deps|
        invariant depPlugins == DependencyObjects(pluginsMap, deps[..i])
      {
        assert deps[i] in deps;
        assert deps[..i + 1][..i] == deps[..i];
        depPlugins := depPlugins + [pluginsMap[deps[i].name].iplugin];
        i := i + 1;
      }
      assert deps[..i] == deps;
      ghost var e0 := events;
      events := events + [Created(key, depPlugins)];
      if plugin.iplugin.Some? {
        events := events + [Released(key)];
      }
      pluginsMap := pluginsMap[key := plugin.(iplugin := Some(Instance(key)), lib := lib)];
      events := events + [Loaded(key)];
      assert events == e0 + LoadOne(loader, old(pluginsMap), key).1;
    }

    /** `loadPluginsInOrder`: `loadPlugin(pluginsMap.at(name))` for each name of `loadOrderList`, in order. */
    method LoadPluginsInOrder()
      requires AllLoadable(loader, pluginsMap, loadOrderList)
      modifies this
      ensures loadOrderList == old(loadOrderList) && locations == old(locations)
      ensures (pluginsMap, events) == (LoadAll(loader, old(pluginsMap), loadOrderList).0,
                                       old(events) + LoadAll(loader, old(pluginsMap), loadOrderList).1)
    {
      ghost var m0 := pluginsMap;
      ghost var e0 := events;
      var i := 0;
      while i < |loadOrderList|
        invariant 0 <= i <= |loadOrderList| && loadOrderList == old(loadOrderList) && locations == old(locations)
        invariant AllLoadable(loader, m0, loadOrderList[..i])
        invariant pluginsMap == LoadAll(loader, m0, loadOrderList[..i]).0
        invariant events == e0 + LoadAll(loader, m0, loadOrderList[..i]).1
      {
        var name := loadOrderList[i];
        ghost var done := loadOrderList[..i];
        assert loadOrderList[..i + 1] == done + [name];
        assert forall k :: k in done + [name] ==> k in loadOrderList;
        LoadAllSnoc(loader, m0, done, name);
        ghost var e1 := LoadAll(loader, m0, done).1;
        LoadPlugin(name);
        AppendAssoc(e0, e1, LoadOne(loader, LoadAll(loader, m0, done).0, name).1);
        i := i + 1;
      }
      assert loadOrderList[..i] == loadOrderList;
    }

    /**
     * `unloadPluginsInOrder`: unloads and erases the entries of
     * `loadOrderList` from the back, then the remaining entries in the
     * map's order, and clears `locations`. Every listed name must be a key,
     * once: `pluginsMap[name]` on a missing name inserts an empty pointer
     * that `unloadPlugin` dereferences. `order` is the order entries were
     * unloaded in.
     */
    method UnloadPluginsInOrder() returns (allUnloaded: bool, ghost order: seq<string>)
      requires forall k :: k in loadOrderList ==> k in pluginsMap
      requires Distinct(loadOrderList)
      modifies this`pluginsMap, this`events, this`locations
      ensures pluginsMap == map[] && locations == []
      ensures UnloadedInOrder(loader, old(pluginsMap), old(events), loadOrderList, events, allUnloaded, order)
    {
      ghost var m0 := pluginsMap;
      ghost var e0 := events;
      ghost var listed;
      allUnloaded, listed := UnloadListed();
      allUnloaded, order := UnloadRest(m0, e0, allUnloaded, listed);
      locations := [];
      UnloadDone(loader, m0, e0, events, allUnloaded, loadOrderList, listed, order);
    }

    /** The first loop: the entries of `loadOrderList`, from the back. */
    method UnloadListed() returns (allUnloaded: bool, ghost order: seq<string>)
      requires forall k :: k in loadOrderList ==> k in pluginsMap
      requires Distinct(loadOrderList)
      modifies this`pluginsMap, this`events
      ensures Unloading(loader, old(pluginsMap), old(events), pluginsMap, events, allUnloaded, order)
      ensures order == Reversed(loadOrderList)
    {
      ghost var m0 := pluginsMap;
      ghost var e0 := events;
      allUnloaded := true;
      order := [];
      var n := |loadOrderList|;
      while n > 0
        invariant 0 <= n <= |loadOrderList|
        invariant order == Reversed(loadOrderList[n..])
        invariant Unloading(loader, m0, e0, pluginsMap, events, allUnloaded, order)
      {
        var name := loadOrderList[n - 1];
        ReversedTailStep(loadOrderList, n, order);
        ErasedHas(m0, pluginsMap, order, name);
        allUnloaded, order := UnloadEntry(name, m0, e0, allUnloaded, order);
        n := n - 1;
      }
      assert loadOrderList[0..] == loadOrderList;
    }

    /** The second loop: whatever is left, in the map's order. */
    method UnloadRest(ghost m0: Registry, ghost e0: seq<Event>, all: bool, ghost order: seq<string>)
      returns (allUnloaded: bool, ghost order': seq<string>)
      requires Unloading(loader, m0, e0, pluginsMap, events, all, order)
      modifies this`pluginsMap, this`events
      ensures Unloading(loader, m0, e0, pluginsMap, events, allUnloaded, order') && pluginsMap == map[]
      ensures |order| <= |order'| && order'[..|order|] == order
    {
      allUnloaded, order' := all, order;
      while pluginsMap != map[]
        invariant Unloading(loader, m0, e0, pluginsMap, events, allUnloaded, order')
        invariant |order| <= |order'| && order'[..|order|] == order
        decreases |pluginsMap|
      {
        var name :| name in pluginsMap;
        PrefixKept(order', order, name);
        allUnloaded, order' := UnloadEntry(name, m0, e0, allUnloaded, order');
      }
    }

    /** One iteration of either loop: `unloadPlugin` on the entry, then `erase`. */
    method UnloadEntry(name: string, ghost m0: Registry, ghost e0: seq<Event>, all: bool, ghost order: seq<string>)
      returns (all': bool, ghost order': seq<string>)
      requires Unloading(loader, m0, e0, pluginsMap, events, all, order) && name in pluginsMap
      modifies this`pluginsMap, this`events
      ensures Unloading(loader, m0, e0, pluginsMap, events, all', order') && order' == order + [name]
      ensures |pluginsMap| < old(|pluginsMap|)
    {
      var (ok, trace) := UnloadPlugin(loader, name, pluginsMap[name]);
      UnloadingStep(loader, m0, e0, pluginsMap, events, all, order, name);
      events := events + trace;
      all' := all && ok;
      pluginsMap := pluginsMap - {name};
      order' := order + [name];
    }
  }
}
