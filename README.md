# JustPlug plugin registry — a Dafny model

JustPlug is a C++ plugin manager. It searches directories for shared
libraries that export a plugin name and JSON metadata. It checks that each
plugin's declared dependencies are registered in a compatible version, then
sorts the plugins with a depth-first topological sort so that dependencies
come first. It instantiates the plugins in that order, answers the requests
plugins send it, and unloads everything in reverse order.

This project models that core and proves what it promises. The model is
split into one module per component:

- `TriBools` (`tribool.dfy`): the three-state flag that caches a plugin's
  dependency check.
- `CStringUtil` (`cstringutil.dfy`): C strings, `contains`/`containsOnly` and
  the plugin-name rule of `JP_REGISTER_PLUGIN`.
- `StringUtil` (`stringutil.dfy`): `strlen` and `strdup_custom` over character
  arrays.
- `ReturnCodes` (`returncode.dfy`): the result codes, their values, their
  constructors and their messages.
- `SharedLib` (`sharedlibrary.dfy`): the `SharedLibrary` handle. It is a
  state machine over `_handle` and `_lastError`. The answers of `dlopen`,
  `dlsym` and `dlclose` are parameters.
- `PluginInfos` and `Plugins` (`plugininfo.dfy`, `plugin.dfy`): the metadata
  records and their text forms, the conversion `toPluginInfo`, and the
  registry entry `Plugin` with its defaults and its destructor.
- `Graphs` (`graph.dfy`): the node list and the depth-first
  `topologicalSort`, in place on an array of nodes. It proves that a
  successful sort is a topological order that lists every node once, and
  that an error comes with a dependency cycle.
- `Dependencies` (`dependencies.dfy`): `checkDependencies`. The code is the
  same in both generations of the manager. It is modelled as a recursive
  method over the registry value. Its result is proved equal to a
  declarative "transitively satisfied" predicate whenever the cache is
  fresh.
- `PlugMgrPrivates` (`plugmgrprivate.dfy`): the newer generation's
  `PlugMgrPrivate` (src/pluginmanagerprivate.cpp):
  - `loadPlugin` and `loadPluginsInOrder`, with a trace of the calls made
    into plugin objects;
  - `unloadPlugin` and `unloadPluginsInOrder`, with the proof that each
    plugin is unloaded before any of its dependencies.
- `PluginManagers` (`pluginmanager.dfy`): the older generation's
  `PluginManager` (src/pluginmanager.cpp). It covers search, the four steps
  of `loadPlugins` (check and number, link parents, sort, instantiate),
  `unloadPlugins` and the getters.
- `Requests` (`requests.dfy`): the newer generation's `handleRequestImpl`,
  modelled as a function from the manager state and the request to the
  status and the new contents of the `data` and `dataSize` slots.

The headline properties:
- `loadPlugins` puts every dependency before the plugins that need it:
  `PluginManagers.PluginManager.LoadPlugins`, `PlugMgrPrivates.LoadAllGivesLoadedDependencies`
  and `PluginManagers.LoadedAfterDependencies`.
- `unloadPluginsInOrder` unloads every plugin before any of its
  dependencies: `PlugMgrPrivates.UnloadDependentsFirst`.

`checkDependencies` need not return. A True flag is written only after all
the recursive calls, so a check that follows compatible dependencies around
a cycle, back to a plugin whose check is still running, recurses without
end. A check does return when a dependency that fails comes first: with
A depending on B and B on a missing X and then on A, B fails on X and A
passes the failure on. The model asks for a ranking that decreases along
every compatible dependency (`Dependencies.Ranked`). That ranking makes every
check return, but it also excludes registries like the one above, where a
cycle sits behind a dependency that fails first and the source returns
normally. Under the ranking, `PluginManagers.NumberedAcyclic` shows that the
graph `loadPlugins` builds has no cycle, and
`PluginManagers.PluginManager.LoadPlugins` never returns
LOAD_DEPENDENCY_CYCLE. The branch is kept in the model as the source has
it.

The two generations share the three fields of their private part
(`pluginsMap`, `loadOrderList`, `locations`). One class, `PlugMgrPrivate`,
holds them, and the older `PluginManager` wraps it as `_p` does. Both
generations store a `PluginInfoStd` here. For the older one, which stores the
C record built by `strdup`, the C view is `Plugins.CInfo` of it. Entries of
the registry are values in a `map`, and the shared pointers to them are not
modelled. A plugin object is named by the key it was created under
(`Plugins.Instance`). `Plugins.Event` records the calls made into plugin
objects and libraries as a ghost trace.

## Model

| member | source | states |
|---|---|---|
| TriBools.State.Value | src/private/tribool.h:20-24 | The byte values 0, 1, 2; only Indeterminate has value 2. |
| TriBools.TriBool.IsIndeterminate | src/private/tribool.h:38-39 | `indeterminate()` holds iff the state is Indeterminate. |
| TriBools.TriBool.State | src/private/tribool.h:44-45 | `state()` is the State whose value is the stored byte. |
| TriBools.TriBool.EqualsTriBool | src/private/tribool.h:47-48 | Two TriBools compare equal iff they are the same value. |
| TriBools.TriBool.EqualsBool | src/private/tribool.h:49-50 | Equal to a bool only in the matching determinate state; Indeterminate equals neither. |
| TriBools.TriBool.EqualsState | src/private/tribool.h:51-52 | Equal to a State iff `state()` is that State. |
| TriBools.TriBool.EqualsInt | src/private/tribool.h:53-54 | Equal to an int iff the int is the state's value, so only 0, 1 or 2 can match. |
| TriBools.TriBool.NotEqualsTriBool | src/private/tribool.h:56-57 | `!=` is the negation of `==`. |
| TriBools.TriBool.NotEqualsBool | src/private/tribool.h:58-59 | `!=` with a bool is the negation of `==`; Indeterminate differs from both booleans. |
| TriBools.TriBool.NotEqualsState | src/private/tribool.h:60-61 | `!=` with a State is the negation of `==`. |
| TriBools.TriBool.NotEqualsInt | src/private/tribool.h:62-63 | `!=` with an int is the negation of `==`. |
| TriBools.Default | src/private/tribool.h:69 | A default value is Indeterminate and equals neither boolean. |
| TriBools.FromBool | src/private/tribool.h:28-34 | `TriBool(b)` equals `b`, not `!b`, and is determinate. |
| TriBools.FromState | src/private/tribool.h:36 | `state()` gives back the State it was built from. |
| TriBools.StaticIndeterminate | src/private/tribool.h:41-42 | The static `indeterminate` agrees with the member form. |
| TriBools.ExactlyOneState | src/private/tribool.h:65-69 | Every value is exactly one of true, false, indeterminate, and is rebuilt from its state. |
| CStringUtil.CLen | src/private/stringutil.h:47 | `strlen` counts the characters before the first NUL. |
| CStringUtil.TextOf | src/plugin.cpp:40-46 | What `strdup(s.c_str())` keeps: the prefix before the first NUL. |
| CStringUtil.Contains | include/iplugin.h:12-15 | A character `contains` finds is never the terminator and occurs in the buffer. |
| CStringUtil.ContainsMeaning | include/iplugin.h:12-15 | `contains(str, c)` holds iff `c` occurs before the terminator. |
| CStringUtil.NeverContainsNul | include/iplugin.h:14 | `contains(str, '\0')` is always false. |
| CStringUtil.TextContains | include/iplugin.h:12-15 | On NUL-free text, `contains` is membership. |
| CStringUtil.ContainsOnly | include/iplugin.h:17-20 | When `containsOnly` refuses, some character of the buffer other than NUL is not in `allowed`. |
| CStringUtil.ContainsOnlyMeaning | include/iplugin.h:17-20 | `containsOnly` holds iff every character before the terminator is in `allowed`. |
| CStringUtil.IdentifierCharsAre | include/iplugin.h:85 | The allowed-character literal holds exactly the letters, digits and '_'. |
| CStringUtil.NameAccepted | include/iplugin.h:83-88 | A name both `static_assert`s accept does not start with a digit. |
| CStringUtil.NameAcceptedMeaning | include/iplugin.h:83-88 | A name passes both `static_assert`s iff it is made of letters, digits and '_' and does not start with a digit; the empty name passes. |
| StringUtil.Strlen | src/private/stringutil.h:47 | The loop stops at the first NUL, which is at index `CLen`. |
| StringUtil.CLenAtNul | src/private/stringutil.h:47 | The index of the first NUL is the C length. |
| StringUtil.StrdupCustom | src/private/stringutil.h:45-52 | On failed allocation null; otherwise a fresh buffer of `strlen(s)+1` characters equal to `s` up to and with its terminator; `s` is not changed. |
| ReturnCodes.FromValue | include/pluginmanager.h:14-30 | The cast from an int gives the enumerator with that value. |
| ReturnCodes.FromValueOfHeaderValue | include/pluginmanager.h:14-30 | Casting an enumerator's value back gives the enumerator. |
| ReturnCodes.HeaderValuesDistinct | include/pluginmanager.h:14-30 | The enumerator values are pairwise distinct. |
| ReturnCodes.CodesGrouped | include/pluginmanager.h:18-29 | Search codes are 100-102, load codes 200-202, the unload code 300, the others 0 and 1. |
| ReturnCodes.ReturnCode.IsSuccess | include/pluginmanager.h:36 | `operator bool` is true exactly for the enumerator whose header value is 0, SUCCESS. |
| ReturnCodes.ReturnCode.Message | src/pluginmanager.cpp:51-87 | `message()` is empty exactly for a value with no enumerator. |
| ReturnCodes.MessageLength | src/pluginmanager.cpp:53-86 | Each enumerator's message has a fixed length, different from every other's. |
| ReturnCodes.MessagesDistinct | src/pluginmanager.cpp:53-86 | Different enumerators have different messages. |
| ReturnCodes.Default | src/pluginmanager.cpp:30-31 | The default code is SUCCESS, so `operator bool` is true. |
| ReturnCodes.FromBool | src/pluginmanager.cpp:33-34 | `ReturnCode(val)` is a success iff `val`; false gives UNKNOWN_ERROR. |
| ReturnCodes.FromType | src/pluginmanager.cpp:36-37 | The code keeps its type; it is a success iff the type is SUCCESS. |
| SharedLib.LibState.LoadImpl | include/sharedlibrary.h:215-225 | Success iff `dlopen` gives a handle; then loaded with no error; else null with the error recorded. |
| SharedLib.LibState.UnloadImpl | include/sharedlibrary.h:227-238 | Success iff `dlclose` returns 0; then not loaded and no error; else the handle is kept and the error recorded. |
| SharedLib.LibState.Unload | include/sharedlibrary.h:116-117 | True iff loaded and closed; a library that is not loaded returns false and is unchanged. |
| SharedLib.LibState.Load | include/sharedlibrary.h:91-97 | A loaded library is unloaded first; if that fails, false and the old handle stays; success iff that step passes and `dlopen` succeeds. |
| SharedLib.LibState.GetImpl | include/sharedlibrary.h:240-253 | The handle is kept; a found symbol clears the error, a missing one gives null and records the error. |
| SharedLib.LibState.HasSymbol | include/sharedlibrary.h:126-133 | True iff the lookup succeeds; the state, `_lastError` included, is exactly restored. |
| SharedLib.Unloaded | include/sharedlibrary.h:60 | A default-constructed library is not loaded and has no error. |
| SharedLib.LoadThenUnload | include/sharedlibrary.h:91-117 | Loading then a successful unload leaves a library not loaded, without error. |
| SharedLib.UnloadTwice | include/sharedlibrary.h:116-117 | A second `unload()` after a successful one returns false and changes nothing. |
| SharedLib.SharedLibrary.constructor | include/sharedlibrary.h:60 | The default constructor leaves the object unloaded without error. |
| SharedLib.SharedLibrary.Open | include/sharedlibrary.h:65-66 | The path constructor is the default state followed by `load`. |
| SharedLib.SharedLibrary.IsLoaded | include/sharedlibrary.h:109-110 | `isLoaded()` holds iff the handle is non-null. |
| SharedLib.SharedLibrary.ErrorString | include/sharedlibrary.h:182-191 | `errorString()` is the recorded `_lastError`, empty exactly when no error is recorded. |
| SharedLib.SharedLibrary.HasError | include/sharedlibrary.h:182-191 | `hasError()` holds iff `errorString()` is non-empty. |
| SharedLib.SharedLibrary.LoadImpl | include/sharedlibrary.h:215-225 | Result and new fields are those of `LibState.LoadImpl`. |
| SharedLib.SharedLibrary.UnloadImpl | include/sharedlibrary.h:227-238 | Result and new fields are those of `LibState.UnloadImpl`. |
| SharedLib.SharedLibrary.Unload | include/sharedlibrary.h:116-117 | Result and new fields are those of `LibState.Unload`. |
| SharedLib.SharedLibrary.Load | include/sharedlibrary.h:91-97 | Result and new fields are those of `LibState.Load`. |
| SharedLib.SharedLibrary.GetImpl | include/sharedlibrary.h:240-253 | Result and new fields are those of `LibState.GetImpl`. |
| SharedLib.SharedLibrary.GetRawAddress | include/sharedlibrary.h:166-167 | The address and new state are those of `getImpl`. |
| SharedLib.SharedLibrary.Get | include/sharedlibrary.h:149-151 | `get` dereferences the address, so the symbol must be found; the error is cleared. |
| SharedLib.SharedLibrary.HasSymbol | include/sharedlibrary.h:126-133 | Result and new fields are those of `LibState.HasSymbol`: the error is restored. |
| PluginInfos.FieldsBegin | src/plugininfo.cpp:11-19 | The header and field lines start with "Plugin info:\n", whatever follows. |
| PluginInfos.InfoTextBegins | src/plugininfo.cpp:11 | `PluginInfo::toString` always begins with the header: it has no invalid-name branch. |
| PluginInfos.DependencyLinesAppend | src/plugininfo.cpp:20-21 | The dependency lines of a concatenation are the lines of each part, in order. |
| PluginInfos.InfoTextIsText | src/plugininfo.cpp:22 | The built text has no NUL, so the `strdup` of it returns all of it. |
| PluginInfos.ToString | src/plugininfo.cpp:9-23 | The header, the seven field lines in fixed order, then one line per index below `dependenciesNb`. |
| Plugins.CInfoKeepsFields | src/plugin.cpp:37-60 | On NUL-free fields, `toPluginInfo` keeps every field and the dependency order, with `dependenciesNb` equal to their number. |
| Plugins.TextsOfText | src/plugin.cpp:50-56 | The dependency array copies every dependency, in order. |
| Plugins.ToPluginInfo | src/plugin.cpp:37-60 | The loop builds `CInfo(info)`, with `dependenciesNb == dependencies.size()`; src/private/plugin.h:70-92 has the same body. |
| Plugins.StdTextInvalid | src/plugin.cpp:64-67 | `toString` gives "Invalid PluginInfo" iff the name is empty; otherwise the text starts with the header. |
| Plugins.ToStringVariantsAgree | src/plugin.cpp:62-79 | For a valid NUL-free record, the C `toString` of `toPluginInfo` prints the same text as `PluginInfoStd::toString`. |
| Plugins.ToString | src/plugin.cpp:62-79 | The loop builds the invalid text or the header, fields and one line per dependency; src/private/plugin.h:95-112 has the same body. |
| Plugins.Plugin.Destroy | src/plugin.cpp:86-96 | Nothing happens unless the library is loaded; then the hook (on a live object), the release and the unload, in that order; src/private/plugin.h:135-145 has the same body. |
| Plugins.NewPlugin | src/private/plugin.h:131-132 | A new entry has the flag Indeterminate, `graphId` -1 and no object. |
| Graphs.ParentBefore | src/private/graph.h:83-90 | In a topological order every parent sits strictly before its child. |
| Graphs.TopologicalOrderAcyclic | src/private/graph.h:75-91 | A graph whose nodes all fit in a topological order has no cycle. |
| Graphs.TempClosesCycle | src/private/graph.h:79-80 | Meeting a TEMP node on the search path closes a cycle. |
| Graphs.MarkTempStep | src/private/graph.h:82 | Marking an UNMARKED node TEMP pushes it on the search path and only moves a flag up. |
| Graphs.MarkPermanentStep | src/private/graph.h:88-89 | Once the parents are PERMANENT, marking PERMANENT and pushing the name keeps every emitted node after its parents. |
| Graphs.CompleteSort | src/private/graph.h:55-68 | When all nodes are PERMANENT: from an all-UNMARKED start the output is a topological order and the graph is acyclic; from an all-PERMANENT start nothing was emitted. |
| Graphs.Graph.constructor | src/graph.cpp:30-33 | The graph copies the node list; every parent index must name a node. |
| Graphs.Graph.VisitNode | src/graph.cpp:60-76 | Flags only move up; on success the node is PERMANENT and emitted after its parents; on failure a cycle is returned. |
| Graphs.Graph.VisitParents | src/graph.cpp:68-72 | The parents are visited in order; on success all of them are PERMANENT; the first failure returns a cycle. |
| Graphs.Graph.TopologicalSort | src/graph.cpp:35-53 | Without error, exactly the nodes UNMARKED before are emitted once each, after their parents, and the graph is acyclic; on error the list is empty and a cycle exists; a second sort emits nothing. |
| Dependencies.TrueSound | src/pluginmanagerprivate.cpp:82-83 | A True flag in a closed cache means the dependencies are transitively satisfied. |
| Dependencies.CachedMeansSatisfied | src/pluginmanagerprivate.cpp:80-116 | On a closed and justified cache (such as a fresh one), the check reports exactly the transitive satisfaction. |
| Dependencies.FreshCache | src/private/plugin.h:131 | An all-Indeterminate registry is closed and justified. |
| Dependencies.MarkFalse | src/pluginmanagerprivate.cpp:92-106 | A missing dependency gives NOT_FOUND and an incompatible one BAD_VERSION, both writing False. |
| Dependencies.PassOn | src/pluginmanagerprivate.cpp:109-111 | A dependency whose own check fails passes its code on and leaves the flag Indeterminate. |
| Dependencies.MarkTrue | src/pluginmanagerprivate.cpp:114-115 | After all dependencies pass, True is written, agreeing with the cache. |
| Dependencies.CheckDependencies | src/pluginmanagerprivate.cpp:80-116 | Success iff the cache reports success, and then the flag is True. Only unset flags are written, and writes agree with the cache. A False flag gives NOT_FOUND or BAD_VERSION by the plugin's own name. A failure is explained by the first failing dependency. src/pluginmanager.cpp:222-258 has the same code. |
| Dependencies.CheckEachDependency | src/pluginmanagerprivate.cpp:87-115 | The loop over declared dependencies, in order; the first failure wins. |
| PlugMgrPrivates.DependencyObjects | src/pluginmanagerprivate.cpp:129-134 | The array given to the creator holds each dependency's object, in declared order. |
| PlugMgrPrivates.LoadOne | src/pluginmanagerprivate.cpp:124-138 | The creator runs with the dependency objects; any old object is released; then `loaded()`; no other entry changes. |
| PlugMgrPrivates.LoadAll | src/pluginmanagerprivate.cpp:118-122 | Loading the list changes only objects and libraries. |
| PlugMgrPrivates.LoadAllEffect | src/pluginmanagerprivate.cpp:118-122 | Every listed plugin gets its object and `loaded()` call; no other entry is touched. |
| PlugMgrPrivates.LoadAllGivesLoadedDependencies | include/iplugin.h:112-118 | With dependencies listed first, every creator receives the live objects of its dependencies, all already `loaded()`. |
| PlugMgrPrivates.UnloadPlugin | src/pluginmanagerprivate.cpp:167-179 | The hook on a live object, then the release, then the unload; true iff the library is no longer loaded. |
| PlugMgrPrivates.AllUnloadedKeys | src/pluginmanagerprivate.cpp:140-164 | The overall result is the AND of the per-plugin results. |
| PlugMgrPrivates.EarlierUnloadedFirst | src/pluginmanagerprivate.cpp:144-158 | Unloading is sequential: all calls for one entry come before those for the next. |
| PlugMgrPrivates.UnloadDependentsFirst | include/iplugin.h:119-126 | With dependencies listed first, every call for a plugin (its library unload included) comes before any call for one of its dependencies. |
| PlugMgrPrivates.PlugMgrPrivate.constructor | src/pluginmanager.cpp:148 | An empty registry, load order, location list and trace. |
| PlugMgrPrivates.PlugMgrPrivate.LoadPlugin | src/pluginmanagerprivate.cpp:124-138 | The new registry and trace are those of `LoadOne`. |
| PlugMgrPrivates.PlugMgrPrivate.LoadPluginsInOrder | src/pluginmanagerprivate.cpp:118-122 | The new registry and trace are those of `LoadAll` over `loadOrderList`. |
| PlugMgrPrivates.PlugMgrPrivate.UnloadPluginsInOrder | src/pluginmanagerprivate.cpp:140-164 | The listed entries are unloaded from the back, then the rest. Registry and locations end empty. The result says whether every library was unloaded. |
| PlugMgrPrivates.PlugMgrPrivate.UnloadListed | src/pluginmanagerprivate.cpp:143-150 | The first loop unloads and erases `loadOrderList` reversed. |
| PlugMgrPrivates.PlugMgrPrivate.UnloadRest | src/pluginmanagerprivate.cpp:152-158 | The second loop empties the registry. |
| PlugMgrPrivates.PlugMgrPrivate.UnloadEntry | src/pluginmanagerprivate.cpp:147-149 | One iteration: `unloadPlugin`, then `erase`. |
| PluginManagers.Entry | src/pluginmanager.cpp:334-362 | A registered entry is unchecked, with no node and no object, and its library is loaded. |
| PluginManagers.Scan | src/pluginmanager.cpp:325-371 | The search loop only adds entries; existing entries are unchanged. |
| PluginManagers.FirstNaming | src/pluginmanager.cpp:339-345 | The first path holding a candidate of a name. |
| PluginManagers.ScanRegisters | src/pluginmanager.cpp:336-363 | A new name is registered iff some path names it, with the first such path's entry; later duplicates are skipped. |
| PluginManagers.ScanAddsFresh | src/pluginmanager.cpp:334-363 | Every added entry is unchecked, without node or object, with a loaded library. |
| PluginManagers.ScanConsistent | src/pluginmanager.cpp:311-381 | A search keeps the registry invariant. |
| PluginManagers.CheckingDone | src/pluginmanager.cpp:395-411 | After the first loop, the numbered plugins are exactly those whose check passes. |
| PluginManagers.DepIds | src/pluginmanager.cpp:419-420 | The graph ids of the dependencies, in declared order. |
| PluginManagers.ParentsAt | src/pluginmanager.cpp:414-421 | The parent list of node `n` is the ids of its plugin's dependencies. |
| PluginManagers.ParentIsDependency | src/pluginmanager.cpp:419-420 | Every parent of a node is the node of one of its plugin's dependencies. |
| PluginManagers.ParentsInRange | src/pluginmanager.cpp:413-421 | Every parent id is a valid node index. |
| PluginManagers.NumberedAcyclic | src/pluginmanager.cpp:425-437 | Under the termination ranking the graph of the numbered plugins has no cycle. |
| PluginManagers.SortedDependenciesFirst | src/pluginmanager.cpp:428-437 | The sorted names list every dependency before its plugin. |
| PluginManagers.SortedAll | src/pluginmanager.cpp:429-430 | A complete sort lists each numbered plugin exactly once. |
| PluginManagers.LoadIfMissing | src/pluginmanager.cpp:446-454 | A plugin with an object is skipped; otherwise it is created, then `loaded()`. |
| PluginManagers.LoadMissing | src/pluginmanager.cpp:443-455 | Exactly the listed plugins without an object get one; the rest is unchanged. |
| PluginManagers.LoadMissingLive | src/pluginmanager.cpp:443-455 | Every listed plugin ends with an object; `loaded()` is called only on listed plugins that had none. |
| PluginManagers.LoadedAfterDependencies | src/pluginmanager.cpp:443-455 | With dependencies listed first, `loaded()` is called only after every dependency has an object. |
| PluginManagers.LoadMissingConsistent | src/pluginmanager.cpp:443-455 | Instantiating keeps the registry invariant. |
| PluginManagers.PluginManager.constructor | src/pluginmanager.cpp:293-295 | A new manager is empty and satisfies the invariant. |
| PluginManagers.PluginManager.PluginsCount | src/pluginmanager.cpp:508-511 | The number of registered plugins, loaded or not. |
| PluginManagers.PluginManager.HasPlugin | src/pluginmanager.cpp:527-530 | True iff the name is registered. |
| PluginManagers.PluginManager.HasPluginMinVersion | src/pluginmanager.cpp:532-535 | Registered, with a version compatible with the minimum. |
| PluginManagers.PluginManager.IsPluginLoaded | src/pluginmanager.cpp:537-540 | Registered, library loaded and an object present; implies `hasPlugin`. |
| PluginManagers.PluginManager.PluginInfoOf | src/pluginmanager.cpp:553-558 | The C record of a registered plugin; the null record iff not registered. |
| PluginManagers.PluginManager.SearchForPlugins | src/pluginmanager.cpp:311-381 | LISTFILES_ERROR with no change iff listing failed with no path. Otherwise the registry is the scan, SUCCESS iff a name was added, else NOTHING_FOUND. The directory is added once, on success. |
| PluginManagers.PluginManager.CheckAll | src/pluginmanager.cpp:395-411 | Without `tryToContinue` the first failure stops the loop. Otherwise the nodes are exactly the plugins whose check passes, numbered in order. |
| PluginManagers.PluginManager.CheckOne | src/pluginmanager.cpp:397-402 | One check: its code and the new flag are what the cache reports. |
| PluginManagers.PluginManager.LinkParents | src/pluginmanager.cpp:413-422 | Every node's parents are its plugin's dependency ids, in order. |
| PluginManagers.PluginManager.LinkOne | src/pluginmanager.cpp:419-420 | The dependency ids are appended to one node's parent list. |
| PluginManagers.PluginManager.SortNodes | src/pluginmanager.cpp:425-437 | An error comes with an empty list and a graph that has a cycle. Otherwise it lists each numbered plugin once, dependencies first. |
| PluginManagers.PluginManager.CreateIfMissing | src/pluginmanager.cpp:446-454 | One name of the fourth step, as `LoadIfMissing`. |
| PluginManagers.PluginManager.LoadInOrder | src/pluginmanager.cpp:443-455 | The fourth step, as `LoadMissing` over `loadOrderList`. |
| PluginManagers.PluginManager.LoadPlugins | src/pluginmanager.cpp:388-458 | Without `tryToContinue` a failed check returns at once, before any change to the order or any object. Success orders exactly the plugins whose check passes, dependencies first, and instantiates those without an object. LOAD_DEPENDENCY_CYCLE is never returned. |
| PluginManagers.PluginManager.UnloadPlugins | src/pluginmanager.cpp:465-496 | The listed plugins are unloaded from the back, then the rest. The registry and locations end empty. UNLOAD_NOT_ALL iff some library stayed loaded. |
| Requests.Subject | src/pluginmanagerprivate.cpp:226 | The plugin asked about is `*data` when it is non-null, else the sender. |
| Requests.Duplicate | src/pluginmanagerprivate.cpp:207-208 | A `strdup`ed text, with `strlen` of it as the size. |
| Requests.HandleRequestImpl | src/pluginmanagerprivate.cpp:193-265 | A null `dataSize` gives DATASIZE_NULL for every opcode. An unknown opcode gives UNKNOWN_REQUEST. The info and version requests give NOT_FOUND iff the plugin is unregistered. The CHECK requests give TRUE or FALSE. Only successful requests write the slots; a text's size is its length and the count's size is 1. |
| Requests.LoadedIsRegistered | src/pluginmanagerprivate.cpp:244-257 | A plugin reported loaded is also reported registered. |
| Requests.VersionOfInfo | src/pluginmanagerprivate.cpp:224-242 | The version and info requests find the same plugin, and the version text is the info's version. |
| Requests.SenderByDefault | src/pluginmanagerprivate.cpp:226 | Without a name in `*data`, a request asks about its sender. |

## Left out

- The dynamic loader (`dlopen`, `dlsym`, `dlclose`, `boost::dll::shared_library`) is represented by its answers, passed as parameters (`SharedLib.DlOpen`, `DlClose`, `DlSym`, `PlugMgrPrivates.Loader`, `PluginManagers.Probe`); only `bad_alloc` is modelled among its exceptions. Both generations keep their library in the same `LibState`, with `_lastError` and a `dlclose` that can fail. The older generation uses `boost::dll::shared_library`, whose `unload` always leaves the library unloaded, so its UNLOAD_NOT_ALL is not returned on a real run. The model's properties hold for every loader answer, so they cover that case too.
- Directory listing (src/fsutil.cpp) is represented by its outcome: a success flag and the paths found, which may be non-empty even after an error.
- JSON parsing of the metadata (`parseMetadata`) is represented by its result, a record or None; `Version::compatible` is the parameter `compatible`.
- Logging to `std::cout`, the error callbacks and `strerror(errno)` are not modelled.
- Concurrency and the locking around requests are not modelled.
- Memory ownership is not modelled: `malloc`/`free`, the destructors of `Dependency` and `PluginInfo` that release nothing, the `free`s in the older `Plugin` destructor, and the `void**` payload casts. Values are modelled, not pointers.
- Shared-pointer aliasing: registry entries are values in a map, and `checkDependencies` returns the updated registry instead of writing through `PluginPtr`.
- `dynamic_pointer_cast` in `pluginObject`, and the getters `appDirectory`, `pluginsList` and `pluginsLocation`, only read state or the file system, and are not modelled.
- The older generation's `handleRequest` only logs and returns 0; it is not modelled.
- The newer generation's `PluginManager` getters, which `handleRequestImpl` calls, are not part of this model. The older generation's getters over the same registry stand in for them (`PluginManagers.Has`, `LoadedIn`, `Count`, `InfoOf`).
- The order of `std::unordered_map` is not modelled: the loops over the map pick an arbitrary remaining key.
- The JP_REGISTER_PLUGIN symbol exports and `JP_DECLARE_PLUGIN` are not modelled beyond the name checks.
- Opcode and status values of requests are not part of the headers modelled here, so they are abstract datatypes.
- `SEARCH_LISTFILES_ERROR` has no enumerator in include/pluginmanager.h, so it has no value in the model (`ReturnCodes.HeaderValue` gives None).
- Dependencies.CheckDependencies: requires a ranking that decreases along every compatible dependency, because the source recurses without end when a check follows compatible dependencies around a cycle. The ranking also excludes registries where such a cycle sits behind a dependency that fails first. The source returns normally on those, and the model does not cover them.
- PluginManagers.PluginManager.LoadPlugins: requires the same ranking, with the same gap: registries whose cycles sit behind a dependency that fails first are not covered. It also requires that every plugin to be instantiated exports a non-null `jp_createPlugin`, because `get` dereferences it.
- PluginManagers.PluginManager.LoadInOrder: requires that every listed plugin without an object exports a non-null `jp_createPlugin`.
- PluginManagers.PluginManager.UnloadPlugins: requires every name of `loadOrderList` to be registered. `unloadPlugins` does not clear `loadOrderList`, so a second call without a new `loadPlugins` reaches `pluginsMap[name]` on a missing name, which inserts a null pointer that `unloadPlugin` dereferences.
- PlugMgrPrivates.PlugMgrPrivate.UnloadPluginsInOrder: requires the listed names to be registered and distinct, for the same reason.
- PluginManagers.PluginManager.LoadInOrder: the calls made into plugin objects are recorded per plugin as a creator call followed by `loaded()`; the creator's own side effects are not modelled.
- SharedLib.SharedLibrary.Get: requires the symbol to be found with a non-null address. The doc comment of `get` (include/sharedlibrary.h:140-147) promises nullptr for a missing symbol, but the code dereferences the address `getRawAddress` returns, so a missing symbol is a null dereference. The model does not cover that case.
- PlugMgrPrivates.PlugMgrPrivate.LoadPlugin: requires (through `Loadable`) the name to be registered, its library to export a non-null `jp_createPlugin`, and every dependency to be registered. On a missing name, `pluginsMap.at(name)` throws `std::out_of_range`. On a missing dependency, `pluginsMap[dep]` inserts a null pointer, which is then dereferenced. The model covers neither case.
- PlugMgrPrivates.PlugMgrPrivate.LoadPluginsInOrder: requires `Loadable` for every name of `loadOrderList`, with the same consequences: `std::out_of_range` from `pluginsMap.at` (src/pluginmanagerprivate.cpp:121) for a missing name, and a null dereference for a missing dependency.
- Requests.HandleRequestImpl: CHECK_PLUGIN and CHECK_PLUGINLOADED read `*data` as a C string without a test, so a null `*data` is excluded by the precondition.
- SharedLib.SharedLibrary.GetRawAddress: the `std::string` overload calls a misspelled `getRawAdress`; it is taken as delegating to the `char*` overload, which is the one modelled.
