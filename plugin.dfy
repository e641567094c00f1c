/**
 * The manager's internal plugin record (src/private/plugin.h, src/plugin.cpp):
 * `PluginInfoStd`, its conversion to the C-ABI record and its printable form,
 * and the `Plugin` entry with its destructor.
 */
module Plugins {
  import opened Wrappers
  import opened CStringUtil
  import opened TriBools
  import opened PluginInfos
  import opened SharedLib
  import opened Sequences

  /**
   * `PluginInfoStd`. Its nested `Dependency` has the same two fields as
   * `jp::Dependency`, so the same datatype is used, holding `std::string`s.
   */
  datatype PluginInfoStd = PluginInfoStd(
    name: string,
    prettyName: string,
    version: string,
    author: string,
    url: string,
    license: string,
    copyright: string,
    dependencies: seq<Dependency>)

  /** What `toPluginInfo` builds: every string read up to its first NUL, and the dependency count. */
  function CInfo(info: PluginInfoStd): PluginInfo
  {
    PluginInfo(TextOf(info.name), TextOf(info.prettyName), TextOf(info.version), TextOf(info.author),
               TextOf(info.url), TextOf(info.license), TextOf(info.copyright),
               |info.dependencies|, Texts(info.dependencies))
  }

  /** No field holds a NUL, so the C strings carry the whole text. */
  predicate NulFree(info: PluginInfoStd)
  {
    NUL !in info.name && NUL !in info.prettyName && NUL !in info.version && NUL !in info.author &&
    NUL !in info.url && NUL !in info.license && NUL !in info.copyright &&
    forall i :: 0 <= i < |info.dependencies| ==>
      NUL !in info.dependencies[i].name && NUL !in info.dependencies[i].version
  }

  lemma TextsOfText(ds: seq<Dependency>)
    requires forall i :: 0 <= i < |ds| ==> NUL !in ds[i].name && NUL !in ds[i].version
    ensures Texts(ds) == ds
  {
    forall i | 0 <= i < |ds|
      ensures Texts(ds)[i] == ds[i]
    {
      var name: CText := ds[i].name;
      var version: CText := ds[i].version;
      TextOfText(name);
      TextOfText(version);
    }
  }

  /**
   * For NUL-free text, `toPluginInfo` keeps every string field, the
   * dependencies in their order, and sets `dependenciesNb` to their number.
   */
  lemma CInfoKeepsFields(info: PluginInfoStd)
    requires NulFree(info)
    ensures CInfo(info) == PluginInfo(info.name, info.prettyName, info.version, info.author,
                                      info.url, info.license, info.copyright,
                                      |info.dependencies|, info.dependencies)
  {
    var name, prettyName, version, author: CText := info.name, info.prettyName, info.version, info.author;
    var url, license, copyright: CText := info.url, info.license, info.copyright;
    TextOfText(name);
    TextOfText(prettyName);
    TextOfText(version);
    TextOfText(author);
    TextOfText(url);
    TextOfText(license);
    TextOfText(copyright);
    TextsOfText(info.dependencies);
  }

  /**
   * `PluginInfoStd::toPluginInfo`: `strdup`s each field, converts the
   * dependencies one by one into a list, then copies the list into the
   * C array.
   */
  method ToPluginInfo(info: PluginInfoStd) returns (c: PluginInfo)
    ensures c == CInfo(info)
    ensures c.dependenciesNb == |c.dependencies| == |info.dependencies|
  {
    var name := TextOf(info.name);
    var prettyName := TextOf(info.prettyName);
    var version := TextOf(info.version);
    var author := TextOf(info.author);
    var url := TextOf(info.url);
    var license := TextOf(info.license);
    var copyright := TextOf(info.copyright);
    var depList: seq<Dependency> := [];
    var i := 0;
    while i < |info.dependencies|
      invariant 0 <= i <= |info.dependencies|
      invariant depList == Texts(info.dependencies[..i])
    {
      var dep := info.dependencies[i];
      depList := depList + [Dependency(TextOf(dep.name), TextOf(dep.version))];
      i := i + 1;
    }
    assert info.dependencies[..i] == info.dependencies;
    c := PluginInfo(name, prettyName, version, author, url, license, copyright, |info.dependencies|, depList);
  }

  const Invalid: string := "Invalid PluginInfo"

  /** What `PluginInfoStd::toString` returns. */
  function StdText(info: PluginInfoStd): string
  {
    if info.name == "" then Invalid
    else Fields(info.name, info.prettyName, info.version, info.author, info.url, info.license, info.copyright) +
         DependencyLines(info.dependencies)
  }

  /** The text is "Invalid PluginInfo" exactly when the name is empty. */
  lemma StdTextInvalid(info: PluginInfoStd)
    ensures StdText(info) == Invalid <==> info.name == ""
    ensures info.name != "" ==> StdText(info)[..|Header|] == Header
  {
    if info.name != "" {
      FieldsBegin(info.name, info.prettyName, info.version, info.author, info.url, info.license,
                  info.copyright, DependencyLines(info.dependencies));
      assert StdText(info)[0] == Header[0] != Invalid[0];
    }
  }

  /**
   * The two `toString` variants print the same text for a valid record
   * whose fields hold no NUL: the C one, run on what `toPluginInfo` gives,
   * and the `std::string` one.
   */
  lemma ToStringVariantsAgree(info: PluginInfoStd)
    requires info.name != "" && NulFree(info)
    ensures InfoText(CInfo(info)) == StdText(info)
  {
    CInfoKeepsFields(info);
    assert CInfo(info).dependencies[..ReadCount(CInfo(info))] == info.dependencies;
    TextsOfText(info.dependencies);
  }

  /**
   * `PluginInfoStd::toString`: "Invalid PluginInfo" for an empty name,
   * otherwise the header, the fields and one line per dependency.
   */
  method ToString(info: PluginInfoStd) returns (s: string)
    ensures s == StdText(info)
  {
    if info.name == "" {
      return Invalid;
    }
    var str := Header;
    str := str + Line("Name: ", info.name);
    str := str + Line("Pretty name: ", info.prettyName);
    str := str + Line("Version: ", info.version);
    str := str + Line("Author: ", info.author);
    str := str + Line("Url: ", info.url);
    str := str + Line("License: ", info.license);
    str := str + Line("Copyright: ", info.copyright);
    str := str + "Dependencies:\n";
    ghost var fields := str;
    assert info.dependencies[..0] == [];
    var i := 0;
    while i < |info.dependencies|
      invariant 0 <= i <= |info.dependencies|
      invariant str == fields + DependencyLines(info.dependencies[..i])
    {
      var line := DependencyLine(info.dependencies[i]);
      assert info.dependencies[..i + 1][..i] == info.dependencies[..i];
      AppendAssoc(fields, DependencyLines(info.dependencies[..i]), line);
      str := str + line;
      i := i + 1;
    }
    assert info.dependencies[..i] == info.dependencies;
    s := str;
  }

  /** The live plugin object, standing for the `IPlugin` created for the plugin registered under `key`. */
  datatype Instance = Instance(key: string)

  /** The calls the manager makes into plugin objects and libraries, in the order it makes them. */
  datatype Event =
    | Created(key: string, deps: seq<Option<Instance>>)  // the creator runs, given the dependency objects (None: null)
    | Loaded(key: string)                                // `loaded()`
    | AboutToBeUnloaded(key: string)                     // `aboutToBeUnloaded()`
    | Released(key: string)                              // the plugin object is deleted
    | LibraryUnload(key: string)                         // `lib.unload()` is called

  /** `Plugin`: one registry entry. */
  datatype Plugin = Plugin(
    iplugin: Option<Instance>,
    lib: LibState,
    path: string,
    info: PluginInfoStd,
    dependenciesExists: TriBool,
    graphId: int)
  {
    /**
     * `~Plugin()`: when the library is still loaded, calls the hook on a live
     * object, releases it, then unloads the library; otherwise does nothing.
     */
    function Destroy(key: string, closing: DlClose): (r: (seq<Event>, LibState))
      ensures !lib.IsLoaded() ==> r == ([], lib)
      ensures lib.IsLoaded() ==> r.1 == lib.Unload(closing).1 && |r.0| > 0 && r.0[|r.0| - 1] == LibraryUnload(key)
      ensures lib.IsLoaded() && iplugin.Some? ==>
                |r.0| == 3 && r.0[0] == AboutToBeUnloaded(key) && r.0[1] == Released(key)
      ensures lib.IsLoaded() && iplugin.None? ==> |r.0| == 1
    {
      if !lib.IsLoaded() then ([], lib)
      else
        var hook := if iplugin.Some? then [AboutToBeUnloaded(key), Released(key)] else [];
        (hook + [LibraryUnload(key)], lib.Unload(closing).1)
    }
  }

  /** A new entry: not yet checked, no graph node, no object. */
  function NewPlugin(lib: LibState, path: string, info: PluginInfoStd): (p: Plugin)
    ensures p.dependenciesExists.IsIndeterminate() && p.graphId == -1
    ensures p.iplugin == None && p.lib == lib && p.path == path && p.info == info
  {
    Plugin(None, lib, path, info, TriBools.Default(), -1)
  }
}
