/**
 * The newer generation's request dispatcher, `PlugMgrPrivate::handleRequestImpl`
 * (src/pluginmanagerprivate.cpp): a plugin sends an opcode with a `data` slot
 * and a `dataSize` slot, and the manager answers with a status and, for the
 * requests that produce something, a new value in both slots.
 *
 * The manager it asks is given as its registry and its two static texts. The
 * opcode and status constants are not part of the headers modelled here, so
 * both are abstract datatypes.
 */
module Requests {
  import opened Wrappers
  import opened CStringUtil
  import opened PluginInfos
  import opened Plugins
  import opened Dependencies
  import opened PluginManagers

  /** The opcodes the dispatcher recognises, and every other value. */
  datatype Opcode =
    | GetAppDirectory
    | GetPluginApi
    | GetPluginsCount
    | GetPluginInfo
    | GetPluginVersion
    | CheckPlugin
    | CheckPluginLoaded
    | Other(code: int)

  /** The request statuses the dispatcher returns. */
  datatype Status = Success | DataSizeNull | NotFound | True | False | UnknownRequest

  /**
   * What `*data` holds after the call: untouched, a fresh C string, a fresh
   * `size_t` count, or a fresh copy of a `PluginInfo`.
   */
  datatype Payload = Untouched | Text(text: CText) | Size(count: nat) | Info(info: PluginInfo)

  /** The answer: status, the new `*data`, and `*dataSize` (None while `dataSize` is null). */
  datatype Reply = Reply(status: Status, data: Payload, dataSize: Option<nat>)

  /** The state of the manager a request reads. */
  datatype Manager = Manager(plugins: Registry, appDirectory: string, pluginApi: string)

  /** The opcodes whose input is a plugin name read from `*data`. */
  predicate NamesInData(code: Opcode)
  {
    code == CheckPlugin || code == CheckPluginLoaded
  }

  /**
   * The plugin a GET_PLUGININFO or GET_PLUGINVERSION request is about: the C
   * string in `*data` when it is non-null, otherwise the sender.
   */
  function Subject(sender: string, data: Option<string>): (name: CText)
    ensures data.Some? ==> name == TextOf(data.value)
    ensures data.None? ==> name == TextOf(sender)
  {
    TextOf(if data.Some? then data.value else sender)
  }

  /** `strdup(s)` with `strlen` of the copy: a fresh text and its length. */
  function Duplicate(s: string): (r: (Payload, Option<nat>))
    ensures r.0.Text? && r.0.text == TextOf(s) && r.1 == Some(|r.0.text|)
  {
    var t := TextOf(s);
    (Text(t), Some(|t|))
  }

  /**
   * `handleRequestImpl(sender, code, data, dataSize)`. `data` is the buffer
   * `*data` points to (None for a null pointer), `dataSize` the value
   * `*dataSize` holds (None for a null `dataSize`). The name requests read
   * `*data` without a test, so they need a non-null one.
   */
  function HandleRequestImpl(mgr: Manager, sender: string, code: Opcode, data: Option<string>,
                             dataSize: Option<nat>): (r: Reply)
    requires dataSize.Some? && NamesInData(code) ==> data.Some?
    // A null size slot is refused before the opcode is looked at.
    ensures dataSize.None? ==> r == Reply(DataSizeNull, Untouched, None)
    // The data-producing requests succeed, and only they touch the slots.
    ensures r.status == Success <==> r.data != Untouched
    ensures r.data == Untouched ==> r.dataSize == dataSize
    ensures r.status == Success ==> dataSize.Some? && r.dataSize.Some?
    // A text answer carries its own length.
    ensures r.data.Text? ==> r.dataSize == Some(|r.data.text|)
    ensures dataSize.Some? && code.Other? ==> r.status == UnknownRequest
    ensures dataSize.Some? && code == GetAppDirectory ==> r.status == Success && r.data == Text(TextOf(mgr.appDirectory))
    ensures dataSize.Some? && code == GetPluginApi ==> r.status == Success && r.data == Text(TextOf(mgr.pluginApi))
    ensures dataSize.Some? && code == GetPluginsCount ==>
              r == Reply(Success, Size(|mgr.plugins.Keys|), Some(1))
    ensures dataSize.Some? && (code == GetPluginInfo || code == GetPluginVersion) ==>
              (r.status == NotFound <==> Subject(sender, data) !in mgr.plugins) &&
              (r.status == NotFound || r.status == Success)
    ensures dataSize.Some? && code == GetPluginInfo && r.status == Success ==>
              r == Reply(Success, Info(CInfo(mgr.plugins[Subject(sender, data)].info)), Some(1))
    ensures dataSize.Some? && code == GetPluginVersion && r.status == Success ==>
              r.data == Text(TextOf(mgr.plugins[Subject(sender, data)].info.version))
    ensures dataSize.Some? && code == CheckPlugin ==>
              (r.status == True <==> TextOf(data.value) in mgr.plugins) && (r.status == True || r.status == False)
    ensures dataSize.Some? && code == CheckPluginLoaded ==>
              (r.status == True <==> LoadedIn(mgr.plugins, TextOf(data.value))) &&
              (r.status == True || r.status == False)
  {
    if dataSize.None? then
      Reply(DataSizeNull, Untouched, None)
    else
      match code
      case GetAppDirectory =>
        var (text, length) := Duplicate(mgr.appDirectory);
        Reply(Success, text, length)
      case GetPluginApi =>
        var (text, length) := Duplicate(mgr.pluginApi);
        Reply(Success, text, length)
      case GetPluginsCount =>
        Reply(Success, Size(Count(mgr.plugins)), Some(1))
      case GetPluginInfo =>
        var info := InfoOf(mgr.plugins, Subject(sender, data));
        if info.None? then Reply(NotFound, Untouched, dataSize)
        else Reply(Success, Info(info.value), Some(1))
      case GetPluginVersion =>
        var info := InfoOf(mgr.plugins, Subject(sender, data));
        if info.None? then Reply(NotFound, Untouched, dataSize)
        else
          var (text, length) := Duplicate(info.value.version);
          Reply(Success, text, length)
      case CheckPlugin =>
        if Has(mgr.plugins, TextOf(data.value)) then Reply(True, Untouched, dataSize)
        else Reply(False, Untouched, dataSize)
      case CheckPluginLoaded =>
        if LoadedIn(mgr.plugins, TextOf(data.value)) then Reply(True, Untouched, dataSize)
        else Reply(False, Untouched, dataSize)
      case Other(_) =>
        Reply(UnknownRequest, Untouched, dataSize)
  }

  /** A plugin reported as loaded is also reported as registered. */
  lemma LoadedIsRegistered(mgr: Manager, sender: string, name: string, size: nat)
    requires HandleRequestImpl(mgr, sender, CheckPluginLoaded, Some(name), Some(size)).status == True
    ensures HandleRequestImpl(mgr, sender, CheckPlugin, Some(name), Some(size)).status == True
  {
  }

  /**
   * GET_PLUGINVERSION and GET_PLUGININFO agree: both find the same plugin,
   * and the version text is the version field of the info record.
   */
  lemma VersionOfInfo(mgr: Manager, sender: string, data: Option<string>, size: nat)
    ensures HandleRequestImpl(mgr, sender, GetPluginVersion, data, Some(size)).status ==
            HandleRequestImpl(mgr, sender, GetPluginInfo, data, Some(size)).status
    ensures HandleRequestImpl(mgr, sender, GetPluginInfo, data, Some(size)).status == Success ==>
              HandleRequestImpl(mgr, sender, GetPluginVersion, data, Some(size)).data ==
              Text(HandleRequestImpl(mgr, sender, GetPluginInfo, data, Some(size)).data.info.version)
  {
    var name := Subject(sender, data);
    if name in mgr.plugins {
      var v := mgr.plugins[name].info.version;
      assert CInfo(mgr.plugins[name].info).version == TextOf(v);
      TextOfText(TextOf(v));
    }
  }

  /** A request without a name in `*data` asks about its sender. */
  lemma SenderByDefault(mgr: Manager, sender: string, size: nat)
    ensures HandleRequestImpl(mgr, sender, GetPluginInfo, None, Some(size)) ==
            HandleRequestImpl(mgr, sender, GetPluginInfo, Some(sender), Some(size))
    ensures HandleRequestImpl(mgr, sender, GetPluginVersion, None, Some(size)) ==
            HandleRequestImpl(mgr, sender, GetPluginVersion, Some(sender), Some(size))
  {
  }
}
