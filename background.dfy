/**
 * The effectful half of background.js, with each handler reduced to the one
 * action it takes on the browser's proxy setting: `applyProfile`,
 * `enableProxy`, `disableProxy` and the `onMessage` dispatch.
 *
 * The profile store (`chrome.storage.local`) is a map from profile name to
 * the stored profile; the key `"profile:" + name` under which the extension
 * keeps it is a one-to-one renaming and is not spelt out.
 */
module Background {
  import opened Options
  import opened Pac

  /** A stored profile as `applyProfile` reads it; an absent `mode` is `""`. */
  datatype Profile = Profile(
    name: string,
    targets: Option<seq<string>>,
    scheme: string,
    mode: string,
    http: Option<Endpoint>,
    ssl: Option<Endpoint>,
    ftp: Option<Endpoint>)

  /** What a handler does to the proxy setting. */
  datatype Action =
    | ClearPolicy                      // `disableProxy`: `chrome.proxy.settings.clear`
    | InstallPac(script: PacScript)    // `chrome.proxy.settings.set` with a `pac_script`
    | NoAction

  /** `pr.targets || []` */
  function TargetsOf(p: Profile): seq<string> {
    if p.targets.Some? then p.targets.value else []
  }

  /**
   * The script `applyProfile` builds from a found profile: proxy-only for
   * mode `"proxy"`, bypass for any other mode. None when an endpoint record
   * is absent, where reading its `host` throws and the handler stops.
   */
  function CompileProfile(p: Profile): Option<PacScript> {
    if p.http.None? || p.ssl.None? || p.ftp.None? then None
    else
      var proxy := BuildProxyString(p.scheme, p.http.value, p.ssl.value, p.ftp.value);
      Some(if p.mode == "proxy" then ProxyOnly(TargetsOf(p), proxy) else Bypass(TargetsOf(p), proxy))
  }

  /** The directive of a profile whose endpoint records are all there. */
  function DirectiveOf(p: Profile): string
    requires p.http.Some? && p.ssl.Some? && p.ftp.Some?
  {
    BuildProxyString(p.scheme, p.http.value, p.ssl.value, p.ftp.value)
  }

  /**
   * The installed script routes a host through the profile's directive
   * exactly when target membership agrees with the mode: in mode `"proxy"`
   * the listed hosts, in any other mode the unlisted ones.
   */
  lemma CompiledRouting(p: Profile, host: string)
    requires CompileProfile(p).Some?
    ensures Decide(CompileProfile(p).value, host)
         == if (p.mode == "proxy") == AnyMatch(host, TargetsOf(p)) then DirectiveOf(p) else "DIRECT"
  {
  }

  /** `applyProfile(name, enabled)` against the profiles stored when it runs. */
  function ApplyProfile(name: string, enabled: bool, records: map<string, Profile>): (a: Action)
    ensures a.ClearPolicy? <==> !enabled || name !in records
    ensures a.NoAction? <==> enabled && name in records && CompileProfile(records[name]).None?
    ensures a.InstallPac? ==> name in records && CompileProfile(records[name]) == Some(a.script)
  {
    if !enabled then ClearPolicy
    else if name !in records then ClearPolicy
    else match CompileProfile(records[name])
      case None => NoAction
      case Some(script) => InstallPac(script)
  }

  /** A stored `activeProfile` that is JavaScript-truthy: present and not empty. */
  predicate Truthy(active: Option<string>) {
    active.Some? && active.value != ""
  }

  /**
   * `enableProxy()`: with no (truthy) active profile stored it does nothing,
   * not even a clear; otherwise it applies the active profile as enabled.
   */
  function EnableProxy(active: Option<string>, records: map<string, Profile>): (a: Action)
    ensures a.NoAction? <==> !Truthy(active) || (active.value in records && CompileProfile(records[active.value]).None?)
    ensures a.ClearPolicy? <==> Truthy(active) && active.value !in records
    ensures a.InstallPac? <==> Truthy(active) && active.value in records && CompileProfile(records[active.value]).Some?
    ensures a.InstallPac? ==> CompileProfile(records[active.value]) == Some(a.script)
  {
    if !Truthy(active) then NoAction else ApplyProfile(active.value, true, records)
  }

  /** The messages the listener tells apart by their `type`; every other type is `Other`. */
  datatype Message =
    | ApplyProfileMsg(name: string, enabled: bool)
    | ProxyPowerMsg(enabled: bool)
    | OtherMsg(kind: string)

  /**
   * The `onMessage` listener: `applyProfile` applies the named profile,
   * `proxyPower` off clears and on enables, and every other message type
   * (among them `toggleTabProxy` and `getTabProxyState`) does nothing.
   */
  function HandleMessage(msg: Message, active: Option<string>, records: map<string, Profile>): (a: Action)
    ensures msg.OtherMsg? ==> a.NoAction?
    ensures msg == ProxyPowerMsg(false) ==> a.ClearPolicy?
    ensures msg.ApplyProfileMsg? ==> a == ApplyProfile(msg.name, msg.enabled, records)
    ensures msg == ProxyPowerMsg(true) ==> a == EnableProxy(active, records)
  {
    match msg
    case ApplyProfileMsg(name, enabled) => ApplyProfile(name, enabled, records)
    case ProxyPowerMsg(enabled) => if enabled then EnableProxy(active, records) else ClearPolicy
    case OtherMsg(_) => NoAction
  }

  /**
   * Whatever message arrives, a script is installed only if it is compiled
   * from a stored profile: the one the message names, or for `proxyPower`
   * the active one; a clear happens only on a disabling message or a
   * profile name with nothing stored under it.
   */
  lemma HandleMessageSources(msg: Message, active: Option<string>, records: map<string, Profile>)
    ensures var a := HandleMessage(msg, active, records);
      a.InstallPac? ==>
        exists n :: n in records && CompileProfile(records[n]) == Some(a.script)
                    && (if msg.ApplyProfileMsg? then n == msg.name else active == Some(n))
    ensures var a := HandleMessage(msg, active, records);
      a.ClearPolicy? <==>
        || (msg.ApplyProfileMsg? && (!msg.enabled || msg.name !in records))
        || msg == ProxyPowerMsg(false)
        || (msg == ProxyPowerMsg(true) && Truthy(active) && active.value !in records)
  {
    var a := HandleMessage(msg, active, records);
    if a.InstallPac? {
      var n := if msg.ApplyProfileMsg? then msg.name else active.value;
      assert n in records && CompileProfile(records[n]) == Some(a.script);
    }
  }

  /** The per-tab messages the on-page button sends reach no handler. */
  lemma TabMessagesIgnored(active: Option<string>, records: map<string, Profile>)
    ensures HandleMessage(OtherMsg("toggleTabProxy"), active, records) == NoAction
    ensures HandleMessage(OtherMsg("getTabProxyState"), active, records) == NoAction
  {
  }
}
