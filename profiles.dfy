/**
 * The profile bookkeeping of the popup (popup.js) with the form reduced to
 * its values: the mode toggle, the profile built from the form, and the
 * stored profile list, active profile and flags as `saveProfile`,
 * `deleteProfile` and `ensureDefaults` update them.
 *
 * Each update is a function on `Settings` (the stored keys), and the class
 * `Store` performs it in place on fields holding the same keys.
 */
module Profiles {
  import opened Options
  import opened Text
  import opened Pac
  import opened Background
  import opened Targets

  const DefaultHost: string := "127.0.0.1"
  const DefaultPort: string := "12334"
  const DefaultScheme: string := "socks5"
  const DefaultMode: string := "proxy"
  const DefaultProfile: string := "Default"

  // ---------------------------------------------------------------- mode toggle

  /** `getMode()`: the toggle switched on means bypass. */
  function GetMode(toggleOn: bool): (r: string)
    ensures r == "proxy" || r == "bypass"
    ensures ModeToggle(r) == toggleOn
  {
    if toggleOn then "bypass" else "proxy"
  }

  /** `setMode(mode)`: the toggle is switched on for every mode but `"proxy"`. */
  function ModeToggle(mode: string): bool {
    mode != "proxy"
  }

  /** The mode `loadProfile` shows: `p.mode || DEFAULT_MODE`. */
  function ShownMode(mode: string): string {
    if mode == "" then DefaultMode else mode
  }

  /**
   * The mode a loaded profile is saved back with agrees with the script the
   * background compiles from it, except for a profile without a mode: the
   * popup shows and saves it as `"proxy"`, while the background applies it
   * as a bypass profile.
   */
  lemma ShownModeAgreesWithScript(p: Profile)
    requires CompileProfile(p).Some?
    ensures var saved := GetMode(ModeToggle(ShownMode(p.mode)));
      if p.mode == "" then saved == "proxy" && CompileProfile(p).value.Bypass?
      else (saved == "proxy" <==> CompileProfile(p).value.ProxyOnly?)
  {
  }

  // ---------------------------------------------------------------- the form

  /** The form fields `saveProfile` reads; `scheme` is the checked radio button, if any. */
  datatype Form = Form(
    name: string,
    targets: string,
    httpHost: string, httpPort: string,
    sslHost: string, sslPort: string,
    ftpHost: string, ftpPort: string,
    scheme: Option<string>,
    modeOn: bool)

  /** `getScheme()` */
  function GetScheme(checked: Option<string>): string {
    if checked.Some? then checked.value else DefaultScheme
  }

  /** The profile object `saveProfile` stores: trimmed fields, parsed targets, the toggles' values. */
  function ProfileFromForm(f: Form, parseUrl: UrlParser): Profile {
    Profile(
      Trim(f.name),
      Some(ParseTargets(f.targets, parseUrl)),
      GetScheme(f.scheme),
      GetMode(f.modeOn),
      Some(Endpoint(Trim(f.httpHost), Trim(f.httpPort))),
      Some(Endpoint(Trim(f.sslHost), Trim(f.sslPort))),
      Some(Endpoint(Trim(f.ftpHost), Trim(f.ftpPort))))
  }

  /**
   * A profile saved from the form always compiles: proxy-only exactly when
   * the toggle is off, over the targets parsed from the textarea.
   */
  lemma FormProfileCompiles(f: Form, parseUrl: UrlParser)
    ensures var p := ProfileFromForm(f, parseUrl);
      && CompileProfile(p).Some?
      && (CompileProfile(p).value.ProxyOnly? <==> !f.modeOn)
      && CompileProfile(p).value.targets == ParseTargets(f.targets, parseUrl)
      && p.scheme == GetScheme(f.scheme)
  {
  }

  // ---------------------------------------------------------------- lists

  predicate Distinct<T(==)>(xs: seq<T>) {
    forall i, j :: 0 <= i < j < |xs| ==> xs[i] != xs[j]
  }

  lemma DistinctCons<T>(h: T, r: seq<T>)
    requires h !in r && Distinct(r)
    ensures Distinct([h] + r)
  {
    var xs := [h] + r;
    forall i, j | 0 <= i < j < |xs|
      ensures xs[i] != xs[j]
    {
      assert xs[j] == r[j - 1];
      if i > 0 {
        assert xs[i] == r[i - 1];
      }
    }
  }

  lemma DistinctSnoc<T>(r: seq<T>, x: T)
    requires x !in r && Distinct(r)
    ensures Distinct(r + [x])
  {
  }

  /** `[...new Set(xs)]`: each item once, where it first occurs. */
  function Dedup<T(==)>(xs: seq<T>): (r: seq<T>)
    ensures |r| <= |xs|
  {
    if xs == [] then []
    else
      var d := Dedup(xs[..|xs| - 1]);
      if xs[|xs| - 1] in d then d else d + [xs[|xs| - 1]]
  }

  /** The set keeps exactly the items of the list. */
  lemma {:induction false} DedupMembers<T>(xs: seq<T>, x: T)
    ensures x in Dedup(xs) <==> x in xs
  {
    if xs != [] {
      var front := xs[..|xs| - 1];
      DedupMembers(front, x);
      assert xs == front + [xs[|xs| - 1]];
    }
  }

  /** The set holds every item once. */
  lemma {:induction false} DedupDistinct<T>(xs: seq<T>)
    ensures Distinct(Dedup(xs))
  {
    if xs != [] {
      var front := xs[..|xs| - 1];
      DedupDistinct(front);
      if xs[|xs| - 1] !in Dedup(front) {
        DistinctSnoc(Dedup(front), xs[|xs| - 1]);
      }
    }
  }

  /** A list without repeats comes back unchanged. */
  lemma {:induction false} DedupOfDistinct<T>(xs: seq<T>)
    requires Distinct(xs)
    ensures Dedup(xs) == xs
  {
    if xs != [] {
      var front := xs[..|xs| - 1];
      DedupOfDistinct(front);
      assert xs == front + [xs[|xs| - 1]];
    }
  }

  /** Items added at the end never move the ones already there: the result for a prefix is a prefix of the result. */
  lemma {:induction false} DedupPrefix<T>(xs: seq<T>, ys: seq<T>)
    ensures |Dedup(xs)| <= |Dedup(xs + ys)|
    ensures Dedup(xs + ys)[..|Dedup(xs)|] == Dedup(xs)
  {
    if ys == [] {
      assert xs + ys == xs;
    } else {
      var front := ys[..|ys| - 1];
      DedupPrefix(xs, front);
      assert (xs + ys)[..|xs + ys| - 1] == xs + front;
    }
  }

  /** Adding a name to a list without repeats: a new name lands last, a known one changes nothing. */
  lemma AppendDedup<T>(xs: seq<T>, n: T)
    requires Distinct(xs)
    ensures Dedup(xs + [n]) == if n in xs then xs else xs + [n]
  {
    DedupOfDistinct(xs);
    assert (xs + [n])[..|xs|] == xs;
  }

  /** `xs.filter(p => p !== n)` */
  function Remove<T(==)>(xs: seq<T>, n: T): (r: seq<T>)
    ensures |r| <= |xs|
  {
    if xs == [] then [] else (if xs[0] == n then [] else [xs[0]]) + Remove(xs[1..], n)
  }

  /** Filtering removes exactly the name. */
  lemma {:induction false} RemoveMembers<T>(xs: seq<T>, n: T, x: T)
    ensures x in Remove(xs, n) <==> x in xs && x != n
  {
    if xs != [] {
      RemoveMembers(xs[1..], n, x);
      assert xs == [xs[0]] + xs[1..];
    }
  }

  /** Filtering keeps the order: it works piece by piece. */
  lemma {:induction false} RemoveAppend<T>(a: seq<T>, b: seq<T>, n: T)
    ensures Remove(a + b, n) == Remove(a, n) + Remove(b, n)
  {
    if a == [] {
      assert a + b == b;
    } else {
      assert (a + b)[1..] == a[1..] + b;
      RemoveAppend(a[1..], b, n);
    }
  }

  /** Filtering out an absent name changes nothing. */
  lemma {:induction false} RemoveAbsent<T>(xs: seq<T>, n: T)
    requires n !in xs
    ensures Remove(xs, n) == xs
  {
    if xs != [] {
      RemoveAbsent(xs[1..], n);
      assert xs == [xs[0]] + xs[1..];
    }
  }

  lemma {:induction false} RemoveDistinct<T>(xs: seq<T>, n: T)
    requires Distinct(xs)
    ensures Distinct(Remove(xs, n))
  {
    if xs != [] {
      RemoveDistinct(xs[1..], n);
      if xs[0] != n {
        RemoveMembers(xs[1..], n, xs[0]);
        assert xs[0] !in xs[1..];
        DistinctCons(xs[0], Remove(xs[1..], n));
      }
    }
  }

  // ---------------------------------------------------------------- stored settings

  /**
   * The stored keys: `profiles` (absent reads as empty), `activeProfile`
   * (absent or `null` is `None`), `proxyEnabled`, `showTabProxy` (absent is
   * `None`), and the profile records keyed by name.
   */
  datatype Settings = Settings(
    profiles: seq<string>,
    active: Option<string>,
    proxyEnabled: Option<bool>,
    showTabProxy: Option<bool>,
    records: map<string, Profile>)

  /** A well-kept store: each name listed once, each listed name has a record, the active one is listed. */
  predicate Normal(s: Settings) {
    && Distinct(s.profiles)
    && (forall n :: n in s.profiles ==> n in s.records)
    && (s.active.Some? ==> s.active.value in s.profiles)
  }

  /** `saveProfile()`: nothing for a blank name, else the name listed once, made active, and its record written. */
  function SaveProfileSpec(s: Settings, f: Form, parseUrl: UrlParser): Settings {
    var name := Trim(f.name);
    if name == "" then s
    else s.(profiles := Dedup(s.profiles + [name]),
             active := Some(name),
             records := s.records[name := ProfileFromForm(f, parseUrl)])
  }

  /** `profiles[0] || null` */
  function FirstOrNull(ps: seq<string>): Option<string> {
    if |ps| > 0 && ps[0] != "" then Some(ps[0]) else None
  }

  /** `deleteProfile()`: the name filtered out, its record removed, and the active profile re-picked if it was that name. */
  function DeleteProfileSpec(s: Settings, formName: string): Settings {
    var name := Trim(formName);
    var ps := Remove(s.profiles, name);
    s.(profiles := ps,
       active := if s.active == Some(name) then FirstOrNull(ps) else s.active,
       records := s.records - {name})
  }

  /** What `ensureDefaults` returns to the popup. */
  datatype View = View(profiles: seq<string>, active: string, proxyEnabled: bool, showTabProxy: bool)

  /** The profile `ensureDefaults` creates when there is none. */
  const DefaultRecord: Profile := Profile(
    DefaultProfile, Some([]), DefaultScheme, DefaultMode,
    Some(Endpoint(DefaultHost, DefaultPort)),
    Some(Endpoint(DefaultHost, DefaultPort)),
    Some(Endpoint(DefaultHost, DefaultPort)))

  /** The stored active name is kept: it is truthy and listed (the negation of `!active || !profiles.includes(active)`). */
  predicate KeepActive(s: Settings) {
    Truthy(s.active) && s.active.value in s.profiles
  }

  /**
   * `ensureDefaults()`: the new stored settings and the view it returns. An
   * absent `showTabProxy` becomes true; an empty list becomes the default
   * profile, active and switched off; otherwise an active name that is
   * falsy or not listed becomes the first listed one.
   */
  function EnsureDefaultsSpec(s: Settings): (Settings, View) {
    var show := if s.showTabProxy.Some? then s.showTabProxy.value else true;
    var s1 := s.(showTabProxy := Some(show));
    if s.profiles == [] then
      (s1.(profiles := [DefaultProfile], active := Some(DefaultProfile), proxyEnabled := Some(false),
           records := s.records[DefaultProfile := DefaultRecord]),
       View([DefaultProfile], DefaultProfile, false, show))
    else
      var act := if KeepActive(s) then s.active.value else s.profiles[0];
      (s1.(active := Some(act)),
       View(s.profiles, act, if s.proxyEnabled.Some? then s.proxyEnabled.value else false, show))
  }

  /** A blank name saves nothing; otherwise the list gains the name once, last if it is new, and it becomes active. */
  lemma SaveProfileEffect(s: Settings, f: Form, parseUrl: UrlParser)
    ensures var t := SaveProfileSpec(s, f, parseUrl);
      var name := Trim(f.name);
      && (name == "" ==> t == s)
      && (name != "" ==> && Distinct(t.profiles)
                         && (forall x :: x in t.profiles <==> x in s.profiles || x == name)
                         && t.active == Some(name)
                         && t.records[name] == ProfileFromForm(f, parseUrl)
                         && t.proxyEnabled == s.proxyEnabled && t.showTabProxy == s.showTabProxy)
      && (forall n :: n != name ==> (n in t.records <==> n in s.records)
                                    && (n in s.records ==> t.records[n] == s.records[n]))
      && (name != "" && Distinct(s.profiles) ==>
            t.profiles == if name in s.profiles then s.profiles else s.profiles + [name])
  {
    var name := Trim(f.name);
    if name != "" {
      var t := SaveProfileSpec(s, f, parseUrl);
      DedupDistinct(s.profiles + [name]);
      forall x
        ensures x in t.profiles <==> x in s.profiles || x == name
      {
        DedupMembers(s.profiles + [name], x);
      }
      if Distinct(s.profiles) {
        AppendDedup(s.profiles, name);
      }
    }
  }

  /** Saving keeps the store well kept. */
  lemma SavePreservesNormal(s: Settings, f: Form, parseUrl: UrlParser)
    requires Normal(s)
    ensures Normal(SaveProfileSpec(s, f, parseUrl))
  {
    SaveProfileEffect(s, f, parseUrl);
  }

  /**
   * Deleting removes every occurrence of the name and its record, keeps the
   * order of the rest, and re-picks the active profile only if it was the
   * deleted one.
   */
  lemma DeleteProfileEffect(s: Settings, formName: string)
    ensures var t := DeleteProfileSpec(s, formName);
      var name := Trim(formName);
      && (forall x :: x in t.profiles <==> x in s.profiles && x != name)
      && (forall a, b :: t.profiles == Remove(a, name) + Remove(b, name) <== s.profiles == a + b)
      && name !in t.records
      && (s.active != Some(name) ==> t.active == s.active)
      && (s.active == Some(name) ==> t.active == FirstOrNull(t.profiles))
      && (name !in s.profiles ==> t.profiles == s.profiles)
      && t.proxyEnabled == s.proxyEnabled && t.showTabProxy == s.showTabProxy
      && (forall n :: n != name ==> (n in t.records <==> n in s.records)
                                    && (n in s.records ==> t.records[n] == s.records[n]))
  {
    var name := Trim(formName);
    var t := DeleteProfileSpec(s, formName);
    forall x
      ensures x in t.profiles <==> x in s.profiles && x != name
    {
      RemoveMembers(s.profiles, name, x);
    }
    forall a, b | s.profiles == a + b
      ensures t.profiles == Remove(a, name) + Remove(b, name)
    {
      RemoveAppend(a, b, name);
    }
    if name !in s.profiles {
      RemoveAbsent(s.profiles, name);
    }
  }

  /** Deleting keeps the store well kept. */
  lemma DeletePreservesNormal(s: Settings, formName: string)
    requires Normal(s)
    ensures Normal(DeleteProfileSpec(s, formName))
  {
    var name := Trim(formName);
    var t := DeleteProfileSpec(s, formName);
    RemoveDistinct(s.profiles, name);
    forall x | x in t.profiles
      ensures x in t.records
    {
      RemoveMembers(s.profiles, name, x);
    }
    if t.active.Some? {
      if s.active == Some(name) {
        assert t.active.value == t.profiles[0];
      } else {
        RemoveMembers(s.profiles, name, t.active.value);
      }
    }
  }

  /**
   * After `ensureDefaults` the list is not empty, the active profile is
   * listed and stored, `showTabProxy` is stored, and an empty store holds
   * the default profile, switched off.
   */
  lemma EnsureDefaultsEffect(s: Settings)
    ensures var (t, v) := EnsureDefaultsSpec(s);
      && v.profiles != [] && v.active in v.profiles
      && t.profiles == v.profiles && t.active == Some(v.active)
      && t.showTabProxy == Some(v.showTabProxy)
      && (s.showTabProxy.Some? ==> v.showTabProxy == s.showTabProxy.value)
      && (s.showTabProxy.None? ==> v.showTabProxy)
      && (s.profiles == [] ==> v.profiles == [DefaultProfile]
                               && v.active == DefaultProfile && !v.proxyEnabled
                               && t.proxyEnabled == Some(false) && t.records[DefaultProfile] == DefaultRecord
                               && (forall n :: n != DefaultProfile ==>
                                     ((n in t.records <==> n in s.records)
                                      && (n in s.records ==> t.records[n] == s.records[n]))))
      && (s.profiles != [] ==> t.profiles == s.profiles && t.records == s.records
                               && t.proxyEnabled == s.proxyEnabled
                               && v.proxyEnabled == (s.proxyEnabled == Some(true))
                               && (KeepActive(s) ==> t.active == s.active)
                               && (!KeepActive(s) ==> v.active == s.profiles[0]))
  {
  }

  /** A second `ensureDefaults` changes nothing and returns the same view. */
  lemma EnsureDefaultsIdempotent(s: Settings)
    ensures var (t, v) := EnsureDefaultsSpec(s);
      EnsureDefaultsSpec(t) == (t, v)
  {
    var (t, v) := EnsureDefaultsSpec(s);
    EnsureDefaultsEffect(s);
    if !Truthy(t.active) {
      assert t.profiles[0] == v.active;
    }
  }

  /** `ensureDefaults` keeps a well-kept store well kept. */
  lemma EnsureDefaultsPreservesNormal(s: Settings)
    requires Normal(s)
    ensures Normal(EnsureDefaultsSpec(s).0)
  {
    EnsureDefaultsEffect(s);
  }

  // ---------------------------------------------------------------- applying

  /**
   * The message `applyCurrentProfile()` sends: the stored active name and
   * whether the proxy is on. `Settings.active` does not tell a stored `null`
   * from an absent key; both are sent here as the text `"null"`, the name a
   * stored `null` is looked up under (an absent one is looked up under
   * `"undefined"` instead).
   */
  function ApplyCurrentMessage(s: Settings): Message {
    ApplyProfileMsg(if s.active.Some? then s.active.value else "null", s.proxyEnabled == Some(true))
  }

  /**
   * Save, then apply: with the proxy on, the background installs the saved
   * profile, which routes a host through its directive exactly when the
   * host's membership in the parsed targets agrees with the mode; with the
   * proxy off it clears the setting.
   */
  lemma SaveThenApply(s: Settings, f: Form, parseUrl: UrlParser, host: string)
    requires Trim(f.name) != ""
    ensures var t := SaveProfileSpec(s, f, parseUrl);
      var a := HandleMessage(ApplyCurrentMessage(t), t.active, t.records);
      var p := ProfileFromForm(f, parseUrl);
      && (s.proxyEnabled != Some(true) ==> a == ClearPolicy)
      && (s.proxyEnabled == Some(true) ==>
            && a.InstallPac?
            && Decide(a.script, host)
               == if !f.modeOn == AnyMatch(host, ParseTargets(f.targets, parseUrl)) then DirectiveOf(p) else "DIRECT")
  {
    var p := ProfileFromForm(f, parseUrl);
    FormProfileCompiles(f, parseUrl);
    CompiledRouting(p, host);
  }

  // ---------------------------------------------------------------- the store

  /** `chrome.storage.local` as the popup sees it. */
  class Store {
    var profiles: seq<string>
    var active: Option<string>
    var proxyEnabled: Option<bool>
    var showTabProxy: Option<bool>
    var records: map<string, Profile>

    function State(): Settings
      reads this
    {
      Settings(profiles, active, proxyEnabled, showTabProxy, records)
    }

    constructor(s: Settings)
      ensures State() == s
    {
      profiles := s.profiles;
      active := s.active;
      proxyEnabled := s.proxyEnabled;
      showTabProxy := s.showTabProxy;
      records := s.records;
    }

    /** `saveProfile()` */
    method SaveProfile(f: Form, parseUrl: UrlParser)
      modifies this
      ensures State() == SaveProfileSpec(old(State()), f, parseUrl)
    {
      var name := Trim(f.name);
      if name == "" {
        return;
      }
      var p := ProfileFromForm(f, parseUrl);
      var ps := profiles;
      ps := ps + [name];
      ps := Dedup(ps);
      profiles := ps;
      active := Some(name);
      records := records[name := p];
    }

    /** `deleteProfile()` */
    method DeleteProfile(formName: string)
      modifies this
      ensures State() == DeleteProfileSpec(old(State()), formName)
    {
      var name := Trim(formName);
      var ps := Remove(profiles, name);
      if active == Some(name) {
        active := FirstOrNull(ps);
      }
      records := records - {name};
      profiles := ps;
    }

    /** `ensureDefaults()` */
    method EnsureDefaults() returns (v: View)
      modifies this
      ensures (State(), v) == EnsureDefaultsSpec(old(State()))
    {
      var ps := profiles;
      var act := active;
      var show := true;
      if showTabProxy.None? {
        showTabProxy := Some(true);
      } else {
        show := showTabProxy.value;
      }
      if |ps| == 0 {
        ps := [DefaultProfile];
        profiles := ps;
        active := Some(DefaultProfile);
        proxyEnabled := Some(false);
        records := records[DefaultProfile := DefaultRecord];
        return View(ps, DefaultProfile, false, show);
      }
      var name: string;
      if !Truthy(act) || act.value !in ps {
        name := ps[0];
        active := Some(name);
      } else {
        name := act.value;
      }
      v := View(ps, name, if proxyEnabled.Some? then proxyEnabled.value else false, show);
    }
  }
}
