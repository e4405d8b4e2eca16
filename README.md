# select-proxy: routing and profile bookkeeping in Dafny

select-proxy is a browser extension that sends chosen sites through an
upstream proxy. Each named *profile* holds three upstream endpoints
(http, ssl, ftp), a scheme (`socks5`, `socks4`, `http`, `https`), a target
list of host patterns and a mode:

- `"proxy"` sends only the listed hosts through the proxy;
- any other mode sends everything except the listed hosts through it.

The background page turns the active profile into a Proxy Auto-Config
script. The script's `FindProxyForURL` returns either the profile's
directive (for example `SOCKS5 127.0.0.1:12334; SOCKS5 127.0.0.1:12334`)
or `DIRECT`. The popup edits profiles and keeps the stored profile list,
the active profile and two flags in order.

The model has these modules:

- `Text` (text.dfy) holds the JavaScript string operations the code uses:
  `trim`, `split`, `join` and prefix/suffix tests.
- `Pac` (pac.dfy) covers `formatEntry` and `buildProxyString`. It also
  covers the decision the generated script computes:
  - `Decide` is the reference definition;
  - `ProxyOnlyFindProxy` and `BypassFindProxy` are the script's loops,
    each proved against `Decide`.
  
  A small reader of directives is the partner of the builder: a built
  directive reads back as its endpoints.
- `Background` (background.dfy) models `applyProfile`, `enableProxy`,
  `disableProxy` and the message listener. Each is a function that
  returns the action taken on the browser's proxy setting: clear it,
  install a script, or do nothing.
- `Targets` (targets.dfy) models `cleanTarget`, `parseTargets` and "add
  current site". The textarea is the class `TargetsEditor`.
- `Profiles` (profiles.dfy) covers the mode toggle, the profile built from
  the form, and `saveProfile`, `deleteProfile` and `ensureDefaults`:
  - each is a function on the stored `Settings`;
  - the class `Store` performs each one in place and is proved equal to
    that function.

`dnsDomainIs` is a suffix test, so `*.example.com` does not match
`example.com` (background.js:51, `Pac.MatchSemantics`). That is why "add
current site" adds both the root and the wildcard.

content.js sends `toggleTabProxy` and `getTabProxyState` (content.js:29,
content.js:65), but no listener answers them
(`Background.TabMessagesIgnored`).

## Model

| member | source | states |
|---|---|---|
| Pac.Keyword | background.js:29-32 | a keyword exists exactly for socks5, socks4, http and https, and is one of SOCKS5, SOCKS4, PROXY, HTTPS |
| Pac.KeywordInjective | background.js:29-32 | distinct schemes never share a keyword |
| Pac.FormatEntry | background.js:27-34 | no entry exactly when the host or port is empty or the scheme is unknown; otherwise the entry is `KEYWORD host:port` |
| Pac.EntryRoundTrip | background.js:27-34 | an entry whose port has no `:` reads back as its keyword, host and port |
| Pac.BuildProxyString | background.js:36-45 | the directive is empty exactly when no endpoint has both a host and a port (or the scheme is unknown) |
| Pac.BuildIsJoinOfPresent | background.js:36-45 | the directive is the `"; "`-join of the entries of the present endpoints, in the order http, ssl, ftp |
| Pac.DirectiveListRoundTrip | background.js:44 | clean entries joined by `"; "` split and trim back into the same list |
| Pac.BuildProxyStringReadsBack | background.js:36-45 | for a known scheme and endpoints with no `;` in the host, no `;` or `:` in the port and no port ending in white space, a directive reads back as one entry per present endpoint, in order, all under the one scheme's keyword |
| Pac.FormatAll | background.js:38-43 | one entry per endpoint, each `KEYWORD host:port` |
| Pac.ProxyOnlyFindProxy | background.js:49-53 | the proxy-only script's loop returns what `Decide` says for a proxy-only script |
| Pac.BypassFindProxy | background.js:59-63 | the bypass script's loop returns what `Decide` says for a bypass script |
| Pac.Matches | background.js:51 | the script's matcher: `*.s` is a suffix test against `.s`, any other pattern an equality; `Pac.MatchSemantics` states what that matches |
| Pac.Decide | background.js:47-65 | what either script returns for a host; `Pac.DecideOutcomes` and `Pac.ModesComplement` state its outcomes, the two loop methods are proved equal to it |
| Pac.MatchSemantics | background.js:51 | `*.s` matches exactly the hosts `p + "." + s`, it never matches `s` itself, and any other pattern matches only itself |
| Pac.SubdomainMatches | background.js:51 | every subdomain `sub.s` matches `*.s` |
| Pac.DecideOutcomes | background.js:52-53 | a script returns either the directive or `DIRECT` |
| Pac.AnyMatchSameSet | background.js:52 | a target list holding every pattern of another matches every host the other matches |
| Pac.DecideDependsOnMembership | background.js:52 | two target lists with the same members give the same decision in both modes, whatever their order or repeats |
| Pac.ModesComplement | background.js:52-53 | for a directive other than `DIRECT`, proxy-only proxies a host exactly when bypass sends it direct |
| Pac.BypassEmptyDirective | background.js:63 | a bypass script with an empty directive returns `""` (not `DIRECT`) for unlisted hosts |
| Background.CompiledRouting | background.js:83-85 | the installed script proxies a host exactly when (mode is `"proxy"`) equals (some target matches); missing targets count as none |
| Background.ApplyProfile | background.js:73-96 | a clear exactly when disabled or no profile is stored under the name; nothing when an endpoint record is missing; otherwise the script compiled from the stored profile |
| Background.EnableProxy | background.js:98-103 | nothing exactly when there is no (truthy) active name or its stored profile does not compile; a clear exactly when the active name has no profile; an install exactly when it has one that compiles, and then of that profile's script |
| Background.HandleMessage | background.js:110-113 | other message types do nothing, `proxyPower` off clears, on delegates to `enableProxy`, `applyProfile` delegates to `applyProfile` |
| Background.HandleMessageSources | background.js:110-113 | an installed script is always compiled from the stored profile the message (or, for `proxyPower`, the active name) designates; the exact conditions under which a message clears the setting |
| Background.TabMessagesIgnored | background.js:110-113 | `toggleTabProxy` and `getTabProxyState` have no effect |
| Background.CompileProfile | background.js:83-85 | the script built from a stored profile, none when an endpoint record is missing; `Background.CompiledRouting` states how it routes |
| Targets.CleanTarget | popup.js:66-74 | a target containing `://`, `/` or `?` is read as a URL (with `http://` put in front when it has no `://`) and becomes its host name, or when that throws the text with its scheme and path cut off and trimmed; anything else is kept; `Targets.CleanTargetKeeps` and `Targets.CleanTargetParsed` state both cases |
| Targets.CleanTargetKeeps | popup.js:66-70 | a target without `/` and `?` (hence without `://`) is returned unchanged, whatever the URL parser does |
| Targets.CleanTargetParsed | popup.js:67-69 | a target with `/` or `?` becomes the host name of itself (if it has `://`) or of `http://` + itself, or the fallback when that throws |
| Targets.StripSchemeOf | popup.js:72 | a leading `http://` or `https://` is removed |
| Targets.CutPathShape | popup.js:72 | the path cut keeps a prefix, cuts only at a `/`, keeps text without `/`, and leaves no `/` in text without line terminators |
| Targets.FallbackClean | popup.js:72 | the fallback of a text without line terminators holds no `/` and is already trimmed |
| Targets.DropEmptyMembers | popup.js:80 | the filter keeps exactly the non-empty pieces |
| Targets.ParseTargets | popup.js:76-82 | one target per non-empty trimmed piece, so never more targets than such pieces; `Targets.ParseTargetsContents` gives each target |
| Targets.ParseTargetsContents | popup.js:76-82 | target `i` is `cleanTarget` of piece `i` |
| Targets.PiecesNoSeparator | popup.js:77-80 | a text without newline or comma is one piece, its trimmed self, or none when that is empty |
| Targets.PiecesClean | popup.js:77-80 | each piece is non-empty, unpadded and holds no newline or comma |
| Targets.PiecesAppend | popup.js:78 | a newline or comma splits the targets between the text on its two sides |
| Targets.PiecesTrim | popup.js:76-82 | trimming the whole text first changes none of its targets |
| Targets.LoadSaveRoundTrip | popup.js:199 | plain targets written out joined by `", "` (as `loadProfile` does) parse back to the same list |
| Targets.RootDomainSpec | popup.js:375-378 | a root exists exactly when the host has a dot; it is the host's last two labels, and the host is the root or ends with `.` + root |
| Targets.RootDomain | popup.js:375-378 | the last two dot-separated labels, none for a host with fewer; `Targets.RootDomainSpec` states what they are |
| Targets.RootOrWildcardMatches | popup.js:378-379 | the host is matched by its root or by the root's wildcard |
| Targets.MissingMembers | popup.js:384-385 | an item is added exactly when it is a candidate the existing targets lack |
| Targets.SiteAdditions | popup.js:366-385 | the candidates root and `*.` + root that the parsed targets lack, root first; `Targets.NoRootNothingAdded` covers a host without a root, `Targets.SiteAdditionsCases` and `Targets.NothingAddedTwice` the others |
| Targets.NoRootNothingAdded | popup.js:371-376 | an empty host, or one without a dot, adds nothing |
| Targets.EditedText | popup.js:387-395 | the textarea after the edit, unchanged when nothing is added; `Targets.EditedTextTargets` states its parsed targets |
| Targets.SiteAdditionsCases | popup.js:381-385 | the additions are the root unless present, then the wildcard unless present |
| Targets.NothingAddedTwice | popup.js:384-390 | nothing is added exactly when both the root and the wildcard are already targets |
| Targets.EditedTextTargets | popup.js:392-395 | after the edit the parsed targets are the additions followed by the targets before it |
| Targets.AddedSiteIsRouted | popup.js:366-395 | after "add current site" the targets match the host, so a proxy-only profile proxies it |
| Targets.TargetsEditor.AddCurrentSite | popup.js:366-399 | returns the additions and rewrites the text to the additions, one per line, in front of the trimmed old text, only when there are some |
| Profiles.GetMode | popup.js:116-118 | the form reads only `"proxy"` or `"bypass"`, and setting the toggle from the mode read gives the toggle back |
| Profiles.ShownModeAgreesWithScript | popup.js:208 | a loaded profile is saved back with the mode the background applies, except a profile without a mode: shown as proxy, applied as bypass |
| Profiles.GetScheme | popup.js:100-104 | the checked scheme, `socks5` when none is checked; `Profiles.FormProfileCompiles` states the saved profile carries it |
| Profiles.ProfileFromForm | popup.js:251-259 | the profile object built from the trimmed fields, parsed targets, scheme and mode; `Profiles.FormProfileCompiles` states that it always compiles |
| Profiles.FormProfileCompiles | popup.js:251-259 | a profile saved from the form always compiles, proxy-only exactly when the toggle is off, over the parsed targets, with the scheme `getScheme` reads |
| Profiles.Dedup | popup.js:265 | never longer than its input; the de-duplication lemmas below state what it keeps |
| Profiles.DedupMembers | popup.js:265 | de-duplication keeps exactly the listed names |
| Profiles.DedupDistinct | popup.js:265 | every name appears once after de-duplication |
| Profiles.DedupOfDistinct | popup.js:265 | a list without repeats is unchanged |
| Profiles.DedupPrefix | popup.js:265 | names appended later never move earlier ones (first occurrence wins) |
| Profiles.AppendDedup | popup.js:264-265 | appending a name to a list without repeats: a new name lands last, a known one changes nothing |
| Profiles.Remove | popup.js:285 | never longer than its input; the filter lemmas below state what it keeps |
| Profiles.RemoveMembers | popup.js:285 | the filter removes exactly the deleted name |
| Profiles.RemoveAppend | popup.js:285 | the filter keeps the relative order of the others |
| Profiles.RemoveAbsent | popup.js:285 | filtering out an absent name changes nothing |
| Profiles.RemoveDistinct | popup.js:285 | filtering keeps a list without repeats |
| Profiles.SaveProfileSpec | popup.js:247-268 | the stored keys after `saveProfile`; `Profiles.SaveProfileEffect` and `Profiles.SavePreservesNormal` state its effect |
| Profiles.SaveProfileEffect | popup.js:247-268 | a blank name saves nothing; otherwise the name is listed once (last if new, when the stored list has no repeats), made active and its record written; every other record and both flags untouched |
| Profiles.SavePreservesNormal | popup.js:261-268 | saving keeps names distinct, every listed name stored and the active name listed |
| Profiles.DeleteProfileSpec | popup.js:280-294 | the stored keys after `deleteProfile`; `Profiles.DeleteProfileEffect` and `Profiles.DeletePreservesNormal` state its effect |
| Profiles.DeleteProfileEffect | popup.js:280-294 | every occurrence and the record go, order kept; active re-picked as first-or-null only if it was deleted; every other record and both flags untouched |
| Profiles.DeletePreservesNormal | popup.js:284-294 | deleting keeps names distinct, every listed name stored and the active name listed (or none) |
| Profiles.EnsureDefaultsSpec | popup.js:135-187 | the stored keys and the view after `ensureDefaults`; the three lemmas below state its effect |
| Profiles.EnsureDefaultsEffect | popup.js:135-187 | the list is non-empty and the active name listed and stored; an empty store's list becomes exactly `["Default"]`, active `Default`, switched off, every other record kept; otherwise the list and records are kept and an active name that is empty or unlisted is replaced by the first listed; an absent `showTabProxy` becomes true and a stored one is kept; `proxyEnabled` reads as false when absent |
| Profiles.EnsureDefaultsIdempotent | popup.js:135-187 | a second run changes nothing and returns the same view |
| Profiles.EnsureDefaultsPreservesNormal | popup.js:135-187 | normalising keeps a well-kept store well kept |
| Profiles.ApplyCurrentMessage | popup.js:435-442 | the message `applyCurrentProfile` sends: the stored active name and whether the proxy is on; `Profiles.SaveThenApply` states what it does after a save |
| Profiles.SaveThenApply | popup.js:435-442 | after a save, the apply message installs the saved profile with the routing its toggle and targets ask for when the proxy is on, and clears otherwise |
| Profiles.Store.SaveProfile | popup.js:247-270 | performs `SaveProfileSpec` on the stored keys |
| Profiles.Store.DeleteProfile | popup.js:280-294 | performs `DeleteProfileSpec` on the stored keys |
| Profiles.Store.EnsureDefaults | popup.js:135-187 | performs `EnsureDefaultsSpec` and returns its view |

## Left out

- Icon drawing (`setIconColor`, the `onStartup` and `onInstalled` listeners) is canvas and floating-point UI with no effect on routing.
- `chrome.proxy.settings` and `chrome.storage.local` are foreign browser APIs. They appear only as the returned `Action` and the `Settings` map. A profile stored under the key `"profile:" + name` is a map entry under `name`.
- Text of the generated script is not modelled; its decision is. The target list goes in through `JSON.stringify`, but the directive is put inside a string literal unescaped, so a host or port with a quote or backslash would break the script. The model does not capture that.
- The `url` argument of `FindProxyForURL` is unused by the script, and the browser supplies `host`.
- `new URL(...).hostname` (WHATWG URL Standard, host parsing) is a parameter of the model: any total function, with `None` where the constructor throws.
- Split on runs: `parseTargets` splits on runs of newlines and commas (`/[\n,]+/`). The model splits on single characters. The two differ only in empty pieces, which the `filter(Boolean)` step drops.
- The round-trip and "add current site" lemmas (`LoadSaveRoundTrip`, `EditedTextTargets`, `AddedSiteIsRouted`) cover plain targets only: non-empty, unpadded, and free of newline, comma, `/` and `?`. A target with those characters is re-split or rewritten by `parseTargets`.
- Stored values of the wrong JavaScript type are not representable in the model: a non-array `profiles`, a `null` `showTabProxy`, non-string fields. An absent `profiles` and an empty one both read as the empty list, as `d.profiles || []` does.
- Profiles.ApplyCurrentMessage: `Settings.active` does not tell a stored `null` active name from an absent one, and the message carries the text `"null"` for both. The source looks a `null` name up under `"profile:null"` but an absent one under `"profile:undefined"`; the model merges the two cases.
- Only the state changes of the DOM and form code are modelled: the mode toggle, `getScheme` and the values read and written. Left out are `setScheme`, `fillDefaultForm`, `loadProfile`'s form filling, `resetProfile`, `profileChanged`, `toggleProxyPower`, `toggleFastProxy`, `loadProfilesIntoUI`, status texts and the button colours.
- Export and import of settings are JSON, Blob and file I/O.
- content.js is the on-page button and a message sender, with no routing logic.
- Concurrency: each listener and each popup handler is one atomic step. Fire-and-forget messages and interleaved storage reads are not modelled. `Profiles.SaveThenApply` composes the save with the apply message directly. It leaves out the `ensureDefaults` in between, which after a save changes only an absent `showTabProxy`.
- The `applyCurrentProfile()` call `deleteProfile` makes when profiles remain (popup.js:296-300) is not modelled as part of `DeleteProfileSpec`; when none remain nothing is applied, so the script of the deleted profile stays installed.
