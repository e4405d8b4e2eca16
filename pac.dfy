/**
 * The routing core of background.js: the proxy directive a profile's three
 * upstream endpoints produce (`formatEntry`, `buildProxyString`) and the
 * decision the generated `FindProxyForURL` script computes for a host
 * (`pacProxyOnly`, `pacBypass` and their matcher `m`).
 *
 * The directive uses the return-value syntax of Netscape Proxy Auto-Config
 * scripts: entries such as `PROXY host:port` or `SOCKS5 host:port`, joined
 * by `"; "`, or `DIRECT`.
 */
module Pac {
  import opened Options
  import opened Text

  /** One upstream proxy as the profile stores it; `""` stands for a missing (falsy) field. */
  datatype Endpoint = Endpoint(host: string, port: string)

  /** The directive keyword for a profile scheme; no keyword for any other scheme. */
  function Keyword(scheme: string): (r: Option<string>)
    ensures r.Some? <==> scheme in {"socks5", "socks4", "http", "https"}
    ensures r.Some? ==> r.value in {"SOCKS5", "SOCKS4", "PROXY", "HTTPS"}
  {
    if scheme == "socks5" then Some("SOCKS5")
    else if scheme == "socks4" then Some("SOCKS4")
    else if scheme == "http" then Some("PROXY")
    else if scheme == "https" then Some("HTTPS")
    else None
  }

  /** Two schemes that produce a keyword produce the same one only if they are the same scheme. */
  lemma KeywordInjective(a: string, b: string)
    requires Keyword(a).Some? && Keyword(a) == Keyword(b)
    ensures a == b
  {
  }

  /** `formatEntry(type, host, port)`: the directive entry for one endpoint, or none (`null`). */
  function FormatEntry(scheme: string, host: string, port: string): (r: Option<string>)
    ensures r.None? <==> host == "" || port == "" || Keyword(scheme).None?
    ensures r.Some? ==> r.value == Keyword(scheme).value + " " + host + ":" + port
  {
    if host == "" || port == "" then None
    else if scheme == "socks5" then Some("SOCKS5 " + host + ":" + port)
    else if scheme == "socks4" then Some("SOCKS4 " + host + ":" + port)
    else if scheme == "http" then Some("PROXY " + host + ":" + port)
    else if scheme == "https" then Some("HTTPS " + host + ":" + port)
    else None
  }

  /** The endpoints a directive for `scheme` names, in the order http, ssl, ftp. */
  function Present(scheme: string, http: Endpoint, ssl: Endpoint, ftp: Endpoint): seq<Endpoint> {
    if Keyword(scheme).None? then []
    else Usable(http) + Usable(ssl) + Usable(ftp)
  }

  function Usable(e: Endpoint): seq<Endpoint> {
    if e.host != "" && e.port != "" then [e] else []
  }

  /** `buildProxyString(scheme, http, ssl, ftp)`: the entries that exist, joined by `"; "`. */
  function BuildProxyString(scheme: string, http: Endpoint, ssl: Endpoint, ftp: Endpoint): (r: string)
    ensures r == "" <==> Present(scheme, http, ssl, ftp) == []
  {
    var h := FormatEntry(scheme, http.host, http.port);
    var s := FormatEntry(scheme, ssl.host, ssl.port);
    var f := FormatEntry(scheme, ftp.host, ftp.port);
    var a := (if h.Some? then [h.value] else [])
           + (if s.Some? then [s.value] else [])
           + (if f.Some? then [f.value] else []);
    assert |a| > 0 ==> a[0] != "";
    Join(a, "; ")
  }

  // ------------------------------------------------------------- reading a directive back

  /** How a directive list reads: the `;`-separated entries, each trimmed. */
  function ParseDirective(d: string): seq<string> {
    if d == "" then [] else TrimAll(Split(d, {';'}))
  }

  /** The text before and after the first `c`. */
  function SplitAtFirst(s: string, c: char): Option<(string, string)> {
    if s == [] then None
    else if s[0] == c then Some(([], s[1..]))
    else match SplitAtFirst(s[1..], c)
      case None => None
      case Some((a, b)) => Some(([s[0]] + a, b))
  }

  /** The text before and after the last `c`. */
  function SplitAtLast(s: string, c: char): Option<(string, string)> {
    if s == [] then None
    else if s[|s| - 1] == c then Some((s[..|s| - 1], []))
    else match SplitAtLast(s[..|s| - 1], c)
      case None => None
      case Some((a, b)) => Some((a, b + [s[|s| - 1]]))
  }

  /** An entry `KEYWORD host:port` read back as its keyword, host and port. */
  function ParseEntry(e: string): Option<(string, string, string)> {
    match SplitAtFirst(e, ' ')
    case None => None
    case Some((kw, rest)) =>
      match SplitAtLast(rest, ':')
      case None => None
      case Some((host, port)) => Some((kw, host, port))
  }

  lemma {:induction false} SplitAtFirstOf(a: string, c: char, b: string)
    requires c !in a
    ensures SplitAtFirst(a + [c] + b, c) == Some((a, b))
  {
    if a == [] {
      assert a + [c] + b == [c] + b;
    } else {
      assert (a + [c] + b)[0] == a[0];
      assert (a + [c] + b)[1..] == a[1..] + [c] + b;
      SplitAtFirstOf(a[1..], c, b);
      assert [a[0]] + a[1..] == a;
    }
  }

  lemma {:induction false} SplitAtLastOf(a: string, c: char, b: string)
    requires c !in b
    ensures SplitAtLast(a + [c] + b, c) == Some((a, b))
  {
    var s := a + [c] + b;
    if b == [] {
      assert s[..|s| - 1] == a;
    } else {
      assert s[|s| - 1] == b[|b| - 1];
      assert s[..|s| - 1] == a + [c] + b[..|b| - 1];
      SplitAtLastOf(a, c, b[..|b| - 1]);
      assert b[..|b| - 1] + [b[|b| - 1]] == b;
    }
  }

  /**
   * An entry reads back as the keyword, host and port it was built from,
   * provided the port holds no `:` (the host may: an IPv6 address does).
   */
  lemma EntryRoundTrip(scheme: string, host: string, port: string)
    requires FormatEntry(scheme, host, port).Some?
    requires ':' !in port
    ensures ParseEntry(FormatEntry(scheme, host, port).value) == Some((Keyword(scheme).value, host, port))
  {
    var kw := Keyword(scheme).value;
    var e := FormatEntry(scheme, host, port).value;
    assert e == kw + [' '] + (host + ":" + port);
    SplitAtFirstOf(kw, ' ', host + ":" + port);
    assert host + ":" + port == host + [':'] + port;
    SplitAtLastOf(host, ':', port);
  }

  /** A list of entries, none of them empty, holding no `;` and not padded with white space. */
  predicate CleanEntries(es: seq<string>) {
    forall i :: 0 <= i < |es| ==> es[i] != "" && NoneIn(es[i], {';'}) && Trim(es[i]) == es[i]
  }

  /** Splitting `e; rest` on `;` gives `e`, then the pieces of `rest` with a space in front of the first. */
  lemma SplitEntries(e: string, rest: string)
    requires NoneIn(e, {';'})
    ensures var p := Split(rest, {';'});
      Split(e + "; " + rest, {';'}) == [e] + ([" " + p[0]] + p[1..])
  {
    assert e + "; " + rest == e + [';'] + (" " + rest);
    SplitAppend(e, ';', " " + rest, {';'});
    SplitNoSep(e, {';'});
    SplitPrefix(" ", rest, {';'});
  }

  /** Joining clean entries with `"; "` and reading the list back gives the entries. */
  lemma {:induction false} DirectiveListRoundTrip(es: seq<string>)
    requires CleanEntries(es)
    ensures ParseDirective(Join(es, "; ")) == es
  {
    if |es| == 1 {
      SplitNoSep(es[0], {';'});
      TrimAllCons(es[0], []);
    } else if |es| > 1 {
      var rest := Join(es[1..], "; ");
      DirectiveListRoundTrip(es[1..]);
      JoinNonEmpty(es[1..]);
      assert Join(es, "; ") == es[0] + "; " + rest;
      SplitEntries(es[0], rest);
      TrimAllShape(es[0], Split(rest, {';'}));
    }
  }

  lemma TrimAllShape(e: string, p: seq<string>)
    requires |p| >= 1
    ensures TrimAll([e] + ([" " + p[0]] + p[1..])) == [Trim(e)] + TrimAll(p)
  {
    TrimAllCons(e, [" " + p[0]] + p[1..]);
    TrimAllPaddedFirst(p);
  }

  lemma TrimAllPaddedFirst(p: seq<string>)
    requires |p| >= 1
    ensures TrimAll([" " + p[0]] + p[1..]) == TrimAll(p)
  {
    assert AllSpace(" ");
    TrimPrefixSpace(" ", p[0]);
    TrimAllCons(" " + p[0], p[1..]);
    TrimAllCons(p[0], p[1..]);
    assert [p[0]] + p[1..] == p;
  }

  lemma JoinNonEmpty(es: seq<string>)
    requires |es| > 0 && es[0] != ""
    ensures Join(es, "; ") != ""
  {
  }

  /** The entries for a list of endpoints under one keyword. */
  function FormatAll(kw: string, es: seq<Endpoint>): (r: seq<string>)
    ensures |r| == |es|
    ensures forall i :: 0 <= i < |es| ==> r[i] == kw + " " + es[i].host + ":" + es[i].port
  {
    if es == [] then [] else [kw + " " + es[0].host + ":" + es[0].port] + FormatAll(kw, es[1..])
  }

  /** `buildProxyString` joins the entries of exactly the present endpoints. */
  lemma BuildIsJoinOfPresent(scheme: string, http: Endpoint, ssl: Endpoint, ftp: Endpoint)
    requires Keyword(scheme).Some?
    ensures BuildProxyString(scheme, http, ssl, ftp)
         == Join(FormatAll(Keyword(scheme).value, Present(scheme, http, ssl, ftp)), "; ")
  {
    var kw := Keyword(scheme).value;
    var h := FormatEntry(scheme, http.host, http.port);
    var s := FormatEntry(scheme, ssl.host, ssl.port);
    var f := FormatEntry(scheme, ftp.host, ftp.port);
    var a := (if h.Some? then [h.value] else [])
           + (if s.Some? then [s.value] else [])
           + (if f.Some? then [f.value] else []);
    assert a == FormatAll(kw, Usable(http) + Usable(ssl) + Usable(ftp));
  }

  /** A field of an endpoint that a directive can carry and read back unchanged. */
  predicate Readable(e: Endpoint) {
    && NoneIn(e.host, {';'})
    && NoneIn(e.port, {';', ':'})
    && (e.port == "" || !IsSpace(e.port[|e.port| - 1]))
  }

  lemma EntryClean(scheme: string, e: Endpoint)
    requires Keyword(scheme).Some? && Readable(e) && e.host != "" && e.port != ""
    ensures var x := Keyword(scheme).value + " " + e.host + ":" + e.port;
      x != "" && NoneIn(x, {';'}) && Trim(x) == x && ParseEntry(x) == Some((Keyword(scheme).value, e.host, e.port))
  {
    var kw := Keyword(scheme).value;
    var x := kw + " " + e.host + ":" + e.port;
    assert x[0] == kw[0];
    assert x[|x| - 1] == e.port[|e.port| - 1];
    TrimNoop(x);
    assert NoneIn(kw + " ", {';'});
    assert NoneIn(":", {';'});
    assert x == (kw + " ") + e.host + ":" + e.port;
    assert ':' !in e.port;
    EntryRoundTrip(scheme, e.host, e.port);
  }

  /** What a directive reads as: one entry per endpoint, in order, each under the keyword. */
  predicate ReadsAs(d: string, kw: string, es: seq<Endpoint>) {
    var entries := ParseDirective(d);
    |entries| == |es| &&
    forall i :: 0 <= i < |es| ==> ParseEntry(entries[i]) == Some((kw, es[i].host, es[i].port))
  }

  /**
   * The directive names exactly the endpoints that have both a host and a
   * port, in the fixed order http, ssl, ftp, all under the keyword of the
   * one scheme.
   */
  lemma BuildProxyStringReadsBack(scheme: string, http: Endpoint, ssl: Endpoint, ftp: Endpoint)
    requires Keyword(scheme).Some?
    requires Readable(http) && Readable(ssl) && Readable(ftp)
    ensures ReadsAs(BuildProxyString(scheme, http, ssl, ftp), Keyword(scheme).value, Present(scheme, http, ssl, ftp))
  {
    var kw := Keyword(scheme).value;
    var es := Present(scheme, http, ssl, ftp);
    var entries := FormatAll(kw, es);
    forall i | 0 <= i < |es|
      ensures entries[i] != "" && NoneIn(entries[i], {';'}) && Trim(entries[i]) == entries[i]
      ensures ParseEntry(entries[i]) == Some((kw, es[i].host, es[i].port))
    {
      assert Readable(es[i]) && es[i].host != "" && es[i].port != "" by {
        assert es[i] in Usable(http) + Usable(ssl) + Usable(ftp);
      }
      EntryClean(scheme, es[i]);
    }
    DirectiveListRoundTrip(entries);
    BuildIsJoinOfPresent(scheme, http, ssl, ftp);
  }

  // ------------------------------------------------------------- the compiled script

  /**
   * The matcher `m(x)` of the script: a pattern `*.s` matches a host that
   * ends with `.s` (`dnsDomainIs` is a plain suffix test), any other pattern
   * only the host equal to it.
   */
  predicate Matches(host: string, pattern: string) {
    if StartsWith(pattern, "*.") then EndsWith(host, pattern[1..]) else host == pattern
  }

  /** Every name matches itself. */
  lemma MatchesSelf(x: string)
    ensures Matches(x, x)
  {
  }

  /** Some pattern of the list matches the host. */
  predicate AnyMatch(host: string, targets: seq<string>) {
    exists i :: 0 <= i < |targets| && Matches(host, targets[i])
  }

  /** The script `applyProfile` installs: the target list and directive built into one of the two templates. */
  datatype PacScript =
    | ProxyOnly(targets: seq<string>, proxy: string)
    | Bypass(targets: seq<string>, proxy: string)

  /** What `FindProxyForURL` returns for `host`. */
  function Decide(script: PacScript, host: string): string {
    match script
    case ProxyOnly(t, p) => if AnyMatch(host, t) then p else "DIRECT"
    case Bypass(t, p) => if AnyMatch(host, t) then "DIRECT" else p
  }

  /** `FindProxyForURL` of `pacProxyOnly`: the directive on the first matching target, else `DIRECT`. */
  method ProxyOnlyFindProxy(t: seq<string>, proxy: string, host: string) returns (r: string)
    ensures r == Decide(ProxyOnly(t, proxy), host)
  {
    for i := 0 to |t|
      invariant forall k :: 0 <= k < i ==> !Matches(host, t[k])
    {
      if Matches(host, t[i]) {
        return proxy;
      }
    }
    return "DIRECT";
  }

  /** `FindProxyForURL` of `pacBypass`: `DIRECT` on the first matching target, else the directive. */
  method BypassFindProxy(b: seq<string>, proxy: string, host: string) returns (r: string)
    ensures r == Decide(Bypass(b, proxy), host)
  {
    for i := 0 to |b|
      invariant forall k :: 0 <= k < i ==> !Matches(host, b[k])
    {
      if Matches(host, b[i]) {
        return "DIRECT";
      }
    }
    return proxy;
  }

  // ------------------------------------------------------------- properties of the decision

  /**
   * A wildcard `*.s` matches exactly the hosts of the form `<anything>.s`;
   * the bare domain `s` is not one of them. A pattern without the `*.`
   * prefix matches only itself.
   */
  lemma MatchSemantics(host: string, s: string)
    ensures Matches(host, "*." + s) <==> exists p :: host == p + "." + s
    ensures !Matches(s, "*." + s)
    ensures !StartsWith(s, "*.") ==> (Matches(host, s) <==> host == s)
  {
    var w := "*." + s;
    assert StartsWith(w, "*.");
    assert w[1..] == "." + s;
    if Matches(host, w) {
      var p := host[..|host| - |s| - 1];
      assert host[|host| - |s| - 1..] == w[1..];
      assert host == p + host[|host| - |s| - 1..];
      assert host == p + "." + s;
    }
    if exists p :: host == p + "." + s {
      var p :| host == p + "." + s;
      assert |host| - |s| - 1 == |p|;
      assert host[|p|..] == "." + s;
    }
  }

  /** A subdomain matches the wildcard of its parent. */
  lemma SubdomainMatches(sub: string, s: string)
    ensures Matches(sub + "." + s, "*." + s)
  {
    MatchSemantics(sub + "." + s, s);
  }

  /** The script returns the directive or `DIRECT`, nothing else. */
  lemma DecideOutcomes(script: PacScript, host: string)
    ensures Decide(script, host) in {script.proxy, "DIRECT"}
  {
  }

  lemma AnyMatchSameSet(host: string, t1: seq<string>, t2: seq<string>)
    requires forall x :: x in t1 ==> x in t2
    ensures AnyMatch(host, t1) ==> AnyMatch(host, t2)
  {
    if AnyMatch(host, t1) {
      var i :| 0 <= i < |t1| && Matches(host, t1[i]);
      assert t1[i] in t2;
      var j :| 0 <= j < |t2| && t2[j] == t1[i];
    }
  }

  /**
   * The decision depends on which patterns the list holds, not on their
   * order or repetition.
   */
  lemma DecideDependsOnMembership(host: string, t1: seq<string>, t2: seq<string>, proxy: string)
    requires forall x :: x in t1 <==> x in t2
    ensures Decide(ProxyOnly(t1, proxy), host) == Decide(ProxyOnly(t2, proxy), host)
    ensures Decide(Bypass(t1, proxy), host) == Decide(Bypass(t2, proxy), host)
  {
    AnyMatchSameSet(host, t1, t2);
    AnyMatchSameSet(host, t2, t1);
  }

  /**
   * With a real directive, the two modes are complementary on every host:
   * proxy-only proxies a host exactly when bypass sends it direct.
   */
  lemma ModesComplement(t: seq<string>, proxy: string, host: string)
    requires proxy != "DIRECT"
    ensures Decide(ProxyOnly(t, proxy), host) == proxy <==> Decide(Bypass(t, proxy), host) == "DIRECT"
  {
  }

  /** Under bypass, an empty directive gives `""` for an unmatched host, not `DIRECT`. */
  lemma BypassEmptyDirective(t: seq<string>, host: string)
    requires !AnyMatch(host, t)
    ensures Decide(Bypass(t, ""), host) == ""
  {
  }
}
