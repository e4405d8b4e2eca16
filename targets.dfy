/**
 * The target list of the popup (popup.js): `cleanTarget`, `parseTargets`
 * and the "add current site" button, which derives a root domain and its
 * wildcard from the active tab's host and writes them in front of the
 * textarea's text.
 *
 * `new URL(u).hostname` is a parameter: a total function from the text
 * handed to the constructor to the host name, `None` where the constructor
 * throws.
 */
module Targets {
  import opened Options
  import opened Text
  import opened Pac

  type UrlParser = string -> Option<string>

  /** The characters the target textarea is split on. */
  const Separators: set<char> := {'\n', ','}

  // ---------------------------------------------------------------- cleanTarget

  /** `v.replace(/^https?:\/\//, "")` */
  function StripScheme(v: string): string {
    if StartsWith(v, "http://") then v[7..]
    else if StartsWith(v, "https://") then v[8..]
    else v
  }

  predicate NoLineTerminator(s: string) {
    forall i :: 0 <= i < |s| ==> !IsLineTerminator(s[i])
  }

  /**
   * `s.replace(/\/.*$/, "")`: the match starts at the first `/` after which
   * the rest of the text holds no line terminator (`.` does not match one,
   * and `$` is the end of the text), and everything from there is dropped.
   */
  function CutPath(s: string): string {
    if s == [] then s
    else if s[0] == '/' && NoLineTerminator(s[1..]) then []
    else [s[0]] + CutPath(s[1..])
  }

  /** The `catch` branch of `cleanTarget`. */
  function Fallback(v: string): string {
    Trim(CutPath(StripScheme(v)))
  }

  function HostOr(h: Option<string>, v: string): string {
    if h.Some? then h.value else Fallback(v)
  }

  /**
   * `cleanTarget(v)`: a URL gives its host name, a text with a path or a
   * query is read as an `http://` URL, anything else is kept as it is; when
   * the URL constructor throws, the scheme and the path are cut off by hand.
   */
  function CleanTarget(v: string, parseUrl: UrlParser): string {
    if Contains(v, "://") then HostOr(parseUrl(v), v)
    else if '/' in v || '?' in v then HostOr(parseUrl("http://" + v), v)
    else v
  }

  lemma {:induction false} ContainsSlash(v: string)
    requires Contains(v, "://")
    ensures '/' in v
  {
    if !StartsWith(v, "://") {
      ContainsSlash(v[1..]);
      var i :| 0 <= i < |v[1..]| && v[1..][i] == '/';
      assert v[i + 1] == '/';
    } else {
      assert v[1] == "://"[1];
    }
  }

  /** A target without `/` and `?` (and so without `://`) is kept as it is. */
  lemma CleanTargetKeeps(v: string, parseUrl: UrlParser)
    requires '/' !in v && '?' !in v
    ensures CleanTarget(v, parseUrl) == v
  {
    if Contains(v, "://") {
      ContainsSlash(v);
    }
  }

  /** A text with a path or a query goes to the URL parser, and the host name it finds is the result. */
  lemma CleanTargetParsed(v: string, parseUrl: UrlParser)
    requires '/' in v || '?' in v
    ensures var u := if Contains(v, "://") then v else "http://" + v;
      CleanTarget(v, parseUrl) == if parseUrl(u).Some? then parseUrl(u).value else Fallback(v)
  {
  }

  lemma StripSchemeOf(x: string)
    ensures StripScheme("http://" + x) == x
    ensures StripScheme("https://" + x) == x
  {
    assert ("http://" + x)[..7] == "http://";
    assert ("https://" + x)[..8] == "https://";
    assert ("https://" + x)[..7] != "http://" by {
      assert ("https://" + x)[4] == 's';
    }
  }

  /** `CutPath` keeps a prefix; it cuts exactly at a `/`, and keeps text without one whole. */
  lemma {:induction false} CutPathShape(s: string)
    ensures StartsWith(s, CutPath(s))
    ensures CutPath(s) != s ==> s[|CutPath(s)|] == '/'
    ensures '/' !in s ==> CutPath(s) == s
    ensures NoLineTerminator(s) ==> '/' !in CutPath(s)
  {
    if s != [] && !(s[0] == '/' && NoLineTerminator(s[1..])) {
      CutPathShape(s[1..]);
      var c := CutPath(s[1..]);
      assert CutPath(s) == [s[0]] + c;
      assert s == [s[0]] + s[1..];
      if NoLineTerminator(s) {
        assert NoLineTerminator(s[1..]) by {
          forall i | 0 <= i < |s[1..]|
            ensures !IsLineTerminator(s[1..][i])
          {
            assert s[1..][i] == s[i + 1];
          }
        }
      }
    }
  }

  /** On a text without line terminators the fallback leaves no `/` and no padding. */
  lemma FallbackClean(v: string)
    requires NoLineTerminator(v)
    ensures '/' !in Fallback(v)
    ensures Trim(Fallback(v)) == Fallback(v)
  {
    var u := StripScheme(v);
    assert NoLineTerminator(u) by {
      if StartsWith(v, "http://") {
        forall i | 0 <= i < |u| ensures !IsLineTerminator(u[i]) {
          assert u[i] == v[i + 7];
        }
      } else if StartsWith(v, "https://") {
        forall i | 0 <= i < |u| ensures !IsLineTerminator(u[i]) {
          assert u[i] == v[i + 8];
        }
      }
    }
    CutPathShape(u);
    TrimKeepsOut(CutPath(u), '/');
    TrimTwice(CutPath(u));
  }

  // ---------------------------------------------------------------- parseTargets

  /** `filter(Boolean)` on strings: the empty ones go. */
  function DropEmpty(ps: seq<string>): (r: seq<string>)
    ensures |r| <= |ps|
  {
    if ps == [] then [] else (if ps[0] == "" then [] else [ps[0]]) + DropEmpty(ps[1..])
  }

  /** `filter(Boolean)` keeps exactly the non-empty strings. */
  lemma {:induction false} DropEmptyMembers(ps: seq<string>, x: string)
    ensures x in DropEmpty(ps) <==> x in ps && x != ""
  {
    if ps != [] {
      DropEmptyMembers(ps[1..], x);
      assert ps == [ps[0]] + ps[1..];
    }
  }

  /** `map(cleanTarget)` */
  function CleanAll(ps: seq<string>, parseUrl: UrlParser): (r: seq<string>)
    ensures |r| == |ps|
  {
    if ps == [] then [] else [CleanTarget(ps[0], parseUrl)] + CleanAll(ps[1..], parseUrl)
  }

  /** `map(cleanTarget)` cleans each piece in its place. */
  lemma {:induction false} CleanAllIndex(ps: seq<string>, parseUrl: UrlParser, i: nat)
    requires i < |ps|
    ensures CleanAll(ps, parseUrl)[i] == CleanTarget(ps[i], parseUrl)
  {
    if i > 0 {
      CleanAllIndex(ps[1..], parseUrl, i - 1);
    }
  }

  /** The trimmed, non-empty pieces of the textarea between separators. */
  function Pieces(str: string): seq<string> {
    DropEmpty(TrimAll(Split(str, Separators)))
  }

  /** `parseTargets(str)`: one target per non-empty piece. */
  function ParseTargets(str: string, parseUrl: UrlParser): (r: seq<string>)
    ensures |r| == |Pieces(str)|
  {
    CleanAll(Pieces(str), parseUrl)
  }

  /** Target `i` is `cleanTarget` of piece `i`. */
  lemma ParseTargetsContents(str: string, parseUrl: UrlParser)
    ensures forall i :: 0 <= i < |Pieces(str)| ==> ParseTargets(str, parseUrl)[i] == CleanTarget(Pieces(str)[i], parseUrl)
  {
    forall i | 0 <= i < |Pieces(str)|
      ensures ParseTargets(str, parseUrl)[i] == CleanTarget(Pieces(str)[i], parseUrl)
    {
      CleanAllIndex(Pieces(str), parseUrl, i);
    }
  }

  /** Text without a separator is one piece, its trimmed self, unless that is empty. */
  lemma PiecesNoSeparator(x: string)
    requires NoneIn(x, Separators)
    ensures Pieces(x) == if Trim(x) == "" then [] else [Trim(x)]
  {
    SplitNoSep(x, Separators);
    TrimAllCons(x, []);
    assert [x] + [] == [x];
    assert DropEmpty([Trim(x)]) == (if Trim(x) == "" then [] else [Trim(x)]) + DropEmpty([]);
  }

  /** Every piece is non-empty, holds no separator and is not padded with white space. */
  lemma PiecesClean(str: string, i: nat)
    requires i < |Pieces(str)|
    ensures var x := Pieces(str)[i];
      x != "" && NoneIn(x, Separators) && Trim(x) == x
  {
    var p := Split(str, Separators);
    var x := Pieces(str)[i];
    assert x in Pieces(str);
    DropEmptyMembers(TrimAll(p), x);
    var j := TrimAllIndex(p, x);
    SplitPiecesClean(str, Separators, j);
    TrimTwice(p[j]);
    TrimKeepsOut(p[j], '\n');
    TrimKeepsOut(p[j], ',');
  }

  lemma {:induction false} TrimAllIndex(p: seq<string>, x: string) returns (j: nat)
    requires x in TrimAll(p)
    ensures j < |p| && x == Trim(p[j])
  {
    if x == Trim(p[0]) {
      j := 0;
    } else {
      var k := TrimAllIndex(p[1..], x);
      j := k + 1;
    }
  }

  lemma {:induction false} DropEmptyAppend(a: seq<string>, b: seq<string>)
    ensures DropEmpty(a + b) == DropEmpty(a) + DropEmpty(b)
  {
    if a == [] {
      assert a + b == b;
    } else {
      assert (a + b)[1..] == a[1..] + b;
      DropEmptyAppend(a[1..], b);
    }
  }

  lemma {:induction false} CleanAllAppend(a: seq<string>, b: seq<string>, parseUrl: UrlParser)
    ensures CleanAll(a + b, parseUrl) == CleanAll(a, parseUrl) + CleanAll(b, parseUrl)
  {
    if a == [] {
      assert a + b == b;
    } else {
      assert (a + b)[1..] == a[1..] + b;
      CleanAllAppend(a[1..], b, parseUrl);
    }
  }

  lemma PiecesEmpty()
    ensures Pieces("") == []
  {
    assert Split("", Separators) == [""];
    assert TrimAll([""]) == [""];
  }

  /** A separator splits the targets between the text on its two sides. */
  lemma PiecesAppend(a: string, c: char, b: string)
    requires c in Separators
    ensures Pieces(a + [c] + b) == Pieces(a) + Pieces(b)
  {
    SplitAppend(a, c, b, Separators);
    TrimAllAppend(Split(a, Separators), Split(b, Separators));
    DropEmptyAppend(TrimAll(Split(a, Separators)), TrimAll(Split(b, Separators)));
  }

  /** One white-space character in front of the text adds no target. */
  lemma PiecesSpaceCons(c: char, x: string)
    requires IsSpace(c)
    ensures Pieces([c] + x) == Pieces(x)
  {
    if c in Separators {
      PiecesAppend([], c, x);
      PiecesEmpty();
      assert [] + [c] + x == [c] + x;
    } else {
      var p := Split(x, Separators);
      SplitPrefix([c], x, Separators);
      assert AllSpace([c]);
      TrimPrefixSpace([c], p[0]);
      TrimAllCons([c] + p[0], p[1..]);
      TrimAllCons(p[0], p[1..]);
      assert [p[0]] + p[1..] == p;
    }
  }

  /** One white-space character behind the text adds no target. */
  lemma PiecesSpaceSnoc(x: string, c: char)
    requires IsSpace(c)
    ensures Pieces(x + [c]) == Pieces(x)
  {
    if c in Separators {
      PiecesAppend(x, c, []);
      PiecesEmpty();
      assert x + [c] + [] == x + [c];
    } else {
      var p := Split(x, Separators);
      SplitSuffix(x, [c], Separators);
      TrimAllExtendLast(p, [c]);
    }
  }

  lemma {:induction false} TrimAllExtendLast(p: seq<string>, w: string)
    requires |p| >= 1 && AllSpace(w)
    ensures TrimAll(ExtendLast(p, w)) == TrimAll(p)
  {
    if |p| == 1 {
      TrimSuffixSpace(p[0], w);
    } else {
      ExtendLastCons(p[0], p[1..], w);
      assert [p[0]] + p[1..] == p;
      TrimAllCons(p[0], ExtendLast(p[1..], w));
      TrimAllCons(p[0], p[1..]);
      TrimAllExtendLast(p[1..], w);
    }
  }

  lemma {:induction false} PiecesPrefixSpace(w: string, x: string)
    requires AllSpace(w)
    ensures Pieces(w + x) == Pieces(x)
  {
    if w == [] {
      assert w + x == x;
    } else {
      assert w + x == [w[0]] + (w[1..] + x);
      PiecesSpaceCons(w[0], w[1..] + x);
      PiecesPrefixSpace(w[1..], x);
    }
  }

  lemma {:induction false} PiecesSuffixSpace(x: string, w: string)
    requires AllSpace(w)
    ensures Pieces(x + w) == Pieces(x)
  {
    if w == [] {
      assert x + w == x;
    } else {
      var v := w[..|w| - 1];
      assert x + w == (x + v) + [w[|w| - 1]];
      PiecesSpaceSnoc(x + v, w[|w| - 1]);
      PiecesSuffixSpace(x, v);
    }
  }

  /** Trimming the whole text first changes none of its targets. */
  lemma PiecesTrim(x: string)
    ensures Pieces(Trim(x)) == Pieces(x)
  {
    var lead, trail := TrimSplit(x);
    PiecesPrefixSpace(lead, Trim(x) + trail);
    PiecesSuffixSpace(Trim(x), trail);
    assert x == lead + (Trim(x) + trail);
  }

  /** A target as the popup shows it: non-empty, unpadded, without separators, `/` or `?`. */
  predicate Plain(t: string) {
    t != [] && !IsSpace(t[0]) && !IsSpace(t[|t| - 1]) && NoneIn(t, {'\n', ',', '/', '?'})
  }

  predicate AllPlain(ts: seq<string>) {
    forall i :: 0 <= i < |ts| ==> Plain(ts[i])
  }

  lemma PiecesPlain(t: string)
    requires Plain(t)
    ensures Pieces(t) == [t]
  {
    SplitNoSep(t, Separators);
    TrimNoop(t);
    TrimAllCons(t, []);
  }

  /** A separator the popup writes between targets: `", "` or a line break. */
  predicate ListSeparator(sep: string) {
    sep == ", " || sep == "\n"
  }

  /** Plain targets written out with a list separator read back as themselves. */
  lemma {:induction false} PiecesJoin(ts: seq<string>, sep: string)
    requires AllPlain(ts) && ListSeparator(sep)
    ensures Pieces(Join(ts, sep)) == ts
  {
    if |ts| == 0 {
      PiecesEmpty();
    } else if |ts| == 1 {
      PiecesPlain(ts[0]);
    } else {
      var rest := Join(ts[1..], sep);
      PiecesJoin(ts[1..], sep);
      PiecesPlain(ts[0]);
      var w := sep[1..];
      assert AllSpace(w);
      assert Join(ts, sep) == ts[0] + [sep[0]] + (w + rest);
      PiecesAppend(ts[0], sep[0], w + rest);
      PiecesPrefixSpace(w, rest);
      assert [ts[0]] + ts[1..] == ts;
    }
  }

  lemma {:induction false} CleanAllPlain(ts: seq<string>, parseUrl: UrlParser)
    requires AllPlain(ts)
    ensures CleanAll(ts, parseUrl) == ts
  {
    if ts != [] {
      CleanTargetKeeps(ts[0], parseUrl);
      CleanAllPlain(ts[1..], parseUrl);
      assert [ts[0]] + ts[1..] == ts;
    }
  }

  /**
   * `loadProfile` writes the stored targets joined by `", "` into the
   * textarea, and `saveProfile` parses them back: plain targets survive the
   * trip unchanged.
   */
  lemma LoadSaveRoundTrip(ts: seq<string>, parseUrl: UrlParser)
    requires AllPlain(ts)
    ensures ParseTargets(Join(ts, ", "), parseUrl) == ts
  {
    PiecesJoin(ts, ", ");
    CleanAllPlain(ts, parseUrl);
  }

  // ---------------------------------------------------------------- addCurrentSite

  /** `parts.slice(-2).join(".")` for `parts = host.split(".")`, when there are two labels or more. */
  function RootDomain(host: string): Option<string> {
    var parts := Split(host, {'.'});
    if |parts| < 2 then None else Some(Join(parts[|parts| - 2..], "."))
  }

  /**
   * A root domain exists exactly when the host has a dot; it is made of the
   * host's last two labels, and the host is the root itself or ends with a
   * dot and the root.
   */
  lemma RootDomainSpec(host: string)
    ensures RootDomain(host).Some? <==> !NoneIn(host, {'.'})
    ensures RootDomain(host).Some? ==>
      var root := RootDomain(host).value;
      var parts := Split(host, {'.'});
      && Split(root, {'.'}) == parts[|parts| - 2..]
      && (host == root || EndsWith(host, "." + root))
  {
    SplitOnePiece(host, {'.'});
    if RootDomain(host).Some? {
      RootLabels(host);
      RootSuffix(host);
    }
  }

  lemma RootLabels(host: string)
    requires RootDomain(host).Some?
    ensures var parts := Split(host, {'.'});
      Split(RootDomain(host).value, {'.'}) == parts[|parts| - 2..]
  {
    var parts := Split(host, {'.'});
    var n := |parts|;
    var a, b := parts[n - 2], parts[n - 1];
    assert parts[n - 2..] == [a, b];
    JoinTwo(a, b, ".");
    SplitPiecesClean(host, {'.'}, n - 2);
    SplitPiecesClean(host, {'.'}, n - 1);
    TwoLabels(a, b);
  }

  lemma RootSuffix(host: string)
    requires RootDomain(host).Some?
    ensures var root := RootDomain(host).value;
      host == root || EndsWith(host, "." + root)
  {
    var parts := Split(host, {'.'});
    var n := |parts|;
    var root := RootDomain(host).value;
    JoinSplit(host, '.');
    if n > 2 {
      assert parts == parts[..n - 2] + parts[n - 2..];
      JoinAppend(parts[..n - 2], parts[n - 2..], ".");
      var front := Join(parts[..n - 2], ".");
      assert host == front + "." + root;
      assert host[|front|..] == "." + root;
    } else {
      assert parts[n - 2..] == parts;
    }
  }

  /** Two labels without a dot joined by one split back into those labels. */
  lemma TwoLabels(a: string, b: string)
    requires NoneIn(a, {'.'}) && NoneIn(b, {'.'})
    ensures Split(a + "." + b, {'.'}) == [a, b]
  {
    SplitAppend(a, '.', b, {'.'});
    SplitNoSep(a, {'.'});
    SplitNoSep(b, {'.'});
    assert a + "." + b == a + ['.'] + b;
  }

  /** Joining two non-empty lists end to end puts one separator between their joins. */
  lemma {:induction false} JoinAppend(xs: seq<string>, ys: seq<string>, sep: string)
    requires |xs| > 0 && |ys| > 0
    ensures Join(xs + ys, sep) == Join(xs, sep) + sep + Join(ys, sep)
  {
    assert (xs + ys)[0] == xs[0];
    assert (xs + ys)[1..] == xs[1..] + ys;
    if |xs| > 1 {
      JoinAppend(xs[1..], ys, sep);
    }
  }

  lemma JoinTwo(x: string, y: string, sep: string)
    ensures Join([x, y], sep) == x + sep + y
  {
    assert [x, y][1..] == [y];
  }

  /** Every pattern matches itself. */
  /** The host is matched by its root domain or by the root's wildcard. */
  lemma RootOrWildcardMatches(host: string)
    requires RootDomain(host).Some?
    ensures var root := RootDomain(host).value;
      Matches(host, root) || Matches(host, "*." + root)
  {
    RootDomainSpec(host);
    var root := RootDomain(host).value;
    if host == root {
      MatchesSelf(host);
    } else {
      assert ("*." + root)[..2] == "*.";
      assert ("*." + root)[1..] == "." + root;
    }
  }

  /** The items of `xs` that `existing` lacks, in their order (`if (!existing.includes(x)) add.push(x)`). */
  function Missing(xs: seq<string>, existing: seq<string>): (r: seq<string>)
    ensures |r| <= |xs|
  {
    if xs == [] then []
    else (if xs[0] in existing then [] else [xs[0]]) + Missing(xs[1..], existing)
  }

  /** An item is added exactly when it is one of `xs` that `existing` lacks. */
  lemma {:induction false} MissingMembers(xs: seq<string>, existing: seq<string>, x: string)
    ensures x in Missing(xs, existing) <==> x in xs && x !in existing
  {
    if xs != [] {
      MissingMembers(xs[1..], existing, x);
      assert xs == [xs[0]] + xs[1..];
    }
  }

  /** The host name `new URL(tabs[0].url).hostname` of the active tab, `""` when there is no tab or it throws. */
  function TabHost(tabUrl: Option<string>, parseUrl: UrlParser): string {
    if tabUrl.None? then ""
    else match parseUrl(tabUrl.value)
      case None => ""
      case Some(h) => h
  }

  /** What "add current site" adds: the root and its wildcard, those not yet among the targets, root first. */
  function SiteAdditions(host: string, text: string, parseUrl: UrlParser): seq<string> {
    if host == "" then []
    else match RootDomain(host)
      case None => []
      case Some(root) => Missing([root, "*." + root], ParseTargets(text, parseUrl))
  }

  /** The textarea after "add current site": the additions, one per line, in front of the trimmed old text. */
  function EditedText(host: string, text: string, parseUrl: UrlParser): string {
    var add := SiteAdditions(host, text, parseUrl);
    if add == [] then text else Join(add, "\n") + "\n" + Trim(text)
  }

  /** An empty host, or one without a dot, adds nothing. */
  lemma NoRootNothingAdded(host: string, text: string, parseUrl: UrlParser)
    requires host == "" || NoneIn(host, {'.'})
    ensures SiteAdditions(host, text, parseUrl) == []
  {
    if host != "" {
      RootDomainSpec(host);
    }
  }

  /** Nothing is added when both the root and the wildcard are already targets. */
  lemma NothingAddedTwice(host: string, text: string, parseUrl: UrlParser)
    requires host != "" && RootDomain(host).Some?
    ensures var root := RootDomain(host).value;
      var existing := ParseTargets(text, parseUrl);
      SiteAdditions(host, text, parseUrl) == [] <==> root in existing && "*." + root in existing
  {
    var root := RootDomain(host).value;
    var existing := ParseTargets(text, parseUrl);
    MissingMembers([root, "*." + root], existing, root);
    MissingMembers([root, "*." + root], existing, "*." + root);
  }

  /** The parsed targets after the edit are the additions followed by the targets before it. */
  lemma EditedTextTargets(host: string, text: string, parseUrl: UrlParser)
    requires AllPlain(SiteAdditions(host, text, parseUrl))
    ensures ParseTargets(EditedText(host, text, parseUrl), parseUrl)
         == SiteAdditions(host, text, parseUrl) + ParseTargets(text, parseUrl)
  {
    var add := SiteAdditions(host, text, parseUrl);
    if add != [] {
      var j := Join(add, "\n");
      assert EditedText(host, text, parseUrl) == j + ['\n'] + Trim(text);
      PiecesAppend(j, '\n', Trim(text));
      PiecesJoin(add, "\n");
      PiecesTrim(text);
      CleanAllAppend(add, Pieces(text), parseUrl);
      CleanAllPlain(add, parseUrl);
    }
  }

  /** Spelled out: the root unless present, then the wildcard unless present. */
  lemma SiteAdditionsCases(host: string, text: string, parseUrl: UrlParser)
    requires host != "" && RootDomain(host).Some?
    ensures var root := RootDomain(host).value;
      var existing := ParseTargets(text, parseUrl);
      SiteAdditions(host, text, parseUrl)
        == (if root in existing then [] else [root]) + (if "*." + root in existing then [] else ["*." + root])
  {
    var root := RootDomain(host).value;
    var w := "*." + root;
    var e := ParseTargets(text, parseUrl);
    var xs := [root, w];
    assert xs[1..] == [w];
    assert [w][1..] == [];
    assert Missing([w], e) == (if w in e then [] else [w]) + Missing([], e);
    assert Missing(xs, e) == (if root in e then [] else [root]) + Missing([w], e);
  }

  lemma PlainWildcard(root: string)
    requires Plain(root)
    ensures Plain("*." + root)
  {
    var w := "*." + root;
    forall i | 0 <= i < |w|
      ensures w[i] !in {'\n', ',', '/', '?'}
    {
      if i >= 2 {
        assert w[i] == root[i - 2];
      }
    }
  }

  /**
   * After "add current site" on a host whose root domain is a plain target,
   * the targets match the host, so a proxy-only profile with these targets
   * sends the host through its directive.
   */
  lemma AddedSiteIsRouted(host: string, text: string, parseUrl: UrlParser, proxy: string)
    requires host != "" && RootDomain(host).Some? && Plain(RootDomain(host).value)
    ensures var t := ParseTargets(EditedText(host, text, parseUrl), parseUrl);
      AnyMatch(host, t) && Decide(ProxyOnly(t, proxy), host) == proxy
  {
    var root := RootDomain(host).value;
    var w := "*." + root;
    var existing := ParseTargets(text, parseUrl);
    var add := SiteAdditions(host, text, parseUrl);
    PlainWildcard(root);
    SiteAdditionsCases(host, text, parseUrl);
    assert AllPlain(add);
    EditedTextTargets(host, text, parseUrl);
    var t := ParseTargets(EditedText(host, text, parseUrl), parseUrl);
    assert t == add + existing;
    RootOrWildcardMatches(host);
    var x := if Matches(host, root) then root else w;
    assert x in t;
    var i :| 0 <= i < |t| && t[i] == x;
  }

  /** The targets textarea of the popup. */
  class TargetsEditor {
    var text: string

    constructor(text0: string)
      ensures text == text0
    {
      text := text0;
    }

    /**
     * `addCurrentSite()`, given the active tab's URL (`None` when there is
     * no tab): returns the items added, and rewrites the text only when
     * there are some.
     */
    method AddCurrentSite(tabUrl: Option<string>, parseUrl: UrlParser) returns (added: seq<string>)
      modifies this
      ensures added == SiteAdditions(TabHost(tabUrl, parseUrl), old(text), parseUrl)
      ensures text == EditedText(TabHost(tabUrl, parseUrl), old(text), parseUrl)
    {
      added := [];
      if tabUrl.None? {
        return;
      }
      var host := "";
      var h := parseUrl(tabUrl.value);
      if h.Some? {
        host := h.value;
      }
      if host == "" {
        return;
      }
      var parts := Split(host, {'.'});
      if |parts| < 2 {
        return;
      }
      var root := Join(parts[|parts| - 2..], ".");
      var wildcard := "*." + root;
      var existing := ParseTargets(text, parseUrl);
      assert TabHost(tabUrl, parseUrl) == host && RootDomain(host) == Some(root);
      SiteAdditionsCases(host, text, parseUrl);
      var add := [];
      if root !in existing {
        add := add + [root];
      }
      if wildcard !in existing {
        add := add + [wildcard];
      }
      if |add| == 0 {
        return;
      }
      text := Join(add, "\n") + "\n" + Trim(text);
      added := add;
    }
  }
}
