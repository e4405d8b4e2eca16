/**
 * The JavaScript string operations the extension relies on, as functions on
 * `seq<char>`: `trim`, `startsWith`/`endsWith`/`includes`, `split` on a set
 * of separator characters and `Array.prototype.join`.
 */
module Text {

  /** White space as `String.prototype.trim` strips it (WhiteSpace and LineTerminator). */
  const Whitespace: set<char> := {
    '\t', '\n', '\U{000B}', '\U{000C}', '\r', ' ', '\U{00A0}', '\U{1680}',
    '\U{2000}', '\U{2001}', '\U{2002}', '\U{2003}', '\U{2004}', '\U{2005}',
    '\U{2006}', '\U{2007}', '\U{2008}', '\U{2009}', '\U{200A}',
    '\U{2028}', '\U{2029}', '\U{202F}', '\U{205F}', '\U{3000}', '\U{FEFF}'
  }

  predicate IsSpace(c: char) {
    c in Whitespace
  }

  /** The characters that `.` in a JavaScript regular expression does not match. */
  predicate IsLineTerminator(c: char) {
    c == '\n' || c == '\r' || c == '\U{2028}' || c == '\U{2029}'
  }

  predicate AllSpace(w: string) {
    forall i :: 0 <= i < |w| ==> IsSpace(w[i])
  }

  /** No character of `s` is one of `cs`. */
  predicate NoneIn(s: string, cs: set<char>) {
    forall i :: 0 <= i < |s| ==> s[i] !in cs
  }

  predicate StartsWith(s: string, p: string) {
    |p| <= |s| && s[..|p|] == p
  }

  predicate EndsWith(s: string, p: string) {
    |p| <= |s| && s[|s| - |p|..] == p
  }

  /** `s.includes(t)` */
  predicate Contains(s: string, t: string) {
    StartsWith(s, t) || (s != [] && Contains(s[1..], t))
  }

  // ---------------------------------------------------------------- trim

  function TrimStart(s: string): string {
    if s != [] && IsSpace(s[0]) then TrimStart(s[1..]) else s
  }

  function TrimEnd(s: string): string {
    if s != [] && IsSpace(s[|s| - 1]) then TrimEnd(s[..|s| - 1]) else s
  }

  /** `s.trim()` */
  function Trim(s: string): string {
    TrimEnd(TrimStart(s))
  }

  /** `TrimStart` drops a run of leading white space and stops at the first other character. */
  lemma {:induction false} TrimStartShape(s: string) returns (lead: string)
    ensures s == lead + TrimStart(s) && AllSpace(lead)
    ensures TrimStart(s) == [] || !IsSpace(TrimStart(s)[0])
  {
    if s != [] && IsSpace(s[0]) {
      var l := TrimStartShape(s[1..]);
      lead := [s[0]] + l;
      assert s == [s[0]] + s[1..];
    } else {
      lead := [];
      assert s == lead + s;
    }
  }

  /** `TrimEnd` drops a run of trailing white space and stops at the last other character. */
  lemma {:induction false} TrimEndShape(s: string) returns (trail: string)
    ensures s == TrimEnd(s) + trail && AllSpace(trail)
    ensures TrimEnd(s) == [] || !IsSpace(TrimEnd(s)[|TrimEnd(s)| - 1])
  {
    if s != [] && IsSpace(s[|s| - 1]) {
      var t := TrimEndShape(s[..|s| - 1]);
      trail := t + [s[|s| - 1]];
      assert s == s[..|s| - 1] + [s[|s| - 1]];
    } else {
      trail := [];
      assert s == s + trail;
    }
  }

  /**
   * What `trim` keeps is the text between a run of leading and a run of
   * trailing white space, and it neither starts nor ends with white space.
   */
  lemma TrimSplit(s: string) returns (lead: string, trail: string)
    ensures s == lead + Trim(s) + trail
    ensures AllSpace(lead) && AllSpace(trail)
    ensures Trim(s) == [] || (!IsSpace(Trim(s)[0]) && !IsSpace(Trim(s)[|Trim(s)| - 1]))
  {
    var t := TrimStart(s);
    lead := TrimStartShape(s);
    trail := TrimEndShape(t);
    if Trim(s) != [] {
      assert Trim(s)[0] == t[0];
    }
  }

  /** A string whose ends are not white space is its own trim. */
  lemma TrimNoop(s: string)
    requires s == [] || (!IsSpace(s[0]) && !IsSpace(s[|s| - 1]))
    ensures Trim(s) == s
  {
  }

  lemma {:induction false} TrimStartAllSpace(w: string)
    requires AllSpace(w)
    ensures TrimStart(w) == []
  {
    if w != [] {
      TrimStartAllSpace(w[1..]);
    }
  }

  lemma {:induction false} TrimStartPrefixSpace(w: string, s: string)
    requires AllSpace(w)
    ensures TrimStart(w + s) == TrimStart(s)
  {
    if w == [] {
      assert w + s == s;
    } else {
      assert (w + s)[0] == w[0];
      assert (w + s)[1..] == w[1..] + s;
      TrimStartPrefixSpace(w[1..], s);
    }
  }

  /** White space in front of a string does not change its trim. */
  lemma TrimPrefixSpace(w: string, s: string)
    requires AllSpace(w)
    ensures Trim(w + s) == Trim(s)
  {
    TrimStartPrefixSpace(w, s);
  }

  lemma {:induction false} TrimStartAppend(s: string, t: string)
    ensures TrimStart(s + t) == if AllSpace(s) then TrimStart(t) else TrimStart(s) + t
  {
    if s == [] {
      assert s + t == t;
    } else {
      assert (s + t)[0] == s[0];
      assert (s + t)[1..] == s[1..] + t;
      if IsSpace(s[0]) {
        TrimStartAppend(s[1..], t);
      }
    }
  }

  lemma {:induction false} TrimEndSuffixSpace(s: string, w: string)
    requires AllSpace(w)
    ensures TrimEnd(s + w) == TrimEnd(s)
  {
    if w == [] {
      assert s + w == s;
    } else {
      assert (s + w)[|s + w| - 1] == w[|w| - 1];
      assert (s + w)[..|s + w| - 1] == s + w[..|w| - 1];
      TrimEndSuffixSpace(s, w[..|w| - 1]);
    }
  }

  /** White space behind a string does not change its trim. */
  lemma TrimSuffixSpace(s: string, w: string)
    requires AllSpace(w)
    ensures Trim(s + w) == Trim(s)
  {
    TrimStartAppend(s, w);
    if AllSpace(s) {
      TrimStartAllSpace(s);
      TrimStartAllSpace(w);
    } else {
      TrimEndSuffixSpace(TrimStart(s), w);
    }
  }

  /** `pieces.map(v => v.trim())` */
  function TrimAll(ps: seq<string>): seq<string> {
    if ps == [] then [] else [Trim(ps[0])] + TrimAll(ps[1..])
  }

  /** Trimming a list trims its head and then its tail. */
  lemma TrimAllCons(a: string, ps: seq<string>)
    ensures TrimAll([a] + ps) == [Trim(a)] + TrimAll(ps)
  {
    assert ([a] + ps)[1..] == ps;
  }

  /** `trim` is idempotent. */
  lemma TrimTwice(s: string)
    ensures Trim(Trim(s)) == Trim(s)
  {
    var lead, trail := TrimSplit(s);
    TrimNoop(Trim(s));
  }

  /** `trim` keeps a middle part of the string, so it adds no character. */
  lemma TrimKeepsOut(s: string, c: char)
    requires c !in s
    ensures c !in Trim(s)
  {
    var lead, trail := TrimSplit(s);
  }

  lemma {:induction false} TrimAllAppend(a: seq<string>, b: seq<string>)
    ensures TrimAll(a + b) == TrimAll(a) + TrimAll(b)
  {
    if a != [] {
      assert (a + b)[1..] == a[1..] + b;
      TrimAllAppend(a[1..], b);
    } else {
      assert a + b == b;
    }
  }

  // ---------------------------------------------------------------- split

  /**
   * `s.split(c)` for every separator character `c` in `seps`: the pieces
   * between consecutive separators, empty ones included.
   */
  function Split(s: string, seps: set<char>): (r: seq<string>)
    ensures |r| >= 1
  {
    if s == [] then [""]
    else if s[0] in seps then [""] + Split(s[1..], seps)
    else
      var t := Split(s[1..], seps);
      [[s[0]] + t[0]] + t[1..]
  }

  /** A separator splits exactly between the pieces of the text on either side of it. */
  lemma {:induction false} SplitAppend(a: string, c: char, b: string, seps: set<char>)
    requires c in seps
    ensures Split(a + [c] + b, seps) == Split(a, seps) + Split(b, seps)
  {
    if a == [] {
      assert a + [c] + b == [c] + b;
      assert ([c] + b)[1..] == b;
    } else {
      assert (a + [c] + b)[1..] == a[1..] + [c] + b;
      SplitAppend(a[1..], c, b, seps);
    }
  }

  /** Text without separators is one piece. */
  lemma {:induction false} SplitNoSep(a: string, seps: set<char>)
    requires NoneIn(a, seps)
    ensures Split(a, seps) == [a]
  {
    if a != [] {
      SplitNoSep(a[1..], seps);
      assert [a[0]] + a[1..] == a;
    }
  }

  /** Text without separators in front joins the first piece. */
  lemma {:induction false} SplitPrefix(w: string, s: string, seps: set<char>)
    requires NoneIn(w, seps)
    ensures Split(w + s, seps) == [w + Split(s, seps)[0]] + Split(s, seps)[1..]
  {
    if w == [] {
      assert w + s == s;
      assert w + Split(s, seps)[0] == Split(s, seps)[0];
      assert [Split(s, seps)[0]] + Split(s, seps)[1..] == Split(s, seps);
    } else {
      assert (w + s)[0] == w[0];
      assert (w + s)[1..] == w[1..] + s;
      SplitPrefix(w[1..], s, seps);
      assert [w[0]] + (w[1..] + Split(s, seps)[0]) == w + Split(s, seps)[0];
    }
  }

  /** The pieces `p` with `w` added to the end of the last one. */
  function ExtendLast(p: seq<string>, w: string): seq<string>
    requires |p| >= 1
  {
    p[..|p| - 1] + [p[|p| - 1] + w]
  }

  lemma ExtendLastCons(x: string, t: seq<string>, w: string)
    requires |t| >= 1
    ensures ExtendLast([x] + t, w) == [x] + ExtendLast(t, w)
  {
    assert ([x] + t)[..|t|] == [x] + t[..|t| - 1];
  }

  /** Text without separators behind joins the last piece. */
  lemma {:induction false} SplitSuffix(s: string, w: string, seps: set<char>)
    requires NoneIn(w, seps)
    ensures Split(s + w, seps) == ExtendLast(Split(s, seps), w)
  {
    if s == [] {
      SplitNoSep(w, seps);
      assert s + w == w;
    } else {
      var t := Split(s[1..], seps);
      var q := Split(s[1..] + w, seps);
      SplitSuffix(s[1..], w, seps);
      assert (s + w)[0] == s[0];
      assert (s + w)[1..] == s[1..] + w;
      if s[0] in seps {
        ExtendLastCons("", t, w);
      } else if |t| == 1 {
        assert [s[0]] + (t[0] + w) == ([s[0]] + t[0]) + w;
      } else {
        ExtendLastCons([s[0]] + t[0], t[1..], w);
        ExtendLastCons(t[0], t[1..], w);
        assert [t[0]] + t[1..] == t;
      }
    }
  }

  /** The text splits into more than one piece exactly when it holds a separator. */
  lemma {:induction false} SplitOnePiece(s: string, seps: set<char>)
    ensures |Split(s, seps)| == 1 <==> NoneIn(s, seps)
  {
    if s != [] {
      SplitOnePiece(s[1..], seps);
      if s[0] !in seps {
        if NoneIn(s[1..], seps) {
          forall i | 0 <= i < |s|
            ensures s[i] !in seps
          {
            if i > 0 {
              assert s[i] == s[1..][i - 1];
            }
          }
        }
        if NoneIn(s, seps) {
          forall i | 0 <= i < |s[1..]|
            ensures s[1..][i] !in seps
          {
            assert s[1..][i] == s[i + 1];
          }
        }
      }
    }
  }

  /** No piece holds a separator. */
  lemma {:induction false} SplitPiecesClean(s: string, seps: set<char>, i: nat)
    requires i < |Split(s, seps)|
    ensures NoneIn(Split(s, seps)[i], seps)
  {
    if s != [] {
      var t := Split(s[1..], seps);
      if s[0] in seps {
        if i > 0 {
          SplitPiecesClean(s[1..], seps, i - 1);
        }
      } else if i > 0 {
        SplitPiecesClean(s[1..], seps, i);
      } else {
        SplitPiecesClean(s[1..], seps, 0);
        var x := [s[0]] + t[0];
        forall k | 0 <= k < |x|
          ensures x[k] !in seps
        {
          if k > 0 {
            assert x[k] == t[0][k - 1];
          }
        }
      }
    }
  }

  // ---------------------------------------------------------------- join

  /** `xs.join(sep)` */
  function Join(xs: seq<string>, sep: string): string {
    if |xs| == 0 then "" else if |xs| == 1 then xs[0] else xs[0] + sep + Join(xs[1..], sep)
  }

  /** Splitting on one separator and joining with it gives the text back. */
  lemma {:induction false} JoinSplit(s: string, c: char)
    ensures Join(Split(s, {c}), [c]) == s
  {
    if s != [] {
      var t := Split(s[1..], {c});
      JoinSplit(s[1..], c);
      if s[0] == c {
        assert Split(s, {c}) == [""] + t;
        assert ([""] + t)[1..] == t;
      } else {
        var r := Split(s, {c});
        assert r == [[s[0]] + t[0]] + t[1..];
        if |t| > 1 {
          assert r[1..] == t[1..];
        }
      }
    }
  }
}
