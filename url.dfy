/** The path component that `do_GET` matches on, `urllib.parse.urlparse(self.path).path`
    (main.py:29-30): the scheme, the network location, the fragment, the
    query and the `;` parameters of the last segment are all split off. */
module Url {
  import opened Strings

  /** Characters `urlsplit` accepts in a scheme. */
  predicate IsSchemeChar(c: char)
  {
    'a' <= c <= 'z' || 'A' <= c <= 'Z' || '0' <= c <= '9' || c == '+' || c == '-' || c == '.'
  }

  /** Schemes whose last path segment may carry `;` parameters. */
  const UsesParams: set<string> :=
    {"", "ftp", "hdl", "prospero", "http", "imap", "https", "shttp", "rtsp", "rtsps", "rtspu",
     "sip", "sips", "mms", "sftp", "tel"}

  predicate IsAsciiLetter(c: char)
  {
    'a' <= c <= 'z' || 'A' <= c <= 'Z'
  }

  function LowerChar(c: char): (l: char)
  {
    if 'A' <= c <= 'Z' then (c as int + 32) as char else c
  }

  /** `str.lower` on the ASCII text of a scheme. */
  function Lower(s: string): (r: string)
    ensures |r| == |s|
  {
    if |s| == 0 then "" else [LowerChar(s[0])] + Lower(s[1..])
  }

  /** Splits off `scheme:` when the text before the first `:` is non-empty,
      starts with an ASCII letter and is made of scheme characters; gives the
      lower-cased scheme and the rest. */
  function SplitScheme(url: string): (r: (string, string))
    ensures r.0 == "" ==> r.1 == url
  {
    var i := IndexOfAny(url, {':'});
    if 0 < i < |url| && IsAsciiLetter(url[0]) && forall j :: 0 <= j < i ==> IsSchemeChar(url[j])
    then (Lower(url[..i]), url[i + 1..])
    else ("", url)
  }

  /** After a leading `//` the network location runs up to the first `/`,
      `?` or `#`; it is dropped. */
  function StripNetloc(url: string): (r: string)
    ensures |r| <= |url| && r == url[|url| - |r|..]
  {
    if |url| >= 2 && url[..2] == "//" then
      var rest := url[2..];
      rest[IndexOfAny(rest, {'/', '?', '#'})..]
    else url
  }

  /** `_splitparams`: cut at the first `;` at or after the last `/` (at the
      first `;` when there is no `/`). */
  function StripParams(url: string): (r: string)
    ensures r <= url
    ensures ';' !in url ==> r == url
  {
    if ';' !in url then url
    else if '/' in url then
      var slash := LastIndexOf(url, '/');
      url[..slash + IndexOfAny(url[slash..], {';'})]
    else url[..IndexOfAny(url, {';'})]
  }

  /** The index of the last occurrence of `c` (`str.rfind`). */
  function LastIndexOf(s: string, c: char): (i: nat)
    requires c in s
    ensures i < |s| && s[i] == c
    ensures forall j :: i < j < |s| ==> s[j] != c
  {
    if s[|s| - 1] == c then |s| - 1
    else
      assert c in s[..|s| - 1] by {
        var k :| 0 <= k < |s| && s[k] == c;
        assert s[..|s| - 1][k] == c;
      }
      LastIndexOf(s[..|s| - 1], c)
  }

  /** `urlparse(raw).path`. */
  function UrlPath(raw: string): (path: string)
    ensures '?' !in path && '#' !in path
  {
    var split := SplitScheme(raw);
    PathAfterScheme(split.0, split.1)
  }

  /** The path left of what follows the scheme: network location, fragment
      and query dropped, then the parameters when the scheme has them. */
  function PathAfterScheme(scheme: string, rest: string): (path: string)
    ensures '?' !in path && '#' !in path
  {
    var noFragment := BeforeFirst(StripNetloc(rest), '#');
    var noQuery := BeforeFirst(noFragment, '?');
    assert forall i :: 0 <= i < |noQuery| ==> noQuery[i] == noFragment[i];
    if scheme in UsesParams then StripParams(noQuery) else noQuery
  }

  /** An origin-form target as clients usually send it: a single leading `/` and
      no `?`, `#` or `;`. */
  predicate PlainTarget(p: string)
  {
    |p| >= 1 && p[0] == '/' && (|p| == 1 || p[1] != '/') && '?' !in p && '#' !in p && ';' !in p
  }

  /** A plain target is its own path. */
  lemma {:induction false} PlainPathUnchanged(p: string)
    requires PlainTarget(p)
    ensures UrlPath(p) == p
  {
    assert !IsAsciiLetter(p[0]);
    assert SplitScheme(p) == ("", p);
  }

  /** Splitting the scheme off `p` followed by `?` or `#` and anything
      leaves that suffix untouched. */
  lemma {:induction false} SchemeBeforeSuffix(p: string, c: char, q: string)
    requires c == '?' || c == '#'
    ensures SplitScheme(p + [c] + q).0 == SplitScheme(p).0
    ensures SplitScheme(p + [c] + q).1 == SplitScheme(p).1 + [c] + q
  {
    var u := p + [c] + q;
    assert u == p + ([c] + q);
    IndexOfAnyConcat(p, [c] + q, {':'});
    if ':' in p {
      SchemeInPrefix(p, [c] + q);
      assert p[IndexOfAny(p, {':'}) + 1..] + ([c] + q) == p[IndexOfAny(p, {':'}) + 1..] + [c] + q;
    } else {
      NoSchemeAcrossSuffix(p, c, q);
    }
  }

  /** A `:` inside `p` decides the scheme the same way with anything after p. */
  lemma {:induction false} SchemeInPrefix(p: string, tail: string)
    requires ':' in p
    ensures SplitScheme(p + tail) == (SplitScheme(p).0, SplitScheme(p).1 + tail)
  {
    var u := p + tail;
    IndexOfAnyConcat(p, tail, {':'});
    var i := IndexOfAny(p, {':'});
    assert i < |p|;
    assert u[..i] == p[..i] && u[0] == p[0];
    assert u[i + 1..] == p[i + 1..] + tail;
  }

  /** With no `:` before a `?` or `#`, there is no scheme. */
  lemma {:induction false} NoSchemeAcrossSuffix(p: string, c: char, q: string)
    requires c == '?' || c == '#'
    requires ':' !in p
    ensures SplitScheme(p + [c] + q) == ("", p + [c] + q)
    ensures SplitScheme(p) == ("", p)
  {
    var u := p + [c] + q;
    var iu := IndexOfAny(u, {':'});
    assert u[|p|] == c;
    if 0 < iu < |u| {
      assert |p| < iu;
      assert !IsSchemeChar(u[|p|]);
    }
  }

  /** Dropping the network location commutes with a `?` or `#` suffix. */
  lemma {:induction false} NetlocBeforeSuffix(r: string, c: char, q: string)
    requires c == '?' || c == '#'
    ensures StripNetloc(r + [c] + q) == StripNetloc(r) + [c] + q
  {
    var u := r + [c] + q;
    if |r| >= 2 {
      assert u[..2] == r[..2];
    } else if |u| >= 2 {
      assert u[..2][|r|] == c;
    }
    if |r| >= 2 && r[..2] == "//" {
      var rest := r[2..];
      var cs := {'/', '?', '#'};
      assert u[2..] == rest + ([c] + q);
      IndexOfAnyConcat(rest, [c] + q, cs);
      assert ([c] + q)[0] in cs;
      var d := IndexOfAny(rest, cs);
      assert IndexOfAny(u[2..], cs) == d;
      assert u[2..][d..] == rest[d..] + [c] + q;
    }
  }

  lemma {:induction false} BeforeFirstConcat(a: string, b: string, c: char)
    ensures BeforeFirst(a + b, c) == if c in a then BeforeFirst(a, c) else a + BeforeFirst(b, c)
  {
    IndexOfAnyConcat(a, b, {c});
    if c in a {
      assert (a + b)[..IndexOfAny(a, {c})] == a[..IndexOfAny(a, {c})];
    } else {
      assert (a + b)[..|a| + IndexOfAny(b, {c})] == a + b[..IndexOfAny(b, {c})];
    }
  }

  /** Cutting at `#` then at `?` ignores everything from a `?` or `#` on. */
  lemma {:induction false} CutAtSuffix(t: string, c: char, q: string)
    requires c == '?' || c == '#'
    requires c !in t
    ensures BeforeFirst(BeforeFirst(t + [c] + q, '#'), '?') == BeforeFirst(BeforeFirst(t, '#'), '?')
  {
    assert t + [c] + q == t + ([c] + q);
    BeforeFirstConcat(t, [c] + q, '#');
    if c == '?' {
      if '#' !in t {
        BeforeFirstConcat([c], q, '#');
        assert BeforeFirst([c] + q, '#') == [c] + BeforeFirst(q, '#');
        BeforeFirstConcat(t, [c] + BeforeFirst(q, '#'), '?');
        assert BeforeFirst([c] + BeforeFirst(q, '#'), '?') == "";
        assert t + "" == t;
      }
    } else {
      assert BeforeFirst([c] + q, '#') == "";
      assert t + "" == t;
    }
  }

  /** What follows the first `?` or `#` of a target never affects its path:
      GET routing ignores the query string and the fragment. */
  lemma {:induction false} SuffixIgnored(p: string, c: char, q: string)
    requires c == '?' || c == '#'
    requires c !in p
    ensures UrlPath(p + [c] + q) == UrlPath(p)
  {
    SchemeBeforeSuffix(p, c, q);
    var scheme, r := SplitScheme(p).0, SplitScheme(p).1;
    assert c !in r by {
      if scheme != "" {
        var i := IndexOfAny(p, {':'});
        assert r == p[i + 1..];
      }
    }
    NetlocBeforeSuffix(r, c, q);
    var t := StripNetloc(r);
    assert c !in t;
    CutAtSuffix(t, c, q);
    assert PathAfterScheme(scheme, r + [c] + q) == PathAfterScheme(scheme, r);
  }

  /** Hence a query string after a target changes nothing. */
  lemma {:induction false} QueryIgnored(p: string, q: string)
    requires '?' !in p
    ensures UrlPath(p + "?" + q) == UrlPath(p)
  {
    SuffixIgnored(p, '?', q);
  }
}
