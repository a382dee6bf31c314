/** The filename the script derives from a download URL: the `path` that
    `urllib.parse.urlparse` reports (CPython 3.12), then `os.path.basename`
    of it. The split follows the generic syntax of RFC 3986, section 3:
    `scheme ":" "//" authority path "?" query "#" fragment`. */
module Url {
  import opened Common
  import opened Text
  import opened PosixPath

  /** Characters `urlsplit` strips from the front of a URL: C0 controls and space. */
  const C0OrSpace: set<char> := set i | 0 <= i <= 32 :: i as char

  /** Characters `urlsplit` deletes wherever they occur in a URL. */
  const Unsafe: set<char> := {'\t', '\r', '\n'}

  /** Schemes for which `urlparse` splits `;params` off the last path segment
      (the empty scheme included). */
  const UsesParams: set<string> :=
    {"", "ftp", "hdl", "prospero", "http", "imap", "https", "shttp", "rtsp",
     "rtsps", "rtspu", "sip", "sips", "mms", "sftp", "tel"}

  /** `s` without its tab, CR and LF characters. */
  function RemoveUnsafe(s: string): (r: string)
    ensures forall i :: 0 <= i < |r| ==> r[i] !in Unsafe
    ensures (forall i :: 0 <= i < |s| ==> s[i] !in Unsafe) ==> r == s
  {
    if s == [] then []
    else
      assert s == [s[0]] + s[1..];
      if s[0] in Unsafe then RemoveUnsafe(s[1..]) else [s[0]] + RemoveUnsafe(s[1..])
  }

  /** Deletion keeps the order of what survives: the two halves of a string
      are cleaned separately and put back in place. */
  lemma {:induction false} RemoveUnsafeAppend(a: string, b: string)
    ensures RemoveUnsafe(a + b) == RemoveUnsafe(a) + RemoveUnsafe(b)
    decreases |a|
  {
    if a == [] {
      assert a + b == b;
    } else {
      var x, tail := a[0], a[1..];
      assert a == [x] + tail;
      AppendAssoc([x], tail, b);
      RemoveUnsafeAppend(tail, b);
      RemoveUnsafeStep(x, tail, b);
    }
  }

  /** `RemoveUnsafeAppend`'s step past the first character. */
  lemma RemoveUnsafeStep(x: char, tail: string, b: string)
    requires RemoveUnsafe(tail + b) == RemoveUnsafe(tail) + RemoveUnsafe(b)
    ensures RemoveUnsafe([x] + (tail + b)) == RemoveUnsafe([x] + tail) + RemoveUnsafe(b)
  {
    RemoveUnsafeCons(x, tail);
    RemoveUnsafeCons(x, tail + b);
    AppendAssoc(if x in Unsafe then [] else [x], RemoveUnsafe(tail), RemoveUnsafe(b));
  }

  lemma RemoveUnsafeCons(x: char, s: string)
    ensures RemoveUnsafe([x] + s) == (if x in Unsafe then [] else [x]) + RemoveUnsafe(s)
  {
    var t := [x] + s;
    assert t[0] == x && t[1..] == s;
  }

  /** Every character other than tab, CR and LF occurs as often after the
      deletion as before. */
  lemma {:induction false} RemoveUnsafeCounts(s: string, c: char)
    requires c !in Unsafe
    ensures multiset(RemoveUnsafe(s))[c] == multiset(s)[c]
    decreases |s|
  {
    if s != [] {
      var x, tail := s[0], s[1..];
      assert s == [x] + tail;
      RemoveUnsafeCons(x, tail);
      RemoveUnsafeCounts(tail, c);
      CountCons(x, tail, c);
      if x !in Unsafe {
        CountCons(x, RemoveUnsafe(tail), c);
      }
    }
  }

  /** One character either vanishes (tab, CR, LF) or stays as it is. */
  lemma RemoveUnsafeChar(c: char)
    ensures RemoveUnsafe([c]) == if c in Unsafe then [] else [c]
  {
    assert [c][1..] == [];
  }

  /** The URL as `urlsplit` goes on to parse it. */
  function Clean(url: string): string
  {
    RemoveUnsafe(TrimStart(url, C0OrSpace))
  }

  predicate IsAsciiLetter(c: char)
  {
    'a' <= c <= 'z' || 'A' <= c <= 'Z'
  }

  predicate IsSchemeChar(c: char)
  {
    IsAsciiLetter(c) || '0' <= c <= '9' || c == '+' || c == '-' || c == '.'
  }

  /** What `urlsplit` accepts before the first `:` as a scheme. */
  predicate IsScheme(s: string)
  {
    s != [] && IsAsciiLetter(s[0]) && forall i :: 0 <= i < |s| ==> IsSchemeChar(s[i])
  }

  function LowerAscii(s: string): string
  {
    seq(|s|, i requires 0 <= i < |s| => if 'A' <= s[i] <= 'Z' then (s[i] as int + 32) as char else s[i])
  }

  /** The five components of a URL. A component that is absent is `None`,
      so that the delimiters can be put back exactly. */
  datatype Parts = Parts(
    scheme: Option<string>,
    netloc: Option<string>,
    path: string,
    query: Option<string>,
    fragment: Option<string>)

  function Before(x: Option<string>, delimiter: string): string
  {
    match x
    case Some(s) => s + delimiter
    case None => []
  }

  function After(delimiter: string, x: Option<string>): string
  {
    match x
    case Some(s) => delimiter + s
    case None => []
  }

  /** The URL text the parts came from. */
  function Unsplit(p: Parts): string
  {
    Before(p.scheme, ":") + (After("//", p.netloc) + ((p.path + After("?", p.query)) + After("#", p.fragment)))
  }

  /** Cuts `u` at its first `c`: the text before it, and the text after it
      when `c` occurs. */
  function SplitAt(u: string, c: char): (r: (string, Option<string>))
    ensures r.0 <= u
    ensures c !in r.0
    ensures r.0 + After([c], r.1) == u
    ensures u != [] ==> if u[0] == c then r.0 == [] else r.0 != [] && r.0[0] == u[0]
  {
    var before := TakeUntil(u, {c});
    if |before| < |u| then
      assert u == before + [c] + u[|before| + 1..];
      (before, Some(u[|before| + 1..]))
    else
      (u, None)
  }

  /** A leading scheme: the text before the first `:`, when it is a valid scheme. */
  function SplitScheme(u: string): (r: (Option<string>, string))
    ensures r.0.Some? ==> IsScheme(r.0.value)
    ensures r.0.Some? <==> ':' in u && IsScheme(TakeUntil(u, {':'}))
    ensures r.0.Some? ==> r.0.value == TakeUntil(u, {':'})
    ensures Before(r.0, ":") + r.1 == u
  {
    var head := TakeUntil(u, {':'});
    assert ':' in u <==> |head| < |u| by {
      if |head| == |u| {
        assert head == u;
      }
    }
    if |head| < |u| && IsScheme(head) then
      assert u == head + ":" + u[|head| + 1..];
      (Some(head), u[|head| + 1..])
    else
      (None, u)
  }

  /** A leading authority: after `//`, everything up to the first `/`, `?` or `#`. */
  function SplitNetloc(u: string): (r: (Option<string>, string))
    ensures r.0.Some? <==> "//" <= u
    ensures r.0.Some? ==> r.0.value == TakeUntil(u[2..], {'/', '?', '#'})
    ensures r.0.Some? ==> forall i :: 0 <= i < |r.0.value| ==> r.0.value[i] !in {'/', '?', '#'}
    ensures r.0.Some? ==> r.1 == [] || r.1[0] in {'/', '?', '#'}
    ensures After("//", r.0) + r.1 == u
  {
    if |u| >= 2 && u[..2] == "//" then
      var n := TakeUntil(u[2..], {'/', '?', '#'});
      assert u == "//" + n + u[2 + |n|..];
      (Some(n), u[2 + |n|..])
    else
      (None, u)
  }

  /** What follows the authority: the fragment after the first `#`, then
      the query after the first `?`, and the path before both. */
  function SplitRest(u: string): (r: (string, Option<string>, Option<string>))
    ensures forall i :: 0 <= i < |r.0| ==> r.0[i] != '?' && r.0[i] != '#'
    ensures r.1.Some? ==> '#' !in r.1.value
    ensures (u == [] || u[0] in {'/', '?', '#'}) ==> r.0 == [] || r.0[0] == '/'
    ensures (r.0 + After("?", r.1)) + After("#", r.2) == u
  {
    var (beforeFragment, fragment) := SplitAt(u, '#');
    var (path, query) := SplitAt(beforeFragment, '?');
    assert path != [] ==> path[0] == beforeFragment[0] == u[0];
    (path, query, fragment)
  }

  /** `urlsplit`: scheme, then authority, then the fragment after the first
      `#`, then the query after the first `?`; what remains is the path. */
  function SplitUrl(url: string): (p: Parts)
    ensures p.scheme.Some? ==> IsScheme(p.scheme.value)
    ensures p.netloc.Some? ==> forall i :: 0 <= i < |p.netloc.value| ==> p.netloc.value[i] !in {'/', '?', '#'}
    ensures p.netloc.Some? ==> p.path == [] || p.path[0] == '/'
    ensures forall i :: 0 <= i < |p.path| ==> p.path[i] != '?' && p.path[i] != '#'
    ensures p.query.Some? ==> '#' !in p.query.value
  {
    var (scheme, afterScheme) := SplitScheme(Clean(url));
    var (netloc, afterNetloc) := SplitNetloc(afterScheme);
    var (path, query, fragment) := SplitRest(afterNetloc);
    Parts(scheme, netloc, path, query, fragment)
  }

  /** Splitting loses nothing: the parts put back together give the URL
      `urlsplit` parsed. */
  lemma SplitRoundTrip(url: string)
    ensures Unsplit(SplitUrl(url)) == Clean(url)
  {
    var u := Clean(url);
    var (scheme, afterScheme) := SplitScheme(u);
    var (netloc, afterNetloc) := SplitNetloc(afterScheme);
    var (path, query, fragment) := SplitRest(afterNetloc);
  }

  /** Which components are present, and what the scheme and authority are:
      the text before the first `:` is the scheme exactly when it is a valid
      scheme name, and what follows the scheme has an authority exactly when
      it starts with `//`, the authority running to the first `/`, `?` or `#`. */
  lemma SplitComponents(url: string)
    ensures var u, p := Clean(url), SplitUrl(url);
      && (p.scheme.Some? <==> ':' in u && IsScheme(TakeUntil(u, {':'})))
      && (p.scheme.Some? ==> p.scheme.value == TakeUntil(u, {':'}))
    ensures var u, p := Clean(url), SplitUrl(url);
      var afterScheme := u[|Before(p.scheme, ":")|..];
      && (p.netloc.Some? <==> "//" <= afterScheme)
      && (p.netloc.Some? ==> p.netloc.value == TakeUntil(afterScheme[2..], {'/', '?', '#'}))
  {
    var u := Clean(url);
    var (scheme, afterScheme) := SplitScheme(u);
    assert afterScheme == u[|Before(scheme, ":")|..];
  }

  /** The scheme as `urlparse` reports it: lower-cased, empty when absent. */
  function SchemeName(p: Parts): string
  {
    match p.scheme
    case Some(s) => LowerAscii(s)
    case None => []
  }

  /** `_splitparams`: the path without the `;params` that begin at the first
      `;` of its last segment. */
  function SplitParams(path: string): (r: string)
    ensures r <= path
    ensures path[..|path| - |Basename(path)|] <= r
    ensures Basename(r) == TakeUntil(Basename(path), {';'})
  {
    var name := Basename(path);
    var dir := path[..|path| - |name|];
    var kept := TakeUntil(name, {';'});
    CutLastSegment(path, dir, name, kept);
    dir + kept
  }

  /** The directory of a path, followed by a prefix of its last segment. */
  lemma CutLastSegment(path: string, dir: string, name: string, kept: string)
    requires name == Basename(path) && dir == path[..|path| - |name|]
    requires kept <= name
    ensures dir + kept <= path
    ensures Basename(dir + kept) == kept
  {
    assert path == dir + name;
    forall i | 0 <= i < |kept| ensures kept[i] != '/' {
      assert kept[i] == name[i];
    }
    BasenameOfJoin(dir, kept);
  }


  /** `urlparse`'s path from `urlsplit`'s path and the scheme: the
      directory is kept, and only for the schemes that carry parameters is the
      last segment cut at its first `;`. */
  function ParamsPath(split: string, scheme: string): (path: string)
    ensures path <= split
    ensures split[..|split| - |Basename(split)|] <= path
    ensures scheme !in UsesParams || ';' !in Basename(split) ==> path == split
    ensures scheme in UsesParams ==> Basename(path) == TakeUntil(Basename(split), {';'})
  {
    ParamsInLastSegment(split);
    NoParamsSegment(split);
    if scheme in UsesParams && ';' in split then SplitParams(split) else split
  }

  /** The `path` attribute of `urlparse(url)`: a prefix of `urlsplit`'s
      path at least as long as its directory part, so the directory is kept. */
  function UrlPath(url: string): (path: string)
    ensures path <= SplitUrl(url).path
    ensures |SplitUrl(url).path| - |Basename(SplitUrl(url).path)| <= |path|
    ensures SchemeName(SplitUrl(url)) !in UsesParams || ';' !in Basename(SplitUrl(url).path) ==>
      path == SplitUrl(url).path
    ensures SchemeName(SplitUrl(url)) in UsesParams ==>
      Basename(path) == TakeUntil(Basename(SplitUrl(url).path), {';'})
  {
    var p := SplitUrl(url);
    ParamsPath(p.path, SchemeName(p))
  }

  /** `_splitparams` changes nothing when the last segment holds no `;`. */
  lemma ParamsInLastSegment(path: string)
    ensures ';' !in Basename(path) ==> SplitParams(path) == path
  {
    var name := Basename(path);
    if ';' !in name {
      var dir := path[..|path| - |name|];
      TakeUntilAll(name, {';'});
      assert SplitParams(path) == dir + name;
      assert path == dir + name;
    }
  }

  /** A path without `;` has nothing to cut in its last segment. */
  lemma NoParamsSegment(path: string)
    ensures ';' !in path ==> TakeUntil(Basename(path), {';'}) == Basename(path)
  {
    if ';' !in path {
      BasenameAvoids(path, path, {';'});
      TakeUntilAll(Basename(path), {';'});
    }
  }


  /** A suffix of a prefix of `q` holds no character that `q` avoids. */
  lemma SuffixAvoids(path: string, name: string, q: string, cs: set<char>)
    requires path <= q && |name| <= |path| && name == path[|path| - |name|..]
    requires forall i :: 0 <= i < |q| ==> q[i] !in cs
    ensures forall i :: 0 <= i < |name| ==> name[i] !in cs
  {
    forall i | 0 <= i < |name| ensures name[i] !in cs {
      assert name[i] == path[|path| - |name| + i] == q[|path| - |name| + i];
    }
  }

  /** The last segment of a prefix of `q` holds no character that `q` avoids. */
  lemma BasenameAvoids(path: string, q: string, cs: set<char>)
    requires path <= q
    requires forall i :: 0 <= i < |q| ==> q[i] !in cs
    ensures forall i :: 0 <= i < |Basename(path)| ==> Basename(path)[i] !in cs
  {
    SuffixAvoids(path, Basename(path), q, cs);
  }

  /** The last segment of `urlparse`'s path, from that of `urlsplit`. */
  lemma LastSegment(split: string, scheme: string, path: string)
    requires path == if scheme in UsesParams && ';' in split then SplitParams(split) else split
    requires forall i :: 0 <= i < |split| ==> split[i] != '?' && split[i] != '#'
    ensures forall i :: 0 <= i < |Basename(path)| ==> Basename(path)[i] !in {'/', '?', '#'}
    ensures if scheme in UsesParams then Basename(path) == TakeUntil(Basename(split), {';'})
      else Basename(path) == Basename(split)
  {
    BasenameAvoids(path, split, {'?', '#'});
    if ';' !in split {
      BasenameAvoids(split, split, {';'});
      TakeUntilAll(Basename(split), {';'});
    }
  }

  /** The filename of a download URL: the last segment of its path, never
      holding a `/`, nor any of the query or fragment; for the schemes that
      carry parameters, cut at the first `;` of that segment. */
  function Filename(url: string): (name: string)
    ensures forall i :: 0 <= i < |name| ==> name[i] !in {'/', '?', '#'}
    ensures var last := Basename(SplitUrl(url).path);
      if SchemeName(SplitUrl(url)) in UsesParams then name == TakeUntil(last, {';'}) else name == last
  {
    var p := SplitUrl(url);
    LastSegment(p.path, SchemeName(p), UrlPath(url));
    Basename(UrlPath(url))
  }
}
