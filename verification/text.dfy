/** Small string operations the rest of the model is built from: the
    `str.find`, `str.lstrip`, `str.rstrip` family of the script's runtime. */
module Text {

  /** The longest prefix of `s` that contains no character of `stops`: the
      text before the first occurrence of any of them (all of `s` if none
      occurs). */
  function TakeUntil(s: string, stops: set<char>): (r: string)
    ensures r <= s
    ensures forall i :: 0 <= i < |r| ==> r[i] !in stops
    ensures |r| < |s| ==> s[|r|] in stops
  {
    if s == [] || s[0] in stops then [] else [s[0]] + TakeUntil(s[1..], stops)
  }

  /** When no stop character occurs, `TakeUntil` keeps everything. */
  lemma TakeUntilAll(s: string, stops: set<char>)
    requires forall i :: 0 <= i < |s| ==> s[i] !in stops
    ensures TakeUntil(s, stops) == s
  {
  }

  /** `s` with every leading character that is in `junk` removed. */
  function TrimStart(s: string, junk: set<char>): (r: string)
    ensures |r| <= |s| && r == s[|s| - |r|..]
    ensures forall i :: 0 <= i < |s| - |r| ==> s[i] in junk
    ensures r == [] || r[0] !in junk
  {
    if s != [] && s[0] in junk then
      var r := TrimStart(s[1..], junk);
      assert s[1..][|s| - 1 - |r|..] == s[|s| - |r|..];
      assert forall i :: 1 <= i < |s| - |r| ==> s[i] == s[1..][i - 1];
      r
    else s
  }

  /** `s` with every trailing character that is in `junk` removed. */
  function TrimEnd(s: string, junk: set<char>): (r: string)
    ensures r <= s
    ensures forall i :: |r| <= i < |s| ==> s[i] in junk
    ensures r == [] || r[|r| - 1] !in junk
  {
    if s != [] && s[|s| - 1] in junk then TrimEnd(s[..|s| - 1], junk) else s
  }

  lemma AppendAssoc<T>(x: seq<T>, y: seq<T>, z: seq<T>)
    ensures x + (y + z) == (x + y) + z
  {
  }

  /** How often `c` occurs in a string with `x` in front. */
  lemma CountCons(x: char, s: string, c: char)
    ensures multiset([x] + s)[c] == (if x == c then 1 else 0) + multiset(s)[c]
  {
    assert multiset([x] + s) == multiset([x]) + multiset(s);
  }
}

/** The one function of `os.path` (POSIX flavour) the script uses. */
module PosixPath {

  /** `os.path.basename`: the text after the last `/` of `p`, or all of `p`
      when it has no `/`. */
  function Basename(p: string): (r: string)
    ensures '/' !in r
    ensures |r| <= |p| && r == p[|p| - |r|..]
    ensures |r| < |p| ==> p[|p| - |r| - 1] == '/'
    decreases |p|
  {
    if p == [] || p[|p| - 1] == '/' then []
    else Basename(p[..|p| - 1]) + [p[|p| - 1]]
  }

  /** Appending a character other than `/` extends the basename by it. */
  lemma BasenameSnoc(p: string, c: char)
    requires c != '/'
    ensures Basename(p + [c]) == Basename(p) + [c]
  {
    assert (p + [c])[..|p + [c]| - 1] == p;
  }

  /** A slash-free name placed after a directory prefix (empty, or ending in
      `/`) is exactly what `Basename` gives back. */
  lemma {:induction false} BasenameOfJoin(dir: string, name: string)
    requires dir == [] || dir[|dir| - 1] == '/'
    requires forall i :: 0 <= i < |name| ==> name[i] != '/'
    ensures Basename(dir + name) == name
    decreases |name|
  {
    if name == [] {
      assert dir + name == dir;
    } else {
      var init, c := name[..|name| - 1], name[|name| - 1];
      assert dir + name == (dir + init) + [c] by { assert name == init + [c]; }
      BasenameOfJoin(dir, init);
      BasenameSnoc(dir + init, c);
      assert name == init + [c];
    }
  }
}
