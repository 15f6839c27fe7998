/** Absolute paths as the file-system library of C++ sees them: names between slashes, and the
  * lexical normal form that drops "." and resolves "..". */
module Paths {
  const SLASH: char := '/'

  /** Length of the name at the start of s. */
  function NameLength(s: string): (r: nat)
    ensures r <= |s| && (forall i :: 0 <= i < r ==> s[i] != SLASH) && (r < |s| ==> s[r] == SLASH)
  {
    if s == "" || s[0] == SLASH then 0 else 1 + NameLength(s[1..])
  }

  /** The non-empty names of a path. */
  function Names(s: string): seq<string>
    decreases |s|
  {
    if s == "" then []
    else if s[0] == SLASH then Names(s[1..])
    else [s[..NameLength(s)]] + Names(s[NameLength(s)..])
  }

  predicate EndsWithSlash(s: string) {
    s != "" && s[|s| - 1] == SLASH
  }

  /** Last name; empty behind a trailing slash. */
  function FileName(s: string): string {
    if EndsWithSlash(s) || Names(s) == [] then "" else Names(s)[|Names(s)| - 1]
  }

  predicate IsAbsolute(s: string) {
    s != "" && s[0] == SLASH
  }

  /** Names left of an absolute path after "." and ".." are resolved, starting below dirs. */
  function Resolve(dirs: seq<string>, names: seq<string>): seq<string>
    decreases |names|
  {
    if names == [] then dirs
    else if names[0] == "." then Resolve(dirs, names[1..])
    else if names[0] == ".." then Resolve(if dirs == [] then [] else dirs[..|dirs| - 1], names[1..])
    else Resolve(dirs + [names[0]], names[1..])
  }

  predicate IsDots(name: string) {
    name == "." || name == ".."
  }

  /** The directory that holds the normal form of an absolute path.  A path that ends in a slash or
    * in dots names a directory, which then is its own parent in this sense. */
  function NormalParent(s: string): seq<string> {
    var names := Names(s);
    var dirs := Resolve([], names);
    if EndsWithSlash(s) || names == [] || IsDots(names[|names| - 1]) || dirs == [] then dirs else dirs[..|dirs| - 1]
  }

  /** A name that is neither empty nor dots and holds no slash. */
  predicate IsPlain(name: string) {
    name != "" && !IsDots(name) && SLASH !in name
  }

  lemma LengthOfName(name: string, rest: string)
    requires SLASH !in name && (rest == "" || rest[0] == SLASH)
    ensures NameLength(name + rest) == |name|
    decreases |name|
  {
    if name == "" {
      assert name + rest == rest;
    } else {
      assert (name + rest)[1..] == name[1..] + rest;
      LengthOfName(name[1..], rest);
    }
  }

  /** A slash and a plain name in front of a path put one name in front. */
  lemma NamesJoin(name: string, rest: string)
    requires IsPlain(name) && (rest == "" || rest[0] == SLASH)
    ensures Names([SLASH] + name + rest) == [name] + Names(rest)
  {
    LengthOfName(name, rest);
    var s := name + rest;
    assert ([SLASH] + name + rest)[1..] == s;
    assert s[..|name|] == name && s[|name|..] == rest;
  }

  lemma {:induction false} ResolveLast(dirs: seq<string>, names: seq<string>)
    requires names != [] && !IsDots(names[|names| - 1])
    ensures Resolve(dirs, names) == Resolve(dirs, names[..|names| - 1]) + [names[|names| - 1]]
    decreases |names|
  {
    var front := names[..|names| - 1];
    if |names| > 1 {
      assert names[1..][..|names| - 2] == front[1..];
      ResolveLast(if names[0] == "." then dirs
                  else if names[0] == ".." then (if dirs == [] then [] else dirs[..|dirs| - 1])
                  else dirs + [names[0]], names[1..]);
    }
  }

  lemma {:induction false} ResolvePlain(dirs: seq<string>, names: seq<string>)
    requires forall i :: 0 <= i < |names| ==> IsPlain(names[i])
    ensures Resolve(dirs, names) == dirs + names
    decreases |names|
  {
    if names == [] {
      assert dirs + names == dirs;
    } else {
      ResolvePlain(dirs + [names[0]], names[1..]);
      assert dirs + [names[0]] + names[1..] == dirs + names;
    }
  }

  /** A path whose last name is plain resolves to that name in its normal parent. */
  lemma PlainFileResolves(s: string)
    requires IsPlain(FileName(s))
    ensures Resolve([], Names(s)) == NormalParent(s) + [FileName(s)]
  {
    ResolveLast([], Names(s));
  }
}
