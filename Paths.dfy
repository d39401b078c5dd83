/** The pieces of System.IO.Path and System.IO.Directory that the image
    loader relies on, over paths written with '/' as the only directory
    separator. */
module Paths {

  const Separator: char := '/'
  const ExtensionMark: char := '.'

  /** The index of the last `c` among the first `n` characters of `s`, or -1
      when there is none: the backward scan the path functions do. */
  function LastIndexBefore(s: string, c: char, n: nat): (k: int)
    requires n <= |s|
    ensures -1 <= k < n
    ensures k >= 0 ==> s[k] == c
    ensures forall j :: k < j < n ==> s[j] != c
  {
    if n == 0 then -1
    else if s[n - 1] == c then n - 1
    else LastIndexBefore(s, c, n - 1)
  }

  /** The index of the last `c` in `s`, or -1. */
  function LastIndexOf(s: string, c: char): (k: int)
  {
    LastIndexBefore(s, c, |s|)
  }

  /** The facts the backward scan ensures single out its result. */
  lemma {:induction false} LastIndexUnique(s: string, c: char, n: nat, k: int)
    requires n <= |s| && -1 <= k < n
    requires k >= 0 ==> s[k] == c
    requires forall j :: k < j < n ==> s[j] != c
    ensures LastIndexBefore(s, c, n) == k
  {
    if n > 0 && k < n - 1 {
      LastIndexUnique(s, c, n - 1, k);
    }
  }

  /** Path.GetFileName: the part of the path after its last separator. */
  function FileName(path: string): (name: string)
    ensures Separator !in name
  {
    path[LastIndexOf(path, Separator) + 1..]
  }

  /** Path.GetDirectoryName on a path that is already full and normalised (no
      `.` or `..` segments, no repeated separators, not directly under the
      root): the part of the path before its last separator, or "" when the
      path has none. */
  function DirectoryName(path: string): (dir: string)
    ensures Separator in path ==> path == dir + [Separator] + FileName(path)
    ensures Separator !in path ==> dir == [] && FileName(path) == path
  {
    var k := LastIndexOf(path, Separator);
    if k < 0 then
      assert path[k + 1..] == path;
      []
    else
      assert path == path[..k] + [Separator] + path[k + 1..];
      path[..k]
  }

  /** Joining a directory and a separator-free name and splitting again gives
      back both parts. */
  lemma SplitJoin(dir: string, name: string)
    requires Separator !in name
    ensures FileName(dir + [Separator] + name) == name
    ensures DirectoryName(dir + [Separator] + name) == dir
  {
    var path := dir + [Separator] + name;
    forall j | |dir| < j < |path|
      ensures path[j] != Separator
    {
      assert path[j] == name[j - |dir| - 1];
    }
    LastIndexUnique(path, Separator, |path|, |dir|);
    assert path[|dir| + 1..] == name;
    assert path[..|dir|] == dir;
  }

  /** Directory.GetParent(path).Name on a full, normalised path: the name of
      the directory that directly holds the file. */
  function ParentName(path: string): (parent: string)
    ensures Separator !in parent
    ensures Separator !in path ==> parent == []
  {
    FileName(DirectoryName(path))
  }

  /** The parent name is the segment just before the file name. */
  lemma ParentNameOfJoin(root: string, folder: string, name: string)
    requires Separator !in folder && Separator !in name
    ensures ParentName(root + [Separator] + folder + [Separator] + name) == folder
    ensures ParentName(folder + [Separator] + name) == folder
  {
    SplitJoin(root + [Separator] + folder, name);
    SplitJoin(root, folder);
    SplitJoin(folder, name);
  }

  /** The index of the '.' that starts the extension of the first `n`
      characters of `path`: the last '.' with no separator after it, or -1
      when a separator or the start of the path comes first. */
  function ExtensionStartBefore(path: string, n: nat): (k: int)
    requires n <= |path|
    ensures -1 <= k < n
    ensures k >= 0 ==> path[k] == ExtensionMark
    ensures k >= 0 ==> forall j :: k < j < n ==> path[j] != ExtensionMark && path[j] != Separator
    ensures k < 0 ==> forall j :: 0 <= j < n && path[j] == ExtensionMark ==> exists m :: j < m < n && path[m] == Separator
  {
    if n == 0 then -1
    else if path[n - 1] == ExtensionMark then n - 1
    else if path[n - 1] == Separator then -1
    else ExtensionStartBefore(path, n - 1)
  }

  /** Path.GetExtension: the suffix of the path from the '.' that starts its
      extension, or "" when the file name has no '.' or ends in one. A '.' in
      a directory name never starts an extension. */
  function Extension(path: string): (ext: string)
    ensures ext == [] || (2 <= |ext| <= |path| && ext[0] == ExtensionMark && ext == path[|path| - |ext|..])
    ensures ext != [] ==> ExtensionMark !in ext[1..] && Separator !in ext
    ensures ext == [] ==>
              (|path| > 0 && path[|path| - 1] == ExtensionMark) ||
              (forall j :: 0 <= j < |path| && path[j] == ExtensionMark ==> exists m :: j < m < |path| && path[m] == Separator)
  {
    var k := ExtensionStartBefore(path, |path|);
    if k < 0 || k == |path| - 1 then [] else path[k..]
  }

  /** A '.' followed by no '.' and no separator up to `n` is where the
      backward scan stops. */
  lemma {:induction false} ExtensionStartUnique(path: string, n: nat, k: nat)
    requires k < n <= |path| && path[k] == ExtensionMark
    requires forall j :: k < j < n ==> path[j] != ExtensionMark && path[j] != Separator
    ensures ExtensionStartBefore(path, n) == k
  {
    if k < n - 1 {
      ExtensionStartUnique(path, n - 1, k);
    }
  }

  /** A non-empty extension is a '.' and at least one more character, and a
      suffix of the file name. */
  lemma ExtensionInFileName(path: string)
    ensures var ext, name := Extension(path), FileName(path);
      ext == [] || (|ext| >= 2 && ext[0] == ExtensionMark && |ext| <= |name| && ext == name[|name| - |ext|..])
  {
    var k := ExtensionStartBefore(path, |path|);
    if k >= 0 && k != |path| - 1 {
      var d := LastIndexOf(path, Separator);
      assert d < k;
    }
  }

  /** A file name that ends in '.' and a non-empty tail without '.' or
      separator has that tail, with its dot, as extension. */
  lemma ExtensionOfJoin(dir: string, stem: string, tail: string)
    requires Separator !in tail && ExtensionMark !in tail && tail != []
    ensures Extension(dir + [Separator] + stem + [ExtensionMark] + tail) == [ExtensionMark] + tail
  {
    var path := dir + [Separator] + stem + [ExtensionMark] + tail;
    var k := |dir| + 1 + |stem|;
    forall j | k < j < |path|
      ensures path[j] != ExtensionMark && path[j] != Separator
    {
      assert path[j] == tail[j - k - 1];
    }
    ExtensionStartUnique(path, |path|, k);
    assert path[k..] == [ExtensionMark] + tail;
  }

  /** A file name without '.' has no extension. */
  lemma NoMarkNoExtension(path: string)
    requires ExtensionMark !in FileName(path)
    ensures Extension(path) == []
  {
    ExtensionInFileName(path);
  }
}
