/**
 * The checks that keep a requested path inside the served directory
 * (src/io/sources/file/linux/path.rs): a file name is one non-empty
 * component other than "." and ".."; a relative path does not start with
 * '/' and none of its '/'-separated components is "." or "..". Neither may
 * hold a NUL byte, which would end the string the kernel sees.
 */
module Paths {
  import opened Wrappers
  import opened Bytes

  const SLASH: byte := 0x2F
  const DOT: byte := 0x2E

  /** "." or "..". */
  predicate IsDotName(s: seq<byte>)
  {
    s == [DOT] || s == [DOT, DOT]
  }

  /**
   * `slice.split(|b| *b == SLASH)`: the pieces between slashes, empty ones
   * included (a leading, doubled or trailing slash gives an empty piece).
   */
  function Components(path: seq<byte>): (cs: seq<seq<byte>>)
    ensures |cs| >= 1
    ensures forall j :: 0 <= j < |cs| ==> SLASH !in cs[j]
    decreases |path|
  {
    match IndexOf(path, SLASH)
    case None => [path]
    case Some(k) => [path[..k]] + Components(path[k + 1..])
  }

  /** The components joined again with slashes. */
  function Join(cs: seq<seq<byte>>): seq<byte>
    requires |cs| >= 1
  {
    if |cs| == 1 then cs[0] else cs[0] + [SLASH] + Join(cs[1..])
  }

  /** Joining a first component and at least one more puts a slash between them. */
  lemma JoinCons(head: seq<byte>, tail: seq<seq<byte>>)
    requires |tail| >= 1
    ensures Join([head] + tail) == head + [SLASH] + Join(tail)
  {
    var cs := [head] + tail;
    assert |cs| > 1 && cs[0] == head && cs[1..] == tail;
  }

  /** Splitting loses nothing: joining the components gives the path back. */
  lemma {:induction false} JoinComponents(path: seq<byte>)
    ensures Join(Components(path)) == path
    decreases |path|
  {
    var at := IndexOf(path, SLASH);
    if at.Some? {
      var k := at.value;
      var head, rest := path[..k], path[k + 1..];
      JoinComponents(rest);
      ComponentsAtSlash(path, k);
      JoinCons(head, Components(rest));
      AroundByte(path, k);
    }
  }

  /** Splitting at the first slash `k`: the bytes before it, then the components of the rest. */
  lemma ComponentsAtSlash(path: seq<byte>, k: nat)
    requires IndexOf(path, SLASH) == Some(k)
    ensures Components(path) == [path[..k]] + Components(path[k + 1..])
  {
  }

  /** A sequence is the bytes before index `k`, the byte at it, and those after it. */
  lemma AroundByte(s: seq<byte>, k: nat)
    requires k < |s|
    ensures s == s[..k] + [s[k]] + s[k + 1..]
  {
    assert s[k..] == [s[k]] + s[k + 1..];
    assert s == s[..k] + s[k..];
  }

  /** Some component is "." or "..". */
  predicate HasDotComponent(cs: seq<seq<byte>>)
  {
    exists j :: 0 <= j < |cs| && IsDotName(cs[j])
  }

  /**
   * `path[i..i + n]` is a whole "." or ".." component: those dots, with
   * the start of the path or a slash before, and its end or a slash after.
   */
  predicate DotComponentAt(path: seq<byte>, i: nat, n: nat)
  {
    && (n == 1 || n == 2) && i + n <= |path| && IsDotName(path[i..i + n])
    && (i == 0 || path[i - 1] == SLASH)
    && (i + n == |path| || path[i + n] == SLASH)
  }

  /** Some bytes of the path form a dot component. */
  ghost predicate HasDotRun(path: seq<byte>)
  {
    exists i: nat, n: nat :: DotComponentAt(path, i, n)
  }

  /** A dot component in the split is exactly a dot run between slashes in the bytes. */
  lemma {:induction false} DotComponents(path: seq<byte>)
    ensures HasDotComponent(Components(path)) <==> HasDotRun(path)
    decreases |path|
  {
    match IndexOf(path, SLASH)
    case None =>
      DotComponentsWithoutSlash(path);
    case Some(k) =>
      var rest := path[k + 1..];
      DotComponents(rest);
      if HasDotComponent(Components(path)) {
        DotComponentFound(path, k);
      }
      if HasDotRun(path) {
        DotRunFound(path, k);
      }
  }

  lemma DotComponentsWithoutSlash(path: seq<byte>)
    requires IndexOf(path, SLASH).None?
    ensures HasDotComponent(Components(path)) <==> HasDotRun(path)
  {
    var cs := Components(path);
    assert cs == [path];
    if HasDotComponent(cs) {
      assert DotComponentAt(path, 0, |path|);
    }
    if HasDotRun(path) {
      var i: nat, n: nat :| DotComponentAt(path, i, n);
      DotRunWithoutSlash(path, i, n);
      assert IsDotName(cs[0]);
    }
  }

  /** A sequence of components led by `head` has a dot component exactly when `head` is one or the rest has one. */
  lemma DotComponentCons(head: seq<byte>, tail: seq<seq<byte>>)
    ensures HasDotComponent([head] + tail) <==> IsDotName(head) || HasDotComponent(tail)
  {
    var cs := [head] + tail;
    if HasDotComponent(cs) {
      var j :| 0 <= j < |cs| && IsDotName(cs[j]);
      if j > 0 {
        assert IsDotName(tail[j - 1]);
      }
    }
    if HasDotComponent(tail) {
      var j :| 0 <= j < |tail| && IsDotName(tail[j]);
      assert IsDotName(cs[j + 1]);
    }
    if IsDotName(head) {
      assert IsDotName(cs[0]);
    }
  }

  /** The split of a path with a first slash at `k`: the bytes before it, then the split of the rest. */
  lemma SplitAtFirstSlash(path: seq<byte>, k: nat)
    requires IndexOf(path, SLASH) == Some(k)
    ensures Components(path) == [path[..k]] + Components(path[k + 1..])
    ensures HasDotComponent(Components(path)) <==> IsDotName(path[..k]) || HasDotComponent(Components(path[k + 1..]))
  {
    ComponentsAtSlash(path, k);
    DotComponentCons(path[..k], Components(path[k + 1..]));
  }

  /** A dot component of the split, found in the bytes. */
  lemma DotComponentFound(path: seq<byte>, k: nat)
    requires IndexOf(path, SLASH) == Some(k)
    requires HasDotComponent(Components(path[k + 1..])) ==> HasDotRun(path[k + 1..])
    requires HasDotComponent(Components(path))
    ensures HasDotRun(path)
  {
    var rest := path[k + 1..];
    SplitAtFirstSlash(path, k);
    if IsDotName(path[..k]) {
      assert DotComponentAt(path, 0, k);
    } else {
      var i: nat, n: nat :| DotComponentAt(rest, i, n);
      DotRunShifted(path, k, i, n);
    }
  }

  /** A dot component of the bytes after a slash is one of the whole path. */
  lemma DotRunShifted(path: seq<byte>, k: nat, i: nat, n: nat)
    requires k < |path| && path[k] == SLASH && DotComponentAt(path[k + 1..], i, n)
    ensures DotComponentAt(path, i + k + 1, n)
  {
    assert path[i + k + 1..i + k + 1 + n] == path[k + 1..][i..i + n];
  }

  /** A dot run of the bytes, found in the split. */
  lemma DotRunFound(path: seq<byte>, k: nat)
    requires IndexOf(path, SLASH) == Some(k)
    requires HasDotRun(path[k + 1..]) ==> HasDotComponent(Components(path[k + 1..]))
    requires HasDotRun(path)
    ensures HasDotComponent(Components(path))
  {
    SplitAtFirstSlash(path, k);
    var i: nat, n: nat :| DotComponentAt(path, i, n);
    if i <= k {
      DotRunBeforeSlash(path, k, i, n);
    } else {
      DotRunUnshifted(path, k, i, n);
    }
  }

  /** A dot component after the first slash is one of the bytes after it. */
  lemma DotRunUnshifted(path: seq<byte>, k: nat, i: nat, n: nat)
    requires DotComponentAt(path, i, n) && k < i && path[k] == SLASH
    ensures DotComponentAt(path[k + 1..], i - k - 1, n)
  {
    assert path[k + 1..][i - k - 1..i - k - 1 + n] == path[i..i + n];
  }

  /** In a path without slashes the only possible dot component is the whole path. */
  lemma DotRunWithoutSlash(path: seq<byte>, i: nat, n: nat)
    requires DotComponentAt(path, i, n) && forall j :: 0 <= j < |path| ==> path[j] != SLASH
    ensures i == 0 && n == |path| && IsDotName(path)
  {
  }

  /** A dot component starting at or before the first slash `k` is `path[..k]`. */
  lemma DotRunBeforeSlash(path: seq<byte>, k: nat, i: nat, n: nat)
    requires k < |path| && path[k] == SLASH && forall j :: 0 <= j < k ==> path[j] != SLASH
    requires DotComponentAt(path, i, n) && i <= k
    ensures i == 0 && n == k && IsDotName(path[..k])
  {
    assert forall j :: i <= j < i + n ==> path[j] == path[i..i + n][j - i];
  }

  /**
   * `is_safe_linux_relative_path`: not empty, not starting with '/',
   * without NUL, and without a "." or ".." component. Empty components
   * (a doubled or trailing slash) pass.
   */
  function IsSafeRelativePath(path: seq<byte>): (safe: bool)
    ensures safe <==>
      && path != [] && path[0] != SLASH && NUL !in path
      && !HasDotRun(path)
  {
    DotComponents(path);
    path != [] && path[0] != SLASH && NUL !in path && !HasDotComponent(Components(path))
  }

  /**
   * `is_safe_linux_filename`: not empty, without NUL or '/', and not "."
   * or "..": exactly a safe relative path of one component.
   */
  function IsSafeFilename(name: seq<byte>): (safe: bool)
    ensures safe <==> IsSafeRelativePath(name) && SLASH !in name
  {
    assert SLASH !in name ==> Components(name) == [name];
    assert HasDotComponent([name]) ==> IsDotName([name][0]);
    name != [] && NUL !in name && SLASH !in name && !IsDotName(name)
  }

  /** The two ways `RelativePath::new` refuses a path; both are `InvalidInput`. */
  datatype PathError = UnsafeFilename | UnsafeRelativePath

  /** `RelativePath`, without the directory it is relative to. */
  datatype RelativePath = RelativePath(relativePath: seq<byte>, filename: Option<seq<byte>>)

  /**
   * `RelativePath::new`: the file name, if any, is checked first, then the
   * relative path; both checked, the path keeps them as given.
   */
  function NewRelativePath(relativePath: seq<byte>, filename: Option<seq<byte>>): (r: Result<RelativePath, PathError>)
    ensures r.Ok? <==> (filename.None? || IsSafeFilename(filename.value)) && IsSafeRelativePath(relativePath)
    ensures r.Ok? ==> r.value == RelativePath(relativePath, filename)
    ensures filename.Some? && !IsSafeFilename(filename.value) ==> r == Err(UnsafeFilename)
    ensures r.Err? && (filename.None? || IsSafeFilename(filename.value)) ==> r == Err(UnsafeRelativePath)
  {
    if filename.Some? && !IsSafeFilename(filename.value) then Err(UnsafeFilename)
    else if !IsSafeRelativePath(relativePath) then Err(UnsafeRelativePath)
    else Ok(RelativePath(relativePath, filename))
  }

  /** `Directory::sub_dir_with_file`. */
  function SubDirWithFile(subDir: seq<byte>, filename: seq<byte>): Result<RelativePath, PathError>
  {
    NewRelativePath(subDir, Some(filename))
  }

  /** `Directory::sub_path`. */
  function SubPath(relativePath: seq<byte>): Result<RelativePath, PathError>
  {
    NewRelativePath(relativePath, None)
  }

  /** The bytes `RelativePath::open` hands to `openat`: the path, then the file name. */
  function Joined(p: RelativePath): seq<byte>
  {
    p.relativePath + if p.filename.Some? then p.filename.value else []
  }

  /**
   * A safe relative path followed by a safe file name is itself a safe
   * relative path, so every path `RelativePath::new` accepts names
   * something inside the directory.
   */
  lemma JoinedIsSafe(p: RelativePath)
    requires NewRelativePath(p.relativePath, p.filename).Ok?
    ensures IsSafeRelativePath(Joined(p))
  {
    if p.filename.Some? {
      var dir, f := p.relativePath, p.filename.value;
      var path := dir + f;
      assert path[0] == dir[0];
      forall k | 0 <= k < |path| ensures path[k] != NUL {
        if k < |dir| {
          assert path[k] == dir[k] && dir[k] in dir;
        } else {
          assert path[k] == f[k - |dir|] && f[k - |dir|] in f;
        }
      }
      if HasDotRun(path) {
        var i: nat, n: nat :| DotComponentAt(path, i, n);
        NoDotComponentAcross(dir, f, i, n);
      }
    } else {
      assert Joined(p) == p.relativePath;
    }
  }

  /** A dot run over the last byte of `dir` and the first of `f` would end with a "." component of `dir`. */
  lemma DotRunAcrossJoin(dir: seq<byte>, f: seq<byte>, i: nat, n: nat)
    requires i < |dir| < i + n
    ensures DotComponentAt(dir + f, i, n) ==> DotComponentAt(dir, |dir| - 1, 1)
  {
    var path := dir + f;
    if DotComponentAt(path, i, n) {
      assert n == 2 && i == |dir| - 1;
      assert dir[|dir| - 1] == path[i..i + n][0] == DOT;
      assert dir[|dir| - 1..|dir|] == [DOT];
    }
  }

  /** No dot component of `dir + f` can exist: in `dir`, across the join, or in `f`. */
  lemma NoDotComponentAcross(dir: seq<byte>, f: seq<byte>, i: nat, n: nat)
    requires IsSafeRelativePath(dir) && IsSafeFilename(f)
    ensures !DotComponentAt(dir + f, i, n)
  {
    var path := dir + f;
    var d := |dir|;
    assert f[0] in f;
    if i + n < d {
      assert dir[i..i + n] == path[i..i + n] && dir[i + n] == path[i + n];
      assert DotComponentAt(path, i, n) == DotComponentAt(dir, i, n);
    } else if i + n == d {
      assert path[d] == f[0];
    } else if i < d {
      DotRunAcrossJoin(dir, f, i, n);
    } else if i == d {
      if i + n <= |path| {
        assert f[..n] == path[i..i + n];
        if n < |f| {
          assert path[i + n] == f[n] && f[n] in f;
        } else {
          assert f == f[..n];
        }
      }
    } else if i <= |path| {
      assert path[i - 1] == f[i - 1 - d] && f[i - 1 - d] in f;
    }
  }

  /** "some" and "path", in bytes. */
  const SomeWord: seq<byte> := [0x73, 0x6F, 0x6D, 0x65]
  const PathWord: seq<byte> := [0x70, 0x61, 0x74, 0x68]

  /** Paths the checks refuse: empty, dot components, NUL and absolute paths. */
  lemma UnsafePathExamples()
    ensures !IsSafeRelativePath([]) && !IsSafeRelativePath([DOT]) && !IsSafeRelativePath([DOT, DOT])
    ensures !IsSafeRelativePath(SomeWord + [SLASH, DOT, DOT])
    ensures !IsSafeRelativePath(SomeWord + [SLASH, DOT, SLASH] + PathWord)
    ensures !IsSafeRelativePath(SomeWord + [NUL] + PathWord)
    ensures !IsSafeRelativePath([SLASH] + PathWord)
  {
    assert DotComponentAt([DOT], 0, 1);
    assert DotComponentAt([DOT, DOT], 0, 2);
    assert DotComponentAt(SomeWord + [SLASH, DOT, DOT], 5, 2);
    assert DotComponentAt(SomeWord + [SLASH, DOT, SLASH] + PathWord, 5, 1);
    assert (SomeWord + [NUL] + PathWord)[4] == NUL;
  }

  /** File names the checks refuse: a slash anywhere, or a dot name. */
  lemma UnsafeFilenameExamples()
    ensures !IsSafeFilename(SomeWord + [SLASH]) && !IsSafeFilename([SLASH] + SomeWord)
    ensures !IsSafeFilename([DOT]) && !IsSafeFilename([DOT, DOT]) && !IsSafeFilename([])
  {
    assert (SomeWord + [SLASH])[4] == SLASH;
  }

  /** Names with dots that are not whole dot components pass. */
  lemma SafePathExamples()
    ensures IsSafeRelativePath([DOT, DOT] + PathWord)
    ensures IsSafeRelativePath([DOT, DOT, DOT])
    ensures IsSafeFilename([DOT, DOT] + PathWord) && IsSafeFilename([DOT, DOT, DOT])
  {
    assert SLASH !in [DOT, DOT] + PathWord;
    assert Components([DOT, DOT] + PathWord) == [[DOT, DOT] + PathWord];
    assert Components([DOT, DOT, DOT]) == [[DOT, DOT, DOT]];
  }

  /** A dot run that is only the start of a component passes after a slash too. */
  lemma SafeSubPathExample()
    ensures IsSafeRelativePath(SomeWord + [SLASH, DOT, DOT] + PathWord)
  {
    var p := SomeWord + [SLASH, DOT, DOT] + PathWord;
    assert p[..4] == SomeWord && p[5..] == [DOT, DOT] + PathWord;
    assert IndexOf(p, SLASH) == Some(4);
    assert Components(p[5..]) == [[DOT, DOT] + PathWord];
    SplitAtFirstSlash(p, 4);
  }
}
