/** The part of Rust's `std::path` the core relies on, over a
    component-list representation of paths.

    A path is absolute or relative and holds a list of normal components
    (non-empty, without `/`, neither `.` nor `..`). Its string form
    (`to_string_lossy`) is a leading `/` for absolute paths followed by the
    components joined with `/`. Equality, `strip_prefix`, `pop` and
    `file_name` work on components, as Rust's do. */
module Paths {
  import opened Common

  type Component = s: string | s != "" && '/' !in s && s != "." && s != ".." witness "a"

  datatype Path = Path(absolute: bool, parts: seq<Component>)

  /** `path.to_string_lossy()` */
  function Render(p: Path): string
  {
    (if p.absolute then "/" else "") + Join(p.parts, "/")
  }

  /** `path.file_name()`: the last component, if any. */
  function FileName(p: Path): Option<Component>
  {
    if p.parts == [] then None else Some(p.parts[|p.parts| - 1])
  }

  /** The first `n` components of `p`: the ancestor reached after popping
      `|p.parts| - n` times. */
  function Prefix(p: Path, n: nat): Path
    requires n <= |p.parts|
  {
    Path(p.absolute, p.parts[..n])
  }

  /** `dir` is `file` itself or one of its ancestors, component-wise. */
  predicate IsAncestorOrSelf(dir: Path, file: Path)
  {
    dir.absolute == file.absolute && dir.parts <= file.parts
  }

  /** `file.strip_prefix(dir)`: the relative remainder, or None when `dir`
      is not an ancestor of `file` (or `file` itself). */
  function StripPrefix(file: Path, dir: Path): (r: Option<Path>)
    ensures r.Some? <==> IsAncestorOrSelf(dir, file)
    ensures r.Some? ==> !r.value.absolute && dir.parts + r.value.parts == file.parts
  {
    if IsAncestorOrSelf(dir, file) then Some(Path(false, file.parts[|dir.parts|..])) else None
  }

  /** Index of the last `.` in `s`, if there is one. */
  function LastDot(s: string): (r: Option<nat>)
    ensures r.Some? ==> r.value < |s| && s[r.value] == '.' && '.' !in s[r.value + 1..]
    ensures r.None? ==> '.' !in s
  {
    if s == [] then None
    else if s[|s| - 1] == '.' then Some(|s| - 1)
    else
      var r := LastDot(s[..|s| - 1]);
      assert s == s[..|s| - 1] + [s[|s| - 1]];
      r
  }

  /** `Path::extension` of a file name: the text after the last `.`, unless
      there is no `.` or the only `.` that counts is the first character
      (`.bashrc` has no extension). */
  function NameExtension(name: Component): Option<string>
  {
    match LastDot(name)
    case None => None
    case Some(i) => if i == 0 then None else Some(name[i + 1..])
  }

  /** `path.extension()` */
  function Extension(p: Path): Option<string>
  {
    match FileName(p)
    case None => None
    case Some(name) => NameExtension(name)
  }

  /** Only the text after the last dot of the name is its extension, however
      many dots come before it. */
  lemma {:induction false} NameExtensionIsFinal(stem: string, ext: string)
    requires stem != [] && '.' !in ext && '/' !in stem + ext && stem + "." + ext != ".."
    ensures NameExtension(stem + "." + ext) == Some(ext)
  {
    var name := stem + "." + ext;
    assert name[..|stem| + 1] == stem + ".";
    LastDotOfDotThenPlain(stem + ".", ext);
    assert name[|stem| + 1..] == ext;
  }

  lemma {:induction false} LastDotOfDotThenPlain(a: string, b: string)
    requires a != [] && a[|a| - 1] == '.' && '.' !in b
    ensures LastDot(a + b) == Some(|a| - 1)
    decreases |b|
  {
    if b == [] {
      assert a + b == a;
    } else {
      var s := a + b;
      assert s[|s| - 1] == b[|b| - 1];
      assert s[..|s| - 1] == a + b[..|b| - 1];
      LastDotOfDotThenPlain(a, b[..|b| - 1]);
    }
  }

  /** Joining two non-empty lists puts one separator between their joins. */
  lemma {:induction false} JoinAppend(a: seq<string>, b: seq<string>, sep: string)
    requires a != [] && b != []
    ensures Join(a + b, sep) == Join(a, sep) + sep + Join(b, sep)
    decreases |a|
  {
    if |a| == 1 {
      assert (a + b)[1..] == b;
    } else {
      assert (a + b)[1..] == a[1..] + b;
      JoinAppend(a[1..], b, sep);
    }
  }

  /** A relative path's string form does not start with `/`. */
  lemma JoinStartsWithComponent(parts: seq<Component>)
    requires parts != []
    ensures Join(parts, "/") != [] && Join(parts, "/")[0] == parts[0][0]
  {
    assert parts[0] != [];
    if |parts| > 1 {
      assert Join(parts, "/") == parts[0] + ("/" + Join(parts[1..], "/"));
    }
  }

  /** The last dot is the one with no dot after it. */
  lemma {:induction false} LastDotAt(s: string, i: nat)
    requires i < |s| && s[i] == '.' && '.' !in s[i + 1..]
    ensures LastDot(s) == Some(i)
    decreases |s|
  {
    if i < |s| - 1 {
      assert s[|s| - 1] == s[i + 1..][|s| - 2 - i];
      var t := s[..|s| - 1];
      assert t[i + 1..] == s[i + 1..|s| - 1];
      LastDotAt(t, i);
    }
  }
}
