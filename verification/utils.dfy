/** The change filter of src/files/utils.rs: which file events are dropped
    before they reach the command queue.

    `Path::exists` becomes a set of existing paths, each regular expression
    an abstract predicate on strings, and the `.gitignore` rule sets that
    are read from disk are passed in as data. */
module FileFilter {
  import opened Common
  import opened Paths
  import opened GitMatch
  import opened GitFixed

  // ---------------------------------------------------------------------
  // extension_matches

  /** `extension_matches`: an empty allow-list accepts everything; a path
      without extension is accepted iff `""` is allowed; otherwise the
      lowercased final extension must be in the list. */
  function ExtensionMatches(file: Path, allowed: seq<string>): (r: bool)
    ensures allowed == [] ==> r
    ensures FileName(file).None? ==> (r <==> allowed == [] || "" in allowed)
    ensures FileName(file).Some? && '.' !in FileName(file).value ==> (r <==> allowed == [] || "" in allowed)
    ensures FileName(file).Some? && LastDot(FileName(file).value) == Some(0) ==> (r <==> allowed == [] || "" in allowed)
    ensures FileName(file).Some? && LastDot(FileName(file).value).Some? && LastDot(FileName(file).value).value > 0 ==>
      var name := FileName(file).value;
      (r <==> allowed == [] || LowerStr(name[LastDot(name).value + 1..]) in allowed)
  {
    if allowed == [] then true
    else
      match Extension(file)
      case None => "" in allowed
      case Some(ext) => LowerStr(ext) in allowed
  }

  /** Only the text after the last dot of the name counts, in lower case;
      a dot at the start of the name does not begin an extension. */
  lemma FinalExtensionOnly(absolute: bool, dir: seq<Component>, name: Component, i: nat, allowed: seq<string>)
    requires 0 < i < |name| && name[i] == '.' && '.' !in name[i + 1..]
    ensures ExtensionMatches(Path(absolute, dir + [name]), allowed) <==>
      allowed == [] || LowerStr(name[i + 1..]) in allowed
  {
    LastDotAt(name, i);
    assert FileName(Path(absolute, dir + [name])) == Some(name);
  }

  /** A name without a dot has no extension: it passes a non-empty
      allow-list iff `""` is in it. */
  lemma NoExtensionNeedsEmptyEntry(absolute: bool, dir: seq<Component>, name: Component, allowed: seq<string>)
    requires '.' !in name
    ensures ExtensionMatches(Path(absolute, dir + [name]), allowed) <==> allowed == [] || "" in allowed
  {
    assert FileName(Path(absolute, dir + [name])) == Some(name);
    assert LastDot(name) == None;
  }

  /** Allowing more extensions never rejects a file a non-empty list
      accepted (the empty list is the exception: it accepts everything). */
  lemma MoreExtensionsAcceptMore(file: Path, allowed: seq<string>, more: seq<string>)
    requires allowed != [] && ExtensionMatches(file, allowed)
    ensures ExtensionMatches(file, allowed + more)
  {
    match Extension(file)
    case None =>
      var i :| 0 <= i < |allowed| && allowed[i] == "";
      assert (allowed + more)[i] == "";
    case Some(ext) =>
      var i :| 0 <= i < |allowed| && allowed[i] == LowerStr(ext);
      assert (allowed + more)[i] == LowerStr(ext);
  }

  /** A name `stem.ext` with a non-empty stem and a dot-free `ext` is
      judged by `ext` alone. */
  lemma StemDotExtension(absolute: bool, dir: seq<Component>, name: Component, stem: string, ext: string,
                         allowed: seq<string>)
    requires name == stem + "." + ext && stem != [] && '.' !in ext
    ensures ExtensionMatches(Path(absolute, dir + [name]), allowed) <==>
      allowed == [] || LowerStr(ext) in allowed
  {
    assert name[|stem|] == '.' && name[|stem| + 1..] == ext;
    FinalExtensionOnly(absolute, dir, name, |stem|, allowed);
  }

  /** A name ending in `.ignored` is accepted only when `ignored` itself
      is allowed: neither `txt` nor `txt.ignored` nor `gnored` will do. */
  lemma IgnoredExtension(absolute: bool, dir: seq<Component>, name: Component, stem: string, allowed: seq<string>)
    requires name == stem + ".ignored" && stem != []
    ensures ExtensionMatches(Path(absolute, dir + [name]), allowed) <==>
      allowed == [] || "ignored" in allowed
  {
    IgnoredIsPlain();
    assert name == stem + "." + "ignored";
    StemDotExtension(absolute, dir, name, stem, "ignored", allowed);
  }

  /** `ignored` holds no dot and no capital letter. */
  lemma IgnoredIsPlain()
    ensures '.' !in "ignored" && LowerStr("ignored") == "ignored"
  {
    LowerStrOfLowercase("ignored");
  }

  // Cases of `extension_matches` exercised in src/files/utils.rs.

  lemma ExtensionExactExample()
    ensures ExtensionMatches(Path(true, ["home", "test", "my-file.rs"]), ["rs"])
  {
    var name: Component := "my-file.rs";
    StemDotExtension(true, ["home", "test"], name, "my-file", "rs", ["rs"]);
    LowerStrOfLowercase("rs");
  }

  lemma NoExtensionExample()
    ensures ExtensionMatches(Path(false, ["path", "to", "my_file"]), [""])
  {
    NoExtensionNeedsEmptyEntry(false, ["path", "to"], "my_file", [""]);
  }

  // ---------------------------------------------------------------------
  // is_hidden

  /** `is_file_hidden` on a component: the name starts with a dot. */
  predicate Dotted(name: Component)
  {
    name[0] == '.'
  }

  /** `is_file_hidden`: the path's own name starts with a dot. This is
      `is_hidden` with the watch directory set to the file's parent. */
  function IsFileHidden(p: Path): (r: bool)
    ensures r <==> p.parts != [] && Hidden(p, Prefix(p, |p.parts| - 1))
  {
    p.parts != [] && Dotted(p.parts[|p.parts| - 1])
  }

  /** What `is_hidden` decides: some component of `file` is dotted, and no
      ancestor between it and `file` (exclusive of the component's own
      path, inclusive of `file`'s parent chain) equals `watch`, so the walk
      up reaches it before stopping at the watch directory. */
  predicate Hidden(file: Path, watch: Path)
  {
    exists j :: 0 <= j < |file.parts| && Dotted(file.parts[j]) &&
      forall m :: j < m < |file.parts| ==> Prefix(file, m) != watch
  }

  /** `PathBuf::pop`: drop the last component; fails at a root or an empty
      relative path. */
  function Parent(p: Path): (r: Option<Path>)
    ensures r.Some? <==> p.parts != []
    ensures r.Some? ==> r.value.absolute == p.absolute && r.value.parts + [p.parts[|p.parts| - 1]] == p.parts
  {
    if p.parts == [] then None else Some(Path(p.absolute, p.parts[..|p.parts| - 1]))
  }

  /** `is_hidden`: test the path, pop, stop at the watch directory or when
      nothing is left to pop. Each iteration pops one component. */
  method IsHidden(file: Path, watch: Path) returns (r: bool)
    ensures r == Hidden(file, watch)
  {
    var path := file;
    while true
      invariant |path.parts| <= |file.parts| && path == Prefix(file, |path.parts|)
      invariant forall m :: |path.parts| <= m < |file.parts| ==> Prefix(file, m) != watch
      invariant forall j :: |path.parts| <= j < |file.parts| ==> !Dotted(file.parts[j])
      decreases |path.parts|
    {
      if IsFileHidden(path) {
        assert file.parts[|path.parts| - 1] == path.parts[|path.parts| - 1];
        return true;
      }
      assert |path.parts| > 0 ==> file.parts[|path.parts| - 1] == path.parts[|path.parts| - 1];
      var parent := Parent(path);
      if parent.None? {
        break;
      }
      path := parent.value;
      assert path == Prefix(file, |path.parts|);
      if path == watch {
        break;
      }
    }
    return false;
  }

  /** A dotted name is hidden whatever the watch directory. */
  lemma HiddenFileItself(file: Path, watch: Path)
    requires IsFileHidden(file)
    ensures Hidden(file, watch)
  {
  }

  /** With the watch directory a strict ancestor of `file`, only the
      components strictly below it are examined: the watch directory and
      everything above it may be dotted without making `file` hidden. */
  lemma HiddenBelowWatch(file: Path, w: nat)
    requires w < |file.parts|
    ensures Hidden(file, Prefix(file, w)) <==> exists j :: w <= j < |file.parts| && Dotted(file.parts[j])
  {
    var watch := Prefix(file, w);
    if Hidden(file, watch) {
      var j :| 0 <= j < |file.parts| && Dotted(file.parts[j]) &&
        forall m :: j < m < |file.parts| ==> Prefix(file, m) != watch;
      assert j >= w;
    }
    if exists j :: w <= j < |file.parts| && Dotted(file.parts[j]) {
      var j :| w <= j < |file.parts| && Dotted(file.parts[j]);
      forall m | j < m < |file.parts|
        ensures Prefix(file, m) != watch
      {
        assert |Prefix(file, m).parts| != |watch.parts|;
      }
    }
  }

  /** With a watch directory that `file` is not under, the walk goes all the
      way up: any dotted component makes `file` hidden. */
  lemma HiddenOutsideWatch(file: Path, watch: Path)
    requires !IsAncestorOrSelf(watch, file)
    ensures Hidden(file, watch) <==> exists j :: 0 <= j < |file.parts| && Dotted(file.parts[j])
  {
    forall m | 0 <= m < |file.parts|
      ensures Prefix(file, m) != watch
    {
      assert file.parts[..m] <= file.parts;
    }
  }

  // The cases of `is_hidden` exercised in src/files/utils.rs.

  lemma HiddenDirAboveWatchExample()
    ensures !Hidden(Path(true, ["a", "path", ".with", "hidden_dir", "file.jPeG"]),
                    Path(true, ["a", "path", ".with", "hidden_dir"]))
  {
    var f := Path(true, ["a", "path", ".with", "hidden_dir", "file.jPeG"]);
    HiddenBelowWatch(f, 4);
    assert Prefix(f, 4) == Path(true, ["a", "path", ".with", "hidden_dir"]);
    assert !Dotted(f.parts[4]);
  }

  lemma HiddenDirBelowRootExample()
    ensures Hidden(Path(true, ["a", "path", ".with", "hidden_dir", "file.jPeG"]), Path(true, []))
  {
    var f := Path(true, ["a", "path", ".with", "hidden_dir", "file.jPeG"]);
    HiddenBelowWatch(f, 0);
    assert Prefix(f, 0) == Path(true, []);
    assert Dotted(f.parts[2]);
  }

  lemma HiddenFileItselfExample()
    ensures Hidden(Path(true, ["a", "path", "with", "hidden_dir", ".file.txt"]), Path(true, ["a"]))
  {
    HiddenFileItself(Path(true, ["a", "path", "with", "hidden_dir", ".file.txt"]), Path(true, ["a"]));
  }

  lemma NotHiddenExample()
    ensures !Hidden(Path(true, [".a", "path", "with", "not_hidden_dir", "file.txt"]), Path(true, [".a", "path"]))
  {
    var f := Path(true, [".a", "path", "with", "not_hidden_dir", "file.txt"]);
    HiddenBelowWatch(f, 2);
    assert Prefix(f, 2) == Path(true, [".a", "path"]);
    assert !Dotted(f.parts[2]) && !Dotted(f.parts[3]) && !Dotted(f.parts[4]);
  }

  // ---------------------------------------------------------------------
  // relative_path_within_dir

  /** The text left after dropping every leading `/`. */
  function TrimSlashes(s: string): (r: string)
    ensures |r| <= |s| && r == s[|s| - |r|..]
    ensures r == [] || r[0] != '/'
    ensures forall i :: 0 <= i < |s| - |r| ==> s[i] == '/'
  {
    if s != [] && s[0] == '/' then TrimSlashes(s[1..]) else s
  }

  /** What `relative_path_within_dir` returns, on the string forms: the
      remainder after the directory's text without leading slashes, or the
      whole file name when the directory's text is not a prefix. */
  function RelativeText(file: string, dir: string): string
  {
    if dir <= file then TrimSlashes(file[|dir|..]) else file
  }

  /** `relative_path_within_dir`: string prefix test, then an index loop
      over the leading slashes. */
  method RelativePathWithinDir(file: Path, dir: Path) returns (r: string)
    ensures r == RelativeText(Render(file), Render(dir))
  {
    var filename := Render(file);
    var d := Render(dir);
    if d <= filename {
      var rel := filename[|d|..];
      var idx := 0;
      while idx < |rel| && rel[idx] == '/'
        invariant 0 <= idx <= |rel|
        invariant TrimSlashes(rel[idx..]) == TrimSlashes(rel)
      {
        assert rel[idx..][1..] == rel[idx + 1..];
        idx := idx + 1;
      }
      r := rel[idx..];
    } else {
      r := filename;
    }
  }

  /** For a directory the file is really under, the string-level result
      agrees with the component-wise `strip_prefix` used by `file_matches`. */
  lemma RelativeAgreesWithStripPrefix(file: Path, dir: Path)
    requires IsAncestorOrSelf(dir, file)
    ensures RelativeText(Render(file), Render(dir)) == Render(StripPrefix(file, dir).value)
  {
    var rest := file.parts[|dir.parts|..];
    assert file.parts == dir.parts + rest;
    assert Render(StripPrefix(file, dir).value) == Join(rest, "/");
    if dir.parts == [] {
      RelativeBelowRoot(file, dir);
    } else if rest == [] {
      assert file.parts == dir.parts;
    } else {
      RelativeBelowDir(file, dir, rest);
    }
  }

  lemma RelativeBelowRoot(file: Path, dir: Path)
    requires dir.parts == [] && dir.absolute == file.absolute
    ensures RelativeText(Render(file), Render(dir)) == Join(file.parts, "/")
  {
    assert Render(file) == Render(dir) + Join(file.parts, "/");
    if file.parts != [] {
      JoinStartsWithComponent(file.parts);
    }
  }

  lemma RelativeBelowDir(file: Path, dir: Path, rest: seq<Component>)
    requires dir.parts != [] && rest != [] && file == Path(dir.absolute, dir.parts + rest)
    ensures RelativeText(Render(file), Render(dir)) == Join(rest, "/")
  {
    JoinAppend(dir.parts, rest, "/");
    var lead := if dir.absolute then "/" else "";
    assert Render(file) == Render(dir) + ("/" + Join(rest, "/"));
    JoinStartsWithComponent(rest);
    assert ("/" + Join(rest, "/"))[1..] == Join(rest, "/");
  }

  /** The string-level prefix test also accepts a sibling whose name merely
      starts with the directory's name: `/home/user2/x` relative to
      `/home/user` is `2/x`, although it is not under that directory. */
  lemma SiblingPrefixQuirk()
    ensures StripPrefix(Path(true, ["home", "user2", "x"]), Path(true, ["home", "user"])).None?
    ensures RelativeText(Render(Path(true, ["home", "user2", "x"])), Render(Path(true, ["home", "user"]))) == "2/x"
  {
    assert ["home", "user"] != ["home", "user2", "x"][..2] by {
      assert "user" != "user2";
    }
    var f := Render(Path(true, ["home", "user2", "x"]));
    var d := Render(Path(true, ["home", "user"]));
    assert f == "/home/user2/x" by {
      assert Join(["user2", "x"], "/") == "user2/x";
    }
    assert d == "/home/user" by {
      assert Join(["user"], "/") == "user";
    }
    assert d <= f;
    assert f[|d|..] == "2/x";
  }

  // ---------------------------------------------------------------------
  // has_regex_match and should_be_ignored

  /** `has_regex_match`: no expression accepts everything; otherwise every
      expression must match the path relative to the watch directory. For a
      file below the watch directory that text is the component-wise
      relative path. */
  function HasRegexMatch(regexes: seq<string -> bool>, file: Path, watch: Path): (r: bool)
    ensures regexes == [] ==> r
    ensures IsAncestorOrSelf(watch, file) ==>
      (r <==> forall i :: 0 <= i < |regexes| ==> regexes[i](Render(StripPrefix(file, watch).value)))
  {
    if IsAncestorOrSelf(watch, file) then
      RelativeAgreesWithStripPrefix(file, watch);
      AllAccept(regexes, RelativeText(Render(file), Render(watch)))
    else
      AllAccept(regexes, RelativeText(Render(file), Render(watch)))
  }

  /** Every expression of the list accepts `text` (vacuous for none). */
  predicate AllAccept(regexes: seq<string -> bool>, text: string)
  {
    forall i :: 0 <= i < |regexes| ==> regexes[i](text)
  }

  /** Expressions are combined by conjunction: a path passes a list that is
      split in two iff it passes both halves. */
  lemma RegexListsConjoin(a: seq<string -> bool>, b: seq<string -> bool>, file: Path, watch: Path)
    ensures HasRegexMatch(a + b, file, watch) <==>
      HasRegexMatch(a, file, watch) && HasRegexMatch(b, file, watch)
  {
    var rel := RelativeText(Render(file), Render(watch));
    if AllAccept(a + b, rel) {
      forall i | 0 <= i < |a| ensures a[i](rel) {
        assert (a + b)[i] == a[i];
      }
      forall i | 0 <= i < |b| ensures b[i](rel) {
        assert (a + b)[|a| + i] == b[i];
      }
    }
    if AllAccept(a, rel) && AllAccept(b, rel) {
      forall i | 0 <= i < |a + b| ensures (a + b)[i](rel) {
        if i >= |a| {
          assert (a + b)[i] == b[i - |a|];
        }
      }
    }
  }

  /** The command-line settings the filter reads. */
  datatype FilterArgs = FilterArgs(
    extensions: seq<string>,
    deleted: bool,
    regexps: seq<string -> bool>,
    noGitignore: bool,
    hidden: bool)

  /** The world the filter looks at: which paths exist and the
      `.gitignore` rule sets that apply. */
  datatype World = World(existing: set<Path>, ignoreRules: seq<RuleSet>)

  /** `should_be_ignored` with the `.gitignore` check answering as
      `.gitignore` means it to: the checks in the source's order, the first
      that fires drops the event. A `.gitignore` match or a hidden path
      drops the event whatever the other checks say. */
  function ShouldBeIgnoredFixed(file: Path, args: FilterArgs, watch: Path, world: World): (r: bool)
    ensures !ExtensionMatches(file, args.extensions) ==> r
    ensures !args.deleted && file !in world.existing ==> r
    ensures !HasRegexMatch(args.regexps, file, watch) ==> r
    ensures !args.noGitignore && IsGitIgnoredFixed(file, world.ignoreRules) ==> r
    ensures !args.hidden && Hidden(file, watch) ==> r
  {
    if !ExtensionMatches(file, args.extensions) then true
    else if !args.deleted && file !in world.existing then true
    else if !HasRegexMatch(args.regexps, file, watch) then true
    else if !args.noGitignore && IsGitIgnoredFixed(file, world.ignoreRules) then true
    else if !args.hidden && Hidden(file, watch) then true
    else false
  }

  /** `should_be_ignored` as written: the `.gitignore` check goes through
      `is_git_ignored`, which never ignores anything, so the filter drops
      exactly what the corrected one drops with `--no-gitignore`. */
  function ShouldBeIgnored(file: Path, args: FilterArgs, watch: Path, world: World): (r: bool)
    ensures r <==> ShouldBeIgnoredFixed(file, args.(noGitignore := true), watch, world)
  {
    if !ExtensionMatches(file, args.extensions) then true
    else if !args.deleted && file !in world.existing then true
    else if !HasRegexMatch(args.regexps, file, watch) then true
    else if !args.noGitignore && IsGitIgnored(file, world.ignoreRules) then true
    else if !args.hidden && Hidden(file, watch) then true
    else false
  }

  /** As written, `--no-gitignore` changes nothing. */
  lemma NoGitignoreHasNoEffect(file: Path, args: FilterArgs, watch: Path, world: World)
    ensures ShouldBeIgnored(file, args, watch, world) ==
      ShouldBeIgnored(file, args.(noGitignore := true), watch, world)
  {
    assert args.(noGitignore := true).(noGitignore := true) == args.(noGitignore := true);
  }

  /** The two filters disagree only on files a `.gitignore` rule ignores:
      the corrected one drops everything the one as written drops, and
      anything more it drops is ignored by the rules. */
  lemma FixedDropsOnlyIgnoredFilesMore(file: Path, args: FilterArgs, watch: Path, world: World)
    ensures ShouldBeIgnored(file, args, watch, world) ==> ShouldBeIgnoredFixed(file, args, watch, world)
    ensures ShouldBeIgnoredFixed(file, args, watch, world) && !ShouldBeIgnored(file, args, watch, world) ==>
      !args.noGitignore && IsGitIgnoredFixed(file, world.ignoreRules)
  {
  }

  /** As written, a `*.log` file at the root of the watch directory reaches
      the queue although the root `.gitignore` ignores it; the corrected
      filter drops it. */
  lemma IgnoredLogReachesQueue(watch: Path)
    requires watch == Path(true, [])
    ensures !ShouldBeIgnored(Path(true, ["a.log"]), FilterArgs([], false, [], false, false), watch,
                             World({Path(true, ["a.log"])}, LogRules()))
    ensures ShouldBeIgnoredFixed(Path(true, ["a.log"]), FilterArgs([], false, [], false, false), watch,
                                 World({Path(true, ["a.log"])}, LogRules()))
  {
    ALogIgnored();
    RootFileNotHidden("a.log");
  }

  /** A file directly in the root watch directory is hidden only by its
      own name. */
  lemma RootFileNotHidden(name: Component)
    requires !Dotted(name)
    ensures !Hidden(Path(true, [name]), Path(true, []))
  {
    HiddenBelowWatch(Path(true, [name]), 0);
    assert Prefix(Path(true, [name]), 0) == Path(true, []);
  }

  /** The flags `--deleted`, `--no-gitignore` and `--hidden` only let more
      events through. */
  lemma FlagsOnlyRelax(file: Path, args: FilterArgs, watch: Path, world: World,
                       deleted: bool, noGitignore: bool, hidden: bool)
    requires !ShouldBeIgnoredFixed(file, args, watch, world)
    ensures !ShouldBeIgnoredFixed(file, args.(deleted := args.deleted || deleted,
                                              noGitignore := args.noGitignore || noGitignore,
                                              hidden := args.hidden || hidden), watch, world)
  {
  }

  /** With no extension list, `--deleted`, no expressions, `--no-gitignore`
      and `--hidden`, nothing is dropped. */
  lemma PermissiveArgsKeepEverything(file: Path, watch: Path, world: World)
    ensures !ShouldBeIgnored(file, FilterArgs([], true, [], true, true), watch, world)
  {
  }

  /** A file whose own name starts with a dot is dropped unless `--hidden`
      is given, wherever the watch directory is. */
  lemma HiddenDroppedWithoutFlag(file: Path, args: FilterArgs, watch: Path, world: World)
    requires !args.hidden && IsFileHidden(file)
    ensures ShouldBeIgnored(file, args, watch, world)
  {
    HiddenFileItself(file, watch);
  }
}
