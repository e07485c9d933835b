/** The debounce-and-dispatch queue of src/command/queue.rs.

    The queue collects `(file, watch)` pairs and runs the command once no
    update has arrived for 200 ms: once per file, or once for all pending
    files in batch mode. The clock becomes an explicit `now` (in
    milliseconds) per loop iteration; which paths exist is a set passed in;
    the report channel's state is a flag; and starting the worker thread
    is recorded in the ghost log `spawned`. */
module Dispatch {
  import opened Common
  import opened Paths
  import opened Messages
  import opened Arguments
  import LegacyQueue

  /** The message of the error a shell command that does not split gives. */
  const ShellSplitFailed: string := "Failed to parse shell command"

  /** What sending on a channel whose receiver is gone reports. */
  const ReportChannelClosed: string := "sending on a closed channel"

  /** The quiet period after the last update, in milliseconds. */
  const Backoff: nat := 200

  // ---------------------------------------------------------------------
  // Building the argument vector

  /** The string forms of the paths, joined by one space. */
  function JoinedPaths(p: seq<Path>): string
  {
    Join(LegacyQueue.Renders(p), " ")
  }

  /** The arguments one template argument becomes, given the string
      forms `names` of the selected paths (never empty here) and `joined`,
      those forms joined by one space. */
  function ExpandArg(a: string, names: seq<string>, joined: string): (r: seq<string>)
    requires names != []
    ensures a == FilesSubstitution ==> r == names
    ensures a != FilesSubstitution ==> |r| == 1
    ensures !Contains(a, FileSubstitution) && !Contains(a, FilesSubstitution) ==> r == [a]
  {
    if a == FileSubstitution then [names[0]]
    else if a == FilesSubstitution then names
    else if Contains(a, FileSubstitution) then [Replace(a, FileSubstitution, names[0])]
    else if Contains(a, FilesSubstitution) then [Replace(a, FilesSubstitution, joined)]
    else [a]
  }

  /** `f` applied to every element, the results concatenated in order. */
  function FlatMap(f: string -> seq<string>, xs: seq<string>): seq<string>
  {
    if xs == [] then [] else FlatMap(f, xs[..|xs| - 1]) + f(xs[|xs| - 1])
  }

  lemma {:induction false} FlatMapAppend(f: string -> seq<string>, a: seq<string>, b: seq<string>)
    ensures FlatMap(f, a + b) == FlatMap(f, a) + FlatMap(f, b)
    decreases |b|
  {
    if b != [] {
      assert (a + b)[..|a + b| - 1] == a + b[..|b| - 1];
      FlatMapAppend(f, a, b[..|b| - 1]);
    } else {
      assert a + b == a;
    }
  }

  /** The expansion of a whole template, argument after argument. */
  function ExpandAll(command: seq<string>, names: seq<string>, joined: string): (r: seq<string>)
    requires names != []
    ensures |names| == 1 ==> |r| == |command|
  {
    var f := a => ExpandArg(a, names, joined);
    if |names| == 1 then
      FlatMapOneEach(f, command);
      FlatMap(f, command)
    else
      FlatMap(f, command)
  }

  /** A map that yields one element for every input keeps the length. */
  lemma {:induction false} FlatMapOneEach(f: string -> seq<string>, xs: seq<string>)
    requires forall x :: |f(x)| == 1
    ensures |FlatMap(f, xs)| == |xs|
    decreases |xs|
  {
    if xs != [] {
      FlatMapOneEach(f, xs[..|xs| - 1]);
    }
  }

  /** Expansion works argument by argument: templates expand piecewise. */
  lemma ExpandAllAppend(a: seq<string>, b: seq<string>, names: seq<string>, joined: string)
    requires names != []
    ensures ExpandAll(a + b, names, joined) == ExpandAll(a, names, joined) + ExpandAll(b, names, joined)
  {
    FlatMapAppend(a => ExpandArg(a, names, joined), a, b);
  }

  /** A template argument without placeholders is passed as it is. */
  lemma {:induction false} ExpandAllPlain(command: seq<string>, names: seq<string>, joined: string)
    requires names != []
    requires forall i :: 0 <= i < |command| ==>
      !Contains(command[i], FileSubstitution) && !Contains(command[i], FilesSubstitution)
    ensures ExpandAll(command, names, joined) == command
    decreases |command|
  {
    if command != [] {
      var a := command[|command| - 1];
      assert a != FileSubstitution by {
        assert Contains(FileSubstitution, FileSubstitution);
      }
      assert a != FilesSubstitution by {
        assert Contains(FilesSubstitution, FilesSubstitution);
      }
      ExpandAllPlain(command[..|command| - 1], names, joined);
      assert command == command[..|command| - 1] + [a];
    }
  }

  /** A `{files}` argument becomes one argument per selected path, while a
      `{file}` argument takes only the first one, even in batch mode. */
  lemma PlaceholderArguments(pre: seq<string>, post: seq<string>, names: seq<string>, joined: string)
    requires names != []
    ensures ExpandAll(pre + [FilesSubstitution] + post, names, joined) ==
      ExpandAll(pre, names, joined) + names + ExpandAll(post, names, joined)
    ensures ExpandAll(pre + [FileSubstitution] + post, names, joined) ==
      ExpandAll(pre, names, joined) + [names[0]] + ExpandAll(post, names, joined)
  {
    ExpandAllAppend(pre + [FilesSubstitution], post, names, joined);
    ExpandAllAppend(pre, [FilesSubstitution], names, joined);
    assert ExpandAll([FilesSubstitution], names, joined) == ExpandArg(FilesSubstitution, names, joined);
    ExpandAllAppend(pre + [FileSubstitution], post, names, joined);
    ExpandAllAppend(pre, [FileSubstitution], names, joined);
    assert ExpandAll([FileSubstitution], names, joined) == ExpandArg(FileSubstitution, names, joined);
  }

  /** A `{file}` placeholder inside a longer argument (`--out={file}`),
      with no `{` before it, becomes the first selected path in place;
      later occurrences in the same argument are replaced the same way.
      (`{file}` followed by `s` alone is the `{files}` argument.) */
  lemma EmbeddedFilePlaceholder(pre: string, post: string, names: seq<string>, joined: string)
    requires names != [] && '{' !in pre && pre + post != []
    requires pre + FileSubstitution + post != FilesSubstitution
    ensures ExpandArg(pre + FileSubstitution + post, names, joined) ==
      [pre + names[0] + Replace(post, FileSubstitution, names[0])]
  {
    assert |pre + FileSubstitution + post| > |FileSubstitution|;
    ReplaceEmbedded(pre, FileSubstitution, post, names[0]);
  }

  /** `{files}` does not hold `{file}`, so an argument whose only `{`
      opens `{files}` does not hold it either. */
  lemma FilesHoldsNoFile(pre: string, post: string)
    requires '{' !in pre && !Contains(post, FileSubstitution)
    ensures !Contains(pre + FilesSubstitution + post, FileSubstitution)
  {
    var t := FilesSubstitution + post;
    assert pre + FilesSubstitution + post == pre + t;
    ContainsAfterPlain(pre, t, FileSubstitution);
    assert t[5] != FileSubstitution[5];
    assert t[1..] == "files}" + post;
    ContainsAfterPlain("files}", post, FileSubstitution);
  }

  /** A `{files}` placeholder inside a longer argument, with no `{` before
      it and no `{file}` after it, becomes all selected paths joined by a
      space, still as one argument. */
  lemma EmbeddedFilesPlaceholder(pre: string, post: string, names: seq<string>, joined: string)
    requires names != [] && '{' !in pre && !Contains(post, FileSubstitution) && pre + post != []
    ensures ExpandArg(pre + FilesSubstitution + post, names, joined) ==
      [pre + joined + Replace(post, FilesSubstitution, joined)]
  {
    assert |pre + FilesSubstitution + post| > |FilesSubstitution|;
    FilesHoldsNoFile(pre, post);
    ReplaceEmbedded(pre, FilesSubstitution, post, joined);
  }

  /** `--out={file}` takes the first of two paths; `--all={files}` takes
      both, joined into one argument. */
  lemma EmbeddedPlaceholderExamples()
    ensures ExpandArg("--out=" + FileSubstitution, ["a", "b"], "a b") == ["--out=a"]
    ensures ExpandArg("--all=" + FilesSubstitution, ["a", "b"], "a b") == ["--all=a b"]
  {
    assert "--out=" + FileSubstitution + "" == "--out=" + FileSubstitution;
    EmbeddedFilePlaceholder("--out=", "", ["a", "b"], "a b");
    assert Replace("", FileSubstitution, "a") == "";
    assert "--out=" + "a" + "" == "--out=a";
    assert "--all=" + FilesSubstitution + "" == "--all=" + FilesSubstitution;
    EmbeddedFilesPlaceholder("--all=", "", ["a", "b"], "a b");
    assert Replace("", FilesSubstitution, "a b") == "";
    assert "--all=" + "a b" + "" == "--all=a b";
  }

  /** For a single path and a template whose placeholders stand alone,
      this queue builds the same arguments as the older `CommandQueue`. */
  lemma {:induction false} AgreesWithLegacyForOneFile(command: seq<string>, q: Path)
    requires forall i :: 0 <= i < |command| ==>
      command[i] == FileSubstitution || command[i] == FilesSubstitution ||
      (!Contains(command[i], FileSubstitution) && !Contains(command[i], FilesSubstitution))
    ensures ExpandAll(command, [Render(q)], Render(q)) == LegacyQueue.ExpandOld(command, [Render(q)])
    decreases |command|
  {
    if command != [] {
      AgreesWithLegacyForOneFile(command[..|command| - 1], q);
    }
  }

  /** The argument loop of `execute`: the shell's own words, then each
      template argument expanded with the selected paths' string forms. */
  method BuildArgs(shellWords: seq<string>, command: seq<string>, names: seq<string>, joined: string) returns (argv: seq<string>)
    requires names != []
    ensures argv == shellWords + ExpandAll(command, names, joined)
  {
    argv := shellWords;
    for i := 0 to |command|
      invariant argv == shellWords + ExpandAll(command[..i], names, joined)
    {
      assert command[..i + 1][..i] == command[..i];
      var a := command[i];
      if a == FileSubstitution {
        argv := argv + [names[0]];
      } else if a == FilesSubstitution {
        argv := argv + names;
      } else if Contains(a, FileSubstitution) {
        argv := argv + [Replace(a, FileSubstitution, names[0])];
      } else if Contains(a, FilesSubstitution) {
        argv := argv + [Replace(a, FilesSubstitution, joined)];
      } else {
        argv := argv + [a];
      }
    }
    assert command[..|command|] == command;
  }

  // ---------------------------------------------------------------------
  // Selecting the files of one run

  /** `retain(exists)`: the paths that still exist, in order. */
  function Retain(p: seq<Path>, existing: set<Path>): (r: seq<Path>)
    ensures |r| <= |p|
    ensures forall x :: x in r <==> x in p && x in existing
  {
    if p == [] then []
    else Retain(p[..|p| - 1], existing) + (if p[|p| - 1] in existing then [p[|p| - 1]] else [])
  }

  function Firsts(t: seq<(Path, Path)>): (r: seq<Path>)
    ensures |r| == |t| && forall i :: 0 <= i < |t| ==> r[i] == t[i].0
  {
    if t == [] then [] else Firsts(t[..|t| - 1]) + [t[|t| - 1].0]
  }

  /** The base names reported in `ExecStart`. */
  function Basenames(p: seq<Path>): (r: seq<string>)
    requires forall i :: 0 <= i < |p| ==> p[i].parts != []
    ensures |r| == |p| && forall i :: 0 <= i < |p| ==> r[i] == FileName(p[i]).value
  {
    if p == [] then [] else Basenames(p[..|p| - 1]) + [FileName(p[|p| - 1]).value]
  }

  /** `t` lists every element of `s` exactly once. */
  ghost predicate Enumerates(t: seq<(Path, Path)>, s: set<(Path, Path)>)
  {
    |t| == |s| && (forall i :: 0 <= i < |t| ==> t[i] in s) && (forall x :: x in s ==> x in t)
  }

  /** `drain()`: every pending pair, in some order, leaving nothing. */
  method Drain(s: set<(Path, Path)>) returns (t: seq<(Path, Path)>)
    ensures Enumerates(t, s)
  {
    var rest := s;
    t := [];
    while rest != {}
      invariant |t| + |rest| == |s|
      invariant forall i :: 0 <= i < |t| ==> t[i] in s && t[i] !in rest
      invariant forall x :: x in s ==> x in t || x in rest
      invariant rest <= s
      decreases |rest|
    {
      var x :| x in rest;
      t := t + [x];
      rest := rest - {x};
    }
  }

  /** The paths a run is for, once the taken pairs are known: all of
      them when deletions count, otherwise those that still exist. */
  function Select(deleted: bool, taken: seq<(Path, Path)>, existing: set<Path>): seq<Path>
  {
    if deleted then Firsts(taken) else Retain(Firsts(taken), existing)
  }

  /** A path is run for exactly when it was taken and either deletions
      count or it still exists. */
  lemma SelectMembers(deleted: bool, taken: seq<(Path, Path)>, existing: set<Path>, x: Path)
    ensures x in Select(deleted, taken, existing) <==>
      (exists i :: 0 <= i < |taken| && taken[i].0 == x) && (deleted || x in existing)
  {
    var f := Firsts(taken);
    if x in f {
      var i :| 0 <= i < |f| && f[i] == x;
      assert taken[i].0 == x;
    }
    if exists i :: 0 <= i < |taken| && taken[i].0 == x {
      var i :| 0 <= i < |taken| && taken[i].0 == x;
      assert f[i] == x;
    }
  }

  /** Paths taken from pending pairs that all have a name have one too. */
  lemma SelectedHaveNames(deleted: bool, taken: seq<(Path, Path)>, existing: set<Path>, pending: set<(Path, Path)>)
    requires forall i :: 0 <= i < |taken| ==> taken[i] in pending
    requires forall x :: x in pending ==> x.0.parts != []
    ensures var p := Select(deleted, taken, existing);
      forall i :: 0 <= i < |p| ==> p[i].parts != []
  {
    var p := Select(deleted, taken, existing);
    forall i | 0 <= i < |p|
      ensures p[i].parts != []
    {
      SelectMembers(deleted, taken, existing, p[i]);
      var k :| 0 <= k < |taken| && taken[k].0 == p[i];
      assert taken[k] in pending;
    }
  }

  /** What one iteration of `run` sees: the result of `try_recv`, the
      clock, the paths that exist and whether the display still listens. */
  datatype Tick = Tick(input: Received, now: int, existing: set<Path>, reportOpen: bool)

  /** The outcome of one iteration of `run`. */
  datatype StepOutcome = Continue | Stopped | Failed(error: ProgramError)

  /** The result of `execute` an iteration ended with. */
  function Executed(outcome: StepOutcome): Result<(), ProgramError>
  {
    if outcome.Failed? then Err(outcome.error) else Ok(())
  }

  /** Whether a received message ends `run`: an `Abort`, or a channel
      whose senders are all gone. */
  predicate Ends(input: Received)
  {
    input == Message(Abort) || input == Disconnected
  }

  /** The pending pairs once the message of an iteration is handled. */
  function Arrived(files: set<(Path, Path)>, input: Received): (r: set<(Path, Path)>)
    ensures files <= r
    ensures r - files <= (if input.Message? && input.message.AddFile? then {(input.message.file, input.message.watch)} else {})
  {
    if input.Message? && input.message.AddFile? then files + {(input.message.file, input.message.watch)}
    else files
  }

  /** The time of the last update once the message of an iteration is
      handled: a new file or a restart (while something is pending)
      starts the quiet period again. */
  function Stamp(last: Option<int>, files: set<(Path, Path)>, input: Received, now: int): (r: Option<int>)
    ensures r != last ==> r == Some(now)
  {
    if input == Message(RestartBackoff) then (if files != {} then Some(now) else last)
    else if input.Message? && input.message.AddFile? then Some(now)
    else last
  }

  /** The quiet period is over: more than `Backoff` ms since the last update. */
  predicate Due(stamp: Option<int>, now: int)
  {
    stamp.Some? && now - stamp.value > Backoff
  }

  /** A file that has just arrived, or a restart that touched the pending
      set, never triggers a command in the same iteration. */
  lemma FreshUpdateWaits(last: Option<int>, files: set<(Path, Path)>, input: Received, now: int)
    requires (input.Message? && input.message.AddFile?) || (input == Message(RestartBackoff) && files != {})
    ensures !Due(Stamp(last, files, input, now), now)
  {
  }

  class Queue {
    /** The shell command line the program is run through, and the result
        of `shell_words::split` on it (None when it does not parse). */
    const shell: string
    const shellWords: Option<seq<string>>
    /** The command template, one argument per entry. */
    const command: seq<string>
    const batchExec: bool
    const deletedFiles: bool
    const abortPrevious: bool

    /** Pending `(file, watch)` pairs. */
    var files: set<(Path, Path)>
    /** Time of the last update, in milliseconds. */
    var lastUpdate: Option<int>
    var commandCount: nat
    /** `Start` reports sent to the display, oldest first. */
    var reports: seq<ExecStart>
    /** How often running commands were told to stop. */
    var abortPulses: nat
    /** Commands handed to worker threads, oldest first. */
    ghost var spawned: seq<Invocation>

    /** A timestamp is only held while something is pending. */
    predicate Pending()
      reads this
    {
      lastUpdate.Some? ==> files != {}
    }

    /** Every pending file has a name, and commands are numbered 0, 1,
        2, ... in the order they were reported and spawned. */
    ghost predicate Numbered()
      reads this
    {
      (forall x :: x in files ==> x.0.parts != []) &&
      |reports| == commandCount && |spawned| == commandCount &&
      (forall i :: 0 <= i < |reports| ==> reports[i].commandNumber == i) &&
      (forall i :: 0 <= i < |spawned| ==> spawned[i].commandNumber == i)
    }

    /** The queue's invariant between two iterations of `run`. */
    ghost predicate Valid()
      reads this
    {
      Pending() && Numbered()
    }

    /** What `execute` did once the paths `p` were chosen, against the
        counters, reports, spawned commands and abort pulses it started
        from: nothing when `p` is empty; a parse error when the shell
        does not split; otherwise one more command, an abort pulse when
        asked for, and, when the report channel is open, the start report
        and the command line for the worker. */
    ghost predicate Dispatched(p: seq<Path>, reportOpen: bool, r: Result<(), ProgramError>,
                               count0: nat, reports0: seq<ExecStart>, spawned0: seq<Invocation>, pulses0: nat)
      reads this`commandCount, this`reports, this`spawned, this`abortPulses
    {
      (forall i :: 0 <= i < |p| ==> p[i].parts != []) &&
      if p == [] then
        r == Ok(()) && commandCount == count0 && reports == reports0 &&
        spawned == spawned0 && abortPulses == pulses0
      else if shellWords.None? then
        r == Err(CommandParseError(shell, ShellSplitFailed)) &&
        commandCount == count0 && reports == reports0 &&
        spawned == spawned0 && abortPulses == pulses0
      else
        commandCount == count0 + 1 &&
        abortPulses == pulses0 + (if abortPrevious then 1 else 0) &&
        if reportOpen then
          r == Ok(()) &&
          reports == reports0 + [ExecStart(count0, Basenames(p))] &&
          spawned == spawned0 + [Invocation(count0, shellWords.value + ExpandAll(command, LegacyQueue.Renders(p), JoinedPaths(p)))]
        else
          r == Err(CommandExecutionError(ReportChannelClosed)) &&
          reports == reports0 && spawned == spawned0
    }

    /** `Queue::start`, without the thread: nothing pending, no command yet.
        A shell that splits into no words at all would make `execute`
        panic, so it is excluded. */
    constructor (shell: string, shellWords: Option<seq<string>>, command: seq<string>,
                 batchExec: bool, deletedFiles: bool, abortPrevious: bool)
      requires shellWords.Some? ==> shellWords.value != []
      ensures this.shell == shell && this.shellWords == shellWords && this.command == command
      ensures this.batchExec == batchExec && this.deletedFiles == deletedFiles && this.abortPrevious == abortPrevious
      ensures files == {} && lastUpdate == None && commandCount == 0
      ensures reports == [] && spawned == [] && abortPulses == 0
      ensures Valid()
    {
      this.shell := shell;
      this.shellWords := shellWords;
      this.command := command;
      this.batchExec := batchExec;
      this.deletedFiles := deletedFiles;
      this.abortPrevious := abortPrevious;
      files := {};
      lastUpdate := None;
      commandCount := 0;
      reports := [];
      abortPulses := 0;
      spawned := [];
    }

    /** Removes what one run is for from `files`: any one pending pair,
        or in batch mode all of them. */
    method Take() returns (t: seq<(Path, Path)>)
      requires files != {} && Numbered()
      modifies this
      ensures Numbered()
      ensures batchExec ==> Enumerates(t, old(files)) && files == {}
      ensures !batchExec ==> |t| == 1 && t[0] in old(files) && files == old(files) - {t[0]}
      ensures lastUpdate == old(lastUpdate) && commandCount == old(commandCount)
      ensures reports == old(reports) && spawned == old(spawned) && abortPulses == old(abortPulses)
    {
      if !batchExec {
        var pair :| pair in files;
        files := files - {pair};
        t := [pair];
      } else {
        t := Drain(files);
        files := {};
      }
    }

    /** `execute`: take one pending pair (or all of them in batch mode),
        drop paths that no longer exist unless deletions count, and if
        any remain, number the command, report its start and hand it to a
        worker. `taken` is the pairs removed from `files`. */
    method Execute(existing: set<Path>, reportOpen: bool) returns (r: Result<(), ProgramError>, ghost taken: seq<(Path, Path)>)
      requires Numbered()
      requires shellWords.Some? ==> shellWords.value != []
      modifies this
      ensures old(files) == {} ==>
        (r == Err(BadInternalState) && files == old(files) &&
         commandCount == old(commandCount) && reports == old(reports) && spawned == old(spawned) &&
         abortPulses == old(abortPulses))
      ensures old(files) != {} && batchExec ==> (Enumerates(taken, old(files)) && files == {})
      ensures old(files) != {} && !batchExec ==>
        (|taken| == 1 && taken[0] in old(files) && files == old(files) - {taken[0]})
      ensures lastUpdate == old(lastUpdate)
      ensures r.Ok? ==> Numbered()
      ensures old(commandCount) <= commandCount <= old(commandCount) + 1
      ensures old(files) != {} && r.Err? ==>
        r.error.CommandParseError? || r.error.CommandExecutionError?
      ensures old(files) != {} ==>
        Dispatched(Select(deletedFiles, taken, existing), reportOpen, r,
                   old(commandCount), old(reports), old(spawned), old(abortPulses))
    {
      if files == {} {
        return Err(BadInternalState), [];
      }
      ghost var before := files;
      var t := Take();
      taken := t;
      var p := Firsts(t);
      if !deletedFiles {
        p := Retain(p, existing);
      }
      SelectedHaveNames(deletedFiles, taken, existing, before);
      assert p == Select(deletedFiles, taken, existing);
      if p == [] {
        return Ok(()), taken;
      }
      r := Launch(p, reportOpen);
    }

    /** The part of `execute` after the paths `p` are chosen: split the
        shell command, build the arguments, pulse the abort flag, number
        the command and report its start; the worker is only started when
        the report went through. */
    method Launch(p: seq<Path>, reportOpen: bool) returns (r: Result<(), ProgramError>)
      requires p != [] && forall i :: 0 <= i < |p| ==> p[i].parts != []
      requires shellWords.Some? ==> shellWords.value != []
      requires Numbered()
      modifies this
      ensures files == old(files) && lastUpdate == old(lastUpdate)
      ensures r.Ok? ==> Numbered()
      ensures old(commandCount) <= commandCount <= old(commandCount) + 1
      ensures r.Err? ==> r.error.CommandParseError? || r.error.CommandExecutionError?
      ensures Dispatched(p, reportOpen, r, old(commandCount), old(reports), old(spawned), old(abortPulses))
    {
      if shellWords.None? {
        return Err(CommandParseError(shell, ShellSplitFailed));
      }
      var argv := BuildArgs(shellWords.value, command, LegacyQueue.Renders(p), JoinedPaths(p));
      if abortPrevious {
        abortPulses := abortPulses + 1;
      }
      if !reportOpen {
        commandCount := commandCount + 1;
        return Err(CommandExecutionError(ReportChannelClosed));
      }
      Announce(Basenames(p), argv);
      return Ok(());
    }

    /** Numbers a command, reports its start and hands it to a worker. */
    method Announce(names: seq<string>, argv: seq<string>)
      requires Numbered()
      modifies this
      ensures commandCount == old(commandCount) + 1
      ensures reports == old(reports) + [ExecStart(old(commandCount), names)]
      ensures spawned == old(spawned) + [Invocation(old(commandCount), argv)]
      ensures files == old(files) && lastUpdate == old(lastUpdate) && abortPulses == old(abortPulses)
      ensures Numbered()
    {
      var commandNumber := commandCount;
      commandCount := commandCount + 1;
      reports := reports + [ExecStart(commandNumber, names)];
      spawned := spawned + [Invocation(commandNumber, argv)];
    }

    /** One iteration of `run`: handle at most one message (`input` is
        what `try_recv` gave), then, once the quiet period is over, run
        `execute` and forget the timestamp when nothing is left. `now` is
        the clock reading of this iteration. */
    method Step(input: Received, now: int, existing: set<Path>, reportOpen: bool)
      returns (outcome: StepOutcome, ghost taken: seq<(Path, Path)>)
      requires Valid()
      requires shellWords.Some? ==> shellWords.value != []
      requires input.Message? && input.message.AddFile? ==> input.message.file.parts != []
      modifies this
      ensures Ends(input) ==>
        (outcome == Stopped && files == old(files) && lastUpdate == old(lastUpdate) &&
         commandCount == old(commandCount) && reports == old(reports) && spawned == old(spawned) &&
         abortPulses == old(abortPulses))
      ensures !Ends(input) ==> outcome != Stopped
      ensures old(commandCount) <= commandCount <= old(commandCount) + 1
      ensures outcome.Failed? ==>
        outcome.error.CommandParseError? || outcome.error.CommandExecutionError?
      ensures !outcome.Failed? ==> Valid()
      ensures input.Message? && input.message.AddFile? ==> (input.message.file, input.message.watch) in files
      ensures !Ends(input) && !Due(Stamp(old(lastUpdate), old(files), input, now), now) ==>
        outcome == Continue && files == Arrived(old(files), input) &&
        lastUpdate == Stamp(old(lastUpdate), old(files), input, now) &&
        commandCount == old(commandCount) && reports == old(reports) && spawned == old(spawned) &&
        abortPulses == old(abortPulses)
      ensures !Ends(input) && Due(Stamp(old(lastUpdate), old(files), input, now), now) ==>
        var arrived := Arrived(old(files), input);
        (batchExec ==> Enumerates(taken, arrived) && files == {}) &&
        (!batchExec ==> |taken| == 1 && taken[0] in arrived && files == arrived - {taken[0]}) &&
        Dispatched(Select(deletedFiles, taken, existing), reportOpen, Executed(outcome),
                   old(commandCount), old(reports), old(spawned), old(abortPulses)) &&
        (outcome == Continue ==>
          lastUpdate == if files == {} then None else Stamp(old(lastUpdate), old(files), input, now))
    {
      if Ends(input) {
        return Stopped, [];
      }
      Receive(input, now);
      outcome, taken := Fire(now, existing, reportOpen);
    }

    /** `execute` as `run` calls it, on a non-empty pending set: some
        files leave it (all of them in batch mode), at most one command
        starts, and a failure is a shell or spawn error. */
    method ExecutePending(existing: set<Path>, reportOpen: bool)
      returns (r: Result<(), ProgramError>, ghost taken: seq<(Path, Path)>)
      requires Numbered() && files != {}
      requires shellWords.Some? ==> shellWords.value != []
      modifies this
      ensures batchExec ==> Enumerates(taken, old(files)) && files == {}
      ensures !batchExec ==> |taken| == 1 && taken[0] in old(files) && files == old(files) - {taken[0]}
      ensures lastUpdate == old(lastUpdate)
      ensures old(commandCount) <= commandCount <= old(commandCount) + 1
      ensures r.Err? ==> r.error.CommandParseError? || r.error.CommandExecutionError?
      ensures r.Ok? ==> Numbered()
      ensures Dispatched(Select(deletedFiles, taken, existing), reportOpen, r,
                         old(commandCount), old(reports), old(spawned), old(abortPulses))
    {
      r, taken := Execute(existing, reportOpen);
    }

    /** The timer half of an iteration of `run`: once the quiet period
        since the last update has passed, `execute` runs; the timer is
        cleared when nothing is left pending. */
    method Fire(now: int, existing: set<Path>, reportOpen: bool)
      returns (outcome: StepOutcome, ghost taken: seq<(Path, Path)>)
      requires Valid()
      requires shellWords.Some? ==> shellWords.value != []
      modifies this
      ensures outcome != Stopped
      ensures old(commandCount) <= commandCount <= old(commandCount) + 1
      ensures outcome.Failed? ==>
        outcome.error.CommandParseError? || outcome.error.CommandExecutionError?
      ensures !outcome.Failed? ==> Valid()
      ensures !Due(old(lastUpdate), now) ==>
        outcome == Continue && files == old(files) && lastUpdate == old(lastUpdate) &&
        commandCount == old(commandCount) && reports == old(reports) && spawned == old(spawned) &&
        abortPulses == old(abortPulses)
      ensures Due(old(lastUpdate), now) ==>
        (batchExec ==> Enumerates(taken, old(files)) && files == {}) &&
        (!batchExec ==> |taken| == 1 && taken[0] in old(files) && files == old(files) - {taken[0]}) &&
        Dispatched(Select(deletedFiles, taken, existing), reportOpen, Executed(outcome),
                   old(commandCount), old(reports), old(spawned), old(abortPulses)) &&
        (outcome == Continue ==> lastUpdate == if files == {} then None else old(lastUpdate))
    {
      if lastUpdate.Some? && now - lastUpdate.value > Backoff {
        outcome, taken := ExecuteDue(existing, reportOpen);
      } else {
        outcome, taken := Continue, [];
      }
    }

    /** The due branch of `Fire`: `execute`, then the timestamp is cleared
        when nothing is left pending. */
    method ExecuteDue(existing: set<Path>, reportOpen: bool)
      returns (outcome: StepOutcome, ghost taken: seq<(Path, Path)>)
      requires Valid() && lastUpdate.Some?
      requires shellWords.Some? ==> shellWords.value != []
      modifies this
      ensures outcome != Stopped
      ensures old(commandCount) <= commandCount <= old(commandCount) + 1
      ensures outcome.Failed? ==>
        outcome.error.CommandParseError? || outcome.error.CommandExecutionError?
      ensures !outcome.Failed? ==> Valid()
      ensures batchExec ==> Enumerates(taken, old(files)) && files == {}
      ensures !batchExec ==> |taken| == 1 && taken[0] in old(files) && files == old(files) - {taken[0]}
      ensures Dispatched(Select(deletedFiles, taken, existing), reportOpen, Executed(outcome),
                         old(commandCount), old(reports), old(spawned), old(abortPulses))
      ensures outcome == Continue ==> lastUpdate == if files == {} then None else old(lastUpdate)
    {
      var r;
      r, taken := ExecutePending(existing, reportOpen);
      if r.Err? {
        return Failed(r.error), taken;
      }
      if files == {} {
        lastUpdate := None;
      }
      return Continue, taken;
    }

    /** The message half of an iteration of `run`: a new file joins the
        pending set and restarts the quiet period; a restart request does
        so only while something is pending. */
    method Receive(input: Received, now: int)
      requires Valid() && !Ends(input)
      requires input.Message? && input.message.AddFile? ==> input.message.file.parts != []
      modifies this
      ensures files == Arrived(old(files), input)
      ensures lastUpdate == Stamp(old(lastUpdate), old(files), input, now)
      ensures commandCount == old(commandCount) && reports == old(reports)
      ensures spawned == old(spawned) && abortPulses == old(abortPulses)
      ensures Valid()
    {
      match input {
        case Message(RestartBackoff) =>
          if files != {} {
            lastUpdate := Some(now);
          }
        case Message(AddFile(file, watch)) =>
          files := files + {(file, watch)};
          lastUpdate := Some(now);
        case Empty =>
      }
    }

    /** `run` over a finite sequence of iterations: step until a message
        ends the loop, `execute` fails, or the sequence runs out. At most
        one command starts per iteration. */
    method Run(ticks: seq<Tick>) returns (outcome: StepOutcome, steps: nat)
      requires Valid()
      requires shellWords.Some? ==> shellWords.value != []
      requires forall k :: 0 <= k < |ticks| ==>
        (ticks[k].input.Message? && ticks[k].input.message.AddFile? ==> ticks[k].input.message.file.parts != [])
      modifies this
      ensures steps <= |ticks|
      ensures outcome == Continue ==> steps == |ticks|
      ensures outcome == Stopped ==> 0 < steps && Ends(ticks[steps - 1].input)
      ensures forall k :: 0 <= k < steps - 1 ==> !Ends(ticks[k].input)
      ensures !outcome.Failed? ==> Valid()
      ensures old(commandCount) <= commandCount <= old(commandCount) + steps
      ensures outcome.Failed? ==>
        (0 < steps && !Ends(ticks[steps - 1].input) &&
         (outcome.error.CommandParseError? || outcome.error.CommandExecutionError?))
    {
      outcome := Continue;
      steps := 0;
      while steps < |ticks| && outcome == Continue
        invariant steps <= |ticks|
        invariant outcome == Stopped ==> 0 < steps && Ends(ticks[steps - 1].input)
        invariant forall k :: 0 <= k < steps - 1 ==> !Ends(ticks[k].input)
        invariant outcome != Stopped && 0 < steps ==> !Ends(ticks[steps - 1].input)
        invariant old(commandCount) <= commandCount <= old(commandCount) + steps
        invariant !outcome.Failed? ==> Valid()
        invariant outcome.Failed? ==>
          (0 < steps && (outcome.error.CommandParseError? || outcome.error.CommandExecutionError?))
        decreases |ticks| - steps
      {
        var t := ticks[steps];
        ghost var taken;
        outcome, taken := Step(t.input, t.now, t.existing, t.reportOpen);
        steps := steps + 1;
      }
    }
  }
}
