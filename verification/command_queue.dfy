/** The older, synchronous command queue of src/command_queue.rs: a
    validated command template and a list of updated files that `execute`
    turns into one command line. Spawning the process and waiting for it
    are reduced to recording the command line and taking the outcome the
    operating system reports as a parameter. */
module LegacyQueue {
  import opened Common
  import opened Paths
  import opened Messages
  import opened Arguments

  /** A validated command: the program, its argument template, and whether
      it runs once per file (`{file}` appears among the arguments). */
  datatype Template = Template(command: string, args: seq<string>, singleFileExecution: bool)

  /** `CommandQueue::new`, given the result of `shell_words::split` on the
      raw command (an error message on failure). */
  function NewTemplate(raw: string, split: Result<seq<string>, string>): (r: Result<Template, ProgramError>)
    ensures r.Err? <==> (split.Err? || split.value == [] ||
                         (FileSubstitution in split.value[1..] && FilesSubstitution in split.value[1..]))
    ensures split.Err? ==> r == Err(CommandParseError(raw, split.error))
    ensures r.Err? ==> r.error.CommandParseError? && r.error.command == raw
    ensures r.Ok? ==> (r.value.command == split.value[0] && r.value.args == split.value[1..] &&
                       (r.value.singleFileExecution <==> FileSubstitution in r.value.args) &&
                       !(FileSubstitution in r.value.args && FilesSubstitution in r.value.args))
  {
    match split
    case Err(e) => Err(CommandParseError(raw, e))
    case Ok(tokens) =>
      if tokens == [] then Err(CommandParseError(raw, "Empty command"))
      else
        var single := FileSubstitution in tokens[1..];
        if single && FilesSubstitution in tokens[1..] then
          Err(CommandParseError(raw, "Command cannot contain both {file} and {files}"))
        else Ok(Template(tokens[0], tokens[1..], single))
  }

  /** The string forms of the paths. */
  function Renders(p: seq<Path>): (r: seq<string>)
    ensures |r| == |p| && forall i :: 0 <= i < |p| ==> r[i] == Render(p[i])
  {
    if p == [] then [] else Renders(p[..|p| - 1]) + [Render(p[|p| - 1])]
  }

  /** The arguments `execute` passes for a template, given the string
      forms `names` of the selected paths: both placeholders, written
      alone, become every name; anything else is passed as it is. */
  function ExpandOld(args: seq<string>, names: seq<string>): (r: seq<string>)
    ensures names != [] ==> |r| >= |args|
    ensures |names| == 1 ==> |r| == |args|
  {
    if args == [] then []
    else
      var a := args[|args| - 1];
      ExpandOld(args[..|args| - 1], names) +
        (if a == FileSubstitution || a == FilesSubstitution then names else [a])
  }

  /** The template with every `{file}` written as `{files}`. */
  function FileAsFiles(args: seq<string>): (r: seq<string>)
    ensures |r| == |args|
    ensures forall i :: 0 <= i < |args| ==>
      r[i] == if args[i] == FileSubstitution then FilesSubstitution else args[i]
  {
    if args == [] then []
    else
      var a := args[|args| - 1];
      FileAsFiles(args[..|args| - 1]) + [if a == FileSubstitution then FilesSubstitution else a]
  }

  /** `{file}` and `{files}` mean the same here: writing one for the other
      changes nothing in the command line. */
  lemma {:induction false} PlaceholdersAgree(args: seq<string>, names: seq<string>)
    ensures ExpandOld(args, names) == ExpandOld(FileAsFiles(args), names)
    decreases |args|
  {
    if args != [] {
      var init := args[..|args| - 1];
      PlaceholdersAgree(init, names);
      assert FileAsFiles(args)[..|args| - 1] == FileAsFiles(init);
    }
  }

  /** A template without placeholders is passed through unchanged. */
  lemma {:induction false} ExpandOldPlain(args: seq<string>, names: seq<string>)
    requires forall i :: 0 <= i < |args| ==> args[i] != FileSubstitution && args[i] != FilesSubstitution
    ensures ExpandOld(args, names) == args
    decreases |args|
  {
    if args != [] {
      ExpandOldPlain(args[..|args| - 1], names);
      assert args == args[..|args| - 1] + [args[|args| - 1]];
    }
  }

  class CommandQueue {
    const command: string
    const args: seq<string>
    const singleFileExecution: bool
    /** Files pushed and not yet run. */
    var files: seq<Path>
    /** The command lines handed to the operating system, oldest first. */
    ghost var launched: seq<seq<string>>

    /** The queue `CommandQueue::new` builds from a valid template. */
    constructor (t: Template)
      ensures command == t.command && args == t.args && singleFileExecution == t.singleFileExecution
      ensures files == [] && launched == []
    {
      command := t.command;
      args := t.args;
      singleFileExecution := t.singleFileExecution;
      files := [];
      launched := [];
    }

    /** `push`: one more file at the end. */
    method Push(file: Path)
      modifies this
      ensures files == old(files) + [file]
      ensures launched == old(launched)
    {
      files := files + [file];
    }

    /** `execute`: nothing to do without files; otherwise take the last
        pushed file (once-per-file mode) or all of them in order, and run
        the expanded command. `spawnError` is what spawning or waiting
        reported, if anything. */
    method Execute(spawnError: Option<string>) returns (r: Result<(), ProgramError>)
      modifies this
      ensures old(files) == [] ==> r == Ok(()) && files == [] && launched == old(launched)
      ensures old(files) != [] && singleFileExecution ==>
        files == old(files)[..|old(files)| - 1] &&
        launched == old(launched) + [[command] + ExpandOld(args, [Render(old(files)[|old(files)| - 1])])]
      ensures old(files) != [] && !singleFileExecution ==>
        files == [] && launched == old(launched) + [[command] + ExpandOld(args, Renders(old(files)))]
      ensures old(files) != [] ==>
        r == if spawnError.Some? then Err(CommandExecutionError(spawnError.value)) else Ok(())
    {
      if files == [] {
        return Ok(());
      }
      var names: seq<string>;
      if singleFileExecution {
        names := [Render(files[|files| - 1])];
        files := files[..|files| - 1];
      } else {
        names := Renders(files);
        files := [];
      }
      var argv := BuildCommandLine(command, args, names);
      launched := launched + [argv];
      if spawnError.Some? {
        return Err(CommandExecutionError(spawnError.value));
      }
      return Ok(());
    }
  }

  /** The argument loop of `execute`. */
  method BuildCommandLine(command: string, args: seq<string>, names: seq<string>) returns (argv: seq<string>)
    ensures argv == [command] + ExpandOld(args, names)
  {
    argv := [command];
    for i := 0 to |args|
      invariant argv == [command] + ExpandOld(args[..i], names)
    {
      assert args[..i + 1][..i] == args[..i];
      if args[i] == FileSubstitution || args[i] == FilesSubstitution {
        argv := argv + names;
      } else {
        argv := argv + [args[i]];
      }
    }
    assert args[..|args|] == args;
  }
}
