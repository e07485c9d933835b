/** The command-line settings and their normalisation (src/args.rs). */
module Arguments {
  import opened Common
  import opened Messages

  /** The placeholder for one updated file in a command template. */
  const FileSubstitution: string := "{file}"

  /** The placeholder for all updated files in a command template. */
  const FilesSubstitution: string := "{files}"

  /** One extension as `validate` leaves it: lowercased, then one leading
      dot removed. */
  function NormalizeExt(s: string): (r: string)
    ensures forall i :: 0 <= i < |r| ==> !('A' <= r[i] <= 'Z')
  {
    var low := LowerStr(s);
    if "." <= low then low[1..] else low
  }

  /** The user may write an extension with or without its dot and in any
      case: `.TXT`, `txt` and `Txt` all become `txt`. */
  lemma NormalizeExtDropsDot(x: string)
    requires x == [] || x[0] != '.'
    ensures NormalizeExt("." + x) == NormalizeExt(x) == LowerStr(x)
  {
    assert LowerStr("." + x) == "." + LowerStr(x);
    assert ("." + LowerStr(x))[1..] == LowerStr(x);
    if x != [] {
      assert LowerStr(x)[0] == Lower(x[0]);
    }
  }

  /** Only one dot goes: `..txt` becomes `.txt`. */
  lemma NormalizeExtKeepsSecondDot(x: string)
    ensures NormalizeExt(".." + x) == "." + LowerStr(x)
  {
    assert LowerStr(".." + x) == ".." + LowerStr(x);
    assert (".." + LowerStr(x))[1..] == "." + LowerStr(x);
  }

  /** The settings `Args` holds. */
  class Args {
    var files: seq<string>
    var command: string
    var extensions: seq<string>
    var pollInterval: nat
    var quiet: bool
    var hidden: bool
    var noGitignore: bool
    var deleted: bool

    constructor (files: seq<string>, command: string, extensions: seq<string>, pollInterval: nat,
                 quiet: bool, hidden: bool, noGitignore: bool, deleted: bool)
      ensures this.files == files && this.command == command && this.extensions == extensions
      ensures this.pollInterval == pollInterval && this.quiet == quiet && this.hidden == hidden
      ensures this.noGitignore == noGitignore && this.deleted == deleted
    {
      this.files := files;
      this.command := command;
      this.extensions := extensions;
      this.pollInterval := pollInterval;
      this.quiet := quiet;
      this.hidden := hidden;
      this.noGitignore := noGitignore;
      this.deleted := deleted;
    }

    /** `validate`: normalise every extension in place, keeping their
        number and order, and watch `.` when no file was given. It
        always succeeds. */
    method Validate() returns (r: Result<(), ProgramError>)
      modifies this
      ensures r.Ok?
      ensures |extensions| == |old(extensions)|
      ensures forall i :: 0 <= i < |extensions| ==> extensions[i] == NormalizeExt(old(extensions)[i])
      ensures files == if old(files) == [] then ["."] else old(files)
      ensures command == old(command) && pollInterval == old(pollInterval) && quiet == old(quiet)
      ensures hidden == old(hidden) && noGitignore == old(noGitignore) && deleted == old(deleted)
    {
      var i := 0;
      while i < |extensions|
        invariant 0 <= i <= |extensions| == |old(extensions)|
        invariant forall k :: 0 <= k < i ==> extensions[k] == NormalizeExt(old(extensions)[k])
        invariant forall k :: i <= k < |extensions| ==> extensions[k] == old(extensions)[k]
        invariant files == old(files) && command == old(command) && pollInterval == old(pollInterval)
        invariant quiet == old(quiet) && hidden == old(hidden)
        invariant noGitignore == old(noGitignore) && deleted == old(deleted)
      {
        var s := LowerStr(extensions[i]);
        if "." <= s {
          s := s[1..];
        }
        extensions := extensions[i := s];
        i := i + 1;
      }
      if files == [] {
        files := files + ["."];
      }
      return Ok(());
    }
  }
}
