/** The `.gitignore` rules as the comments of src/files/git.rs describe
    them, next to the code as written in `GitRule` and `GitMatch`.

    Four behaviours of the code contradict the gitignore(5) text it quotes,
    and each is corrected here:
    - a leading `!` is stripped once, not twice;
    - `*` may stop anywhere inside its segment, so `*.log` matches `error.log`;
    - a negated class `[!...]` accepts the characters outside its ranges;
    - a file is ignored when some plain rule matches it and no negated rule does.
    The corrected change filter (`FileFilter.ShouldBeIgnoredFixed`) uses
    these definitions. */
module GitFixed {
  import opened Common
  import opened Paths
  import opened GitRule
  import opened GitMatch

  /** `from_str` with the leading `!` stripped once. */
  function CompileFixed(line: string): (r: Option<Rule>)
    ensures r.None? <==> line == [] || line[0] == '#'
    ensures r.Some? ==> (r.value.isNegated <==> line[0] == '!')
  {
    if line == [] || line[0] == '#' then None
    else if line[0] == '!' then Some(Rule(Tokenize(line[1..]), true))
    else Some(Rule(Tokenize(line), false))
  }

  /** A leading `!` only sets the flag: the rest of the line compiles to the
      tokens it would give on its own. */
  lemma NegationOnlyFlipsFlag(line: string)
    requires line != [] && line[0] != '#' && line[0] != '!'
    ensures CompileFixed(line) == Some(Rule(Tokenize(line), false))
    ensures CompileFixed("!" + line) == Some(Rule(Tokenize(line), true))
  {
    assert ("!" + line)[1..] == line;
  }

  /** A class accepts a character in one of its ranges, or, when negated,
      a character in none of them. */
  predicate ClassAcceptsFixed(c: char, negated: bool, ranges: seq<(char, char)>)
  {
    InSomeRange(c, ranges) != negated
  }

  /** `Matches` with a backtracking `*` and the corrected class. */
  function MatchesFixed(s: string, toks: seq<Token>): bool
    decreases |toks|
  {
    if toks == [] then s == []
    else
      match toks[0]
      case Literal(l) => l <= s && MatchesFixed(s[|l|..], toks[1..])
      case Slash => s != [] && s[0] == '/' && MatchesFixed(s[1..], toks[1..])
      case Asterisk => exists k :: 0 <= k <= NonSlashRun(s) && MatchesFixed(s[k..], toks[1..])
      case DoubleAsterisk =>
        toks[1..] == [] || exists i :: 0 <= i < |s| && MatchesFixed(s[i..], toks[1..])
      case QuestionMark => s != [] && s[0] != '/' && MatchesFixed(s[1..], toks[1..])
      case CharRange(neg, rs) => s != [] && ClassAcceptsFixed(s[0], neg, rs) && MatchesFixed(s[1..], toks[1..])
  }

  /** Everything the code as written accepts is still accepted: `*` may
      still take its whole segment, and a non-negated class is unchanged. */
  lemma {:induction false} FixedExtendsAsWritten(s: string, toks: seq<Token>)
    requires Matches(s, toks)
    ensures MatchesFixed(s, toks)
    decreases |toks|
  {
    if toks != [] {
      match toks[0]
      case Literal(l) => FixedExtendsAsWritten(s[|l|..], toks[1..]);
      case Slash => FixedExtendsAsWritten(s[1..], toks[1..]);
      case Asterisk => FixedExtendsAsWritten(s[NonSlashRun(s)..], toks[1..]);
      case DoubleAsterisk =>
        if toks[1..] != [] {
          var i :| 0 <= i < |s| && Matches(s[i..], toks[1..]);
          FixedExtendsAsWritten(s[i..], toks[1..]);
        }
      case QuestionMark => FixedExtendsAsWritten(s[1..], toks[1..]);
      case CharRange(neg, rs) => FixedExtendsAsWritten(s[1..], toks[1..]);
    }
  }

  /** A plain literal matches exactly itself. */
  lemma LiteralMatchesItself(s: string, lit: string)
    ensures MatchesFixed(s, [Literal(lit)]) <==> s == lit
  {
    assert [Literal(lit)][1..] == [];
    if lit <= s {
      assert s == lit + s[|lit|..];
    }
  }

  lemma StarUnfold(s: string, rest: seq<Token>)
    ensures MatchesFixed(s, [Asterisk] + rest) <==>
      exists k :: 0 <= k <= NonSlashRun(s) && MatchesFixed(s[k..], rest)
  {
    assert ([Asterisk] + rest)[1..] == rest;
  }

  /** With backtracking, `*` followed by a literal without `/` matches
      exactly the single-segment names ending in that literal. */
  lemma StarLiteralFixed(s: string, lit: string)
    requires '/' !in lit
    ensures MatchesFixed(s, [Asterisk, Literal(lit)]) <==>
      '/' !in s && |lit| <= |s| && s[|s| - |lit|..] == lit
  {
    StarUnfold(s, [Literal(lit)]);
    assert [Asterisk] + [Literal(lit)] == [Asterisk, Literal(lit)];
    if MatchesFixed(s, [Asterisk, Literal(lit)]) {
      StarLiteralSound(s, lit);
    }
    if '/' !in s && |lit| <= |s| && s[|s| - |lit|..] == lit {
      NonSlashRunOfSegment(s);
      LiteralMatchesItself(s[|s| - |lit|..], lit);
    }
  }

  lemma StarLiteralSound(s: string, lit: string)
    requires '/' !in lit
    requires exists k :: 0 <= k <= NonSlashRun(s) && MatchesFixed(s[k..], [Literal(lit)])
    ensures '/' !in s && |lit| <= |s| && s[|s| - |lit|..] == lit
  {
    var k :| 0 <= k <= NonSlashRun(s) && MatchesFixed(s[k..], [Literal(lit)]);
    LiteralMatchesItself(s[k..], lit);
    forall m | 0 <= m < |s|
      ensures s[m] != '/'
    {
      if m >= k {
        assert s[m] == lit[m - k];
      }
    }
  }

  /** A negated class accepts a character outside its ranges and rejects
      one inside them. */
  lemma NegatedClassFixed(c: char, d: char, rs: seq<(char, char)>)
    requires InSomeRange(c, rs) && !InSomeRange(d, rs)
    ensures MatchesFixed([d], [CharRange(true, rs)])
    ensures !MatchesFixed([c], [CharRange(true, rs)])
  {
    assert [CharRange(true, rs)][1..] == [];
    assert [d][1..] == [];
  }

  function FileMatchesFixed(rule: Rule, file: Path, dir: Path): (r: bool)
    ensures r ==> IsAncestorOrSelf(dir, file)
  {
    match StripPrefix(file, dir)
    case None => false
    case Some(rel) => MatchesFixed(Render(rel), rule.pattern)
  }

  predicate SomeRuleMatchesFixed(file: Path, sets: seq<RuleSet>, negated: bool)
  {
    exists i, j :: 0 <= i < |sets| && 0 <= j < |sets[i].rules| &&
      sets[i].rules[j].isNegated == negated &&
      FileMatchesFixed(sets[i].rules[j], file, sets[i].rulePath)
  }

  /** The two passes of `is_git_ignored` with the second pass answering
      `true`: a negated match keeps the file, otherwise any plain match
      ignores it. */
  function IsGitIgnoredFixed(file: Path, sets: seq<RuleSet>): (r: bool)
    ensures r ==> SomeRuleMatchesFixed(file, sets, false)
    ensures SomeRuleMatchesFixed(file, sets, true) ==> !r
    ensures SomeRuleMatchesFixed(file, sets, false) && !SomeRuleMatchesFixed(file, sets, true) ==> r
  {
    if SomeRuleMatchesFixed(file, sets, true) then false
    else SomeRuleMatchesFixed(file, sets, false)
  }

  /** Rule sets are searched as one list: a match in `a + b` is a match
      in `a` or in `b`. */
  lemma SomeRuleMatchesAppend(file: Path, a: seq<RuleSet>, b: seq<RuleSet>, negated: bool)
    ensures SomeRuleMatchesFixed(file, a + b, negated) <==>
      SomeRuleMatchesFixed(file, a, negated) || SomeRuleMatchesFixed(file, b, negated)
  {
    var all := a + b;
    if SomeRuleMatchesFixed(file, all, negated) {
      var i, j :| 0 <= i < |all| && 0 <= j < |all[i].rules| &&
        all[i].rules[j].isNegated == negated &&
        FileMatchesFixed(all[i].rules[j], file, all[i].rulePath);
      if i < |a| {
        assert all[i] == a[i];
      } else {
        assert all[i] == b[i - |a|];
      }
    }
    if SomeRuleMatchesFixed(file, a, negated) {
      var i, j :| 0 <= i < |a| && 0 <= j < |a[i].rules| &&
        a[i].rules[j].isNegated == negated &&
        FileMatchesFixed(a[i].rules[j], file, a[i].rulePath);
      assert all[i] == a[i];
    }
    if SomeRuleMatchesFixed(file, b, negated) {
      var i, j :| 0 <= i < |b| && 0 <= j < |b[i].rules| &&
        b[i].rules[j].isNegated == negated &&
        FileMatchesFixed(b[i].rules[j], file, b[i].rulePath);
      assert all[|a| + i] == b[i];
    }
  }

  /** A `.gitignore` holding only plain rules can only add ignored files;
      one holding only negated rules can only remove them. */
  lemma AddingRulesIsMonotone(file: Path, sets: seq<RuleSet>, extra: RuleSet)
    ensures (forall j :: 0 <= j < |extra.rules| ==> !extra.rules[j].isNegated) ==>
      IsGitIgnoredFixed(file, sets) ==> IsGitIgnoredFixed(file, sets + [extra])
    ensures (forall j :: 0 <= j < |extra.rules| ==> extra.rules[j].isNegated) ==>
      IsGitIgnoredFixed(file, sets + [extra]) ==> IsGitIgnoredFixed(file, sets)
  {
    SomeRuleMatchesAppend(file, sets, [extra], true);
    SomeRuleMatchesAppend(file, sets, [extra], false);
    assert [extra][0] == extra;
  }

  /** The rules `*.log` and `!keep.log` of a `.gitignore` at the root. */
  function LogRules(): seq<RuleSet>
  {
    [RuleSet([Rule([Asterisk, Literal(".log")], false), Rule([Literal("keep.log")], true)], Path(true, []))]
  }

  /** The rule set of one file `name` at the root is matched against `name`. */
  lemma AtRoot(rule: Rule, name: Component)
    ensures FileMatchesFixed(rule, Path(true, [name]), Path(true, [])) == MatchesFixed(name, rule.pattern)
  {
    assert StripPrefix(Path(true, [name]), Path(true, [])) == Some(Path(false, [name]));
    assert Render(Path(false, [name])) == name;
  }

  /** A `.gitignore` at the root holding one plain rule and then one
      negated rule ignores a file at the root iff the plain rule matches
      its name and the negated rule does not. */
  lemma PlainThenNegatedAtRoot(plain: Rule, keep: Rule, name: Component)
    requires !plain.isNegated && keep.isNegated
    ensures IsGitIgnoredFixed(Path(true, [name]), [RuleSet([plain, keep], Path(true, []))]) <==>
      MatchesFixed(name, plain.pattern) && !MatchesFixed(name, keep.pattern)
  {
    var sets := [RuleSet([plain, keep], Path(true, []))];
    var file := Path(true, [name]);
    AtRoot(plain, name);
    AtRoot(keep, name);
    if SomeRuleMatchesFixed(file, sets, true) {
      var i, j :| 0 <= i < |sets| && 0 <= j < |sets[i].rules| &&
        sets[i].rules[j].isNegated == true && FileMatchesFixed(sets[i].rules[j], file, sets[i].rulePath);
      assert i == 0 && j == 1;
    }
    if FileMatchesFixed(keep, file, sets[0].rulePath) {
      assert sets[0].rules[1] == keep;
    }
    if SomeRuleMatchesFixed(file, sets, false) {
      var i, j :| 0 <= i < |sets| && 0 <= j < |sets[i].rules| &&
        sets[i].rules[j].isNegated == false && FileMatchesFixed(sets[i].rules[j], file, sets[i].rulePath);
      assert i == 0 && j == 0;
    }
    if FileMatchesFixed(plain, file, sets[0].rulePath) {
      assert sets[0].rules[0] == plain;
    }
  }

  /** Whether `name` at the root is ignored by `LogRules`, in terms of the
      two rules' matches. */
  lemma LogRulesAtRoot(name: Component)
    ensures IsGitIgnoredFixed(Path(true, [name]), LogRules()) <==>
      name != "keep.log" && MatchesFixed(name, [Asterisk, Literal(".log")])
  {
    PlainThenNegatedAtRoot(Rule([Asterisk, Literal(".log")], false), Rule([Literal("keep.log")], true), name);
    LiteralMatchesItself(name, "keep.log");
  }

  /** The usual `.gitignore` of the form `*.log` then `!keep.log` compiles
      to `LogRules()` (as written, `!keep.log` compiles to the literal
      `eep.log` instead: `GitRule.NegationDropsNextChar`). */
  lemma LogRulesCompile()
    ensures CompileFixed("*.log") == Some(Rule([Asterisk, Literal(".log")], false))
    ensures CompileFixed("!keep.log") == Some(Rule([Literal("keep.log")], true))
    ensures LogRules() == [RuleSet([CompileFixed("*.log").value, CompileFixed("!keep.log").value], Path(true, []))]
  {
    StarLogCompiles();
    KeepLogCompiles();
  }

  lemma StarLogCompiles()
    ensures CompileFixed("*.log") == Some(Rule([Asterisk, Literal(".log")], false))
  {
    StarDotLogMatchesNothing("");
  }

  lemma KeepLogCompiles()
    ensures CompileFixed("!keep.log") == Some(Rule([Literal("keep.log")], true))
  {
    var line := "!keep.log";
    assert line[0] == '!' && line[1..] == "keep.log";
    PlainTextIsOneLiteral("keep.log");
  }

  /** With `LogRules()`, `a.log` is ignored. */
  lemma ALogIgnored()
    ensures IsGitIgnoredFixed(Path(true, ["a.log"]), LogRules())
  {
    var name: Component := "a.log";
    assert MatchesFixed(name, [Asterisk, Literal(".log")]) by {
      StarLiteralFixed(name, ".log");
      assert name[|name| - |".log"|..] == ".log";
    }
    assert name != "keep.log" by {
      assert |name| != |"keep.log"|;
    }
    LogRulesAtRoot(name);
  }

  /** With `LogRules()`, `keep.log` is kept by the negated rule. */
  lemma KeepLogKept()
    ensures !IsGitIgnoredFixed(Path(true, ["keep.log"]), LogRules())
  {
    LogRulesAtRoot("keep.log");
  }

  /** With `LogRules()`, `a.txt` is matched by no rule. */
  lemma ATxtNotIgnored()
    ensures !IsGitIgnoredFixed(Path(true, ["a.txt"]), LogRules())
  {
    var name: Component := "a.txt";
    assert !MatchesFixed(name, [Asterisk, Literal(".log")]) by {
      StarLiteralFixed(name, ".log");
      assert name[|name| - |".log"|..][1] == 't';
    }
    LogRulesAtRoot(name);
  }

  /** The name of the rule file `from_dir` looks for. */
  const IgnoreFileName: Component := ".gitignore"

  /** `from_ignore_file` stores the path of the `.gitignore` file itself
      with its rules, not the directory holding it. Only a path with a
      component named `.gitignore` lies below that, so rule sets built
      this way ignore no ordinary file, even with the corrected passes. */
  lemma RulePathOfIgnoreFile(rules: seq<Rule>, dir: Path, file: Path)
    requires forall i :: 0 <= i < |file.parts| ==> file.parts[i] != IgnoreFileName
    ensures !IsGitIgnoredFixed(file, [RuleSet(rules, Path(dir.absolute, dir.parts + [IgnoreFileName]))])
  {
    var rulePath := Path(dir.absolute, dir.parts + [IgnoreFileName]);
    if |dir.parts| < |file.parts| {
      assert file.parts[|dir.parts|] != rulePath.parts[|dir.parts|];
    }
    assert !IsAncestorOrSelf(rulePath, file);
  }
}
