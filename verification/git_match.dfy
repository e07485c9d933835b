/** Matching a compiled `.gitignore` rule against a path, as written in
    src/files/git.rs (`string_matches`, `file_matches`, `is_git_ignored`).

    `Matches` states what the cursor matcher decides, token by token; the
    method `StringMatches` is the two-cursor loop of the source, recursing
    only for `**`, proved to decide exactly that. The lemmas after it are
    the consequences for real patterns: `*` never backtracks, `**` needs a
    non-empty remainder, fixed-width tokens consume one character each. */
module GitMatch {
  import opened Common
  import opened Paths
  import opened GitRule

  /** How far `*` runs: the longest prefix of `s` without `/`. */
  function NonSlashRun(s: string): (n: nat)
    ensures n <= |s|
    ensures forall i :: 0 <= i < n ==> s[i] != '/'
    ensures n < |s| ==> s[n] == '/'
  {
    if s == [] || s[0] == '/' then 0 else 1 + NonSlashRun(s[1..])
  }

  predicate InSomeRange(c: char, ranges: seq<(char, char)>)
  {
    exists i :: 0 <= i < |ranges| && ranges[i].0 <= c <= ranges[i].1
  }

  /** What a `[...]` token accepts as written: a hit sets the flag to
      `!negated`, so a negated class accepts nothing. */
  predicate ClassAccepts(c: char, negated: bool, ranges: seq<(char, char)>)
  {
    !negated && InSomeRange(c, ranges)
  }

  /** The decision of `string_matches(s, toks)`. As written, a pattern
      holding a negated class matches nothing. */
  function Matches(s: string, toks: seq<Token>): (r: bool)
    ensures r ==> forall k :: 0 <= k < |toks| && toks[k].CharRange? ==> !toks[k].negated
    decreases |toks|
  {
    if toks == [] then s == []
    else
      match toks[0]
      case Literal(l) => l <= s && Matches(s[|l|..], toks[1..])
      case Slash => s != [] && s[0] == '/' && Matches(s[1..], toks[1..])
      case Asterisk => Matches(s[NonSlashRun(s)..], toks[1..])
      case DoubleAsterisk =>
        toks[1..] == [] || exists i :: 0 <= i < |s| && Matches(s[i..], toks[1..])
      case QuestionMark => s != [] && s[0] != '/' && Matches(s[1..], toks[1..])
      case CharRange(neg, rs) => s != [] && ClassAccepts(s[0], neg, rs) && Matches(s[1..], toks[1..])
  }

  /** The range loop of the `CharRange` arm. */
  method ClassMatches(c: char, negated: bool, ranges: seq<(char, char)>) returns (matched: bool)
    ensures matched <==> !negated && exists i :: 0 <= i < |ranges| && ranges[i].0 <= c <= ranges[i].1
  {
    matched := false;
    for i := 0 to |ranges|
      invariant matched <==> !negated && exists j :: 0 <= j < i && ranges[j].0 <= c <= ranges[j].1
    {
      if ranges[i].0 <= c <= ranges[i].1 {
        matched := !negated;
      }
    }
  }

  /** `string_matches`: a cursor `p` into the candidate and one into the
      token list; every arm either consumes characters or returns. */
  method StringMatches(file: string, rule: seq<Token>) returns (r: bool)
    ensures r == Matches(file, rule)
    decreases |rule|, 0
  {
    var p := 0;
    var k := 0;
    while k < |rule|
      invariant 0 <= p <= |file| && 0 <= k <= |rule|
      invariant Matches(file[p..], rule[k..]) == Matches(file, rule)
    {
      if rule[k].DoubleAsterisk? {
        assert rule[k..][1..] == rule[k + 1..];
        if k + 1 == |rule| {
          return true;
        }
        r := MatchSomeSuffix(file[p..], rule[k + 1..]);
        return;
      }
      var ok;
      ok, p := Advance(file, p, rule, k);
      if !ok {
        return false;
      }
      k := k + 1;
    }
    assert file[p..] == [] <==> p == |file|;
    return p == |file|;
  }

  /** One arm of the loop for a token other than `**`: either the token
      fails here, or it consumes `file[p..q]` and matching goes on at `q`
      with the next token. */
  method Advance(file: string, p: nat, rule: seq<Token>, k: nat) returns (ok: bool, q: nat)
    requires p <= |file| && k < |rule| && !rule[k].DoubleAsterisk?
    ensures ok ==> p <= q <= |file| && Matches(file[p..], rule[k..]) == Matches(file[q..], rule[k + 1..])
    ensures !ok ==> !Matches(file[p..], rule[k..])
  {
    assert rule[k..][1..] == rule[k + 1..];
    q := p;
    match rule[k]
    case Literal(l) =>
      ok, q := MatchLiteral(file, p, l);
      if ok {
        assert file[p..][|l|..] == file[q..];
      }
    case Slash =>
      ok := p < |file| && file[p] == '/';
      if ok {
        assert file[p..][1..] == file[p + 1..];
        q := p + 1;
      }
    case Asterisk =>
      q := SkipSegment(file, p);
      ok := true;
      assert file[p..][NonSlashRun(file[p..])..] == file[q..];
    case QuestionMark =>
      ok := p < |file| && file[p] != '/';
      if ok {
        assert file[p..][1..] == file[p + 1..];
        q := p + 1;
      }
    case CharRange(negated, ranges) =>
      ok := false;
      if p < |file| {
        ok := ClassMatches(file[p], negated, ranges);
        if ok {
          assert file[p..][1..] == file[p + 1..];
          q := p + 1;
        }
      }
  }

  /** The `DoubleAsterisk` arm with tokens after it: try the remaining
      tokens on every suffix of the rest, starting with the rest itself. */
  method MatchSomeSuffix(rest: string, remainingRules: seq<Token>) returns (r: bool)
    ensures r == exists i :: 0 <= i < |rest| && Matches(rest[i..], remainingRules)
    decreases |remainingRules|, 1
  {
    for i := 0 to |rest|
      invariant forall j :: 0 <= j < i ==> !Matches(rest[j..], remainingRules)
    {
      var m := StringMatches(rest[i..], remainingRules);
      if m {
        return true;
      }
    }
    return false;
  }

  /** The `Literal` arm: consume the literal's characters one by one. */
  method MatchLiteral(file: string, p: nat, l: string) returns (ok: bool, q: nat)
    requires p <= |file|
    ensures ok <==> l <= file[p..]
    ensures ok ==> q == p + |l| && q <= |file|
    ensures !ok ==> q == p
  {
    q := p;
    var j := 0;
    while j < |l|
      invariant 0 <= j <= |l| && q == p + j <= |file|
      invariant file[p..q] == l[..j]
    {
      if q >= |file| || file[q] != l[j] {
        if q < |file| {
          assert file[p..][j] == file[q];
        }
        return false, p;
      }
      q := q + 1;
      j := j + 1;
    }
    assert l == file[p..q];
    return true, q;
  }

  /** The `Asterisk` arm: skip to the next `/` or the end. */
  method SkipSegment(file: string, p: nat) returns (q: nat)
    requires p <= |file|
    ensures q == p + NonSlashRun(file[p..]) && q <= |file|
  {
    q := p;
    while q < |file| && file[q] != '/'
      invariant p <= q <= |file|
      invariant NonSlashRun(file[p..]) == (q - p) + NonSlashRun(file[q..])
    {
      assert file[q..][1..] == file[q + 1..];
      q := q + 1;
    }
  }

  /** `file_matches`: the rule is tried on the path relative to `dir`,
      rendered as a string; a file outside `dir` never matches. */
  function FileMatches(rule: Rule, file: Path, dir: Path): (r: bool)
    ensures r ==> IsAncestorOrSelf(dir, file)
  {
    match StripPrefix(file, dir)
    case None => false
    case Some(rel) => Matches(Render(rel), rule.pattern)
  }

  /** The rules of one `.gitignore` file and the path stored with them. */
  datatype RuleSet = RuleSet(rules: seq<Rule>, rulePath: Path)

  /** Some rule of the given polarity, in some set, matches `file`. */
  predicate SomeRuleMatches(file: Path, sets: seq<RuleSet>, negated: bool)
  {
    exists i, j :: 0 <= i < |sets| && 0 <= j < |sets[i].rules| &&
      sets[i].rules[j].isNegated == negated &&
      FileMatches(sets[i].rules[j], file, sets[i].rulePath)
  }

  /** `is_git_ignored` as written: both passes return `false` on a match
      and the fall-through is `false`, so no file is ever ignored. */
  function IsGitIgnored(file: Path, sets: seq<RuleSet>): (r: bool)
    ensures !r
  {
    if SomeRuleMatches(file, sets, true) then false
    else if SomeRuleMatches(file, sets, false) then false
    else false
  }

  // ---------------------------------------------------------------------
  // Consequences for patterns

  /** After `*` the candidate is exhausted or sits on a `/`, since `*`
      takes the whole segment and never gives any of it back. So `*`
      followed by `?` or by a literal not starting with `/` never matches. */
  lemma StarThenNonSlashNeverMatches(s: string, t: Token, rest: seq<Token>)
    requires t == QuestionMark || (t.Literal? && t.text != [] && t.text[0] != '/')
    ensures !Matches(s, [Asterisk, t] + rest)
  {
    var toks := [Asterisk, t] + rest;
    assert toks[1..] == [t] + rest && ([t] + rest)[1..] == rest;
    var s' := s[NonSlashRun(s)..];
    if t.Literal? && s' != [] {
      assert s'[0] == '/' != t.text[0];
    }
  }

  /** `*.log` matches nothing at all. */
  lemma StarDotLogMatchesNothing(s: string)
    ensures Tokenize("*.log") == [Asterisk, Literal(".log")]
    ensures !Matches(s, Tokenize("*.log"))
  {
    PlainTextIsOneLiteral(".log");
    TokenizeStep("*.log", [Asterisk], ".log");
    assert "*.log"[1..] == ".log";
    StarThenNonSlashNeverMatches(s, Literal(".log"), []);
    assert [Asterisk, Literal(".log")] + [] == [Asterisk, Literal(".log")];
  }

  /** On a name without `/`, `*` runs to the end. */
  lemma {:induction false} NonSlashRunOfSegment(s: string)
    requires '/' !in s
    ensures NonSlashRun(s) == |s|
  {
    if s != [] {
      NonSlashRunOfSegment(s[1..]);
    }
  }

  /** Tokens that stand for a fixed number of characters. */
  predicate FixedWidthToken(t: Token)
  {
    !t.Asterisk? && !t.DoubleAsterisk?
  }

  function Width(toks: seq<Token>): nat
  {
    if toks == [] then 0
    else (if toks[0].Literal? then |toks[0].text| else 1) + Width(toks[1..])
  }

  /** Without `*` and `**`, a match consumes exactly one character per
      pattern character: a literal its length, `/`, `?` and `[...]` one. */
  lemma {:induction false} FixedWidthMatch(s: string, toks: seq<Token>)
    requires forall i :: 0 <= i < |toks| ==> FixedWidthToken(toks[i])
    requires Matches(s, toks)
    ensures |s| == Width(toks)
    decreases |toks|
  {
    if toks != [] {
      assert FixedWidthToken(toks[0]);
      var n := if toks[0].Literal? then |toks[0].text| else 1;
      FixedWidthMatch(s[n..], toks[1..]);
    }
  }

  /** Tokens that can never consume a `/`. */
  predicate SlashFreeToken(t: Token)
  {
    t == Asterisk || t == QuestionMark || (t.Literal? && '/' !in t.text)
  }

  /** `*`, `?` and literals without `/` never consume a `/`: a pattern made
      of them only matches a single path segment. */
  lemma {:induction false} SlashFreeMatch(s: string, toks: seq<Token>)
    requires forall i :: 0 <= i < |toks| ==> SlashFreeToken(toks[i])
    requires Matches(s, toks)
    ensures '/' !in s
    decreases |toks|
  {
    if toks != [] {
      assert SlashFreeToken(toks[0]);
      var n := match toks[0]
        case Asterisk => NonSlashRun(s)
        case QuestionMark => 1
        case Literal(l) => |l|
        case _ => 0;
      SlashFreeMatch(s[n..], toks[1..]);
      assert s == s[..n] + s[n..];
      if toks[0] == Asterisk {
        assert '/' !in s[..n];
        if toks[1..] == [] {
          assert s[n..] == [];
        } else {
          assert '/' !in s[n..];
        }
      } else if toks[0].Literal? {
        assert s[..n] == toks[0].text;
      }
    }
  }

  /** Plain text followed by a special character reads as one literal
      and then whatever the rest reads as. */
  lemma TokenizePlainThen(name: string, rest: string)
    requires name != [] && forall i :: 0 <= i < |name| ==> !IsSpecial(name[i])
    requires rest != [] && IsSpecial(rest[0])
    ensures Tokenize(name + rest) == [Literal(name)] + Tokenize(rest)
  {
    var text := name + rest;
    assert text[1..] == name[1..] + rest;
    PlainRunOfPrefix(name[1..], rest);
    assert text[..|name|] == name && text[|name|..] == rest;
    TokenizeStep(text, [Literal(name)], rest);
  }

  lemma TokenizeSlashDoubleStar()
    ensures Tokenize("/**") == [Slash, DoubleAsterisk]
  {
    assert "/**"[1..] == "**";
    TokenizeStep("**", [DoubleAsterisk], "");
    TokenizeStep("/**", [Slash], "**");
  }

  // A name followed by a slash and a double asterisk reads as the name,
  // a slash and a double asterisk.
  lemma TokenizeTrailingDoubleStar(name: string)
    requires name != [] && forall i :: 0 <= i < |name| ==> !IsSpecial(name[i])
    ensures Tokenize(name + "/**") == [Literal(name), Slash, DoubleAsterisk]
  {
    TokenizePlainThen(name, "/**");
    TokenizeSlashDoubleStar();
  }

  // A plain name followed by a slash and a double asterisk matches exactly
  // the paths strictly inside that name: with the name `abc` it matches
  // `abc/x` and `abc/x/y`, but not `abcx`.
  lemma TrailingDoubleStar(name: string, s: string)
    requires name != [] && forall i :: 0 <= i < |name| ==> !IsSpecial(name[i])
    ensures Tokenize(name + "/**") == [Literal(name), Slash, DoubleAsterisk]
    ensures Matches(s, Tokenize(name + "/**")) <==> name + "/" <= s
  {
    TokenizeTrailingDoubleStar(name);
    var toks := [Literal(name), Slash, DoubleAsterisk];
    assert toks[1..] == [Slash, DoubleAsterisk];
    assert [Slash, DoubleAsterisk][1..] == [DoubleAsterisk] && [DoubleAsterisk][1..] == [];
    if name <= s {
      var r := s[|name|..];
      assert Matches(s, toks) == Matches(r, [Slash, DoubleAsterisk]);
      assert Matches(r, [Slash, DoubleAsterisk]) <==> r != [] && r[0] == '/';
      assert s == name + r;
      if r != [] {
        assert s[|name|] == r[0];
      }
    }
  }

  /** The tokens `/name` match exactly the text `/name`. */
  lemma SlashNameMatches(r: string, name: string)
    ensures Matches(r, [Slash, Literal(name)]) <==> r == "/" + name
  {
    assert [Slash, Literal(name)][1..] == [Literal(name)] && [Literal(name)][1..] == [];
    if r != [] && r[0] == '/' {
      assert Matches(r[1..], [Literal(name)]) <==> r[1..] == name;
      assert r == [r[0]] + r[1..];
    }
  }

  lemma TokenizeDoubleStarAt(text: string)
    requires |text| >= 2 && text[0] == '*' && text[1] == '*'
    ensures Tokenize(text) == [DoubleAsterisk] + Tokenize(text[2..])
  {
  }

  lemma TokenizeSlashAt(text: string)
    requires text != [] && text[0] == '/'
    ensures Tokenize(text) == [Slash] + Tokenize(text[1..])
  {
  }

  // A double asterisk, a slash and a name read as exactly those tokens.
  lemma TokenizeLeadingDoubleStar(name: string)
    requires name != [] && forall i :: 0 <= i < |name| ==> !IsSpecial(name[i])
    ensures Tokenize("**/" + name) == [DoubleAsterisk, Slash, Literal(name)]
  {
    var text := "**/" + name;
    assert text[0] == '*' && text[1] == '*' && text[2] == '/';
    TokenizeDoubleStarAt(text);
    TokenizeSlashAt(text[2..]);
    assert text[2..][1..] == text[3..] == name;
    PlainTextIsOneLiteral(name);
  }

  // A double asterisk, a slash and a plain name match a path iff it ends
  // in a slash followed by the name: `a/foo` and `a/b/foo` match for the
  // name `foo`, but `foo` itself does not, because the double asterisk must
  // leave a non-empty remainder to the tokens after it.
  lemma LeadingDoubleStar(name: string, s: string)
    requires name != [] && forall i :: 0 <= i < |name| ==> !IsSpecial(name[i])
    ensures Tokenize("**/" + name) == [DoubleAsterisk, Slash, Literal(name)]
    ensures Matches(s, Tokenize("**/" + name)) <==> |s| > |name| && s[|s| - |name| - 1..] == "/" + name
  {
    TokenizeLeadingDoubleStar(name);
    var tail := [Slash, Literal(name)];
    assert [DoubleAsterisk, Slash, Literal(name)][1..] == tail;
    if Matches(s, [DoubleAsterisk] + tail) {
      var i :| 0 <= i < |s| && Matches(s[i..], tail);
      SlashNameMatches(s[i..], name);
      assert i == |s| - |name| - 1;
    }
    if |s| > |name| && s[|s| - |name| - 1..] == "/" + name {
      SlashNameMatches(s[|s| - |name| - 1..], name);
    }
  }

  /** The passes of `is_git_ignored` both end in `false`: a file that a
      non-negated rule matches is still reported as not ignored. */
  lemma IsGitIgnoredIgnoresMatches()
    ensures var rule := Rule([Literal("a.txt")], false);
            var root := Path(true, []);
            var file := Path(true, ["a.txt"]);
            FileMatches(rule, file, root) && !IsGitIgnored(file, [RuleSet([rule], root)])
  {
    var file := Path(true, ["a.txt"]);
    assert Render(Path(false, ["a.txt"])) == "a.txt";
    assert "a.txt"[|"a.txt"|..] == [];
  }
}
