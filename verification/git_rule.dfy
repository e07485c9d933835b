/** Compiling one line of a `.gitignore` file into a token list
    (`GitIgnoreRule::from_str` in src/files/git.rs).

    `Tokenize` and `Compile` state what the tokenizer produces; the method
    `FromStr` is the character-by-character loop of the source, proved to
    produce exactly that. `Unparse` renders tokens back to pattern text and
    the two round-trip lemmas at the end tie it to `Tokenize`. */
module GitRule {
  import opened Common

  datatype Token =
    | Literal(text: string)                               // literal text, escapes removed
    | Slash                                               // `/`
    | Asterisk                                            // `*`
    | DoubleAsterisk                                      // `**`
    | QuestionMark                                        // `?`
    | CharRange(negated: bool, ranges: seq<(char, char)>) // `[...]`; `[c]` is the pair (c, c)

  datatype Rule = Rule(pattern: seq<Token>, isNegated: bool)

  /** The characters that end a literal run. */
  predicate IsSpecial(c: char)
  {
    c == '/' || c == '*' || c == '?' || c == '[' || c == '\\'
  }

  /** Length of the longest prefix of `s` free of special characters. */
  function PlainRun(s: string): (n: nat)
    ensures n <= |s|
    ensures forall i :: 0 <= i < n ==> !IsSpecial(s[i])
    ensures n < |s| ==> IsSpecial(s[n])
  {
    if s == [] || IsSpecial(s[0]) then 0 else 1 + PlainRun(s[1..])
  }

  /** The inside of a `[...]` class after the optional `!`/`^`: the ranges
      read and the text left after the closing `]`. `a-b` is a range, a
      lone character `c` is `(c, c)`, a `-` with nothing after it is
      dropped, and an unterminated class runs to the end of the line. */
  function ClassBody(s: string): (r: (seq<(char, char)>, string))
    ensures |r.1| <= |s|
    ensures ']' !in s ==> r.1 == []
    decreases |s|
  {
    if s == [] then ([], [])
    else if s[0] == ']' then ([], s[1..])
    else if |s| >= 2 && s[1] == '-' then
      if |s| == 2 then ([], [])
      else
        var b := ClassBody(s[3..]);
        ([(s[0], s[2])] + b.0, b.1)
    else
      var b := ClassBody(s[1..]);
      ([(s[0], s[0])] + b.0, b.1)
  }

  /** The class token read from the text after a `[`, and the rest: the
      text after the first `]` that closes it, or nothing when no `]` does.
      A leading `!` or `^` negates the class. */
  function ParseClass(s: string): (r: (Token, string))
    ensures |r.1| <= |s|
    ensures ']' !in s ==> r.1 == []
    ensures r.0.CharRange?
    ensures r.0.negated <==> s != [] && (s[0] == '!' || s[0] == '^')
  {
    if s != [] && (s[0] == '!' || s[0] == '^') then
      var b := ClassBody(s[1..]);
      (CharRange(true, b.0), b.1)
    else
      var b := ClassBody(s);
      (CharRange(false, b.0), b.1)
  }

  /** The token list of a pattern body; every token is read from at least
      one character. */
  function Tokenize(s: string): (r: seq<Token>)
    ensures r == [] ==> s == [] || s == "\\"
    decreases |s|
  {
    if s == [] then []
    else if s[0] == '\\' then
      if |s| == 1 then [] else [Literal([s[1]])] + Tokenize(s[2..])
    else if s[0] == '/' then [Slash] + Tokenize(s[1..])
    else if s[0] == '*' then
      if |s| >= 2 && s[1] == '*' then [DoubleAsterisk] + Tokenize(s[2..])
      else [Asterisk] + Tokenize(s[1..])
    else if s[0] == '?' then [QuestionMark] + Tokenize(s[1..])
    else if s[0] == '[' then
      var c := ParseClass(s[1..]);
      [c.0] + Tokenize(c.1)
    else
      var n := 1 + PlainRun(s[1..]);
      [Literal(s[..n])] + Tokenize(s[n..])
  }

  /** `from_str` as written: no rule for an empty line or a comment; a
      leading `!` marks the rule negated, and the line is then sliced a
      second time, so tokenizing starts two characters in. The line `"!"`
      alone makes the second slice panic, hence the precondition. */
  function Compile(line: string): (r: Option<Rule>)
    requires line != "!"
    ensures r.None? <==> line == [] || line[0] == '#'
    ensures r.Some? ==> (r.value.isNegated <==> line[0] == '!')
  {
    if line == [] || line[0] == '#' then None
    else if line[0] == '!' then Some(Rule(Tokenize(line[2..]), true))
    else Some(Rule(Tokenize(line), false))
  }

  /** The loop of `from_str` over a peekable character iterator. */
  method FromStr(line: string) returns (r: Option<Rule>)
    requires line != "!"
    ensures r == Compile(line)
  {
    if line == [] || line[0] == '#' {
      return None;
    }
    var isNegated := line[0] == '!';
    var body := if isNegated then line[2..] else line;
    var pattern: seq<Token> := [];
    var i := 0;
    while i < |body|
      invariant 0 <= i <= |body|
      invariant pattern + Tokenize(body[i..]) == Tokenize(body)
    {
      var tokens, j := ReadToken(body, i);
      assert pattern + (tokens + Tokenize(body[j..])) == (pattern + tokens) + Tokenize(body[j..]);
      pattern, i := pattern + tokens, j;
    }
    assert body[i..] == [] && Tokenize(body[i..]) == [];
    assert pattern + [] == pattern;
    return Some(Rule(pattern, isNegated));
  }

  /** One turn of the `from_str` loop: the token (or, for a trailing lone
      `\\`, nothing) read from the character at `i`, and where reading
      resumes. */
  method ReadToken(body: string, i: nat) returns (tokens: seq<Token>, j: nat)
    requires i < |body|
    ensures i < j <= |body| && Tokenize(body[i..]) == tokens + Tokenize(body[j..])
  {
    ghost var rest := body[i..];
    var c := body[i];
    if c == '\\' {
      if i + 1 < |body| {
        tokens, j := [Literal([body[i + 1]])], i + 2;
      } else {
        tokens, j := [], i + 1;
      }
    } else if c == '/' {
      tokens, j := [Slash], i + 1;
    } else if c == '*' {
      if i + 1 < |body| && body[i + 1] == '*' {
        tokens, j := [DoubleAsterisk], i + 2;
      } else {
        tokens, j := [Asterisk], i + 1;
      }
    } else if c == '?' {
      tokens, j := [QuestionMark], i + 1;
    } else if c == '[' {
      var t;
      assert rest[1..] == body[i + 1..];
      t, j := ReadClass(body, i + 1);
      tokens := [t];
    } else {
      var literal;
      literal, j := ReadLiteral(body, i);
      assert rest[1..] == body[i + 1..];
      assert rest[..j - i] == literal && rest[j - i..] == body[j..];
      tokens := [Literal(literal)];
    }
    TokenizeStep(rest, tokens, body[j..]);
  }

  /** One step of `Tokenize`: the tokens read from the head of `s` and the
      text left after them. */
  lemma TokenizeStep(s: string, tokens: seq<Token>, rest: string)
    requires s != []
    requires s[0] == '\\' ==> (|s| == 1 && tokens == [] && rest == []) || (|s| >= 2 && tokens == [Literal([s[1]])] && rest == s[2..])
    requires s[0] == '/' ==> tokens == [Slash] && rest == s[1..]
    requires s[0] == '*' ==> if |s| >= 2 && s[1] == '*' then tokens == [DoubleAsterisk] && rest == s[2..]
                             else tokens == [Asterisk] && rest == s[1..]
    requires s[0] == '?' ==> tokens == [QuestionMark] && rest == s[1..]
    requires s[0] == '[' ==> |tokens| == 1 && ParseClass(s[1..]) == (tokens[0], rest)
    requires !IsSpecial(s[0]) ==> var n := 1 + PlainRun(s[1..]); tokens == [Literal(s[..n])] && rest == s[n..]
    ensures Tokenize(s) == tokens + Tokenize(rest)
  {
    if s[0] == '\\' || s[0] == '/' || s[0] == '*' || s[0] == '?' {
    } else if s[0] == '[' {
      assert tokens == [tokens[0]];
    } else {
      assert !IsSpecial(s[0]);
    }
  }

  /** The `[` arm: reads the class starting at `i` (just after the `[`). */
  method ReadClass(body: string, i: nat) returns (t: Token, j: nat)
    requires i <= |body|
    ensures i <= j <= |body| && ParseClass(body[i..]) == (t, body[j..])
  {
    j := i;
    var ranges: seq<(char, char)> := [];
    var negated := false;
    if j < |body| && (body[j] == '!' || body[j] == '^') {
      negated := true;
      j := j + 1;
    }
    ghost var start := j;
    var closed := false;
    assert [] + ClassBody(body[j..]).0 == ClassBody(body[j..]).0;
    while j < |body| && !closed
      invariant start <= j <= |body|
      invariant !closed ==> ClassBody(body[start..]) == (ranges + ClassBody(body[j..]).0, ClassBody(body[j..]).1)
      invariant closed ==> ClassBody(body[start..]) == (ranges, body[j..])
    {
      var head, k, c := ClassItem(body, j);
      ghost var after := ClassBody(body[k..]);
      if c {
        assert ranges + [] == ranges;
        closed := true;
      } else {
        assert ClassBody(body[j..]) == (head + after.0, after.1);
        assert ranges + (head + after.0) == (ranges + head) + after.0;
        ranges := ranges + head;
      }
      j := k;
    }
    if !closed {
      assert body[j..] == [];
      assert ranges + ClassBody(body[j..]).0 == ranges;
    }
    if negated {
      assert body[i..][1..] == body[start..];
    }
    t := CharRange(negated, ranges);
  }

  /** One item of a class body at `j`: the closing `]`, a range `a-b`, a
      dangling `a-` at the very end (which yields nothing), or a single
      character. */
  method ClassItem(body: string, j: nat) returns (head: seq<(char, char)>, k: nat, closed: bool)
    requires j < |body|
    ensures j < k <= |body|
    ensures closed <==> body[j] == ']'
    ensures closed ==> ClassBody(body[j..]) == ([], body[k..])
    ensures !closed ==> ClassBody(body[j..]) == (head + ClassBody(body[k..]).0, ClassBody(body[k..]).1)
  {
    var startChar := body[j];
    k := j + 1;
    closed := false;
    head := [];
    if startChar == ']' {
      ClassBodyStep(body[j..], [], body[k..]);
      closed := true;
    } else if k < |body| && body[k] == '-' {
      k := k + 1;
      if k < |body| {
        head := [(startChar, body[k])];
        k := k + 1;
        assert body[j..][3..] == body[k..];
        ClassBodyStep(body[j..], head, body[k..]);
      } else {
        assert body[k..] == [];
        ClassBodyStep(body[j..], [], []);
      }
    } else {
      head := [(startChar, startChar)];
      ClassBodyStep(body[j..], head, body[k..]);
    }
  }

  /** One step of `ClassBody`: the ranges read from the head of `s`; either
      the class closes there (`rest` is what follows the `]`) or reading
      goes on at `rest`. */
  lemma ClassBodyStep(s: string, head: seq<(char, char)>, rest: string)
    requires s != []
    requires s[0] == ']' ==> head == [] && rest == s[1..]
    requires s[0] != ']' && |s| == 2 && s[1] == '-' ==> head == [] && rest == []
    requires s[0] != ']' && |s| >= 3 && s[1] == '-' ==> head == [(s[0], s[2])] && rest == s[3..]
    requires s[0] != ']' && (|s| == 1 || s[1] != '-') ==> head == [(s[0], s[0])] && rest == s[1..]
    ensures s[0] == ']' ==> ClassBody(s) == ([], rest)
    ensures s[0] != ']' ==> ClassBody(s) == (head + ClassBody(rest).0, ClassBody(rest).1)
  {
    if s[0] != ']' && |s| == 2 && s[1] == '-' {
      assert ClassBody(s) == ([], []);
      assert ClassBody(rest) == ([], []);
      assert head + ClassBody(rest).0 == [];
    }
  }

  /** The literal arm: the run starting at `i` up to the next special
      character. */
  method ReadLiteral(body: string, i: nat) returns (literal: string, j: nat)
    requires i < |body|
    ensures j == i + 1 + PlainRun(body[i + 1..]) && j <= |body| && literal == body[i..j]
  {
    literal := [body[i]];
    j := i + 1;
    while j < |body| && !IsSpecial(body[j])
      invariant i < j <= |body|
      invariant literal == body[i..j]
      invariant PlainRun(body[i + 1..]) == (j - i - 1) + PlainRun(body[j..])
    {
      assert body[j..][1..] == body[j + 1..];
      literal := literal + [body[j]];
      j := j + 1;
    }
  }

  // ---------------------------------------------------------------------
  // What the tokenizer produces

  /** A run of ordinary characters is one literal token: nothing is trimmed,
      so a line of spaces is a rule matching that many spaces. */
  lemma PlainTextIsOneLiteral(s: string)
    requires s != [] && forall i :: 0 <= i < |s| ==> !IsSpecial(s[i])
    ensures Tokenize(s) == [Literal(s)]
  {
    PlainRunOfPrefix(s[1..], []);
    assert s[1..] + [] == s[1..];
    assert s[..|s|] == s && s[|s|..] == [];
  }

  /** `PlainRun` stops exactly where the plain text `a` ends when what
      follows starts with a special character. */
  lemma {:induction false} PlainRunOfPrefix(a: string, b: string)
    requires forall i :: 0 <= i < |a| ==> !IsSpecial(a[i])
    requires b == [] || IsSpecial(b[0])
    ensures PlainRun(a + b) == |a|
  {
    if a == [] {
      assert a + b == b;
    } else {
      assert (a + b)[1..] == a[1..] + b;
      PlainRunOfPrefix(a[1..], b);
    }
  }

  /** No trailing-space trimming: a non-empty line of spaces compiles to a
      rule whose one literal is the whole line. */
  lemma BlankLineIsLiteral(line: string)
    requires line != [] && forall i :: 0 <= i < |line| ==> line[i] == ' '
    ensures line != "!" && Compile(line) == Some(Rule([Literal(line)], false))
  {
    PlainTextIsOneLiteral(line);
  }

  /** A leading `!` negates the rule and also loses the character after
      it: `!keep.log` compiles to the negated literal `eep.log`, while
      `keep.log` is the literal `keep.log`. */
  lemma NegationDropsNextChar(c: char, s: string)
    requires s != [] && forall i :: 0 <= i < |s| ==> !IsSpecial(s[i])
    ensures Compile(['!', c] + s) == Some(Rule([Literal(s)], true))
    ensures c != '!' && c != '#' && !IsSpecial(c) ==> Compile([c] + s) == Some(Rule([Literal([c] + s)], false))
  {
    PlainTextIsOneLiteral(s);
    assert (['!', c] + s)[2..] == s;
    if c != '!' && c != '#' && !IsSpecial(c) {
      PlainTextIsOneLiteral([c] + s);
    }
  }

  // ---------------------------------------------------------------------
  // Rendering tokens back to pattern text

  /** The ranges of a class, each written `a-b`. */
  function RangesText(rs: seq<(char, char)>): string
  {
    if rs == [] then "" else [rs[0].0, '-', rs[0].1] + RangesText(rs[1..])
  }

  /** Pattern text for one token: one-character literals are escaped with
      `\\`, longer ones are written as they are. */
  function TokenText(t: Token): string
  {
    match t
    case Literal(l) => if |l| == 1 then ['\\', l[0]] else l
    case Slash => "/"
    case Asterisk => "*"
    case DoubleAsterisk => "**"
    case QuestionMark => "?"
    case CharRange(neg, rs) => "[" + ClassText(neg, rs)
  }

  /** A class after its `[`: `!` when negated, the ranges, then `]`. */
  function ClassText(neg: bool, rs: seq<(char, char)>): string
  {
    (if neg then "!" else "") + RangesText(rs) + "]"
  }

  function Unparse(ts: seq<Token>): string
  {
    if ts == [] then "" else TokenText(ts[0]) + Unparse(ts[1..])
  }

  predicate IsMultiLiteral(t: Token)
  {
    t.Literal? && |t.text| >= 2
  }

  /** The token shapes `Tokenize` can produce. */
  predicate TokenOk(t: Token)
  {
    match t
    case Literal(l) => l != [] && (|l| >= 2 ==> forall i :: 0 <= i < |l| ==> !IsSpecial(l[i]))
    case CharRange(neg, rs) =>
      (forall i :: 0 <= i < |rs| ==> rs[i].0 != ']') &&
      (!neg && rs != [] ==> rs[0].0 != '!' && rs[0].0 != '^')
    case _ => true
  }

  /** The neighbours `Tokenize` can produce: two literal runs are never
      adjacent and `*` is never followed by another asterisk token. */
  predicate FollowOk(t: Token, next: Token)
  {
    (IsMultiLiteral(t) ==> !IsMultiLiteral(next)) &&
    (t == Asterisk ==> next != Asterisk && next != DoubleAsterisk)
  }

  predicate Canonical(ts: seq<Token>)
  {
    (forall i :: 0 <= i < |ts| ==> TokenOk(ts[i])) &&
    (forall i :: 0 <= i < |ts| - 1 ==> FollowOk(ts[i], ts[i + 1]))
  }

  /** Every token list the tokenizer produces is canonical. */
  lemma {:induction false} TokenizeCanonical(s: string)
    ensures Canonical(Tokenize(s))
    decreases |s|
  {
    if s == [] {
      return;
    }
    var ts := Tokenize(s);
    if s[0] == '\\' {
      if |s| >= 2 {
        TokenizeCanonical(s[2..]);
        CanonicalCons(Literal([s[1]]), Tokenize(s[2..]));
      }
    } else if s[0] == '/' {
      TokenizeCanonical(s[1..]);
      CanonicalCons(Slash, Tokenize(s[1..]));
    } else if s[0] == '*' {
      if |s| >= 2 && s[1] == '*' {
        TokenizeCanonical(s[2..]);
        CanonicalCons(DoubleAsterisk, Tokenize(s[2..]));
      } else {
        TokenizeCanonical(s[1..]);
        TokenizeHead(s[1..]);
        CanonicalCons(Asterisk, Tokenize(s[1..]));
      }
    } else if s[0] == '?' {
      TokenizeCanonical(s[1..]);
      CanonicalCons(QuestionMark, Tokenize(s[1..]));
    } else if s[0] == '[' {
      var c := ParseClass(s[1..]);
      ParseClassOk(s[1..]);
      TokenizeCanonical(c.1);
      CanonicalCons(c.0, Tokenize(c.1));
    } else {
      var n := 1 + PlainRun(s[1..]);
      TokenizeCanonical(s[n..]);
      TokenizeHead(s[n..]);
      assert forall i :: 1 <= i < n ==> s[1..][i - 1] == s[i];
      CanonicalCons(Literal(s[..n]), Tokenize(s[n..]));
    }
  }

  lemma CanonicalCons(t: Token, ts: seq<Token>)
    requires TokenOk(t) && Canonical(ts)
    requires ts != [] ==> FollowOk(t, ts[0])
    ensures Canonical([t] + ts)
  {
    var r := [t] + ts;
    forall i | 0 <= i < |r| - 1
      ensures FollowOk(r[i], r[i + 1])
    {
      if i > 0 {
        assert r[i] == ts[i - 1] && r[i + 1] == ts[i];
      }
    }
  }

  /** What the first token of `Tokenize(s)` can be, from `s[0]`. */
  lemma TokenizeHead(s: string)
    ensures s != [] && IsSpecial(s[0]) && Tokenize(s) != [] ==> !IsMultiLiteral(Tokenize(s)[0])
    ensures s != [] && s[0] != '*' && Tokenize(s) != [] ==>
              Tokenize(s)[0] != Asterisk && Tokenize(s)[0] != DoubleAsterisk
  {
  }

  /** The class token `ParseClass` reads has the canonical shape. */
  lemma ParseClassOk(s: string)
    ensures TokenOk(ParseClass(s).0)
  {
    if s != [] && (s[0] == '!' || s[0] == '^') {
      ClassBodyStarts(s[1..]);
    } else {
      ClassBodyStarts(s);
    }
  }

  /** No range read by `ClassBody` starts with `]`, and the first one
      starts with the first character read. */
  lemma {:induction false} ClassBodyStarts(s: string)
    ensures forall i :: 0 <= i < |ClassBody(s).0| ==> ClassBody(s).0[i].0 != ']'
    ensures ClassBody(s).0 != [] ==> ClassBody(s).0[0].0 == s[0]
    decreases |s|
  {
    if s == [] || s[0] == ']' {
    } else if |s| >= 2 && s[1] == '-' {
      if |s| > 2 {
        ClassBodyStarts(s[3..]);
      }
    } else {
      ClassBodyStarts(s[1..]);
    }
  }

  /** The text of a token list starts with the text of its first token:
      a special character unless that token is a literal run, and `*` only
      for an asterisk token. */
  lemma UnparseStart(ts: seq<Token>)
    requires ts != [] && TokenOk(ts[0])
    ensures Unparse(ts) != [] && Unparse(ts)[0] == TokenText(ts[0])[0]
    ensures !IsMultiLiteral(ts[0]) ==> IsSpecial(Unparse(ts)[0])
    ensures Unparse(ts)[0] == '*' ==> ts[0] == Asterisk || ts[0] == DoubleAsterisk
  {
  }

  /** Tokenizing the text of one token followed by `u` gives that token
      first, provided `u` cannot extend it. */
  lemma TokenizeTokenText(t: Token, u: string)
    requires TokenOk(t)
    requires IsMultiLiteral(t) ==> u == [] || IsSpecial(u[0])
    requires t == Asterisk ==> u == [] || u[0] != '*'
    ensures Tokenize(TokenText(t) + u) == [t] + Tokenize(u)
  {
    if t.Literal? {
      TokenizeLiteralText(t.text, u);
    } else if t.CharRange? {
      TokenizeClassText(t.negated, t.ranges, u);
    } else {
      var s := TokenText(t) + u;
      if t == DoubleAsterisk {
        assert s[0] == '*' && s[1] == '*' && s[2..] == u;
      } else {
        assert s[1..] == u;
      }
      TokenizeStep(s, [t], u);
    }
  }

  lemma TokenizeLiteralText(l: string, u: string)
    requires TokenOk(Literal(l))
    requires |l| >= 2 ==> u == [] || IsSpecial(u[0])
    ensures Tokenize(TokenText(Literal(l)) + u) == [Literal(l)] + Tokenize(u)
  {
    var s := TokenText(Literal(l)) + u;
    if |l| == 1 {
      assert s[0] == '\\' && s[1] == l[0] && s[2..] == u && l == [l[0]];
    } else {
      assert s[1..] == l[1..] + u;
      PlainRunOfPrefix(l[1..], u);
      assert s[..|l|] == l && s[|l|..] == u;
      assert !IsSpecial(s[0]);
    }
    TokenizeStep(s, [Literal(l)], u);
  }

  lemma TokenizeClassText(neg: bool, rs: seq<(char, char)>, u: string)
    requires TokenOk(CharRange(neg, rs))
    ensures Tokenize(TokenText(CharRange(neg, rs)) + u) == [CharRange(neg, rs)] + Tokenize(u)
  {
    var s := TokenText(CharRange(neg, rs)) + u;
    ParseClassOfText(neg, rs, u);
    assert s[0] == '[' && s[1..] == ClassText(neg, rs) + u;
    TokenizeStep(s, [CharRange(neg, rs)], u);
  }

  /** Rendering then tokenizing gives back any canonical token list. */
  lemma {:induction false} TokenizeUnparse(ts: seq<Token>)
    requires Canonical(ts)
    ensures Tokenize(Unparse(ts)) == ts
  {
    if ts == [] {
      return;
    }
    var t, rest := ts[0], ts[1..];
    assert Canonical(rest) by {
      forall i | 0 <= i < |rest| - 1 ensures FollowOk(rest[i], rest[i + 1]) {
        assert rest[i] == ts[i + 1] && rest[i + 1] == ts[i + 2];
      }
    }
    TokenizeUnparse(rest);
    assert TokenOk(t);
    if rest != [] {
      assert FollowOk(t, rest[0]);
      UnparseStart(rest);
    }
    TokenizeTokenText(t, Unparse(rest));
    assert [t] + rest == ts;
  }

  lemma ParseClassOfText(neg: bool, rs: seq<(char, char)>, t: string)
    requires TokenOk(CharRange(neg, rs))
    ensures ParseClass(ClassText(neg, rs) + t) == (CharRange(neg, rs), t)
  {
    var body := RangesText(rs) + "]" + t;
    ClassBodyOfText(rs, t);
    if neg {
      assert ClassText(neg, rs) + t == "!" + body;
      assert ("!" + body)[1..] == body;
      assert ParseClass("!" + body) == (CharRange(true, rs), t);
    } else {
      assert ClassText(neg, rs) + t == body;
      ClassTextStart(rs, t);
    }
  }

  /** A class body without `!` does not start with a negation mark. */
  lemma ClassTextStart(rs: seq<(char, char)>, t: string)
    requires rs != [] ==> rs[0].0 != '!' && rs[0].0 != '^'
    ensures var body := RangesText(rs) + "]" + t; body[0] != '!' && body[0] != '^'
  {
    if rs != [] {
      assert (RangesText(rs) + "]" + t)[0] == rs[0].0;
    }
  }

  lemma {:induction false} ClassBodyOfText(rs: seq<(char, char)>, t: string)
    requires forall i :: 0 <= i < |rs| ==> rs[i].0 != ']'
    ensures ClassBody(RangesText(rs) + "]" + t) == (rs, t)
  {
    var s := RangesText(rs) + "]" + t;
    if rs == [] {
      assert s == "]" + t && s[1..] == t;
    } else {
      ClassBodyOfText(rs[1..], t);
      assert s[3..] == RangesText(rs[1..]) + "]" + t;
      assert [(rs[0].0, rs[0].1)] + rs[1..] == rs;
    }
  }

  /** Tokenizing is idempotent through `Unparse`: the text rendered from a
      tokenized line tokenizes to the same tokens. */
  lemma RetokenizeIsStable(s: string)
    ensures Tokenize(Unparse(Tokenize(s))) == Tokenize(s)
  {
    TokenizeCanonical(s);
    TokenizeUnparse(Tokenize(s));
  }
}
