/** Small shared vocabulary: Option/Result and the string operations the
    source takes from Rust's `str` (prefix tests, `contains`, `replace`,
    `join`, ASCII lowercasing). */
module Common {

  datatype Option<+T> = None | Some(value: T)

  datatype Result<+T, +E> = Ok(value: T) | Err(error: E)

  /** `xs.join(sep)` */
  function Join(xs: seq<string>, sep: string): string
  {
    if xs == [] then ""
    else if |xs| == 1 then xs[0]
    else xs[0] + sep + Join(xs[1..], sep)
  }

  /** `char::to_lowercase` restricted to ASCII letters; every other
      character is left as it is. */
  function Lower(c: char): char
  {
    if 'A' <= c <= 'Z' then (c as int + 32) as char else c
  }

  function LowerStr(s: string): (r: string)
    ensures |r| == |s|
    ensures forall i :: 0 <= i < |s| ==> r[i] == Lower(s[i])
  {
    if s == [] then [] else [Lower(s[0])] + LowerStr(s[1..])
  }

  /** Lowercasing leaves text without capital letters unchanged. */
  lemma LowerStrOfLowercase(s: string)
    requires forall i :: 0 <= i < |s| ==> !('A' <= s[i] <= 'Z')
    ensures LowerStr(s) == s
  {
  }

  /** `s.contains(pat)` */
  predicate Contains(s: string, pat: string)
    decreases |s|
  {
    if pat <= s then true
    else if s == [] then false
    else Contains(s[1..], pat)
  }

  /** `s.replace(pat, rep)`: every non-overlapping occurrence of `pat`,
      scanned from the left, is replaced by `rep`. */
  function Replace(s: string, pat: string, rep: string): string
    requires pat != []
    decreases |s|
  {
    if |s| < |pat| then s
    else if s[..|pat|] == pat then rep + Replace(s[|pat|..], pat, rep)
    else [s[0]] + Replace(s[1..], pat, rep)
  }

  /** Replacing a pattern that does not occur leaves the string unchanged. */
  lemma {:induction false} ReplaceAbsent(s: string, pat: string, rep: string)
    requires pat != [] && !Contains(s, pat)
    ensures Replace(s, pat, rep) == s
    decreases |s|
  {
    if |s| >= |pat| {
      ReplaceAbsent(s[1..], pat, rep);
    }
  }

  /** Text holding no first character of `pat` cannot hold an occurrence
      starting inside it: the search moves past it unchanged. */
  lemma {:induction false} ContainsAfterPlain(pre: string, s: string, pat: string)
    requires pat != [] && pat[0] !in pre
    ensures Contains(pre + s, pat) == Contains(s, pat)
    decreases |pre|
  {
    if pre != [] {
      assert !(pat <= pre + s) by {
        assert (pre + s)[0] == pre[0];
      }
      assert (pre + s)[1..] == pre[1..] + s;
      ContainsAfterPlain(pre[1..], s, pat);
    } else {
      assert pre + s == s;
    }
  }

  /** Replacing in text whose plain prefix holds no first character of
      `pat` copies that prefix and goes on after it. */
  lemma {:induction false} ReplaceAfterPlain(pre: string, s: string, pat: string, rep: string)
    requires pat != [] && pat[0] !in pre
    ensures Replace(pre + s, pat, rep) == pre + Replace(s, pat, rep)
    decreases |pre|
  {
    if pre != [] {
      var t := pre + s;
      assert t[1..] == pre[1..] + s;
      ReplaceAfterPlain(pre[1..], s, pat, rep);
      if |t| >= |pat| {
        assert t[..|pat|] != pat by {
          assert t[0] == pre[0];
        }
      }
      assert [pre[0]] + pre[1..] == pre;
    } else {
      assert pre + s == s;
    }
  }

  /** An occurrence of `pat` after a prefix holding no first character of
      `pat` is the first one found: the prefix is kept, the occurrence
      becomes `rep` and replacing goes on in what follows. */
  lemma ReplaceEmbedded(pre: string, pat: string, post: string, rep: string)
    requires pat != [] && pat[0] !in pre
    ensures Contains(pre + pat + post, pat)
    ensures Replace(pre + pat + post, pat, rep) == pre + rep + Replace(post, pat, rep)
  {
    assert pre + pat + post == pre + (pat + post);
    ContainsAfterPlain(pre, pat + post, pat);
    assert pat <= pat + post;
    ReplaceAfterPlain(pre, pat + post, pat, rep);
    ReplaceAtStart(pat, post, rep);
  }

  /** A pattern at the very start of the string is replaced there. */
  lemma ReplaceAtStart(pat: string, rest: string, rep: string)
    requires pat != []
    ensures Replace(pat + rest, pat, rep) == rep + Replace(rest, pat, rep)
  {
    assert (pat + rest)[..|pat|] == pat;
    assert (pat + rest)[|pat|..] == rest;
  }
}
