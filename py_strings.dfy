/**
 * The few pieces of Python's `str` that the worktree manager relies on:
 * `str.lower()`, the substring test `sub in s`, `s.startswith(p)` (Dafny's
 * prefix test `p <= s`), `s.split("\n")` and the argument-less `s.split()`.
 */
module PyStrings {

  /** The characters `str.isspace()` accepts, which are the separators of `str.split()`. */
  predicate IsSpace(c: char)
  {
    || c == ' ' || ('\t' <= c <= '\r') || ('\U{1C}' <= c <= '\U{1F}')
    || c == '\U{85}' || c == '\U{A0}' || c == '\U{1680}'
    || ('\U{2000}' <= c <= '\U{200A}') || c == '\U{2028}' || c == '\U{2029}'
    || c == '\U{202F}' || c == '\U{205F}' || c == '\U{3000}'
  }

  predicate NoSpace(s: string)
  {
    forall i :: 0 <= i < |s| ==> !IsSpace(s[i])
  }

  predicate AllSpace(s: string)
  {
    forall i :: 0 <= i < |s| ==> IsSpace(s[i])
  }

  // ---------------------------------------------------------------------------
  // str.lower()
  // ---------------------------------------------------------------------------

  function LowerChar(c: char): char
  {
    if 'A' <= c <= 'Z' then (c as int + 32) as char else c
  }

  /** `s.lower()`, restricted to the ASCII letters. */
  function Lower(s: string): (r: string)
    ensures |r| == |s|
    ensures forall i :: 0 <= i < |s| ==> !('A' <= r[i] <= 'Z')
    ensures forall i :: 0 <= i < |s| && !('A' <= s[i] <= 'Z') ==> r[i] == s[i]
    ensures forall i :: 0 <= i < |s| && 'A' <= s[i] <= 'Z' ==> r[i] as int == s[i] as int + 32
  {
    seq(|s|, i requires 0 <= i < |s| => LowerChar(s[i]))
  }

  /** Lower-casing works character by character, so it distributes over concatenation. */
  lemma LowerAppend(a: string, b: string)
    ensures Lower(a + b) == Lower(a) + Lower(b)
  {
  }

  // ---------------------------------------------------------------------------
  // sub in s
  // ---------------------------------------------------------------------------

  /** Python's `sub in s` on strings: does `sub` occur somewhere in `s`? */
  predicate Contains(s: string, sub: string)
    ensures Contains(s, sub) ==> |sub| <= |s|
    decreases |s|
  {
    sub <= s || (s != [] && Contains(s[1..], sub))
  }

  /** `sub` occurs in `s` starting at index `i`. */
  predicate OccursAt(s: string, sub: string, i: int)
  {
    0 <= i && i + |sub| <= |s| && s[i..i + |sub|] == sub
  }

  /** An occurrence in `s` past its first character is an occurrence in `s[1..]`, one index earlier. */
  lemma OccursAtTail(s: string, sub: string, i: int)
    requires s != [] && 1 <= i
    ensures OccursAt(s, sub, i) <==> OccursAt(s[1..], sub, i - 1)
  {
    if i + |sub| <= |s| {
      assert s[1..][i - 1..i - 1 + |sub|] == s[i..i + |sub|];
    }
  }

  /** `Contains` agrees with the positional definition of an occurrence, in both directions. */
  lemma {:induction false} ContainsIff(s: string, sub: string)
    ensures Contains(s, sub) <==> exists i :: OccursAt(s, sub, i)
    decreases |s|
  {
    if sub <= s {
      assert OccursAt(s, sub, 0);
    } else if s != [] {
      ContainsIff(s[1..], sub);
      if i :| OccursAt(s[1..], sub, i) {
        OccursAtTail(s, sub, i + 1);
      }
      if i :| OccursAt(s, sub, i) {
        assert i != 0;
        OccursAtTail(s, sub, i);
      }
    }
  }

  /** Text in which some character of `sub` never appears cannot contain `sub`. */
  lemma MissingCharNotContained(s: string, sub: string, j: int)
    requires 0 <= j < |sub| && sub[j] !in s
    ensures !Contains(s, sub)
  {
  }

  // ---------------------------------------------------------------------------
  // s.split(sep) with a one-character separator, and its inverse sep.join(ps)
  // ---------------------------------------------------------------------------

  /**
   * `s.split(sep)`: the pieces between consecutive separators, empty pieces
   * included, so that there is always one piece more than there are separators.
   */
  function SplitOn(s: string, sep: char): (r: seq<string>)
    ensures |r| == Count(s, sep) + 1
    ensures forall k :: 0 <= k < |r| ==> sep !in r[k]
    decreases |s|
  {
    if s == [] then [[]]
    else
      var rest := SplitOn(s[1..], sep);
      if s[0] == sep then [[]] + rest
      else [[s[0]] + rest[0]] + rest[1..]
  }

  function Count(s: string, c: char): nat
    decreases |s|
  {
    if s == [] then 0 else (if s[0] == c then 1 else 0) + Count(s[1..], c)
  }

  /** `sep.join(ps)`. */
  function Join(ps: seq<string>, sep: char): string
    decreases |ps|
  {
    if |ps| == 0 then []
    else if |ps| == 1 then ps[0]
    else ps[0] + [sep] + Join(ps[1..], sep)
  }

  /** Joining after an empty first piece puts a separator in front. */
  lemma JoinEmptyHead(rest: seq<string>, sep: char)
    requires |rest| >= 1
    ensures Join([[]] + rest, sep) == [sep] + Join(rest, sep)
  {
    assert ([[]] + rest)[1..] == rest;
  }

  /** Joining after a character is prefixed to the first piece puts that character in front. */
  lemma JoinConsHead(c: char, rest: seq<string>, sep: char)
    requires |rest| >= 1
    ensures Join([[c] + rest[0]] + rest[1..], sep) == [c] + Join(rest, sep)
  {
    var r := [[c] + rest[0]] + rest[1..];
    if |rest| > 1 {
      assert r[1..] == rest[1..];
    }
  }

  /** Joining the pieces of a split gives back the original text. */
  lemma {:induction false} JoinSplitOn(s: string, sep: char)
    ensures Join(SplitOn(s, sep), sep) == s
    decreases |s|
  {
    if s != [] {
      JoinSplitOn(s[1..], sep);
      if s[0] == sep {
        JoinEmptyHead(SplitOn(s[1..], sep), sep);
      } else {
        JoinConsHead(s[0], SplitOn(s[1..], sep), sep);
      }
      assert s == [s[0]] + s[1..];
    }
  }

  /** Conversely, splitting a join of separator-free pieces gives back the pieces. */
  lemma {:induction false} SplitOnJoin(ps: seq<string>, sep: char)
    requires |ps| >= 1
    requires forall k :: 0 <= k < |ps| ==> sep !in ps[k]
    ensures SplitOn(Join(ps, sep), sep) == ps
    decreases |ps|
  {
    if |ps| == 1 {
      SplitOnFree(ps[0], sep);
    } else {
      SplitOnJoin(ps[1..], sep);
      SplitOnAfter(ps[0], sep, Join(ps[1..], sep));
      assert Join(ps, sep) == ps[0] + ([sep] + Join(ps[1..], sep));
      assert [ps[0]] + ps[1..] == ps;
    }
  }

  /** A separator-free text splits into itself. */
  lemma {:induction false} SplitOnFree(s: string, sep: char)
    requires sep !in s
    ensures SplitOn(s, sep) == [s]
    decreases |s|
  {
    if s != [] {
      assert sep !in s[1..];
      SplitOnFree(s[1..], sep);
      assert [s[0]] + s[1..] == s;
    }
  }

  /** A separator-free head followed by a separator becomes the first piece. */
  lemma {:induction false} SplitOnAfter(head: string, sep: char, tail: string)
    requires sep !in head
    ensures SplitOn(head + [sep] + tail, sep) == [head] + SplitOn(tail, sep)
    decreases |head|
  {
    var s := head + [sep] + tail;
    if head == [] {
      assert s[1..] == tail;
    } else {
      assert s[1..] == head[1..] + [sep] + tail;
      assert sep !in head[1..];
      SplitOnAfter(head[1..], sep, tail);
      assert [head[0]] + head[1..] == head;
    }
  }

  // ---------------------------------------------------------------------------
  // s.split() with no argument
  // ---------------------------------------------------------------------------

  /** Length of the run of non-space characters that starts `s`. */
  function WordLength(s: string): (n: nat)
    ensures n <= |s|
    ensures NoSpace(s[..n])
    ensures n < |s| ==> IsSpace(s[n])
    decreases |s|
  {
    if s == [] || IsSpace(s[0]) then 0 else 1 + WordLength(s[1..])
  }

  /**
   * `s.split()`: the maximal runs of non-space characters, in order; runs of
   * whitespace of any length separate tokens and never yield an empty token.
   */
  function Tokens(s: string): (r: seq<string>)
    ensures forall k :: 0 <= k < |r| ==> r[k] != [] && NoSpace(r[k])
    decreases |s|
  {
    if s == [] then []
    else if IsSpace(s[0]) then Tokens(s[1..])
    else
      var n := WordLength(s);
      [s[..n]] + Tokens(s[n..])
  }

  function Concat(ps: seq<string>): string
    decreases |ps|
  {
    if ps == [] then [] else ps[0] + Concat(ps[1..])
  }

  /** `s` with every whitespace character dropped. */
  function Squeeze(s: string): string
    decreases |s|
  {
    if s == [] then [] else (if IsSpace(s[0]) then [] else [s[0]]) + Squeeze(s[1..])
  }

  lemma {:induction false} SqueezeAppend(a: string, b: string)
    ensures Squeeze(a + b) == Squeeze(a) + Squeeze(b)
    decreases |a|
  {
    if a != [] {
      assert (a + b)[1..] == a[1..] + b;
      SqueezeAppend(a[1..], b);
    } else {
      assert a + b == b;
    }
  }

  lemma {:induction false} SqueezeNoSpace(s: string)
    requires NoSpace(s)
    ensures Squeeze(s) == s
    decreases |s|
  {
    if s != [] {
      SqueezeNoSpace(s[1..]);
      assert [s[0]] + s[1..] == s;
    }
  }

  /** The tokens, glued together, are exactly the non-space characters of `s`. */
  lemma {:induction false} ConcatTokens(s: string)
    ensures Concat(Tokens(s)) == Squeeze(s)
    decreases |s|
  {
    if s != [] {
      if IsSpace(s[0]) {
        ConcatTokens(s[1..]);
      } else {
        var n := WordLength(s);
        ConcatTokens(s[n..]);
        assert s == s[..n] + s[n..];
        SqueezeAppend(s[..n], s[n..]);
        SqueezeNoSpace(s[..n]);
        assert ([s[..n]] + Tokens(s[n..]))[1..] == Tokens(s[n..]);
      }
    }
  }

  /** `s` is `before`, then the token `last`, then nothing but whitespace. */
  predicate EndsWithToken(s: string, before: string, last: string, after: string)
  {
    && s == before + last + after
    && AllSpace(after)
    && (before == [] || IsSpace(before[|before| - 1]))
  }

  /** Text put in front keeps the decomposition, provided the token still follows whitespace or nothing. */
  lemma EndsWithTokenPrefix(p: string, t: string, before: string, last: string, after: string)
    requires EndsWithToken(t, before, last, after)
    requires before != [] || p == [] || IsSpace(p[|p| - 1])
    ensures EndsWithToken(p + t, p + before, last, after)
  {
    assert p + t == (p + before) + last + after;
    if before != [] {
      assert (p + before)[|p + before| - 1] == before[|before| - 1];
    }
  }

  /**
   * What `parts[-1]` is: when `s` has a token, `s` is some text ending in
   * whitespace (or nothing), then the last token, then only whitespace.
   */
  lemma {:induction false} LastTokenEndsText(s: string) returns (before: string, after: string)
    requires Tokens(s) != []
    ensures EndsWithToken(s, before, Tokens(s)[|Tokens(s)| - 1], after)
    decreases |s|
  {
    if IsSpace(s[0]) {
      var b, a := LastTokenEndsText(s[1..]);
      assert s == [s[0]] + s[1..];
      EndsWithTokenPrefix([s[0]], s[1..], b, Tokens(s)[|Tokens(s)| - 1], a);
      before, after := [s[0]] + b, a;
    } else {
      before, after := LastTokenAfterWord(s);
    }
  }

  /** The case of `LastTokenEndsText` where `s` starts with a word. */
  lemma {:induction false} LastTokenAfterWord(s: string) returns (before: string, after: string)
    requires s != [] && !IsSpace(s[0])
    ensures Tokens(s) != []
    ensures EndsWithToken(s, before, Tokens(s)[|Tokens(s)| - 1], after)
    decreases |s|, 0
  {
    var n := WordLength(s);
    var word, rest := s[..n], s[n..];
    assert s == word + rest;
    assert Tokens(s) == [word] + Tokens(rest);
    if Tokens(rest) == [] {
      TokensEmptyIff(rest);
      assert s == [] + word + rest;
      before, after := [], rest;
    } else {
      var last := Tokens(rest)[|Tokens(rest)| - 1];
      assert Tokens(s)[|Tokens(s)| - 1] == last;
      var b, a := LastTokenEndsText(rest);
      assert b != [];
      EndsWithTokenPrefix(word, rest, b, last, a);
      before, after := word + b, a;
    }
  }

  /** A text has no tokens exactly when it is all whitespace. */
  lemma {:induction false} TokensEmptyIff(s: string)
    ensures Tokens(s) == [] <==> AllSpace(s)
    decreases |s|
  {
    if s != [] {
      TokensEmptyIff(s[1..]);
      if AllSpace(s[1..]) && IsSpace(s[0]) {
        assert AllSpace(s);
      }
    }
  }

  /**
   * Whitespace, then a word, then nothing or whitespace: the word is the first
   * token, whole, and the rest is tokenised on its own.
   */
  lemma {:induction false} TokensLeadingWord(space: string, w: string, rest: string)
    requires AllSpace(space) && w != [] && NoSpace(w)
    requires rest == [] || IsSpace(rest[0])
    ensures Tokens(space + w + rest) == [w] + Tokens(rest)
    decreases |space|
  {
    var s := space + w + rest;
    if space == [] {
      assert s == w + rest;
      WordLengthOfWord(w, rest);
      assert s[..|w|] == w && s[|w|..] == rest;
    } else {
      assert s[0] == space[0];
      assert s[1..] == space[1..] + w + rest;
      TokensLeadingWord(space[1..], w, rest);
    }
  }

  /** `gaps[0] + words[0] + gaps[1] + ... + words[n - 1] + gaps[n]`. */
  function Interleave(gaps: seq<string>, words: seq<string>): string
    requires |gaps| == |words| + 1
    decreases |words|
  {
    if words == [] then gaps[0] else gaps[0] + words[0] + Interleave(gaps[1..], words[1..])
  }

  /**
   * `split()` gives back the words of a text however long its whitespace
   * runs are: words separated by non-empty runs, with optional whitespace
   * before the first and after the last, split into exactly those words.
   */
  lemma {:induction false} TokensInterleave(gaps: seq<string>, words: seq<string>)
    requires |gaps| == |words| + 1
    requires forall k :: 0 <= k < |gaps| ==> AllSpace(gaps[k])
    requires forall k :: 0 < k < |words| ==> gaps[k] != []
    requires forall k :: 0 <= k < |words| ==> words[k] != [] && NoSpace(words[k])
    ensures Tokens(Interleave(gaps, words)) == words
    decreases |words|
  {
    if words == [] {
      TokensEmptyIff(gaps[0]);
    } else {
      var rest := Interleave(gaps[1..], words[1..]);
      TokensInterleave(gaps[1..], words[1..]);
      if |words| > 1 {
        assert gaps[1] != [] && IsSpace(gaps[1][0]);
        assert rest == gaps[1] + (words[1] + Interleave(gaps[2..], words[2..]));
        assert rest[0] == gaps[1][0];
      } else {
        assert rest == gaps[1];
      }
      TokensLeadingWord(gaps[0], words[0], rest);
      assert [words[0]] + words[1..] == words;
    }
  }

  /** A word with no whitespace is its own single token. */
  lemma TokensOfWord(w: string)
    requires w != [] && NoSpace(w)
    ensures Tokens(w) == [w]
  {
    TokensLeadingWord([], w, []);
    assert [] + w + [] == w;
  }

  /** A word followed by a space is the first token; the rest is tokenised on its own. */
  lemma TokensWordThenSpace(w: string, rest: string)
    requires w != [] && NoSpace(w)
    ensures Tokens(w + " " + rest) == [w] + Tokens(rest)
  {
    TokensLeadingWord([], w, " " + rest);
    assert [] + w + (" " + rest) == w + " " + rest;
    assert (" " + rest)[1..] == rest;
  }

  lemma {:induction false} WordLengthOfWord(w: string, tail: string)
    requires NoSpace(w)
    requires tail == [] || IsSpace(tail[0])
    ensures WordLength(w + tail) == |w|
    decreases |w|
  {
    if w != [] {
      assert (w + tail)[1..] == w[1..] + tail;
      WordLengthOfWord(w[1..], tail);
    } else {
      assert w + tail == tail;
    }
  }

  /** Five words separated by single spaces split into exactly those five tokens. */
  lemma TokensOfFiveWords(a: string, b: string, c: string, d: string, e: string)
    requires a != [] && NoSpace(a) && b != [] && NoSpace(b) && c != [] && NoSpace(c)
    requires d != [] && NoSpace(d) && e != [] && NoSpace(e)
    ensures Tokens(a + " " + (b + " " + (c + " " + (d + " " + e)))) == [a, b, c, d, e]
  {
    TokensOfWord(e);
    TokensWordThenSpace(d, e);
    TokensWordThenSpace(c, d + " " + e);
    TokensWordThenSpace(b, c + " " + (d + " " + e));
    TokensWordThenSpace(a, b + " " + (c + " " + (d + " " + e)));
  }
}
