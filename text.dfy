/**
 * The string operations the synchronizer relies on: `str::split_whitespace` (for the
 * extra rsync parameters), `[&str]::join` (for the file list), and splitting at a
 * separator, which is how a reader of the file list or of a rendered path recovers
 * its parts.
 */
module Text {

  /** Rust's `char::is_whitespace`: the characters with the Unicode White_Space property. */
  predicate IsWhitespace(c: char) {
    || ('\t' <= c <= '\r')
    || c == ' '
    || c == '\U{85}'
    || c == '\U{A0}'
    || c == '\U{1680}'
    || ('\U{2000}' <= c <= '\U{200A}')
    || c == '\U{2028}'
    || c == '\U{2029}'
    || c == '\U{202F}'
    || c == '\U{205F}'
    || c == '\U{3000}'
  }

  predicate NoWhitespace(s: string) {
    forall i :: 0 <= i < |s| ==> !IsWhitespace(s[i])
  }

  /** The characters of `s` that are not whitespace, in order. */
  function NonWhitespace(s: string): string
    decreases |s|
  {
    if s == [] then []
    else if IsWhitespace(s[0]) then NonWhitespace(s[1..])
    else [s[0]] + NonWhitespace(s[1..])
  }

  /** Concatenation of a sequence of strings. */
  function Concat(ss: seq<string>): string
    decreases |ss|
  {
    if ss == [] then [] else ss[0] + Concat(ss[1..])
  }

  /** Length of the longest prefix of `s` that holds no whitespace. */
  function TokenLength(s: string): (n: nat)
    ensures n <= |s|
    ensures forall i :: 0 <= i < n ==> !IsWhitespace(s[i])
    ensures n < |s| ==> IsWhitespace(s[n])
    decreases |s|
  {
    if s == [] || IsWhitespace(s[0]) then 0 else 1 + TokenLength(s[1..])
  }

  /**
   * `str::split_whitespace`: the maximal runs of non-whitespace characters of `s`,
   * in order. Every token is non-empty and free of whitespace.
   */
  function SplitWhitespace(s: string): (tokens: seq<string>)
    ensures forall k :: 0 <= k < |tokens| ==> tokens[k] != [] && NoWhitespace(tokens[k])
    decreases |s|
  {
    if s == [] then []
    else if IsWhitespace(s[0]) then SplitWhitespace(s[1..])
    else
      var n := TokenLength(s);
      [s[..n]] + SplitWhitespace(s[n..])
  }

  /** `[&str]::join` with a one-character separator: the separator goes between parts only. */
  function Join(sep: char, parts: seq<string>): (j: string)
    ensures |parts| == 0 ==> j == []
    ensures |parts| >= 1 ==> |j| == |Concat(parts)| + |parts| - 1
    ensures |parts| >= 1 ==> j[..|parts[0]|] == parts[0]
    decreases |parts|
  {
    if |parts| == 0 then []
    else if |parts| == 1 then parts[0]
    else parts[0] + [sep] + Join(sep, parts[1..])
  }

  /** Index of the first occurrence of `c` in `s`. */
  function IndexOf(c: char, s: string): (i: nat)
    requires c in s
    ensures i < |s| && s[i] == c && c !in s[..i]
    decreases |s|
  {
    if s[0] == c then 0 else 1 + IndexOf(c, s[1..])
  }

  /** `str::split` at a one-character separator: always at least one part. */
  function SplitOn(sep: char, s: string): (parts: seq<string>)
    ensures |parts| >= 1
    ensures forall k :: 0 <= k < |parts| ==> sep !in parts[k]
    decreases |s|
  {
    if sep !in s then [s]
    else
      var i := IndexOf(sep, s);
      [s[..i]] + SplitOn(sep, s[i + 1..])
  }

  /** Number of occurrences of `c` in `s`. */
  function Count(c: char, s: string): nat
    decreases |s|
  {
    if s == [] then 0 else (if s[0] == c then 1 else 0) + Count(c, s[1..])
  }

  predicate Free(c: char, parts: seq<string>) {
    forall k :: 0 <= k < |parts| ==> c !in parts[k]
  }

  // ---------------------------------------------------------------------------
  // split_whitespace

  lemma {:induction false} TokenLengthOfToken(t: string, rest: string)
    requires NoWhitespace(t)
    requires rest == [] || IsWhitespace(rest[0])
    ensures TokenLength(t + rest) == |t|
    decreases |t|
  {
    if t != [] {
      assert (t + rest)[1..] == t[1..] + rest;
      TokenLengthOfToken(t[1..], rest);
    } else {
      assert t + rest == rest;
    }
  }

  lemma {:induction false} SplitLeadingWhitespace(w: string, rest: string)
    requires forall i :: 0 <= i < |w| ==> IsWhitespace(w[i])
    ensures SplitWhitespace(w + rest) == SplitWhitespace(rest)
    decreases |w|
  {
    if w != [] {
      assert (w + rest)[1..] == w[1..] + rest;
      SplitLeadingWhitespace(w[1..], rest);
    } else {
      assert w + rest == rest;
    }
  }

  /**
   * Round trip: joining whitespace-free non-empty tokens with a space and splitting
   * the result at whitespace gives the tokens back.
   */
  lemma {:induction false} SplitWhitespaceOfJoin(tokens: seq<string>)
    requires forall k :: 0 <= k < |tokens| ==> tokens[k] != [] && NoWhitespace(tokens[k])
    ensures SplitWhitespace(Join(' ', tokens)) == tokens
    decreases |tokens|
  {
    if |tokens| == 0 {
    } else if |tokens| == 1 {
      var t := tokens[0];
      TokenLengthOfToken(t, []);
      assert t + [] == t;
      assert t[|t|..] == [];
      assert t[..|t|] == t;
    } else {
      var t, rest := tokens[0], Join(' ', tokens[1..]);
      var s := t + ([' '] + rest);
      assert Join(' ', tokens) == s;
      TokenLengthOfToken(t, [' '] + rest);
      assert s[..|t|] == t;
      assert s[|t|..] == [' '] + rest;
      SplitLeadingWhitespace([' '], rest);
      SplitWhitespaceOfJoin(tokens[1..]);
      assert tokens == [t] + tokens[1..];
    }
  }

  lemma {:induction false} NonWhitespaceAppend(a: string, b: string)
    ensures NonWhitespace(a + b) == NonWhitespace(a) + NonWhitespace(b)
    decreases |a|
  {
    if a != [] {
      assert (a + b)[1..] == a[1..] + b;
      NonWhitespaceAppend(a[1..], b);
    } else {
      assert a + b == b;
    }
  }

  lemma {:induction false} NonWhitespaceOfToken(t: string)
    requires NoWhitespace(t)
    ensures NonWhitespace(t) == t
    decreases |t|
  {
    if t != [] {
      NonWhitespaceOfToken(t[1..]);
      assert t == [t[0]] + t[1..];
    }
  }

  /** A string that starts with a token splits into that token and the split of the rest. */
  lemma SplitWhitespaceAtToken(s: string)
    requires s != [] && !IsWhitespace(s[0])
    ensures var n := TokenLength(s);
            SplitWhitespace(s) == [s[..n]] + SplitWhitespace(s[n..])
  {
  }

  /**
   * No non-whitespace character is lost or reordered: the tokens, concatenated,
   * are exactly the non-whitespace characters of the input.
   */
  lemma {:induction false} SplitWhitespaceKeepsText(s: string)
    ensures Concat(SplitWhitespace(s)) == NonWhitespace(s)
    decreases |s|
  {
    if s == [] {
    } else if IsWhitespace(s[0]) {
      SplitWhitespaceKeepsText(s[1..]);
    } else {
      var n := TokenLength(s);
      var token, rest := s[..n], s[n..];
      SplitWhitespaceAtToken(s);
      var tokens := [token] + SplitWhitespace(rest);
      assert tokens[0] == token && tokens[1..] == SplitWhitespace(rest);
      assert Concat(tokens) == token + Concat(SplitWhitespace(rest));
      SplitWhitespaceKeepsText(rest);
      assert s == token + rest;
      NonWhitespaceAppend(token, rest);
      NonWhitespaceOfToken(token);
    }
  }

  /** `s` is cut at the end of its first token when whitespace follows that token. */
  lemma {:induction false} TokenLengthAppend(s: string, rest: string)
    requires TokenLength(s) < |s| || (rest != [] && IsWhitespace(rest[0]))
    ensures TokenLength(s + rest) == TokenLength(s)
    decreases |s|
  {
    if s == [] {
      assert s + rest == rest;
    } else if !IsWhitespace(s[0]) {
      assert (s + rest)[1..] == s[1..] + rest;
      TokenLengthAppend(s[1..], rest);
    }
  }

  /** A non-empty whitespace-free string is one token. */
  lemma SplitWhitespaceOfToken(t: string)
    requires t != [] && NoWhitespace(t)
    ensures SplitWhitespace(t) == [t]
  {
    TokenLengthOfToken(t, []);
    assert t + [] == t;
    assert t[|t|..] == [];
    assert t[..|t|] == t;
  }

  /**
   * Every whitespace character separates tokens: splitting around any one of them
   * splits each side on its own, so no token spans a whitespace character and no
   * two tokens are merged.
   */
  lemma {:induction false} SplitWhitespaceAt(a: string, w: char, b: string)
    requires IsWhitespace(w)
    ensures SplitWhitespace(a + [w] + b) == SplitWhitespace(a) + SplitWhitespace(b)
    decreases |a|
  {
    if a == [] {
      SplitLeadingWhitespace([w], b);
      assert a + [w] + b == [w] + b;
    } else if IsWhitespace(a[0]) {
      DropLeadingWhitespace(a, [w] + b);
      assert a + [w] + b == a + ([w] + b);
      assert a[1..] + ([w] + b) == a[1..] + [w] + b;
      SplitWhitespaceAt(a[1..], w, b);
    } else {
      var n := TokenLength(a);
      SplitWhitespaceAtTokenEnd(a, [w] + b);
      SplitWhitespaceAtToken(a);
      assert a + [w] + b == a + ([w] + b);
      assert a[n..] + ([w] + b) == a[n..] + [w] + b;
      SplitWhitespaceAt(a[n..], w, b);
    }
  }

  /** A leading whitespace character is skipped, with or without what follows. */
  lemma DropLeadingWhitespace(a: string, rest: string)
    requires a != [] && IsWhitespace(a[0])
    ensures SplitWhitespace(a) == SplitWhitespace(a[1..])
    ensures SplitWhitespace(a + rest) == SplitWhitespace(a[1..] + rest)
  {
    assert (a + rest)[1..] == a[1..] + rest;
  }

  /** Splitting `a + rest`, where whitespace ends `a`'s first token, starts with that token. */
  lemma SplitWhitespaceAtTokenEnd(a: string, rest: string)
    requires a != [] && !IsWhitespace(a[0])
    requires rest != [] && IsWhitespace(rest[0])
    ensures var n := TokenLength(a);
            SplitWhitespace(a + rest) == [a[..n]] + SplitWhitespace(a[n..] + rest)
  {
    var n := TokenLength(a);
    var s := a + rest;
    assert s[..n] == a[..n] && s[n..] == a[n..] + rest by {
      assert n <= |a|;
    }
    TokenLengthAppend(a, rest);
    SplitWhitespaceAtToken(s);
  }

  // ---------------------------------------------------------------------------
  // join and split

  lemma {:induction false} IndexOfPrefix(sep: char, a: string, b: string)
    requires sep !in a
    ensures sep in a + [sep] + b && IndexOf(sep, a + [sep] + b) == |a|
    decreases |a|
  {
    var s := a + [sep] + b;
    assert s[|a|] == sep;
    if a != [] {
      assert s[1..] == a[1..] + [sep] + b;
      IndexOfPrefix(sep, a[1..], b);
    }
  }

  /** Splitting at the first separator after a separator-free part. */
  lemma SplitOnFirst(sep: char, a: string, b: string)
    requires sep !in a
    ensures SplitOn(sep, a + [sep] + b) == [a] + SplitOn(sep, b)
  {
    var s := a + [sep] + b;
    IndexOfPrefix(sep, a, b);
    assert s[..|a|] == a;
    assert s[|a| + 1..] == b;
  }

  /**
   * Round trip: splitting a join at its separator gives the parts back, provided
   * there is at least one part and no part contains the separator.
   */
  lemma {:induction false} SplitOnJoin(sep: char, parts: seq<string>)
    requires |parts| >= 1
    requires Free(sep, parts)
    ensures SplitOn(sep, Join(sep, parts)) == parts
    decreases |parts|
  {
    if |parts| > 1 {
      assert Join(sep, parts) == parts[0] + [sep] + Join(sep, parts[1..]);
      SplitOnFirst(sep, parts[0], Join(sep, parts[1..]));
      SplitOnJoin(sep, parts[1..]);
      assert parts == [parts[0]] + parts[1..];
    }
  }

  lemma {:induction false} CountAppend(c: char, a: string, b: string)
    ensures Count(c, a + b) == Count(c, a) + Count(c, b)
    decreases |a|
  {
    if a != [] {
      assert (a + b)[1..] == a[1..] + b;
      CountAppend(c, a[1..], b);
    } else {
      assert a + b == b;
    }
  }

  lemma {:induction false} CountAbsent(c: char, s: string)
    requires c !in s
    ensures Count(c, s) == 0
    decreases |s|
  {
    if s != [] {
      assert c !in s[1..] by {
        forall i | 0 <= i < |s[1..]| ensures s[1..][i] != c {
          assert s[1..][i] == s[i + 1];
        }
      }
      CountAbsent(c, s[1..]);
    }
  }

  /** A join of `n` separator-free parts holds exactly `n - 1` separators. */
  lemma {:induction false} CountInJoin(sep: char, parts: seq<string>)
    requires |parts| >= 1
    requires Free(sep, parts)
    ensures Count(sep, Join(sep, parts)) == |parts| - 1
    decreases |parts|
  {
    CountAbsent(sep, parts[0]);
    if |parts| > 1 {
      var a, b := parts[0], Join(sep, parts[1..]);
      CountAppend(sep, a + [sep], b);
      CountAppend(sep, a, [sep]);
      CountInJoin(sep, parts[1..]);
    }
  }

  /** A character that is neither the separator nor in any part does not occur in the join. */
  lemma {:induction false} JoinFree(sep: char, c: char, parts: seq<string>)
    requires c != sep
    requires Free(c, parts)
    ensures c !in Join(sep, parts)
    decreases |parts|
  {
    if |parts| > 1 {
      JoinFree(sep, c, parts[1..]);
      var a, b := parts[0], Join(sep, parts[1..]);
      assert a + [sep] + b == a + ([sep] + b);
    }
  }

  /** The join ends with the last part: the separator is never trailing when that part is non-empty. */
  lemma {:induction false} JoinEndsWithLast(sep: char, parts: seq<string>)
    requires |parts| >= 1
    ensures |Join(sep, parts)| >= |parts[|parts| - 1]|
    ensures var j := Join(sep, parts); var last := parts[|parts| - 1];
            j[|j| - |last|..] == last
    decreases |parts|
  {
    if |parts| > 1 {
      JoinEndsWithLast(sep, parts[1..]);
    }
  }
}
