/**
 * String helpers of menu/search.go. Go strings are byte strings; here a string
 * is its sequence of code points, and the places where the Go code looks at
 * bytes (the length of a query word, byte-wise `<`) are written out.
 */
module MenuText {

  /** Number of bytes of the UTF-8 encoding of one code point. */
  function Utf8Width(c: char): (n: nat)
    ensures 1 <= n <= 4
  {
    if c as int < 0x80 then 1
    else if c as int < 0x800 then 2
    else if c as int < 0x10000 then 3
    else 4
  }

  /** Go's `len(s)`: the number of bytes of the UTF-8 encoding of s. */
  function Utf8Len(s: string): (n: nat)
    ensures |s| <= n <= 4 * |s|
  {
    if s == [] then 0 else Utf8Width(s[0]) + Utf8Len(s[1..])
  }

  /** `strings.HasPrefix(s, p)`; byte prefix and code-point prefix coincide
      for UTF-8 encoded strings. */
  predicate IsPrefix(p: string, s: string) {
    |p| <= |s| && s[..|p|] == p
  }

  /** Go's `a < b` on strings: lexicographic by byte, which for UTF-8 encoded
      strings is lexicographic by code point. */
  predicate StrLess(a: string, b: string) {
    if a == [] then b != []
    else if b == [] then false
    else a[0] < b[0] || (a[0] == b[0] && StrLess(a[1..], b[1..]))
  }

  lemma {:induction false} StrLessIrreflexive(a: string)
    ensures !StrLess(a, a)
  {
    if a != [] {
      StrLessIrreflexive(a[1..]);
    }
  }

  lemma {:induction false} StrLessAsymmetric(a: string, b: string)
    ensures StrLess(a, b) ==> !StrLess(b, a)
  {
    if a != [] && b != [] && a[0] == b[0] {
      StrLessAsymmetric(a[1..], b[1..]);
    }
  }

  lemma {:induction false} StrLessTransitive(a: string, b: string, c: string)
    ensures StrLess(a, b) && StrLess(b, c) ==> StrLess(a, c)
  {
    if a != [] && b != [] && c != [] {
      StrLessTransitive(a[1..], b[1..], c[1..]);
    }
  }

  /** Any two different strings are ordered one way or the other. */
  lemma {:induction false} StrLessTotal(a: string, b: string)
    ensures a == b || StrLess(a, b) || StrLess(b, a)
  {
    if a != [] && b != [] && a[0] == b[0] {
      StrLessTotal(a[1..], b[1..]);
      if a[1..] == b[1..] {
        assert a == [a[0]] + a[1..] && b == [b[0]] + b[1..];
      }
    }
  }

  /** The characters at which splitWords cuts a string. */
  predicate IsSeparator(c: char) {
    c == ' ' || c == '/' || c == '-' || c == '_' || c == '.'
  }

  predicate SeparatorFree(s: string) {
    forall k :: 0 <= k < |s| ==> !IsSeparator(s[k])
  }

  /** Length of the separator-free run at the start of s. */
  function RunLength(s: string): (n: nat)
    ensures n <= |s| && SeparatorFree(s[..n])
    ensures n < |s| ==> IsSeparator(s[n])
  {
    if s == [] || IsSeparator(s[0]) then 0
    else
      var n := 1 + RunLength(s[1..]);
      assert s[..n] == [s[0]] + s[1..][..n - 1];
      n
  }

  /** The words of s: its maximal separator-free substrings, left to right. */
  function Words(s: string): seq<string>
    decreases |s|
  {
    if s == [] then []
    else if IsSeparator(s[0]) then Words(s[1..])
    else
      var n := RunLength(s);
      [s[..n]] + Words(s[n..])
  }

  /** No word is empty, and no word contains a separator. */
  lemma {:induction false} WordsAreNonEmptyAndSeparatorFree(s: string)
    ensures forall w :: w in Words(s) ==> w != [] && SeparatorFree(w)
    decreases |s|
  {
    if s != [] {
      if IsSeparator(s[0]) {
        WordsAreNonEmptyAndSeparatorFree(s[1..]);
      } else {
        WordsAreNonEmptyAndSeparatorFree(s[RunLength(s)..]);
      }
    }
  }

  /** A string without separators is a single word (or none, if empty). */
  lemma {:induction false} SeparatorFreeIsOneWord(s: string)
    requires SeparatorFree(s)
    ensures Words(s) == if s == [] then [] else [s]
  {
    if s != [] {
      var n := RunLength(s);
      assert n == |s|;
      assert s[..n] == s && s[n..] == [];
    }
  }

  /** Cutting at a separator: the words of a ++ sep ++ b are the words of a
      followed by the words of b. */
  lemma {:induction false} WordsAtSeparator(a: string, sep: char, b: string)
    requires IsSeparator(sep)
    ensures Words(a + [sep] + b) == Words(a) + Words(b)
    decreases |a|
  {
    var s := a + [sep] + b;
    if a == [] {
      assert s[1..] == b;
    } else if IsSeparator(a[0]) {
      assert s[1..] == a[1..] + [sep] + b;
      WordsAtSeparator(a[1..], sep, b);
    } else {
      var n := RunLength(s);
      var m := RunLength(a);
      RunLengthOfPrefix(a, [sep] + b);
      assert s == a + ([sep] + b);
      assert n == m;
      assert s[..n] == a[..m];
      assert s[n..] == a[m..] + [sep] + b;
      WordsAtSeparator(a[m..], sep, b);
    }
  }

  /** The run at the start of a + t ends inside a when t starts with a separator. */
  lemma {:induction false} RunLengthOfPrefix(a: string, t: string)
    requires t != [] && IsSeparator(t[0])
    ensures RunLength(a + t) == RunLength(a)
    decreases |a|
  {
    if a != [] && !IsSeparator(a[0]) {
      assert (a + t)[1..] == a[1..] + t;
      RunLengthOfPrefix(a[1..], t);
    } else if a == [] {
      assert a + t == t;
    }
  }

  /** Removing the separators from s gives the concatenation of its words. */
  function Concat(ws: seq<string>): string {
    if ws == [] then [] else ws[0] + Concat(ws[1..])
  }

  function WithoutSeparators(s: string): string {
    if s == [] then []
    else (if IsSeparator(s[0]) then [] else [s[0]]) + WithoutSeparators(s[1..])
  }

  lemma {:induction false} WithoutSeparatorsFree(s: string)
    requires SeparatorFree(s)
    ensures WithoutSeparators(s) == s
  {
    if s != [] {
      WithoutSeparatorsFree(s[1..]);
    }
  }

  lemma {:induction false} WithoutSeparatorsAppend(a: string, b: string)
    ensures WithoutSeparators(a + b) == WithoutSeparators(a) + WithoutSeparators(b)
  {
    if a != [] {
      assert (a + b)[1..] == a[1..] + b;
      WithoutSeparatorsAppend(a[1..], b);
    } else {
      assert a + b == b;
    }
  }

  lemma {:induction false} ConcatAppend(v: seq<string>, w: seq<string>)
    ensures Concat(v + w) == Concat(v) + Concat(w)
  {
    if v != [] {
      assert (v + w)[1..] == v[1..] + w;
      ConcatAppend(v[1..], w);
    } else {
      assert v + w == w;
    }
  }

  /** The words spell out the string with its separators left out: no
      character other than a separator is lost, duplicated or reordered. */
  lemma {:induction false} WordsKeepEveryOtherCharacter(s: string)
    ensures Concat(Words(s)) == WithoutSeparators(s)
    decreases |s|
  {
    if s != [] {
      if IsSeparator(s[0]) {
        WordsKeepEveryOtherCharacter(s[1..]);
      } else {
        var n := RunLength(s);
        assert s == s[..n] + s[n..];
        WordsKeepEveryOtherCharacter(s[n..]);
        WithoutSeparatorsAppend(s[..n], s[n..]);
        WithoutSeparatorsFree(s[..n]);
        ConcatAppend([s[..n]], Words(s[n..]));
      }
    }
  }

  /** The words of a separator-free run followed by the rest. */
  lemma RunThenSeparator(t: string, i: nat, j: nat)
    requires i <= j < |t| && SeparatorFree(t[i..j]) && IsSeparator(t[j])
    ensures Words(t[i..]) == (if j > i then [t[i..j]] else []) + Words(t[j + 1..])
  {
    assert t[i..] == t[i..j] + [t[j]] + t[j + 1..];
    WordsAtSeparator(t[i..j], t[j], t[j + 1..]);
    SeparatorFreeIsOneWord(t[i..j]);
  }

  /** The step of splitWords at a separator: the pending run, if not empty,
      becomes the next word, and the scan restarts after the separator. */
  lemma CutAtSeparator(text: string, i: nat, j: nat, words: seq<string>)
    requires i <= j < |text| && SeparatorFree(text[i..j]) && IsSeparator(text[j])
    requires words + Words(text[i..]) == Words(text)
    ensures (if j > i then words + [text[i..j]] else words) + Words(text[j + 1..]) == Words(text)
  {
    RunThenSeparator(text, i, j);
    var rest := Words(text[j + 1..]);
    if j > i {
      assert words + [text[i..j]] + rest == words + ([text[i..j]] + rest);
    }
  }

  /** The step of splitWords at any other character: the run grows by it. */
  lemma ExtendRun(text: string, i: nat, j: nat)
    requires i <= j < |text| && SeparatorFree(text[i..j]) && !IsSeparator(text[j])
    ensures SeparatorFree(text[i..j + 1])
  {
    assert text[i..j + 1] == text[i..j] + [text[j]];
  }

  /** splitWords: scans `text` once, cutting at each separator; the text
      between two cuts becomes a word when it is not empty. */
  method SplitWords(text: string) returns (words: seq<string>)
    ensures words == Words(text)
    ensures forall w :: w in words ==> w != [] && SeparatorFree(w)
    ensures Concat(words) == WithoutSeparators(text)
  {
    words := [];
    var i := 0;
    for j := 0 to |text|
      invariant i <= j
      invariant SeparatorFree(text[i..j])
      invariant words + Words(text[i..]) == Words(text)
    {
      var r := text[j];
      if r == ' ' || r == '/' || r == '-' || r == '_' || r == '.' {
        CutAtSeparator(text, i, j, words);
        if j > i {
          words := words + [text[i..j]];
        }
        i := j + 1;
      } else {
        ExtendRun(text, i, j);
      }
    }
    assert text[i..|text|] == text[i..];
    if i < |text| {
      SeparatorFreeIsOneWord(text[i..]);
      words := words + [text[i..|text|]];
    } else {
      assert text[i..] == [];
    }
    WordsAreNonEmptyAndSeparatorFree(text);
    WordsKeepEveryOtherCharacter(text);
  }
}
