/**
 * The pieces of Python's `str` and `re` behaviour that the search engine's
 * cleaning, naming and partition logic relies on: whitespace and digit
 * classes, `sep.join`, `str.split(sep)`, `str.strip()`, `str.endswith` and
 * `str(i)` for a non-negative integer.
 */
module PyStr {

  /** `str.isspace()`, which is also the class `\s` matches in a `str` pattern:
      the characters of bidirectional class WS, B or S, or of category Zs. */
  predicate IsSpace(c: char)
  {
    || ('\t' <= c <= '\r')
    || ('\U{1C}' <= c <= '\U{1F}')
    || c == ' '
    || c == '\U{85}'
    || c == '\U{A0}'
    || c == '\U{1680}'
    || ('\U{2000}' <= c <= '\U{200A}')
    || c == '\U{2028}'
    || c == '\U{2029}'
    || c == '\U{202F}'
    || c == '\U{205F}'
    || c == '\U{3000}'
  }

  /** The decimal digits `\d` matches (ASCII only in this model). */
  predicate IsDigit(c: char)
  {
    '0' <= c <= '9'
  }

  /** `s` with every whitespace character dropped: what whitespace edits must keep. */
  function NonSpace(s: string): string
  {
    if s == [] then []
    else (if IsSpace(s[0]) then [] else [s[0]]) + NonSpace(s[1..])
  }

  /** `r` can be obtained from `s` by deleting elements, keeping the order of the rest. */
  predicate IsSubsequence<T(==)>(r: seq<T>, s: seq<T>)
    decreases |s|
  {
    if r == [] then true
    else if s == [] then false
    else (r[0] == s[0] && IsSubsequence(r[1..], s[1..])) || IsSubsequence(r, s[1..])
  }

  lemma {:induction false} SubsequenceOfSuffix<T>(r: seq<T>, s: seq<T>, m: nat)
    requires m <= |s| && IsSubsequence(r, s[m..])
    ensures IsSubsequence(r, s)
    decreases m
  {
    if m > 0 {
      assert s[m..] == s[1..][m - 1..];
      SubsequenceOfSuffix(r, s[1..], m - 1);
    }
  }

  /** Whatever does not occur in `s` does not occur in a subsequence of it. */
  lemma {:induction false} SubsequenceExcludes<T>(r: seq<T>, s: seq<T>, x: T)
    requires IsSubsequence(r, s) && x !in s
    ensures x !in r
    decreases |s|
  {
    if r != [] {
      if r[0] == s[0] && IsSubsequence(r[1..], s[1..]) {
        SubsequenceExcludes(r[1..], s[1..], x);
        assert r == [r[0]] + r[1..];
      } else {
        SubsequenceExcludes(r, s[1..], x);
      }
    }
  }

  /** `sep.join(parts)`. */
  function Join(sep: string, parts: seq<string>): string
  {
    if |parts| == 0 then []
    else if |parts| == 1 then parts[0]
    else parts[0] + sep + Join(sep, parts[1..])
  }

  /** `s.split(sep)` for a one-character separator: the pieces between
      separators, always at least one, none containing the separator. */
  function Split(s: string, sep: char): (pieces: seq<string>)
    ensures |pieces| >= 1
    ensures forall k :: 0 <= k < |pieces| ==> sep !in pieces[k]
  {
    if s == [] then [[]]
    else
      var rest := Split(s[1..], sep);
      if s[0] == sep then [[]] + rest
      else [[s[0]] + rest[0]] + rest[1..]
  }

  /** Joining the pieces of a split with the separator gives back the string. */
  lemma {:induction false} SplitThenJoin(s: string, sep: char)
    ensures Join([sep], Split(s, sep)) == s
  {
    if s != [] {
      var rest := Split(s[1..], sep);
      SplitThenJoin(s[1..], sep);
      if s[0] == sep {
        assert Join([sep], [[]] + rest) == [] + [sep] + Join([sep], rest);
      } else if |rest| == 1 {
        assert s == [s[0]] + s[1..];
      } else {
        assert Join([sep], rest) == rest[0] + [sep] + Join([sep], rest[1..]);
        assert ([[s[0]] + rest[0]] + rest[1..])[1..] == rest[1..];
        assert s == [s[0]] + s[1..];
      }
    }
  }

  lemma {:induction false} SplitAfterPlainPrefix(a: string, t: string, sep: char)
    requires sep !in a
    ensures Split(a + t, sep) == [a + Split(t, sep)[0]] + Split(t, sep)[1..]
  {
    if a != [] {
      var pieces := Split(t, sep);
      var s := a + t;
      SplitAfterPlainPrefix(a[1..], t, sep);
      assert s[1..] == a[1..] + t;
      var rest := Split(s[1..], sep);
      assert rest == [a[1..] + pieces[0]] + pieces[1..];
      assert Split(s, sep) == [[s[0]] + rest[0]] + rest[1..];
      assert rest[1..] == pieces[1..];
      assert [a[0]] + (a[1..] + pieces[0]) == a + pieces[0];
    } else {
      var pieces := Split(t, sep);
      assert a + t == t && a + pieces[0] == pieces[0];
      assert pieces == [pieces[0]] + pieces[1..];
    }
  }

  /** A string without the separator splits into itself alone. */
  lemma SplitWithoutSeparator(s: string, sep: char)
    requires sep !in s
    ensures Split(s, sep) == [s]
  {
    SplitAfterPlainPrefix(s, [], sep);
    assert s + [] == s;
  }

  /** Splitting a join of separator-free parts gives back the parts. */
  lemma {:induction false} JoinThenSplit(parts: seq<string>, sep: char)
    requires |parts| >= 1
    requires forall k :: 0 <= k < |parts| ==> sep !in parts[k]
    ensures Split(Join([sep], parts), sep) == parts
  {
    if |parts| == 1 {
      SplitWithoutSeparator(parts[0], sep);
    } else {
      var tail := Join([sep], parts[1..]);
      JoinThenSplit(parts[1..], sep);
      assert Join([sep], parts) == parts[0] + ([sep] + tail);
      SplitAfterPlainPrefix(parts[0], [sep] + tail, sep);
      assert ([sep] + tail)[1..] == tail;
      assert Split([sep] + tail, sep) == [[]] + parts[1..];
      assert parts[0] + [] == parts[0];
      assert parts == [parts[0]] + parts[1..];
    }
  }

  /** `s.endswith(suffix)`. */
  predicate EndsWith(s: string, suffix: string)
  {
    |suffix| <= |s| && s[|s| - |suffix|..] == suffix
  }

  /** Number of whitespace characters `s` starts with. */
  function LeadingSpaces(s: string): (n: nat)
    ensures n <= |s|
    ensures forall k :: 0 <= k < n ==> IsSpace(s[k])
    ensures n < |s| ==> !IsSpace(s[n])
  {
    if s != [] && IsSpace(s[0]) then 1 + LeadingSpaces(s[1..]) else 0
  }

  /** Number of whitespace characters `s` ends with. */
  function TrailingSpaces(s: string): (n: nat)
    ensures n <= |s|
    ensures forall k :: |s| - n <= k < |s| ==> IsSpace(s[k])
    ensures n < |s| ==> !IsSpace(s[|s| - n - 1])
  {
    if s != [] && IsSpace(s[|s| - 1]) then 1 + TrailingSpaces(s[..|s| - 1]) else 0
  }

  /** `s.lstrip()`. */
  function LStrip(s: string): string
  {
    s[LeadingSpaces(s)..]
  }

  lemma {:induction false} LStripKeepsNonSpace(s: string)
    ensures NonSpace(LStrip(s)) == NonSpace(s)
  {
    if s != [] && IsSpace(s[0]) {
      LStripKeepsNonSpace(s[1..]);
      assert s[LeadingSpaces(s)..] == s[1..][LeadingSpaces(s[1..])..];
    } else {
      assert s[0..] == s;
    }
  }

  /** `s.strip()`: the leading and the trailing whitespace removed. */
  function Strip(s: string): (r: string)
    ensures r == [] || (!IsSpace(r[0]) && !IsSpace(r[|r| - 1]))
  {
    var lead := LeadingSpaces(s);
    if lead == |s| then [] else s[lead..|s| - TrailingSpaces(s)]
  }

  /** The leading whitespace count is the one position where whitespace stops. */
  lemma LeadingSpacesUnique(s: string, n: nat)
    requires n <= |s|
    requires forall k :: 0 <= k < n ==> IsSpace(s[k])
    requires n < |s| ==> !IsSpace(s[n])
    ensures LeadingSpaces(s) == n
  {
  }

  /** The trailing whitespace count is the one position where whitespace
      stops, counting from the end. */
  lemma TrailingSpacesUnique(s: string, n: nat)
    requires n <= |s|
    requires forall k :: |s| - n <= k < |s| ==> IsSpace(s[k])
    requires n < |s| ==> !IsSpace(s[|s| - n - 1])
    ensures TrailingSpaces(s) == n
  {
  }

  /** `s` ends in whitespace exactly when its last character is whitespace. */
  lemma TrailingSpacesPositive(s: string)
    ensures TrailingSpaces(s) > 0 <==> s != [] && IsSpace(s[|s| - 1])
  {
  }

  /** Stripping text that is only whitespace around a core without
      whitespace at either end gives back the core. */
  lemma StripAround(a: string, core: string, b: string)
    requires forall k :: 0 <= k < |a| ==> IsSpace(a[k])
    requires forall k :: 0 <= k < |b| ==> IsSpace(b[k])
    requires core == [] || (!IsSpace(core[0]) && !IsSpace(core[|core| - 1]))
    ensures Strip(a + core + b) == core
  {
    var x := a + core + b;
    if core == [] {
      assert x == a + b;
      LeadingSpacesUnique(x, |x|);
    } else {
      LeadingSpacesUnique(x, |a|);
      TrailingSpacesUnique(x, |b|);
      assert x[|a|..|x| - |b|] == core;
    }
  }

  /** No character of `w` is whitespace. */
  predicate NoSpaceIn(w: string)
  {
    forall k :: 0 <= k < |w| ==> !IsSpace(w[k])
  }

  /** Number of non-whitespace characters `s` starts with. */
  function WordLength(s: string): (n: nat)
    ensures n <= |s|
    ensures forall k :: 0 <= k < n ==> !IsSpace(s[k])
    ensures n < |s| ==> IsSpace(s[n])
  {
    if s != [] && !IsSpace(s[0]) then 1 + WordLength(s[1..]) else 0
  }

  /** `s.split()` with no separator: the maximal runs of non-whitespace, in
      order. */
  function Words(s: string): seq<string>
    decreases |s|
  {
    var lead := LeadingSpaces(s);
    if lead == |s| then []
    else
      var t := s[lead..];
      var w := WordLength(t);
      [t[..w]] + Words(t[w..])
  }

  /** Every word is non-empty and holds no whitespace. */
  lemma {:induction false} WordsAreWords(s: string)
    ensures forall i :: 0 <= i < |Words(s)| ==> Words(s)[i] != [] && NoSpaceIn(Words(s)[i])
    decreases |s|
  {
    var lead := LeadingSpaces(s);
    if lead < |s| {
      var t := s[lead..];
      var w := WordLength(t);
      var word := t[..w];
      assert forall k :: 0 <= k < w ==> word[k] == t[k];
      WordsAreWords(t[w..]);
    }
  }

  /** Leading whitespace does not change the words. */
  lemma WordsSkipsSpaces(s: string)
    ensures Words(s) == Words(s[LeadingSpaces(s)..])
  {
    var t := s[LeadingSpaces(s)..];
    if t != [] {
      assert LeadingSpaces(t) == 0;
      assert t[0..] == t;
    }
  }

  /** Joining a word in front of other parts puts one separator between. */
  lemma JoinCons(word: string, rest: seq<string>)
    ensures Join(" ", [word] + rest) == if rest == [] then word else word + " " + Join(" ", rest)
  {
    assert ([word] + rest)[1..] == rest;
  }

  /** Words joined by one space: empty exactly when there are no words, and
      otherwise starting and ending with a non-whitespace character. */
  lemma {:induction false} JoinOfWordsEnds(words: seq<string>)
    requires forall i :: 0 <= i < |words| ==> words[i] != [] && NoSpaceIn(words[i])
    ensures Join(" ", words) == [] <==> words == []
    ensures var j := Join(" ", words);
      j != [] ==> !IsSpace(j[0]) && !IsSpace(j[|j| - 1])
  {
    if |words| > 1 {
      JoinOfWordsEnds(words[1..]);
      var rest := Join(" ", words[1..]);
      var j := words[0] + " " + rest;
      assert j[0] == words[0][0];
      assert j[|j| - 1] == rest[|rest| - 1];
    }
  }

  /** `strip()` changes nothing exactly when no whitespace is at either end. */
  lemma StripUnchangedIff(s: string)
    ensures Strip(s) == s <==> (s == [] || (!IsSpace(s[0]) && !IsSpace(s[|s| - 1])))
  {
    if s != [] && !IsSpace(s[0]) && !IsSpace(s[|s| - 1]) {
      assert LeadingSpaces(s) == 0 && TrailingSpaces(s) == 0;
      assert s[0..|s|] == s;
    }
  }

  /** `strip()` is empty exactly when `s` is all whitespace. */
  lemma StripEmptyIff(s: string)
    ensures Strip(s) == [] <==> forall k :: 0 <= k < |s| ==> IsSpace(s[k])
  {
  }

  /** `strip()` keeps the characters it does not drop in their order. */
  lemma StripKeepsOrder(s: string)
    ensures IsSubsequence(Strip(s), s)
  {
    var lead := LeadingSpaces(s);
    if lead < |s| {
      PrefixIsSubsequence(Strip(s), s[lead..]);
      SubsequenceOfSuffix(Strip(s), s, lead);
    }
  }

  /** `strip()` drops whitespace only. */
  lemma StripKeepsNonSpace(s: string)
    ensures NonSpace(Strip(s)) == NonSpace(s)
  {
    var lead := LeadingSpaces(s);
    if lead == |s| {
      NonSpaceOfSpaces(s);
    } else {
      var end := |s| - TrailingSpaces(s);
      LeadIsSpaces(s);
      TrailIsSpaces(s);
      assert Strip(s) == s[lead..end];
      NonSpaceOfMiddle(s, lead, end);
    }
  }

  /** When only whitespace lies outside `s[i..j]`, dropping whitespace from
      `s` leaves what it leaves of `s[i..j]`. */
  lemma NonSpaceOfMiddle(s: string, i: nat, j: nat)
    requires i <= j <= |s|
    requires NonSpace(s[..i]) == [] && NonSpace(s[j..]) == []
    ensures NonSpace(s) == NonSpace(s[i..j])
  {
    var rest := s[i..];
    SplitNonSpace(s, i);
    SplitNonSpace(rest, j - i);
    SlicesOfSuffix(s, i, j);
  }

  /** Dropping whitespace from `s` drops it from each side of a cut. */
  lemma SplitNonSpace(s: string, cut: nat)
    requires cut <= |s|
    ensures NonSpace(s) == NonSpace(s[..cut]) + NonSpace(s[cut..])
  {
    CutAndJoin(s, cut);
    NonSpaceAppend(s[..cut], s[cut..]);
  }

  // Sequence identities used as single proof steps. They are stated over
  // any element type so that the solver proves them without the string
  // functions of the calling proof in its context.

  lemma ConcatAssoc<T>(a: seq<T>, b: seq<T>, c: seq<T>)
    ensures a + (b + c) == (a + b) + c
  {
  }

  lemma SuffixOfSuffix<T>(s: seq<T>, i: nat, j: nat)
    requires i + j <= |s|
    ensures s[i..][j..] == s[i + j..]
  {
  }

  lemma LastOfSuffix<T>(s: seq<T>, i: nat)
    requires i < |s|
    ensures s[i..][|s| - i - 1] == s[|s| - 1]
  {
  }

  lemma HeadAndSlices<T>(s: seq<T>, n: nat)
    requires 1 <= n <= |s|
    ensures s[1..][n - 1..] == s[n..]
    ensures [s[0]] + s[1..][..n - 1] == s[..n]
  {
  }

  lemma CutAndJoin<T>(s: seq<T>, cut: nat)
    requires cut <= |s|
    ensures s[..cut] + s[cut..] == s
  {
  }

  lemma SlicesOfSuffix<T>(s: seq<T>, i: nat, j: nat)
    requires i <= j <= |s|
    ensures s[i..][j - i..] == s[j..]
    ensures s[i..][..j - i] == s[i..j]
  {
  }

  lemma LeadIsSpaces(s: string)
    ensures NonSpace(s[..LeadingSpaces(s)]) == []
  {
    var a := s[..LeadingSpaces(s)];
    assert forall k :: 0 <= k < |a| ==> a[k] == s[k];
    NonSpaceOfSpaces(a);
  }

  lemma TrailIsSpaces(s: string)
    ensures NonSpace(s[|s| - TrailingSpaces(s)..]) == []
  {
    var start := |s| - TrailingSpaces(s);
    var z := s[start..];
    assert forall k :: 0 <= k < |z| ==> z[k] == s[start + k];
    NonSpaceOfSpaces(z);
  }

  lemma {:induction false} NonSpaceAppend(a: string, b: string)
    ensures NonSpace(a + b) == NonSpace(a) + NonSpace(b)
  {
    if a != [] {
      NonSpaceAppend(a[1..], b);
      assert (a + b)[1..] == a[1..] + b;
    } else {
      assert a + b == b;
    }
  }

  lemma {:induction false} NonSpaceOfSpaces(s: string)
    requires forall k :: 0 <= k < |s| ==> IsSpace(s[k])
    ensures NonSpace(s) == []
  {
    if s != [] {
      NonSpaceOfSpaces(s[1..]);
    }
  }

  lemma {:induction false} PrefixIsSubsequence<T>(r: seq<T>, s: seq<T>)
    requires |r| <= |s| && r == s[..|r|]
    ensures IsSubsequence(r, s)
    decreases |s|
  {
    if r != [] {
      assert r[1..] == s[1..][..|r| - 1];
      PrefixIsSubsequence(r[1..], s[1..]);
    }
  }

  /** The decimal digit character for `d`. */
  function DigitChar(d: nat): (c: char)
    requires d < 10
    ensures IsDigit(c)
  {
    "0123456789"[d]
  }

  /** `str(n)` for a non-negative integer: decimal, no leading zeros. */
  function NatToString(n: nat): (r: string)
    ensures 1 <= |r|
    ensures n >= 10 ==> 2 <= |r|
    ensures forall k :: 0 <= k < |r| ==> IsDigit(r[k])
  {
    if n < 10 then [DigitChar(n)] else NatToString(n / 10) + [DigitChar(n % 10)]
  }

  /** `DigitChar` and `DigitValue` are inverse on the ten digits. */
  lemma DigitCharValue(d: nat)
    requires d < 10
    ensures DigitValue(DigitChar(d)) == d
    ensures d > 0 ==> DigitChar(d) != '0'
  {
  }

  /** The number a string of decimal digits denotes. */
  function DecimalValue(s: string): nat
    requires forall k :: 0 <= k < |s| ==> IsDigit(s[k])
  {
    if s == [] then 0
    else 10 * DecimalValue(s[..|s| - 1]) + DigitValue(s[|s| - 1])
  }

  /** The value of one decimal digit character. */
  function DigitValue(c: char): (d: nat)
    requires IsDigit(c)
    ensures d < 10
  {
    (c as int) - ('0' as int)
  }

  /** `str(n)` is the decimal numeral of `n`: its digits denote `n`, and it
      has no leading zero. */
  lemma {:induction false} NatToStringValue(n: nat)
    ensures DecimalValue(NatToString(n)) == n
    ensures n > 0 ==> NatToString(n)[0] != '0'
  {
    var r := NatToString(n);
    if n < 10 {
      DigitCharValue(n);
    } else {
      var q, d := n / 10, n % 10;
      NatToStringValue(q);
      DigitCharValue(d);
      assert r[..|r| - 1] == NatToString(q);
      assert r[|r| - 1] == DigitChar(d);
      assert n == 10 * q + d;
    }
  }

  /** Different numbers print differently. */
  lemma {:induction false} NatToStringInjective(a: nat, b: nat)
    requires NatToString(a) == NatToString(b)
    ensures a == b
  {
    var s := NatToString(a);
    if a >= 10 && b >= 10 {
      assert NatToString(a / 10) == s[..|s| - 1] == NatToString(b / 10);
      NatToStringInjective(a / 10, b / 10);
      assert DigitChar(a % 10) == s[|s| - 1] == DigitChar(b % 10);
    }
  }
}
