/**
 * `scrape_text` (test.py): the paragraph texts joined with single spaces,
 * one left-to-right `re.sub(r'\[\d+\]', '', ...)` pass that deletes
 * citation markers, then `re.sub(r'\s+', ' ', ...).strip()`.
 * The HTML parsing that produces the paragraph texts is not modelled:
 * they are the input.
 */
module Cleaning {
  import opened PyStr

  /** The strings `\[\d+\]` matches: `[`, one or more digits, `]`. */
  predicate IsCitation(t: string)
  {
    |t| >= 3 && t[0] == '[' && t[|t| - 1] == ']' && forall k :: 1 <= k < |t| - 1 ==> IsDigit(t[k])
  }

  /** Length of the run of digits `\d+` consumes greedily at the start of `s`. */
  function DigitRun(s: string): (n: nat)
    ensures n <= |s|
  {
    if s != [] && IsDigit(s[0]) then 1 + DigitRun(s[1..]) else 0
  }

  /** The run is all digits and stops at the first non-digit. */
  lemma {:induction false} DigitRunIsMaximal(s: string)
    ensures forall k :: 0 <= k < DigitRun(s) ==> IsDigit(s[k])
    ensures DigitRun(s) < |s| ==> !IsDigit(s[DigitRun(s)])
  {
    if s != [] && IsDigit(s[0]) {
      DigitRunIsMaximal(s[1..]);
    }
  }

  /** Length of the match of `\[\d+\]` anchored at the start of `s`, 0 when
      the pattern does not match there. */
  function CitationAt(s: string): (m: nat)
    ensures m <= |s|
  {
    if s != [] && s[0] == '[' then
      var d := DigitRun(s[1..]);
      if d > 0 && 1 + d < |s| && s[1 + d] == ']' then d + 2 else 0
    else 0
  }

  /** A match found by `CitationAt` is a citation marker, and it is the only
      prefix of `s` that is one: backtracking inside `\d+` cannot find another. */
  lemma CitationAtIsExact(s: string)
    ensures CitationAt(s) > 0 ==> IsCitation(s[..CitationAt(s)])
    ensures forall j :: 0 < j <= |s| && IsCitation(s[..j]) ==> CitationAt(s) == j
  {
    if s != [] {
      DigitRunIsMaximal(s[1..]);
    }
    forall j | 0 < j <= |s| && IsCitation(s[..j]) ensures CitationAt(s) == j {
      var t := s[..j];
      assert s[0] == t[0] == '[';
      assert forall k :: 0 <= k < j - 2 ==> s[1..][k] == t[k + 1];
      assert s[1..][j - 2] == t[j - 1] == ']';
    }
  }

  /** Length of the marker starting at position `p` of `s`, 0 when none does. */
  function MarkerAt(s: string, p: nat): nat
    requires p <= |s|
  {
    CitationAt(s[p..])
  }

  /** `re.sub(r'\[\d+\]', '', s)`: scanning left to right, a match found at
      the current position is deleted and the scan resumes after it;
      otherwise the character is kept and the scan moves on by one. */
  function RemoveCitations(s: string): (r: string)
    ensures |r| <= |s|
    decreases |s|
  {
    if s == [] then []
    else
      var m := CitationAt(s);
      if m > 0 then RemoveCitations(s[m..]) else [s[0]] + RemoveCitations(s[1..])
  }

  /** No position of `s` starts a citation marker. */
  predicate NoCitation(s: string)
  {
    forall p :: 0 <= p < |s| ==> MarkerAt(s, p) == 0
  }

  /** Citation removal keeps the surviving characters in their order. */
  lemma {:induction false} RemoveCitationsKeepsOrder(s: string)
    ensures IsSubsequence(RemoveCitations(s), s)
    decreases |s|
  {
    if s != [] {
      var m := CitationAt(s);
      if m > 0 {
        RemoveCitationsKeepsOrder(s[m..]);
        SubsequenceOfSuffix(RemoveCitations(s[m..]), s, m);
      } else {
        RemoveCitationsKeepsOrder(s[1..]);
        var r := RemoveCitations(s);
        assert r[0] == s[0] && r[1..] == RemoveCitations(s[1..]);
      }
    }
  }

  /** A character absent from the input is absent from the output. */
  lemma RemoveCitationsExcludes(s: string, c: char)
    requires c !in s
    ensures c !in RemoveCitations(s)
  {
    RemoveCitationsKeepsOrder(s);
    SubsequenceExcludes(RemoveCitations(s), s, c);
  }

  /** Where no marker starts before position `p`, the first `p` characters
      are copied unchanged and the scan resumes exactly at `p`. */
  lemma {:induction false} RemoveCitationsKeepsPrefix(s: string, p: nat)
    requires p <= |s|
    requires forall q :: 0 <= q < p ==> MarkerAt(s, q) == 0
    ensures RemoveCitations(s) == s[..p] + RemoveCitations(s[p..])
  {
    if p > 0 {
      var t := s[1..];
      MarkersShift(s, p);
      RemoveCitationsKeepsPrefix(t, p - 1);
      assert CitationAt(s) == 0 by {
        assert MarkerAt(s, 0) == 0;
        assert s[0..] == s;
      }
      KeepFirst(s, t, p);
    } else {
      assert s[0..] == s && s[..0] == [];
    }
  }

  lemma KeepFirst(s: string, t: string, p: nat)
    requires 0 < p <= |s| && CitationAt(s) == 0 && t == s[1..]
    requires RemoveCitations(t) == t[..p - 1] + RemoveCitations(t[p - 1..])
    ensures RemoveCitations(s) == s[..p] + RemoveCitations(s[p..])
  {
    var u := s[p..];
    var x := t[..p - 1];
    assert t[p - 1..] == u;
    assert s[..p] == [s[0]] + x;
    ConcatAssoc([s[0]], x, RemoveCitations(u));
  }

  /** The text before the leftmost marker is copied unchanged, and exactly
      that marker is deleted: the scan is leftmost-first and non-overlapping. */
  lemma RemoveCitationsLeftmost(s: string, p: nat)
    requires p < |s| && MarkerAt(s, p) > 0
    requires forall q :: 0 <= q < p ==> MarkerAt(s, q) == 0
    ensures RemoveCitations(s) == s[..p] + RemoveCitations(s[p + MarkerAt(s, p)..])
  {
    RemoveCitationsKeepsPrefix(s, p);
    var u := s[p..];
    assert u[MarkerAt(s, p)..] == s[p + MarkerAt(s, p)..];
  }

  lemma MarkersShift(s: string, p: nat)
    requires 0 < p <= |s|
    ensures forall q :: 0 <= q < p - 1 ==> MarkerAt(s[1..], q) == MarkerAt(s, q + 1)
  {
    forall q | 0 <= q < p - 1 ensures MarkerAt(s[1..], q) == MarkerAt(s, q + 1) {
      assert s[1..][q..] == s[q + 1..];
    }
  }

  lemma {:induction false} RemoveCitationsShrinks(s: string, p: nat)
    requires p < |s| && MarkerAt(s, p) > 0
    ensures |RemoveCitations(s)| < |s|
  {
    if CitationAt(s) == 0 {
      assert p != 0 by { assert s[0..] == s; }
      assert MarkerAt(s[1..], p - 1) > 0 by { assert s[1..][p - 1..] == s[p..]; }
      RemoveCitationsShrinks(s[1..], p - 1);
    }
  }

  /** The pass changes a string exactly when a citation marker occurs in it. */
  lemma {:induction false} RemoveCitationsUnchangedIff(s: string)
    ensures RemoveCitations(s) == s <==> NoCitation(s)
    decreases |s|
  {
    if NoCitation(s) {
      if s != [] {
        assert CitationAt(s) == MarkerAt(s, 0) by { assert s[0..] == s; }
        forall p | 0 <= p < |s| - 1 ensures MarkerAt(s[1..], p) == 0 {
          assert s[1..][p..] == s[p + 1..];
          assert MarkerAt(s, p + 1) == 0;
        }
        RemoveCitationsUnchangedIff(s[1..]);
        assert s == [s[0]] + s[1..];
      }
    } else {
      var p :| 0 <= p < |s| && MarkerAt(s, p) != 0;
      RemoveCitationsShrinks(s, p);
    }
  }

  /** A string without an opening bracket has no marker and is left as is. */
  lemma {:induction false} NoBracketUnchanged(s: string)
    requires '[' !in s
    ensures RemoveCitations(s) == s
  {
    if s != [] {
      NoBracketUnchanged(s[1..]);
      assert s == [s[0]] + s[1..];
    }
  }

  /** One pass is not idempotent: deleting the inner marker of `[[1]2]`
      exposes a new one, which a second pass would delete. */
  lemma RemoveCitationsNotIdempotent()
    ensures RemoveCitations("[[1]2]") == "[2]"
    ensures RemoveCitations("[2]") == ""
  {
    var s := "[[1]2]";
    assert CitationAt(s) == 0 by { assert DigitRun(s[1..]) == 0; }
    assert s[1..] == "[1]2]";
    assert CitationAt("[1]2]") == 3 by {
      assert "[1]2]"[1..] == "1]2]";
      assert DigitRun("1]2]") == 1 by { assert "1]2]"[1..] == "]2]"; }
    }
    assert "[1]2]"[3..] == "2]";
    assert RemoveCitations("2]") == "2]" by {
      assert "2]"[1..] == "]" && "]"[1..] == "";
    }
    assert CitationAt("[2]") == 3 by {
      assert "[2]"[1..] == "2]";
      assert DigitRun("2]") == 1 by { assert "2]"[1..] == "]"; }
    }
    assert "[2]"[3..] == "";
  }

  /** `re.sub(r'\s+', ' ', s)`: every maximal whitespace run becomes one space. */
  function CollapseSpaces(s: string): string
    decreases |s|
  {
    if s == [] then []
    else if IsSpace(s[0]) then [' '] + CollapseSpaces(LStrip(s))
    else [s[0]] + CollapseSpaces(s[1..])
  }

  /** The collapse is empty exactly when its input is, starts with whitespace
      exactly when its input does, holds no whitespace but single spaces, and
      keeps every non-whitespace character. */
  lemma {:induction false} CollapseSpacesShape(s: string)
    ensures CollapseSpaces(s) == [] <==> s == []
    ensures s != [] ==> (IsSpace(CollapseSpaces(s)[0]) <==> IsSpace(s[0]))
    ensures var r := CollapseSpaces(s);
      forall k :: 0 <= k < |r| && IsSpace(r[k]) ==> r[k] == ' '
    ensures var r := CollapseSpaces(s);
      forall k :: 0 <= k < |r| - 1 ==> !IsSpace(r[k]) || !IsSpace(r[k + 1])
    ensures NonSpace(CollapseSpaces(s)) == NonSpace(s)
    decreases |s|
  {
    if s != [] {
      var r := CollapseSpaces(s);
      if IsSpace(s[0]) {
        var rest := LStrip(s);
        CollapseSpacesShape(rest);
        LStripKeepsNonSpace(s);
        assert r[1..] == CollapseSpaces(rest);
      } else {
        CollapseSpacesShape(s[1..]);
        assert r[1..] == CollapseSpaces(s[1..]);
      }
    }
  }

  /** A word at the start passes through the collapse unchanged. */
  lemma {:induction false} CollapseKeepsWord(t: string)
    ensures CollapseSpaces(t) == t[..WordLength(t)] + CollapseSpaces(t[WordLength(t)..])
    decreases |t|
  {
    var w := WordLength(t);
    if t != [] && !IsSpace(t[0]) {
      var tail := t[1..];
      CollapseKeepsWord(tail);
      CollapseWordStep(t);
      HeadAndSlices(t, w);
      ConcatAssoc([t[0]], tail[..w - 1], CollapseSpaces(t[w..]));
    } else {
      assert t[..0] == [] && t[0..] == t;
    }
  }

  /** One non-whitespace character is copied and the word goes on. */
  lemma CollapseWordStep(t: string)
    requires t != [] && !IsSpace(t[0])
    ensures CollapseSpaces(t) == [t[0]] + CollapseSpaces(t[1..])
    ensures WordLength(t) == 1 + WordLength(t[1..])
  {
  }

  /** Collapsing text that does not start with whitespace gives its words
      joined by single spaces, plus one space when it ends in whitespace
      after a word: each whitespace run becomes one space where it stood. */
  lemma {:induction false} CollapseWords(t: string)
    requires t == [] || !IsSpace(t[0])
    ensures CollapseSpaces(t) == Join(" ", Words(t)) + SpaceAfterWords(t)
    decreases |t|
  {
    if t != [] {
      var w := WordLength(t);
      if w == |t| {
        CollapseOneWord(t);
      } else {
        var u := t[w..];
        var v := u[LeadingSpaces(u)..];
        CollapseWords(v);
        CollapseWordThenMore(t);
      }
    }
  }

  /** Text that is a single word collapses to itself. */
  lemma CollapseOneWord(t: string)
    requires t != [] && !IsSpace(t[0]) && WordLength(t) == |t|
    ensures CollapseSpaces(t) == Join(" ", Words(t)) + SpaceAfterWords(t)
  {
    CollapseKeepsWord(t);
    WordsOfWordStart(t);
    TrailingSpacesPositive(t);
    assert t[..|t|] == t && t[|t|..] == [];
    assert Words([]) == [];
  }

  /** A word followed by whitespace: the word, one space, and the collapse of
      the rest. */
  lemma CollapseWordThenMore(t: string)
    requires t != [] && !IsSpace(t[0]) && WordLength(t) < |t|
    requires var u := t[WordLength(t)..];
      var v := u[LeadingSpaces(u)..];
      CollapseSpaces(v) == Join(" ", Words(v)) + SpaceAfterWords(v)
    ensures CollapseSpaces(t) == Join(" ", Words(t)) + SpaceAfterWords(t)
  {
    var w := WordLength(t);
    var word := t[..w];
    var u := t[w..];
    var lead := LeadingSpaces(u);
    var v := u[lead..];
    var rest := CollapseSpaces(v);
    WordThenMoreCollapse(t);
    assert CollapseSpaces(t) == word + (" " + rest);
    if lead == |u| {
      assert v == [] && rest == [];
      WordThenNothing(t);
      assert word + (" " + rest) == word + " ";
    } else {
      WordThenMoreWords(t);
      var joined := Join(" ", Words(v));
      var after := SpaceAfterWords(v);
      assert rest == joined + after;
      ConcatAssoc(word, " ", joined + after);
      ConcatAssoc(word + " ", joined, after);
    }
  }

  /** The collapse of a word followed by whitespace: the word, one space, and
      the collapse of the text after that whitespace. */
  lemma WordThenMoreCollapse(t: string)
    requires t != [] && !IsSpace(t[0]) && WordLength(t) < |t|
    ensures var w := WordLength(t);
      var u := t[w..];
      CollapseSpaces(t) == t[..w] + (" " + CollapseSpaces(u[LeadingSpaces(u)..]))
  {
    var u := t[WordLength(t)..];
    CollapseKeepsWord(t);
    CollapseOfSpaceStart(u);
  }

  /** A word followed only by whitespace: its words are that word alone. */
  lemma WordThenNothing(t: string)
    requires t != [] && !IsSpace(t[0]) && WordLength(t) < |t|
    requires var u := t[WordLength(t)..]; LeadingSpaces(u) == |u|
    ensures Join(" ", Words(t)) == t[..WordLength(t)] && SpaceAfterWords(t) == " "
  {
    var w := WordLength(t);
    var u := t[w..];
    WordsAfterWord(t);
    assert u[LeadingSpaces(u)..] == [];
    JoinCons(t[..w], []);
    SpaceAfterLastWord(t);
  }

  /** A word followed by whitespace and more words: the joined words and the
      space after them, in terms of the text after that whitespace. */
  lemma WordThenMoreWords(t: string)
    requires t != [] && !IsSpace(t[0]) && WordLength(t) < |t|
    requires var u := t[WordLength(t)..]; LeadingSpaces(u) < |u|
    ensures var w := WordLength(t);
      var u := t[w..];
      var v := u[LeadingSpaces(u)..];
      && Join(" ", Words(t)) == t[..w] + " " + Join(" ", Words(v))
      && SpaceAfterWords(t) == SpaceAfterWords(v)
  {
    var w := WordLength(t);
    var u := t[w..];
    var lead := LeadingSpaces(u);
    var v := u[lead..];
    WordsAfterWord(t);
    assert v[0] == u[lead];
    WordsNonEmpty(v);
    JoinCons(t[..w], Words(v));
    SuffixOfSuffix(t, w, lead);
    SpaceAfterSuffix(t, w + lead);
  }

  /** Text starting with a non-whitespace character has a word. */
  lemma WordsNonEmpty(s: string)
    requires s != [] && !IsSpace(s[0])
    ensures Words(s) != []
  {
    assert LeadingSpaces(s) == 0;
  }

  /** Past the first word, a suffix that still has words leaves a space after
      them exactly when the whole text does. */
  lemma SpaceAfterSuffix(t: string, i: nat)
    requires i < |t| && Words(t) != [] && Words(t[i..]) != []
    ensures SpaceAfterWords(t) == SpaceAfterWords(t[i..])
  {
    EndsInSpaceAsSuffix(t, i);
  }

  /** The words of a word followed by whitespace: that word, then the words
      after the whitespace. */
  lemma WordsAfterWord(t: string)
    requires t != [] && !IsSpace(t[0]) && WordLength(t) < |t|
    ensures var w := WordLength(t);
      var u := t[w..];
      Words(t) == [t[..w]] + Words(u[LeadingSpaces(u)..])
  {
    var u := t[WordLength(t)..];
    WordsOfWordStart(t);
    WordsSkipsSpaces(u);
  }

  /** A word followed only by whitespace leaves one space after it. */
  lemma SpaceAfterLastWord(t: string)
    requires t != [] && !IsSpace(t[0]) && WordLength(t) < |t|
    requires var u := t[WordLength(t)..]; LeadingSpaces(u) == |u|
    ensures SpaceAfterWords(t) == " "
  {
    var w := WordLength(t);
    var u := t[w..];
    WordsAfterWord(t);
    TrailingSpacesPositive(t);
    LastOfSuffix(t, w);
    assert IsSpace(u[|u| - 1]);
  }

  /** A non-empty suffix ends in whitespace exactly when the whole text does. */
  lemma EndsInSpaceAsSuffix(t: string, i: nat)
    requires i < |t|
    ensures TrailingSpaces(t) > 0 <==> TrailingSpaces(t[i..]) > 0
  {
    TrailingSpacesPositive(t);
    TrailingSpacesPositive(t[i..]);
    LastOfSuffix(t, i);
  }

  /** The single space the collapse leaves after the last word when the text
      ends in whitespace. */
  function SpaceAfterWords(t: string): string
  {
    if Words(t) != [] && TrailingSpaces(t) > 0 then " " else ""
  }

  lemma WordsOfWordStart(t: string)
    requires t != [] && !IsSpace(t[0])
    ensures Words(t) == [t[..WordLength(t)]] + Words(t[WordLength(t)..])
  {
    assert LeadingSpaces(t) == 0;
    assert t[0..] == t;
  }

  lemma CollapseOfSpaceStart(u: string)
    requires u != [] && IsSpace(u[0])
    ensures CollapseSpaces(u) == [' '] + CollapseSpaces(u[LeadingSpaces(u)..])
  {
  }

  /** Leading whitespace collapses to at most one space in front of the rest. */
  lemma CollapseAfterLeading(s: string)
    ensures CollapseSpaces(s)
      == (if LeadingSpaces(s) > 0 then " " else "") + CollapseSpaces(s[LeadingSpaces(s)..])
  {
    if LeadingSpaces(s) == 0 {
      assert s[0..] == s;
    } else {
      CollapseOfSpaceStart(s);
    }
  }

  /** Stripping one optional space from each side of the joined words leaves the words. */
  lemma StripAroundWords(before: string, t: string)
    requires before == "" || before == " "
    requires t == [] || !IsSpace(t[0])
    ensures Strip(before + CollapseSpaces(t)) == Join(" ", Words(t))
  {
    CollapseWords(t);
    WordsAreWords(t);
    JoinOfWordsEnds(Words(t));
    var joined := Join(" ", Words(t));
    var after := SpaceAfterWords(t);
    ConcatAssoc(before, joined, after);
    StripAround(before, joined, after);
  }

  /** Line 35 as a whole: collapse plus strip is `" ".join(s.split())`. */
  lemma CollapseStripJoinsWords(s: string)
    ensures Strip(CollapseSpaces(s)) == Join(" ", Words(s))
  {
    var lead := LeadingSpaces(s);
    WordsSkipsSpaces(s);
    CollapseAfterLeading(s);
    StripAroundWords(if lead > 0 then " " else "", s[lead..]);
  }

  /** Single-space separated text with no whitespace at either end. */
  predicate IsNormal(t: string)
  {
    && (t == [] || (!IsSpace(t[0]) && !IsSpace(t[|t| - 1])))
    && (forall k :: 0 <= k < |t| && IsSpace(t[k]) ==> t[k] == ' ')
    && (forall k :: 0 <= k < |t| - 1 ==> !IsSpace(t[k]) || !IsSpace(t[k + 1]))
  }

  /** Line 35 of `scrape_text`: collapse whitespace runs, then `strip()`. */
  function Normalize(s: string): (r: string)
    ensures r == Join(" ", Words(s))
    ensures IsNormal(r)
    ensures '\n' !in r
    ensures NonSpace(r) == NonSpace(s)
  {
    CollapseSpacesShape(s);
    StripKeepsCollapsed(CollapseSpaces(s));
    StripKeepsNonSpace(CollapseSpaces(s));
    CollapseStripJoinsWords(s);
    Strip(CollapseSpaces(s))
  }

  /** Stripping collapsed text leaves normal text. */
  lemma StripKeepsCollapsed(c: string)
    requires forall k :: 0 <= k < |c| && IsSpace(c[k]) ==> c[k] == ' '
    requires forall k :: 0 <= k < |c| - 1 ==> !IsSpace(c[k]) || !IsSpace(c[k + 1])
    ensures IsNormal(Strip(c))
  {
    var r := Strip(c);
    var lead := LeadingSpaces(c);
    forall k | 0 <= k < |r|
      ensures r[k] == c[lead + k]
    {
    }
  }

  /** Collapsing changes nothing in text whose whitespace is already single spaces. */
  lemma {:induction false} CollapseSpacesUnchanged(t: string)
    requires forall k :: 0 <= k < |t| && IsSpace(t[k]) ==> t[k] == ' '
    requires forall k :: 0 <= k < |t| - 1 ==> !IsSpace(t[k]) || !IsSpace(t[k + 1])
    ensures CollapseSpaces(t) == t
    decreases |t|
  {
    if t != [] {
      var rest := t[1..];
      assert forall k :: 0 <= k < |rest| - 1 ==> !IsSpace(rest[k]) || !IsSpace(rest[k + 1]);
      CollapseSpacesUnchanged(rest);
      if IsSpace(t[0]) {
        assert LStrip(t) == rest by {
          assert |t| > 1 ==> !IsSpace(t[1]);
          assert LeadingSpaces(t) == 1;
        }
      }
      assert t == [t[0]] + rest;
    }
  }

  /** Line 35 leaves text unchanged exactly when it is already normal. */
  lemma NormalizeUnchangedIff(t: string)
    ensures Normalize(t) == t <==> IsNormal(t)
  {
    if IsNormal(t) {
      CollapseSpacesUnchanged(t);
      StripUnchangedIff(t);
    }
  }

  /** Collapse plus strip is idempotent. */
  lemma NormalizeIdempotent(s: string)
    ensures Normalize(Normalize(s)) == Normalize(s)
  {
    NormalizeUnchangedIff(Normalize(s));
  }

  /** `scrape_text` after parsing: join with spaces, delete citation markers,
      collapse whitespace and strip. The result is normal text with no
      newline, and its non-whitespace characters are those of the joined
      paragraphs, in order, less the deleted markers. */
  function ScrapeText(paragraphs: seq<string>): (r: string)
    ensures r == Join(" ", Words(RemoveCitations(Join(" ", paragraphs))))
    ensures NonSpace(r) == NonSpace(RemoveCitations(Join(" ", paragraphs)))
    ensures IsNormal(r)
    ensures '\n' !in r
    ensures IsSubsequence(NonSpace(r), NonSpace(Join(" ", paragraphs)))
  {
    var joined := Join(" ", paragraphs);
    var cleaned := RemoveCitations(joined);
    RemoveCitationsKeepsOrder(joined);
    NonSpaceKeepsOrder(cleaned, joined);
    Normalize(cleaned)
  }

  lemma {:induction false} NonSpaceKeepsOrder(r: string, s: string)
    requires IsSubsequence(r, s)
    ensures IsSubsequence(NonSpace(r), NonSpace(s))
    decreases |s|
  {
    if r == [] {
      assert NonSpace(r) == [];
    } else {
      var ns := NonSpace(s);
      if IsSpace(s[0]) {
        assert ns == NonSpace(s[1..]);
      } else {
        assert ns == [s[0]] + NonSpace(s[1..]);
        assert ns[1..] == NonSpace(s[1..]);
      }
      if r[0] == s[0] && IsSubsequence(r[1..], s[1..]) {
        NonSpaceKeepsOrder(r[1..], s[1..]);
        var nr := NonSpace(r);
        if IsSpace(s[0]) {
          assert nr == NonSpace(r[1..]);
        } else {
          assert nr == [r[0]] + NonSpace(r[1..]);
          assert nr[1..] == NonSpace(r[1..]);
        }
      } else {
        NonSpaceKeepsOrder(r, s[1..]);
        if !IsSpace(s[0]) {
          SubsequenceOfSuffix(NonSpace(r), ns, 1);
        }
      }
    }
  }
}
