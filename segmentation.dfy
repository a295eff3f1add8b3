/**
 Sentence segmentation: `re.findall('[^\.!?]+[\.!?]', text)`.

 A match is one or more characters other than `.`, `!` and `?`, followed by
 one of those three. Matches are found left to right and never overlap; a
 terminator that does not close a match, and a trailing run with no
 terminator after it, belong to no match.
 */
module Segmentation {

  predicate IsTerminator(c: char) {
    c == '.' || c == '!' || c == '?'
  }

  predicate NoTerminator(s: string) {
    forall i :: 0 <= i < |s| ==> !IsTerminator(s[i])
  }

  predicate AllTerminators(s: string) {
    forall i :: 0 <= i < |s| ==> IsTerminator(s[i])
  }

  /** What one match of the pattern looks like. */
  predicate IsSentence(s: string) {
    |s| >= 2 && IsTerminator(s[|s| - 1]) && NoTerminator(s[..|s| - 1])
  }

  /** Length of the longest prefix of `s` without a terminator: how far the
      greedy `[^\.!?]+` runs from the start of `s`. */
  function RunLength(s: string): (n: nat)
    ensures n <= |s| && NoTerminator(s[..n])
    ensures n == |s| || IsTerminator(s[n])
  {
    if s == [] || IsTerminator(s[0]) then 0 else 1 + RunLength(s[1..])
  }

  /** The list `re.findall` returns. At a terminator no match can start, so
      the scan moves on by one character. Elsewhere the greedy run is
      followed either by a terminator, closing a match, or by the end of the
      text; in the second case no later position can start a match either,
      because every later start runs into the same end. */
  function Sentences(text: string): (r: seq<string>)
    ensures forall i :: 0 <= i < |r| ==> IsSentence(r[i])
    decreases |text|
  {
    if text == [] then []
    else if IsTerminator(text[0]) then Sentences(text[1..])
    else
      var n := RunLength(text);
      if n == |text| then [] else [text[..n + 1]] + Sentences(text[n + 1..])
  }

  /** The text put back together from its pieces: `gaps[0] + ss[0] + gaps[1]
      + ss[1] + ... + gaps[|ss|] + tail`. */
  function Assemble(gaps: seq<string>, ss: seq<string>, tail: string): string
    requires |gaps| == |ss| + 1
    decreases |ss|
  {
    if ss == [] then gaps[0] + tail
    else gaps[0] + ss[0] + Assemble(gaps[1..], ss[1..], tail)
  }

  /** A decomposition of a text the way the pattern sees it: the matches, the
      stray terminators between them, and a terminator-free rest. */
  predicate Segmented(gaps: seq<string>, ss: seq<string>, tail: string) {
    && |gaps| == |ss| + 1
    && (forall i :: 0 <= i < |gaps| ==> AllTerminators(gaps[i]))
    && (forall i :: 0 <= i < |ss| ==> IsSentence(ss[i]))
    && NoTerminator(tail)
  }

  lemma PrependTerminator(c: char, gaps: seq<string>, ss: seq<string>, tail: string)
    requires IsTerminator(c) && Segmented(gaps, ss, tail)
    ensures Segmented([[c] + gaps[0]] + gaps[1..], ss, tail)
    ensures Assemble([[c] + gaps[0]] + gaps[1..], ss, tail) == [c] + Assemble(gaps, ss, tail)
  {
    var g := [[c] + gaps[0]] + gaps[1..];
    assert g[1..] == gaps[1..];
    if ss != [] {
      assert Assemble(g, ss, tail) == [c] + gaps[0] + ss[0] + Assemble(gaps[1..], ss[1..], tail);
    }
  }

  lemma PrependSentence(s: string, gaps: seq<string>, ss: seq<string>, tail: string)
    requires IsSentence(s) && Segmented(gaps, ss, tail)
    ensures Segmented([[]] + gaps, [s] + ss, tail)
    ensures Assemble([[]] + gaps, [s] + ss, tail) == s + Assemble(gaps, ss, tail)
  {
    assert ([[]] + gaps)[1..] == gaps;
    assert ([s] + ss)[1..] == ss;
  }

  /** Every text decomposes around the sentences found in it: the sentences
      are non-overlapping substrings in left-to-right order, and what lies
      between and after them is stray terminators and a terminator-free tail. */
  lemma {:induction false} SentencesCover(text: string) returns (gaps: seq<string>, tail: string)
    ensures Segmented(gaps, Sentences(text), tail)
    ensures Assemble(gaps, Sentences(text), tail) == text
    decreases |text|
  {
    if text == [] {
      gaps, tail := [[]], [];
    } else if IsTerminator(text[0]) {
      assert Sentences(text) == Sentences(text[1..]);
      var g, t := SentencesCover(text[1..]);
      PrependTerminator(text[0], g, Sentences(text[1..]), t);
      gaps, tail := [[text[0]] + g[0]] + g[1..], t;
      assert text == [text[0]] + text[1..];
    } else {
      var n := RunLength(text);
      if n == |text| {
        gaps, tail := [[]], text;
        assert Assemble(gaps, [], tail) == [] + text;
      } else {
        assert Sentences(text) == [text[..n + 1]] + Sentences(text[n + 1..]);
        var g, t := SentencesCover(text[n + 1..]);
        PrependSentence(text[..n + 1], g, Sentences(text[n + 1..]), t);
        gaps, tail := [[]] + g, t;
        assert text == text[..n + 1] + text[n + 1..];
      }
    }
  }

  lemma {:induction false} RunLengthOf(run: string, rest: string)
    requires NoTerminator(run)
    requires rest == [] || IsTerminator(rest[0])
    ensures RunLength(run + rest) == |run|
    decreases |run|
  {
    if run == [] {
      assert run + rest == rest;
    } else {
      assert (run + rest)[1..] == run[1..] + rest;
      RunLengthOf(run[1..], rest);
    }
  }

  lemma {:induction false} SkipTerminators(gap: string, rest: string)
    requires AllTerminators(gap)
    ensures Sentences(gap + rest) == Sentences(rest)
    decreases |gap|
  {
    if gap == [] {
      assert gap + rest == rest;
    } else {
      assert (gap + rest)[1..] == gap[1..] + rest;
      SkipTerminators(gap[1..], rest);
    }
  }

  lemma NoSentenceIn(tail: string)
    requires NoTerminator(tail)
    ensures Sentences(tail) == []
  {
    if tail != [] {
      RunLengthOf(tail, []);
      assert tail + [] == tail;
    }
  }

  lemma FirstSentence(s: string, rest: string)
    requires IsSentence(s)
    ensures Sentences(s + rest) == [s] + Sentences(rest)
  {
    var n := |s| - 1;
    var text := s + rest;
    assert s == s[..n] + s[n..];
    assert text == s[..n] + (s[n..] + rest);
    RunLengthOf(s[..n], s[n..] + rest);
    assert text[..n + 1] == s;
    assert text[n + 1..] == rest;
  }

  /** The decomposition is unique: whenever a text is put together from
      sentences, stray terminators and a terminator-free tail, `findall`
      returns exactly those sentences. */
  lemma {:induction false} SentencesUnique(gaps: seq<string>, ss: seq<string>, tail: string)
    requires Segmented(gaps, ss, tail)
    ensures Sentences(Assemble(gaps, ss, tail)) == ss
    decreases |ss|
  {
    if ss == [] {
      SkipTerminators(gaps[0], tail);
      NoSentenceIn(tail);
    } else {
      var rest := Assemble(gaps[1..], ss[1..], tail);
      assert Segmented(gaps[1..], ss[1..], tail);
      SentencesUnique(gaps[1..], ss[1..], tail);
      assert gaps[0] + ss[0] + rest == gaps[0] + (ss[0] + rest);
      SkipTerminators(gaps[0], ss[0] + rest);
      FirstSentence(ss[0], rest);
      assert [ss[0]] + ss[1..] == ss;
    }
  }

  /** A character absent from the text is absent from every sentence. */
  lemma {:induction false} SentencesLack(text: string, c: char)
    requires c !in text
    ensures forall i :: 0 <= i < |Sentences(text)| ==> c !in Sentences(text)[i]
    decreases |text|
  {
    if text != [] {
      if IsTerminator(text[0]) {
        SentencesLack(text[1..], c);
      } else {
        var n := RunLength(text);
        if n < |text| {
          SentencesLack(text[n + 1..], c);
        }
      }
    }
  }
}
