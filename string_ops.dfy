/**
 The Python string operations the chunker relies on: `str.strip()` with no
 argument, `str.replace("\n", "")`, `"".join(...)`, and — as the reference
 shape of a finished paragraph — joining with single spaces.
 */
module StringOps {

  /** The characters for which Python's `str.isspace()` holds; `str.strip()`
      with no argument removes exactly these from both ends: the controls
      U+0009..U+000D and U+001C..U+001F, the space, U+0085, U+00A0, U+1680,
      U+2000..U+200A, U+2028, U+2029, U+202F, U+205F and U+3000. */
  const Whitespace: set<char> := {
    '\t', '\n', '\U{000B}', '\U{000C}', '\r',
    '\U{001C}', '\U{001D}', '\U{001E}', '\U{001F}', ' ', '\U{0085}', '\U{00A0}', '\U{1680}',
    '\U{2000}', '\U{2001}', '\U{2002}', '\U{2003}', '\U{2004}', '\U{2005}',
    '\U{2006}', '\U{2007}', '\U{2008}', '\U{2009}', '\U{200A}',
    '\U{2028}', '\U{2029}', '\U{202F}', '\U{205F}', '\U{3000}'
  }

  predicate IsSpace(c: char) { c in Whitespace }

  /** The same set stated as the code-point ranges Python's `str.isspace()`
      accepts. */
  lemma IsSpaceRanges(c: char)
    ensures IsSpace(c) <==>
      || '\t' <= c <= '\r' || '\U{001C}' <= c <= ' ' || c == '\U{0085}' || c == '\U{00A0}'
      || c == '\U{1680}' || '\U{2000}' <= c <= '\U{200A}' || c == '\U{2028}' || c == '\U{2029}'
      || c == '\U{202F}' || c == '\U{205F}' || c == '\U{3000}'
  {
  }

  predicate AllSpace(s: string) {
    forall i :: 0 <= i < |s| ==> IsSpace(s[i])
  }

  /** Neither end of `s` is whitespace (the empty string qualifies). */
  predicate Trimmed(s: string) {
    s == [] || (!IsSpace(s[0]) && !IsSpace(s[|s| - 1]))
  }

  /** How many whitespace characters `s.lstrip()` removes from the front. */
  function LeadingSpace(s: string): (n: nat)
    ensures n <= |s|
    ensures forall k :: 0 <= k < n ==> IsSpace(s[k])
    ensures n == |s| || !IsSpace(s[n])
  {
    if s != [] && IsSpace(s[0]) then 1 + LeadingSpace(s[1..]) else 0
  }

  /** How many whitespace characters `s.rstrip()` removes from the back. */
  function TrailingSpace(s: string): (n: nat)
    ensures n <= |s|
    ensures forall k :: |s| - n <= k < |s| ==> IsSpace(s[k])
    ensures n == |s| || !IsSpace(s[|s| - 1 - n])
  {
    if s != [] && IsSpace(s[|s| - 1]) then 1 + TrailingSpace(s[..|s| - 1]) else 0
  }

  /** `s.strip()`: leading whitespace goes first, then trailing whitespace. */
  function Strip(s: string): (r: string)
    ensures Trimmed(r)
    ensures |r| <= |s|
  {
    var l := s[LeadingSpace(s)..];
    l[..|l| - TrailingSpace(l)]
  }

  lemma {:induction false} LeadingSpaceOf(lead: string, rest: string)
    requires AllSpace(lead)
    requires rest == [] || !IsSpace(rest[0])
    ensures LeadingSpace(lead + rest) == |lead|
    decreases |lead|
  {
    if lead != [] {
      assert (lead + rest)[1..] == lead[1..] + rest;
      LeadingSpaceOf(lead[1..], rest);
    } else {
      assert lead + rest == rest;
    }
  }

  lemma {:induction false} TrailingSpaceOf(rest: string, trail: string)
    requires AllSpace(trail)
    requires rest == [] || !IsSpace(rest[|rest| - 1])
    ensures TrailingSpace(rest + trail) == |trail|
    decreases |trail|
  {
    if trail != [] {
      assert (rest + trail)[..|rest + trail| - 1] == rest + trail[..|trail| - 1];
      TrailingSpaceOf(rest, trail[..|trail| - 1]);
    } else {
      assert rest + trail == rest;
    }
  }

  /** Stripping removes whitespace from the two ends and nothing else: a
      trimmed core surrounded by whitespace strips to exactly that core. */
  lemma StripCharacterized(lead: string, core: string, trail: string)
    requires AllSpace(lead) && AllSpace(trail) && Trimmed(core)
    ensures Strip(lead + core + trail) == core
  {
    var s := lead + core + trail;
    if core == [] {
      assert s == lead + trail;
      assert AllSpace(s) by {
        forall k | 0 <= k < |s| ensures IsSpace(s[k]) {
          if k < |lead| { assert s[k] == lead[k]; }
          else { assert s[k] == trail[k - |lead|]; }
        }
      }
      LeadingSpaceOf(s, []);
      assert s + [] == s;
    } else {
      assert s == lead + (core + trail);
      LeadingSpaceOf(lead, core + trail);
      assert s[|lead|..] == core + trail;
      TrailingSpaceOf(core, trail);
    }
  }

  /** Every string is its stripped form surrounded by whitespace: `Strip(s)`
      is the slice `s[i..j]`, and everything outside it is whitespace. */
  lemma StripSplits(s: string) returns (i: nat, j: nat)
    ensures i <= j <= |s| && Strip(s) == s[i..j]
    ensures AllSpace(s[..i]) && AllSpace(s[j..])
  {
    i := LeadingSpace(s);
    var l := s[i..];
    j := i + |l| - TrailingSpace(l);
    assert s[j..] == l[|l| - TrailingSpace(l)..];
  }

  /** A string that ends in a non-whitespace character keeps that character
      and does not strip to the empty string. */
  lemma StripKeepsLast(s: string)
    requires s != [] && !IsSpace(s[|s| - 1])
    ensures Strip(s) != [] && Strip(s)[|Strip(s)| - 1] == s[|s| - 1]
  {
    var l := s[LeadingSpace(s)..];
    assert l[|l| - 1] == s[|s| - 1];
  }

  lemma StripLacks(s: string, c: char)
    requires c !in s
    ensures c !in Strip(s)
  {
    var i, j := StripSplits(s);
  }

  /** The summed length of the strings in `parts`. */
  function TotalLength(parts: seq<string>): (n: nat)
  {
    if parts == [] then 0 else TotalLength(parts[..|parts| - 1]) + |parts[|parts| - 1]|
  }

  /** Every string counts towards the total. */
  lemma {:induction false} TotalLengthAtLeast(parts: seq<string>, i: nat)
    requires i < |parts|
    ensures |parts[i]| <= TotalLength(parts)
  {
    if i < |parts| - 1 {
      TotalLengthAtLeast(parts[..|parts| - 1], i);
    }
  }

  /** `"".join(parts)`: as long as all the parts together, and splitting the
      list splits the result (`ConcatAppend`). */
  function Concat(parts: seq<string>): (r: string)
    ensures |r| == TotalLength(parts)
  {
    if parts == [] then [] else Concat(parts[..|parts| - 1]) + parts[|parts| - 1]
  }

  /** `"".join` of two lists one after the other is the two joins one after
      the other; with `ConcatOne` this pins `Concat` down. */
  lemma {:induction false} ConcatAppend(a: seq<string>, b: seq<string>)
    ensures Concat(a + b) == Concat(a) + Concat(b)
    decreases |b|
  {
    if b == [] {
      assert a + b == a;
    } else {
      var init, last := b[..|b| - 1], b[|b| - 1];
      assert (a + b)[..|a + b| - 1] == a + init;
      ConcatAppend(a, init);
      calc {
        Concat(a + b);
        Concat(a + init) + last;
        Concat(a) + Concat(init) + last;
        Concat(a) + Concat(b);
      }
    }
  }

  lemma ConcatOne(p: string)
    ensures Concat([p]) == p
  {
    assert [p][..0] == [];
  }

  lemma {:induction false} ConcatLacks(parts: seq<string>, c: char)
    requires forall i :: 0 <= i < |parts| ==> c !in parts[i]
    ensures c !in Concat(parts)
  {
    if parts != [] {
      ConcatLacks(parts[..|parts| - 1], c);
    }
  }

  /** `" ".join(parts)` */
  function JoinSpace(parts: seq<string>): string {
    if parts == [] then []
    else if |parts| == 1 then parts[0]
    else JoinSpace(parts[..|parts| - 1]) + " " + parts[|parts| - 1]
  }

  /** Joining non-empty trimmed words with spaces gives a non-empty trimmed
      string that starts with the first word and ends with the last. */
  lemma {:induction false} JoinSpaceTrimmed(parts: seq<string>)
    requires forall i :: 0 <= i < |parts| ==> parts[i] != [] && Trimmed(parts[i])
    ensures Trimmed(JoinSpace(parts))
    ensures parts != [] ==> JoinSpace(parts) != []
    ensures parts != [] ==> JoinSpace(parts)[0] == parts[0][0]
    ensures parts != [] ==> |parts[0]| <= |JoinSpace(parts)| && JoinSpace(parts)[..|parts[0]|] == parts[0]
    ensures parts != [] ==>
      |parts[|parts| - 1]| <= |JoinSpace(parts)|
      && JoinSpace(parts)[|JoinSpace(parts)| - |parts[|parts| - 1]|..] == parts[|parts| - 1]
  {
    if |parts| > 1 {
      var init, last := parts[..|parts| - 1], parts[|parts| - 1];
      JoinSpaceTrimmed(init);
      var j := JoinSpace(init);
      assert JoinSpace(parts) == j + " " + last;
      assert init[0] == parts[0];
      assert (j + " " + last)[..|parts[0]|] == j[..|parts[0]|];
      assert (j + " " + last)[|j| + 1..] == last;
    }
  }

  /** `s.replace("\n", "")` */
  function RemoveNewlines(s: string): (r: string)
    ensures '\n' !in r
    ensures |r| <= |s|
  {
    if s == [] then []
    else (if s[0] == '\n' then [] else [s[0]]) + RemoveNewlines(s[1..])
  }

  /** Removal distributes over concatenation ... */
  lemma {:induction false} RemoveNewlinesAppend(a: string, b: string)
    ensures RemoveNewlines(a + b) == RemoveNewlines(a) + RemoveNewlines(b)
    decreases |a|
  {
    if a == [] {
      assert a + b == b;
    } else {
      var head := if a[0] == '\n' then [] else [a[0]];
      assert (a + b)[0] == a[0] && (a + b)[1..] == a[1..] + b;
      assert RemoveNewlines(a + b) == head + RemoveNewlines(a[1..] + b);
      RemoveNewlinesAppend(a[1..], b);
      assert RemoveNewlines(a) == head + RemoveNewlines(a[1..]);
    }
  }

  /** ... and leaves a string without newlines as it is. */
  lemma {:induction false} RemoveNewlinesKeeps(s: string)
    requires '\n' !in s
    ensures RemoveNewlines(s) == s
    decreases |s|
  {
    if s != [] {
      assert s[0] in s;
      assert s == [s[0]] + s[1..];
      RemoveNewlinesKeeps(s[1..]);
    }
  }

  /** ... and introduces no character that was not there. */
  lemma {:induction false} RemoveNewlinesLacks(s: string, c: char)
    requires c !in s
    ensures c !in RemoveNewlines(s)
    decreases |s|
  {
    if s != [] {
      assert s == [s[0]] + s[1..];
      RemoveNewlinesLacks(s[1..], c);
    }
  }
}
