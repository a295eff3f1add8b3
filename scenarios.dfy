/**
 Worked inputs for the chunker: the text "Hello world. This is a test! Is
 it? Yes." packed under a wide budget and under one smaller than its first
 sentence.
 */
module Scenarios {
  import opened StringOps
  import opened Segmentation
  import opened Packing

  // The stripped sentences ...
  const W1: string := "Hello world."
  const W2: string := "This is a test!"
  const W3: string := "Is it?"
  const W4: string := "Yes."

  // ... the matches the regex finds, each keeping the space before it ...
  const S1: string := W1
  const S2: string := " " + W2
  const S3: string := " " + W3
  const S4: string := " " + W4

  // ... and the text they come from.
  const Text: string := S1 + S2 + S3 + S4

  lemma Sentence1()
    ensures IsSentence(S1) && Strip(S1) == W1 && |S1| == 12
  {
    assert IsSentence(S1) by {
      assert S1[..|S1| - 1] == "" + W1[..|W1| - 1];
    }
    assert Trimmed(W1) by {
      assert !IsSpace(W1[0]) && !IsSpace(W1[|W1| - 1]);
    }
    assert Strip(S1) == W1 by {
      StripCharacterized("", W1, "");
      assert "" + W1 + "" == S1;
    }
  }

  lemma Sentence2()
    ensures IsSentence(S2) && Strip(S2) == W2 && |S2| == 16
  {
    assert IsSentence(S2) by {
      assert S2[..|S2| - 1] == " " + W2[..|W2| - 1];
    }
    assert Trimmed(W2) by {
      assert !IsSpace(W2[0]) && !IsSpace(W2[|W2| - 1]);
    }
    assert Strip(S2) == W2 by {
      StripCharacterized(" ", W2, "");
      assert " " + W2 + "" == S2;
    }
  }

  lemma Sentence3()
    ensures IsSentence(S3) && Strip(S3) == W3 && |S3| == 7
  {
    assert IsSentence(S3) by {
      assert S3[..|S3| - 1] == " " + W3[..|W3| - 1];
    }
    assert Trimmed(W3) by {
      assert !IsSpace(W3[0]) && !IsSpace(W3[|W3| - 1]);
    }
    assert Strip(S3) == W3 by {
      StripCharacterized(" ", W3, "");
      assert " " + W3 + "" == S3;
    }
  }

  lemma Sentence4()
    ensures IsSentence(S4) && Strip(S4) == W4 && |S4| == 5
  {
    assert IsSentence(S4) by {
      assert S4[..|S4| - 1] == " " + W4[..|W4| - 1];
    }
    assert Trimmed(W4) by {
      assert !IsSpace(W4[0]) && !IsSpace(W4[|W4| - 1]);
    }
    assert Strip(S4) == W4 by {
      StripCharacterized(" ", W4, "");
      assert " " + W4 + "" == S4;
    }
  }

  // Steps that hold for any four strings.

  lemma AssembleFour(a: string, b: string, c: string, d: string)
    ensures Assemble(["", "", "", "", ""], [a, b, c, d], "") == a + b + c + d
  {
    var gaps: seq<string> := ["", "", "", "", ""];
    var ss := [a, b, c, d];
    assert Assemble(gaps[4..], ss[4..], "") == "";
    assert Assemble(gaps[3..], ss[3..], "") == d;
    assert Assemble(gaps[2..], ss[2..], "") == c + d;
    assert Assemble(gaps[1..], ss[1..], "") == b + c + d;
  }

  lemma GroupsOfFour(a: string, b: string, c: string, d: string, maxLength: int)
    ensures Groups([a, b, c, d], maxLength)
      == Place(Place(Place(Place([[]], a, maxLength), b, maxLength), c, maxLength), d, maxLength)
  {
    Snocs(a, b, c, d);
    assert Groups([a], maxLength) == Place([[]], a, maxLength) by {
      GroupsSnoc([], a, maxLength);
    }
    assert Groups([a, b], maxLength) == Place(Groups([a], maxLength), b, maxLength) by {
      GroupsSnoc([a], b, maxLength);
    }
    assert Groups([a, b, c], maxLength) == Place(Groups([a, b], maxLength), c, maxLength) by {
      GroupsSnoc([a, b], c, maxLength);
    }
    GroupsSnoc([a, b, c], d, maxLength);
  }

  lemma Snocs(a: string, b: string, c: string, d: string)
    ensures [] + [a] == [a] && [a] + [b] == [a, b]
    ensures [a, b] + [c] == [a, b, c] && [a, b, c] + [d] == [a, b, c, d]
  {
  }

  lemma JoinOnly(g: seq<string>, s: string, maxLength: int)
    requires TotalLength(g) + |s| <= maxLength
    ensures Place([g], s, maxLength) == [g + [s]]
  {
    assert [g][..0] == [];
  }

  lemma PrefixLengths(a: string, b: string, c: string)
    ensures TotalLength([a]) == |a|
    ensures TotalLength([a, b]) == |a| + |b|
    ensures TotalLength([a, b, c]) == |a| + |b| + |c|
  {
    assert [a][..0] == [];
    assert [a, b][..1] == [a];
    assert [a, b, c][..2] == [a, b];
  }

  lemma OneGroup(a: string, b: string, c: string, d: string, maxLength: int)
    requires |a| + |b| + |c| + |d| <= maxLength
    ensures Groups([a, b, c, d], maxLength) == [[a, b, c, d]]
  {
    GroupsOfFour(a, b, c, d, maxLength);
    PrefixLengths(a, b, c);
    Snocs(a, b, c, d);
    JoinOnly([], a, maxLength);
    JoinOnly([a], b, maxLength);
    JoinOnly([a, b], c, maxLength);
    JoinOnly([a, b, c], d, maxLength);
  }

  lemma AllApart(a: string, b: string, c: string, d: string, maxLength: int)
    requires |a| > maxLength && |a| + |b| > maxLength
    requires |b| + |c| > maxLength && |c| + |d| > maxLength
    ensures Groups([a, b, c, d], maxLength) == [[], [a], [b], [c], [d]]
  {
    GroupsOfFour(a, b, c, d, maxLength);
    var g1 := Place([[]], a, maxLength);
    assert g1 == [[], [a]];
    var g2 := Place(g1, b, maxLength);
    assert g2 == [[], [a], [b]] by {
      AccumulateSingle(a);
    }
    var g3 := Place(g2, c, maxLength);
    assert g3 == [[], [a], [b], [c]] by {
      AccumulateSingle(b);
    }
    assert Place(g3, d, maxLength) == [[], [a], [b], [c], [d]] by {
      AccumulateSingle(c);
    }
  }

  lemma JoinFour(a: string, b: string, c: string, d: string)
    ensures JoinSpace([a, b, c, d]) == a + " " + b + " " + c + " " + d
  {
    assert [a, b, c, d][..3] == [a, b, c];
    assert [a, b, c][..2] == [a, b];
    assert [a, b][..1] == [a];
    assert JoinSpace([a, b]) == a + " " + b;
    assert JoinSpace([a, b, c]) == a + " " + b + " " + c;
  }

  lemma RenderSingle(s: string)
    requires IsSentence(s)
    ensures Render([s]) == Strip(s)
  {
    RenderJoins([s]);
    assert StripEach([s]) == [Strip(s)];
  }

  lemma StripEachFour(a: string, b: string, c: string, d: string)
    ensures StripEach([a, b, c, d]) == [Strip(a), Strip(b), Strip(c), Strip(d)]
  {
  }

  lemma RenderFour(a: string, b: string, c: string, d: string)
    requires IsSentence(a) && IsSentence(b) && IsSentence(c) && IsSentence(d)
    ensures Render([a, b, c, d]) == Strip(a) + " " + Strip(b) + " " + Strip(c) + " " + Strip(d)
  {
    var g := [a, b, c, d];
    assert forall i :: 0 <= i < |g| ==> IsSentence(g[i]) by {
      assert g[0] == a && g[1] == b && g[2] == c && g[3] == d;
    }
    RenderJoins(g);
    StripEachFour(a, b, c, d);
    JoinFour(Strip(a), Strip(b), Strip(c), Strip(d));
  }

  lemma RenderAllFive(g0: seq<string>, g1: seq<string>, g2: seq<string>, g3: seq<string>, g4: seq<string>)
    ensures RenderAll([g0, g1, g2, g3, g4]) == [Render(g0), Render(g1), Render(g2), Render(g3), Render(g4)]
  {
    var gs := [g0, g1, g2, g3, g4];
    assert gs[..4] == [g0, g1, g2, g3];
    assert gs[..4][..3] == [g0, g1, g2];
    assert gs[..4][..3][..2] == [g0, g1];
    assert gs[..4][..3][..2][..1] == [g0];
    assert [g0][..0] == [];
    assert RenderAll([g0]) == [Render(g0)];
    assert RenderAll([g0, g1]) == [Render(g0), Render(g1)];
    assert RenderAll([g0, g1, g2]) == [Render(g0), Render(g1), Render(g2)];
    assert RenderAll([g0, g1, g2, g3]) == [Render(g0), Render(g1), Render(g2), Render(g3)];
  }

  lemma RenderApart(a: string, b: string, c: string, d: string)
    requires IsSentence(a) && IsSentence(b) && IsSentence(c) && IsSentence(d)
    ensures RenderAll([[], [a], [b], [c], [d]]) == ["", Strip(a), Strip(b), Strip(c), Strip(d)]
  {
    RenderJoins([]);
    RenderSingle(a);
    RenderSingle(b);
    RenderSingle(c);
    RenderSingle(d);
    RenderAllFive([], [a], [b], [c], [d]);
  }

  // The worked inputs.

  /** The regex finds exactly the four sentences. */
  lemma TextSentences()
    ensures Sentences(Text) == [S1, S2, S3, S4]
  {
    Sentence1();
    Sentence2();
    Sentence3();
    Sentence4();
    assert Segmented(["", "", "", "", ""], [S1, S2, S3, S4], "");
    AssembleFour(S1, S2, S3, S4);
    SentencesUnique(["", "", "", "", ""], [S1, S2, S3, S4], "");
  }

  /** Under a budget of 40 or more (the raw lengths are 12, 16, 7 and 5)
      all four sentences share one paragraph. */
  lemma WideBudget(maxLength: int)
    requires maxLength >= 40
    ensures Paragraphs(Text, maxLength) == [W1 + " " + W2 + " " + W3 + " " + W4]
  {
    var g := [S1, S2, S3, S4];
    TextSentences();
    Sentence1();
    Sentence2();
    Sentence3();
    Sentence4();
    OneGroup(S1, S2, S3, S4, maxLength);
    RenderFour(S1, S2, S3, S4);
    RenderAllSnoc([], g);
    assert [] + [g] == [g];
  }

  /** Under a budget of 5 the first sentence already overflows: the first
      paragraph is empty and every sentence stands alone. */
  lemma TinyBudget()
    ensures Paragraphs(Text, 5) == ["", W1, W2, W3, W4]
  {
    TextSentences();
    Sentence1();
    Sentence2();
    Sentence3();
    Sentence4();
    AllApart(S1, S2, S3, S4, 5);
    RenderApart(S1, S2, S3, S4);
  }
}
