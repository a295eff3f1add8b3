/**
 The tail of `TrafilaturaChain._get_text`: the article text, once fetched
 and extracted, loses its line breaks, is packed into paragraphs of at most
 500 characters, and the first ten paragraphs are concatenated into the
 excerpt handed to the summary chain.
 */
module Extractor {
  import opened StringOps
  import opened Segmentation
  import opened Packing

  /** The budget `_get_text` passes to the packer. */
  const MaxLength := 500

  /** How many paragraphs make it into the excerpt. */
  const MaxParagraphs := 10

  /** Python's slice `ps[0:n]`: the first `n` elements, or all of them when
      there are fewer. */
  function Take<T>(ps: seq<T>, n: nat): (r: seq<T>)
    ensures |r| == (if n <= |ps| then n else |ps|)
    ensures forall i :: 0 <= i < |r| ==> r[i] == ps[i]
  {
    if n <= |ps| then ps[..n] else ps
  }

  /** The excerpt `_get_text` returns for the extracted text `extracted`;
      it never contains a line break. */
  function Excerpt(extracted: string): (r: string)
    ensures '\n' !in r
  {
    var text := RemoveNewlines(extracted);
    var kept := Take(Paragraphs(text, MaxLength), MaxParagraphs);
    ParagraphsLack(text, MaxLength, '\n');
    ConcatLacks(kept, '\n');
    Concat(kept)
  }

  /** A text with no sentence terminator in it yields the empty excerpt. */
  lemma ExcerptWithoutSentence(extracted: string)
    requires NoTerminator(extracted)
    ensures Excerpt(extracted) == ""
  {
    var text := RemoveNewlines(extracted);
    RemoveNewlinesLacks(extracted, '.');
    RemoveNewlinesLacks(extracted, '!');
    RemoveNewlinesLacks(extracted, '?');
    assert NoTerminator(text);
    NoSentenceIn(text);
    assert Take([""], MaxParagraphs) == [""];
    assert Concat([""]) == Concat([]) + "";
  }

  /** Line breaks play no part beyond being dropped: a text with none is
      packed as it stands, and adding line breaks changes nothing. */
  lemma ExcerptOfFlatText(text: string)
    requires '\n' !in text
    ensures Excerpt(text) == Concat(Take(Paragraphs(text, MaxLength), MaxParagraphs))
  {
    RemoveNewlinesKeeps(text);
  }

  lemma ExcerptIgnoresNewlines(a: string, b: string)
    ensures Excerpt(a + "\n" + b) == Excerpt(a + b)
  {
    assert RemoveNewlines(a + "\n" + b) == RemoveNewlines(a + b) by {
      RemoveNewlinesAppend(a + "\n", b);
      RemoveNewlinesAppend(a, "\n");
      RemoveNewlinesAppend(a, b);
      assert RemoveNewlines("\n") == [] + RemoveNewlines([]);
      assert RemoveNewlines(a) + [] == RemoveNewlines(a);
    }
  }

  /** `_get_text` from the extracted article text on: the fetch, the
      extraction and the JSON decoding happen before it. */
  method GetText(extracted: string) returns (excerpt: string)
    ensures excerpt == Excerpt(extracted)
    ensures '\n' !in excerpt
  {
    var text := RemoveNewlines(extracted);
    var paragraph := ParagraphsFromText(text, MaxLength);
    excerpt := Concat(Take(paragraph, MaxParagraphs));
  }
}
