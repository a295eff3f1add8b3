/**
 Greedy paragraph packing: `TrafilaturaChain._get_paragraphs_from_text`.

 The specification is stated on groups of sentences: `Groups` says which
 sentences end up together in each paragraph, `Render` what string the
 source builds from one group. The method follows the source's loop, with
 its string accumulator and running length, and is proved to produce the
 rendered groups.
 */
module Packing {
  import opened StringOps
  import opened Segmentation

  /** One step of the packing: the sentence `s` joins the last group when the
      group's raw length plus its own stays within `maxLength`, and opens a
      new group otherwise. */
  function Place(gs: seq<seq<string>>, s: string, maxLength: int): (r: seq<seq<string>>)
    requires gs != []
    ensures r != []
  {
    var last := gs[|gs| - 1];
    if TotalLength(last) + |s| <= maxLength then gs[..|gs| - 1] + [last + [s]]
    else gs + [[s]]
  }

  /** One step changes only the end: the groups before the last are kept, at
      most one group is added, and `s` becomes the last sentence of the last
      group. */
  lemma PlaceShape(gs: seq<seq<string>>, s: string, maxLength: int)
    requires gs != []
    ensures var r := Place(gs, s, maxLength);
      && |gs| <= |r| <= |gs| + 1
      && r[..|gs| - 1] == gs[..|gs| - 1]
      && r[|r| - 1] != [] && r[|r| - 1][|r[|r| - 1]| - 1] == s
  {
  }

  /** The sentences of each paragraph, in order, when the sentences `ss` are
      placed one at a time, starting from a single empty group. */
  function Groups(ss: seq<string>, maxLength: int): (gs: seq<seq<string>>)
    ensures gs != []
    decreases |ss|
  {
    if ss == [] then [[]] else Place(Groups(ss[..|ss| - 1], maxLength), ss[|ss| - 1], maxLength)
  }

  function Flatten(gs: seq<seq<string>>): seq<string> {
    if gs == [] then [] else Flatten(gs[..|gs| - 1]) + gs[|gs| - 1]
  }

  /** `current_paragraph` once the sentences of `g` have been added to it,
      each stripped and followed by one space: empty exactly when no sentence
      was added, and otherwise ending in the space the final strip removes. */
  function Accumulate(g: seq<string>): (r: string)
    ensures g != [] ==> r != [] && r[|r| - 1] == ' '
  {
    if g == [] then [] else Accumulate(g[..|g| - 1]) + Strip(g[|g| - 1]) + " "
  }

  /** The paragraph the source emits for the group `g`: trimmed, and `""`
      for the empty group. */
  function Render(g: seq<string>): (r: string)
    ensures Trimmed(r)
    ensures g == [] ==> r == ""
  {
    Strip(Accumulate(g))
  }

  function StripEach(g: seq<string>): (r: seq<string>)
    ensures |r| == |g| && forall i :: 0 <= i < |g| ==> r[i] == Strip(g[i])
  {
    seq(|g|, i requires 0 <= i < |g| => Strip(g[i]))
  }

  /** The rendered groups, in order. */
  function RenderAll(gs: seq<seq<string>>): (ps: seq<string>)
    ensures |ps| == |gs|
  {
    if gs == [] then [] else RenderAll(gs[..|gs| - 1]) + [Render(gs[|gs| - 1])]
  }

  /** Paragraph `k` is group `k`, rendered. */
  lemma {:induction false} RenderAllAt(gs: seq<seq<string>>, k: nat)
    requires k < |gs|
    ensures RenderAll(gs)[k] == Render(gs[k])
  {
    if k < |gs| - 1 {
      RenderAllAt(gs[..|gs| - 1], k);
    }
  }

  /** The list `_get_paragraphs_from_text(text, maxLength)` returns: never
      empty, every paragraph stripped, and `[""]` when the text holds no
      sentence. */
  function Paragraphs(text: string, maxLength: int): (ps: seq<string>)
    ensures |ps| >= 1
    ensures forall k :: 0 <= k < |ps| ==> Trimmed(ps[k])
    ensures Sentences(text) == [] ==> ps == [""]
  {
    var gs := Groups(Sentences(text), maxLength);
    forall k | 0 <= k < |gs| ensures Trimmed(RenderAll(gs)[k]) {
      RenderAllAt(gs, k);
    }
    RenderAll(gs)
  }

  // ---- What the grouping guarantees

  /** Within the budget: a group of two or more sentences, and a non-empty
      first group, has a raw length of at most `maxLength`. */
  predicate WithinBudget(gs: seq<seq<string>>, maxLength: int) {
    forall k :: 0 <= k < |gs| && (|gs[k]| >= 2 || (k == 0 && gs[k] != [])) ==>
      TotalLength(gs[k]) <= maxLength
  }

  /** Every sentence of every group has the property `p`. */
  predicate EveryMember(gs: seq<seq<string>>, p: string -> bool) {
    forall k, j :: 0 <= k < |gs| && 0 <= j < |gs[k]| ==> p(gs[k][j])
  }

  /** Only the first group may be empty. */
  predicate OnlyFirstEmpty(gs: seq<seq<string>>) {
    forall k :: 0 < k < |gs| ==> gs[k] != []
  }

  /** Greedy: each group after the first opens with a sentence that would
      have taken the group before it over the budget. */
  predicate Greedy(gs: seq<seq<string>>, maxLength: int) {
    forall k :: 0 < k < |gs| && gs[k] != [] ==> TotalLength(gs[k - 1]) + |gs[k][0]| > maxLength
  }

  lemma FlattenSnoc(gs: seq<seq<string>>, g: seq<string>)
    ensures Flatten(gs + [g]) == Flatten(gs) + g
  {
    assert (gs + [g])[..|gs|] == gs;
  }

  lemma AccumulateSnoc(g: seq<string>, s: string)
    ensures Accumulate(g + [s]) == Accumulate(g) + Strip(s) + " "
    ensures TotalLength(g + [s]) == TotalLength(g) + |s|
  {
    assert (g + [s])[..|g|] == g;
  }

  lemma AccumulateSingle(s: string)
    ensures Accumulate([s]) == Strip(s) + " "
    ensures TotalLength([s]) == |s|
  {
    assert [s][..0] == [];
    assert [] + Strip(s) == Strip(s);
  }

  lemma RenderAllSnoc(gs: seq<seq<string>>, g: seq<string>)
    ensures RenderAll(gs + [g]) == RenderAll(gs) + [Render(g)]
  {
    assert (gs + [g])[..|gs|] == gs;
  }

  // One placement keeps each guarantee.

  lemma PlaceFlatten(gs: seq<seq<string>>, s: string, maxLength: int)
    requires gs != []
    ensures Flatten(Place(gs, s, maxLength)) == Flatten(gs) + [s]
  {
    var done, last := gs[..|gs| - 1], gs[|gs| - 1];
    assert gs == done + [last];
    FlattenSnoc(done, last);
    if TotalLength(last) + |s| <= maxLength {
      FlattenSnoc(done, last + [s]);
    } else {
      FlattenSnoc(gs, [s]);
    }
  }

  lemma PlaceKeeps(gs: seq<seq<string>>, s: string, maxLength: int, p: string -> bool)
    requires gs != [] && p(s) && EveryMember(gs, p)
    ensures EveryMember(Place(gs, s, maxLength), p)
  {
    var r := Place(gs, s, maxLength);
    forall k, j | 0 <= k < |r| && 0 <= j < |r[k]| ensures p(r[k][j]) {
      if k < |gs| - 1 || (k == |gs| - 1 && j < |gs[k]|) {
        assert r[k][j] == gs[k][j];
      } else {
        assert r[k][j] == s;
      }
    }
  }

  lemma PlaceWithinBudget(gs: seq<seq<string>>, s: string, maxLength: int)
    requires gs != [] && WithinBudget(gs, maxLength)
    ensures WithinBudget(Place(gs, s, maxLength), maxLength)
  {
    var r := Place(gs, s, maxLength);
    var last := gs[|gs| - 1];
    AccumulateSnoc(last, s);
    forall k | 0 <= k < |r| && (|r[k]| >= 2 || (k == 0 && r[k] != []))
      ensures TotalLength(r[k]) <= maxLength
    {
      if k < |gs| - 1 {
        assert r[k] == gs[k];
      } else if TotalLength(last) + |s| <= maxLength {
        assert r[k] == last + [s];
      } else if k == |gs| - 1 {
        assert r[k] == last;
      }
    }
  }

  lemma PlaceOnlyFirstEmpty(gs: seq<seq<string>>, s: string, maxLength: int)
    requires gs != [] && OnlyFirstEmpty(gs)
    ensures OnlyFirstEmpty(Place(gs, s, maxLength))
  {
    var r := Place(gs, s, maxLength);
    assert forall k :: 0 <= k < |gs| - 1 ==> r[k] == gs[k];
  }

  lemma PlaceGreedy(gs: seq<seq<string>>, s: string, maxLength: int)
    requires gs != [] && OnlyFirstEmpty(gs) && Greedy(gs, maxLength)
    ensures Greedy(Place(gs, s, maxLength), maxLength)
  {
    var r := Place(gs, s, maxLength);
    var last := gs[|gs| - 1];
    assert forall k :: 0 <= k < |gs| - 1 ==> r[k] == gs[k];
    if TotalLength(last) + |s| <= maxLength {
      if |gs| > 1 {
        assert r[|gs| - 1][0] == last[0];
      }
    } else {
      assert r[|gs| - 1] == last;
    }
  }

  // The guarantees hold of every grouping, by induction on the sentences.

  /** No sentence is lost, duplicated or reordered: the groups, read in
      order, are the sentences. */
  lemma {:induction false} GroupsFlatten(ss: seq<string>, maxLength: int)
    ensures Flatten(Groups(ss, maxLength)) == ss
    decreases |ss|
  {
    if ss == [] {
      assert Flatten([[]]) == Flatten([]) + [];
    } else {
      var init := ss[..|ss| - 1];
      GroupsFlatten(init, maxLength);
      PlaceFlatten(Groups(init, maxLength), ss[|ss| - 1], maxLength);
      assert ss == init + [ss[|ss| - 1]];
    }
  }

  /** A property every sentence has, every grouped sentence has. */
  lemma {:induction false} GroupsKeep(ss: seq<string>, maxLength: int, p: string -> bool)
    requires forall i :: 0 <= i < |ss| ==> p(ss[i])
    ensures EveryMember(Groups(ss, maxLength), p)
    decreases |ss|
  {
    if ss != [] {
      var init := ss[..|ss| - 1];
      GroupsKeep(init, maxLength, p);
      PlaceKeeps(Groups(init, maxLength), ss[|ss| - 1], maxLength, p);
    }
  }

  lemma {:induction false} GroupsWithinBudget(ss: seq<string>, maxLength: int)
    ensures WithinBudget(Groups(ss, maxLength), maxLength)
    decreases |ss|
  {
    if ss != [] {
      var init := ss[..|ss| - 1];
      GroupsWithinBudget(init, maxLength);
      PlaceWithinBudget(Groups(init, maxLength), ss[|ss| - 1], maxLength);
    }
  }

  lemma {:induction false} GroupsOnlyFirstEmpty(ss: seq<string>, maxLength: int)
    ensures OnlyFirstEmpty(Groups(ss, maxLength))
    decreases |ss|
  {
    if ss != [] {
      var init := ss[..|ss| - 1];
      GroupsOnlyFirstEmpty(init, maxLength);
      PlaceOnlyFirstEmpty(Groups(init, maxLength), ss[|ss| - 1], maxLength);
    }
  }

  lemma {:induction false} GroupsGreedy(ss: seq<string>, maxLength: int)
    ensures Greedy(Groups(ss, maxLength), maxLength)
    decreases |ss|
  {
    if ss != [] {
      var init := ss[..|ss| - 1];
      GroupsGreedy(init, maxLength);
      GroupsOnlyFirstEmpty(init, maxLength);
      PlaceGreedy(Groups(init, maxLength), ss[|ss| - 1], maxLength);
    }
  }

  /** The first group is empty exactly when there is no sentence or the first
      sentence alone is over the budget; in the second case a group follows. */
  lemma {:induction false} GroupsFirst(ss: seq<string>, maxLength: int)
    ensures ss != [] ==> (Groups(ss, maxLength)[0] == [] <==> |ss[0]| > maxLength)
    ensures ss != [] && Groups(ss, maxLength)[0] == [] ==> |Groups(ss, maxLength)| >= 2
    decreases |ss|
  {
    if |ss| == 1 {
      assert ss[..0] == [];
    } else if |ss| > 1 {
      var init := ss[..|ss| - 1];
      GroupsFirst(init, maxLength);
      assert init[0] == ss[0];
    }
  }

  /** A sentence longer than the budget is alone in its group. */
  lemma OverlongAlone(ss: seq<string>, maxLength: int)
    ensures var gs := Groups(ss, maxLength);
      forall k, j :: 0 <= k < |gs| && 0 <= j < |gs[k]| && |gs[k][j]| > maxLength ==>
        gs[k] == [gs[k][j]]
  {
    var gs := Groups(ss, maxLength);
    GroupsWithinBudget(ss, maxLength);
    forall k, j | 0 <= k < |gs| && 0 <= j < |gs[k]| && |gs[k][j]| > maxLength
      ensures gs[k] == [gs[k][j]]
    {
      TotalLengthAtLeast(gs[k], j);
    }
  }

  // Conversely, the four guarantees single out the grouping.

  /** Taking the last sentence off a group keeps the guarantees; the
      sentence fitted in its group. */
  lemma ShrinkWithinBudget(done: seq<seq<string>>, init: seq<string>, s: string, maxLength: int)
    requires init != [] || done == []
    requires WithinBudget(done + [init + [s]], maxLength)
    ensures WithinBudget(done + [init], maxLength)
    ensures TotalLength(init) + |s| <= maxLength
  {
    var gs, gs' := done + [init + [s]], done + [init];
    AccumulateSnoc(init, s);
    assert gs[|done|] == init + [s];
    assert gs'[|done|] == init;
    forall k | 0 <= k < |gs'| && (|gs'[k]| >= 2 || (k == 0 && gs'[k] != []))
      ensures TotalLength(gs'[k]) <= maxLength
    {
      if k < |done| {
        assert gs'[k] == gs[k];
      }
    }
  }

  lemma ShrinkGreedy(done: seq<seq<string>>, init: seq<string>, s: string, maxLength: int)
    requires init != [] || done == []
    requires OnlyFirstEmpty(done + [init + [s]]) && Greedy(done + [init + [s]], maxLength)
    ensures OnlyFirstEmpty(done + [init]) && Greedy(done + [init], maxLength)
  {
    var gs, gs' := done + [init + [s]], done + [init];
    assert gs[|done|] == init + [s];
    assert gs'[|done|] == init;
    forall k | 0 < k < |gs'| ensures gs'[k] != [] {
      if k < |done| {
        assert gs'[k] == gs[k];
      }
    }
    forall k | 0 < k < |gs'| && gs'[k] != []
      ensures TotalLength(gs'[k - 1]) + |gs'[k][0]| > maxLength
    {
      assert gs'[k - 1] == gs[k - 1];
      if k < |done| {
        assert gs'[k] == gs[k];
      } else {
        assert gs'[k][0] == gs[k][0];
      }
    }
  }

  /** Taking off a last group keeps the guarantees; its first sentence did
      not fit in the group before. */
  lemma DropLast(done: seq<seq<string>>, g: seq<string>, maxLength: int)
    requires done != []
    requires WithinBudget(done + [g], maxLength)
    requires OnlyFirstEmpty(done + [g]) && Greedy(done + [g], maxLength)
    ensures WithinBudget(done, maxLength) && OnlyFirstEmpty(done) && Greedy(done, maxLength)
    ensures g != [] ==> TotalLength(done[|done| - 1]) + |g[0]| > maxLength
  {
    var gs := done + [g];
    assert forall k :: 0 <= k < |done| ==> gs[k] == done[k];
    assert gs[|done|] == g;
  }

  lemma GroupsSnoc(ss: seq<string>, s: string, maxLength: int)
    ensures Groups(ss + [s], maxLength) == Place(Groups(ss, maxLength), s, maxLength)
  {
    assert (ss + [s])[..|ss|] == ss;
  }

  lemma UniqueGrow(done: seq<seq<string>>, init: seq<string>, s: string, maxLength: int)
    requires done + [init] == Groups(Flatten(done + [init]), maxLength)
    requires TotalLength(init) + |s| <= maxLength
    ensures done + [init + [s]] == Groups(Flatten(done + [init + [s]]), maxLength)
  {
    var gs' := done + [init];
    FlattenSnoc(done, init);
    FlattenSnoc(done, init + [s]);
    assert Flatten(done + [init + [s]]) == Flatten(gs') + [s];
    GroupsSnoc(Flatten(gs'), s, maxLength);
    assert gs'[..|gs'| - 1] == done;
  }

  lemma UniqueNew(done: seq<seq<string>>, s: string, maxLength: int)
    requires done != [] && done == Groups(Flatten(done), maxLength)
    requires TotalLength(done[|done| - 1]) + |s| > maxLength
    ensures done + [[s]] == Groups(Flatten(done + [[s]]), maxLength)
  {
    FlattenSnoc(done, [s]);
    GroupsSnoc(Flatten(done), s, maxLength);
  }

  /** `Groups` is the only grouping of the sentences, in order, in which only
      the first group may be empty, groups stay within the budget and every
      group after the first opens with a sentence that overflowed the one
      before. */
  lemma {:induction false} GroupsUnique(ss: seq<string>, gs: seq<seq<string>>, maxLength: int)
    requires gs != [] && Flatten(gs) == ss
    requires WithinBudget(gs, maxLength) && OnlyFirstEmpty(gs) && Greedy(gs, maxLength)
    ensures gs == Groups(ss, maxLength)
    decreases |ss|
  {
    var done, last := gs[..|gs| - 1], gs[|gs| - 1];
    assert gs == done + [last];
    if last == [] {
      assert |gs| == 1 && done == [];
      FlattenSnoc(done, last);
    } else {
      var init, s := last[..|last| - 1], last[|last| - 1];
      assert last == init + [s];
      if |last| >= 2 || done == [] {
        assert |Flatten(done + [init])| < |ss| by {
          FlattenSnoc(done, last);
          FlattenSnoc(done, init);
        }
        ShrinkWithinBudget(done, init, s, maxLength);
        ShrinkGreedy(done, init, s, maxLength);
        GroupsUnique(Flatten(done + [init]), done + [init], maxLength);
        UniqueGrow(done, init, s, maxLength);
      } else {
        assert last == [s];
        assert |Flatten(done)| < |ss| by {
          FlattenSnoc(done, last);
        }
        DropLast(done, last, maxLength);
        GroupsUnique(Flatten(done), done, maxLength);
        UniqueNew(done, s, maxLength);
      }
    }
  }

  /** The packing, characterized: a grouping is the one the source builds
      exactly when it has the four guarantees. */
  lemma GroupsCharacterized(ss: seq<string>, gs: seq<seq<string>>, maxLength: int)
    ensures gs == Groups(ss, maxLength) <==>
      && gs != [] && Flatten(gs) == ss
      && WithinBudget(gs, maxLength) && OnlyFirstEmpty(gs) && Greedy(gs, maxLength)
  {
    GroupsFlatten(ss, maxLength);
    GroupsWithinBudget(ss, maxLength);
    GroupsOnlyFirstEmpty(ss, maxLength);
    GroupsGreedy(ss, maxLength);
    if gs != [] && Flatten(gs) == ss && WithinBudget(gs, maxLength) && OnlyFirstEmpty(gs) && Greedy(gs, maxLength) {
      GroupsUnique(ss, gs, maxLength);
    }
  }

  // ---- What a rendered group looks like

  /** `current_paragraph` for a non-empty group is its stripped sentences
      joined by single spaces, followed by one space. */
  lemma {:induction false} AccumulateJoins(g: seq<string>)
    requires g != []
    ensures Accumulate(g) == JoinSpace(StripEach(g)) + " "
    decreases |g|
  {
    var init, s := g[..|g| - 1], g[|g| - 1];
    var parts := StripEach(g);
    if init == [] {
      assert Accumulate(g) == [] + Strip(s) + " ";
      assert JoinSpace(parts) == Strip(s);
    } else {
      assert parts[..|parts| - 1] == StripEach(init);
      AccumulateJoins(init);
      assert JoinSpace(parts) == JoinSpace(StripEach(init)) + " " + Strip(s);
    }
  }

  /** A matched sentence strips to a non-empty string. */
  lemma SentenceStrips(s: string)
    requires IsSentence(s)
    ensures Strip(s) != [] && Trimmed(Strip(s))
  {
    assert !IsSpace(s[|s| - 1]);
    StripKeepsLast(s);
  }

  /** A paragraph is its sentences, each stripped, joined by single spaces;
      it is empty exactly when it holds no sentence. */
  lemma RenderJoins(g: seq<string>)
    requires forall i :: 0 <= i < |g| ==> IsSentence(g[i])
    ensures Render(g) == JoinSpace(StripEach(g))
    ensures Render(g) == [] <==> g == []
  {
    if g != [] {
      var parts := StripEach(g);
      AccumulateJoins(g);
      forall i | 0 <= i < |parts| ensures parts[i] != [] && Trimmed(parts[i]) {
        SentenceStrips(g[i]);
      }
      JoinSpaceTrimmed(parts);
      StripCharacterized([], JoinSpace(parts), " ");
      assert [] + JoinSpace(parts) + " " == JoinSpace(parts) + " ";
    }
  }

  lemma {:induction false} AccumulateLacks(g: seq<string>, c: char)
    requires c != ' ' && forall i :: 0 <= i < |g| ==> c !in g[i]
    ensures c !in Accumulate(g)
    decreases |g|
  {
    if g != [] {
      AccumulateLacks(g[..|g| - 1], c);
      StripLacks(g[|g| - 1], c);
    }
  }

  // ---- The same, stated on the paragraphs of a text

  /** Each paragraph is the sentences of its group, stripped and joined by
      single spaces. */
  lemma ParagraphText(text: string, maxLength: int, k: nat)
    requires k < |Paragraphs(text, maxLength)|
    ensures Paragraphs(text, maxLength)[k] == JoinSpace(StripEach(Groups(Sentences(text), maxLength)[k]))
  {
    var gs := Groups(Sentences(text), maxLength);
    RenderAllAt(gs, k);
    GroupsKeep(Sentences(text), maxLength, IsSentence);
    RenderJoins(gs[k]);
  }

  /** The first paragraph is `""` exactly when the first sentence is over
      the budget; no other paragraph is ever empty. */
  lemma EmptyParagraphs(text: string, maxLength: int)
    ensures Sentences(text) != [] ==>
      (Paragraphs(text, maxLength)[0] == "" <==> |Sentences(text)[0]| > maxLength)
    ensures forall k :: 0 < k < |Paragraphs(text, maxLength)| ==> Paragraphs(text, maxLength)[k] != ""
  {
    var ss := Sentences(text);
    var gs := Groups(ss, maxLength);
    GroupsKeep(ss, maxLength, IsSentence);
    GroupsFirst(ss, maxLength);
    GroupsOnlyFirstEmpty(ss, maxLength);
    forall k | 0 <= k < |gs| ensures RenderAll(gs)[k] == "" <==> gs[k] == [] {
      RenderAllAt(gs, k);
      RenderJoins(gs[k]);
    }
  }

  /** A character other than the space that is absent from the text is
      absent from every paragraph. */
  lemma ParagraphsLack(text: string, maxLength: int, c: char)
    requires c != ' ' && c !in text
    ensures forall k :: 0 <= k < |Paragraphs(text, maxLength)| ==> c !in Paragraphs(text, maxLength)[k]
  {
    var ss := Sentences(text);
    var gs := Groups(ss, maxLength);
    SentencesLack(text, c);
    GroupsKeep(ss, maxLength, s => c !in s);
    forall k | 0 <= k < |gs| ensures c !in RenderAll(gs)[k] {
      RenderAllAt(gs, k);
      AccumulateLacks(gs[k], c);
      StripLacks(Accumulate(gs[k]), c);
    }
  }

  // ---- The source's loop

  /** What one turn of the loop does to the groups it has built so far: a
      sentence that fits joins the group being filled ... */
  lemma PackJoin(ss: seq<string>, i: nat, done: seq<seq<string>>, current: seq<string>, maxLength: int)
    requires i < |ss| && done + [current] == Groups(ss[..i], maxLength)
    requires TotalLength(current) + |ss[i]| <= maxLength
    ensures Groups(ss[..i + 1], maxLength) == done + [current + [ss[i]]]
    ensures Accumulate(current + [ss[i]]) == Accumulate(current) + Strip(ss[i]) + " "
    ensures TotalLength(current + [ss[i]]) == TotalLength(current) + |ss[i]|
  {
    assert ss[..i + 1][..i] == ss[..i];
    var prev := done + [current];
    assert prev[..|prev| - 1] == done;
    AccumulateSnoc(current, ss[i]);
  }

  /** ... and one that does not flushes that group and opens the next. */
  lemma PackOpen(ss: seq<string>, i: nat, done: seq<seq<string>>, current: seq<string>, maxLength: int)
    requires i < |ss| && done + [current] == Groups(ss[..i], maxLength)
    requires TotalLength(current) + |ss[i]| > maxLength
    ensures Groups(ss[..i + 1], maxLength) == (done + [current]) + [[ss[i]]]
    ensures RenderAll(done + [current]) == RenderAll(done) + [Strip(Accumulate(current))]
    ensures Accumulate([ss[i]]) == Strip(ss[i]) + " "
    ensures TotalLength([ss[i]]) == |ss[i]|
  {
    assert ss[..i + 1][..i] == ss[..i];
    AccumulateSingle(ss[i]);
    RenderAllSnoc(done, current);
  }

  /** What the final flush adds once every sentence has been placed. */
  lemma PackFinish(ss: seq<string>, done: seq<seq<string>>, current: seq<string>, maxLength: int)
    requires done + [current] == Groups(ss[..|ss|], maxLength)
    ensures RenderAll(Groups(ss, maxLength)) == RenderAll(done) + [Strip(Accumulate(current))]
  {
    assert ss[..|ss|] == ss;
    RenderAllSnoc(done, current);
  }

  method ParagraphsFromText(text: string, maxLength: int) returns (paragraphs: seq<string>)
    ensures paragraphs == Paragraphs(text, maxLength)
  {
    var sentences := Sentences(text);
    var currentParagraph := "";
    var currentLength := 0;
    paragraphs := [];
    // the groups already flushed into `paragraphs`, and the one being filled
    ghost var done: seq<seq<string>> := [];
    ghost var current: seq<string> := [];
    for i := 0 to |sentences|
      invariant done + [current] == Groups(sentences[..i], maxLength)
      invariant paragraphs == RenderAll(done)
      invariant currentParagraph == Accumulate(current)
      invariant currentLength == TotalLength(current)
    {
      var sentence := sentences[i];
      if currentLength + |sentence| <= maxLength {
        PackJoin(sentences, i, done, current, maxLength);
        currentParagraph := currentParagraph + Strip(sentence) + " ";
        currentLength := currentLength + |sentence|;
        current := current + [sentence];
      } else {
        PackOpen(sentences, i, done, current, maxLength);
        paragraphs := paragraphs + [Strip(currentParagraph)];
        currentParagraph := Strip(sentence) + " ";
        currentLength := |sentence|;
        done, current := done + [current], [sentence];
      }
    }
    PackFinish(sentences, done, current, maxLength);
    paragraphs := paragraphs + [Strip(currentParagraph)];
  }
}
