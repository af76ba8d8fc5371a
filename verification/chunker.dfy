/**
 * `chunk_text`: greedy, word-preserving splitting of OCR text into pieces that
 * fit the language model's input budget.
 *
 * The running counter adds `len(word) + 1` for every word placed into an open
 * chunk and restarts at `len(word)` when a chunk is closed. The very first chunk
 * is opened through the "add" branch from a counter of 0, so its counter is one
 * more than its joined length, while every later chunk's counter equals its
 * joined length. The model keeps that asymmetry; `Lead` names it.
 */
module Chunker {
  import opened Words

  /** Default `max_chunk_size` used by both Bedrock entry points. */
  const DefaultMaxChunkSize: int := 6000

  /** Loop state: chunks closed so far (as word lists), the open chunk, and the counter. */
  datatype Acc = Acc(closed: seq<seq<string>>, current: seq<string>, size: int)

  /** What the counter adds to a chunk's joined length: 1 for chunk 0, 0 afterwards. */
  function Lead(index: nat): nat {
    if index == 0 then 1 else 0
  }

  /**
   * Lines 59-66, one loop iteration: close the open chunk and start a new one, or
   * extend it. No word is lost or moved: closed chunks stay as they were, and
   * `word` ends the open chunk.
   */
  function Feed(acc: Acc, word: string, maxSize: int): (r: Acc)
    ensures Concat(r.closed) + r.current == Concat(acc.closed) + acc.current + [word]
    ensures acc.closed <= r.closed
    ensures r.current != [] && r.current[|r.current| - 1] == word
  {
    if acc.size + |word| + 1 > maxSize && acc.current != [] then
      ConcatSnoc(acc.closed, acc.current);
      Acc(acc.closed + [acc.current], [word], |word|)
    else
      Acc(acc.closed, acc.current + [word], acc.size + |word| + 1)
  }

  /** The `for word in words` loop. */
  function FeedAll(acc: Acc, words: seq<string>, maxSize: int): Acc
    decreases |words|
  {
    if words == [] then acc else FeedAll(Feed(acc, words[0], maxSize), words[1..], maxSize)
  }

  /** The chunks of `words`, as word lists, after the final flush. */
  function Groups(words: seq<string>, maxSize: int): seq<seq<string>> {
    Flush(FeedAll(Acc([], [], 0), words, maxSize))
  }

  /** Lines 68-69: the open chunk, if any, becomes the last one; no word is lost and no empty chunk is added. */
  function Flush(acc: Acc): (r: seq<seq<string>>)
    ensures Concat(r) == Concat(acc.closed) + acc.current
    ensures acc.closed <= r
    ensures forall i :: |acc.closed| <= i < |r| ==> r[i] != []
  {
    if acc.current != [] then
      ConcatSnoc(acc.closed, acc.current);
      acc.closed + [acc.current]
    else
      assert Concat(acc.closed) + acc.current == Concat(acc.closed);
      acc.closed
  }

  /** Each chunk's words joined with single spaces. */
  function JoinEach(groups: seq<seq<string>>): (chunks: seq<string>)
    ensures |chunks| == |groups|
    ensures forall i :: 0 <= i < |groups| ==> chunks[i] == Join(groups[i])
  {
    seq(|groups|, i requires 0 <= i < |groups| => Join(groups[i]))
  }

  /**
   * `chunk_text(text, max_chunk_size)`. Joining the chunks again gives
   * `' '.join(text.split())`: the chunks hold the normalised text, cut at spaces.
   */
  function ChunkText(text: string, maxSize: int): (chunks: seq<string>)
    ensures Join(chunks) == Join(Split(text))
  {
    var gs := Groups(Split(text), maxSize);
    GroupsCover(Split(text), maxSize);
    ConcatAllWords(gs);
    JoinConcat(gs);
    JoinEach(gs)
  }

  /** All word lists laid end to end. */
  function Concat(groups: seq<seq<string>>): seq<string> {
    if groups == [] then [] else Concat(groups[..|groups| - 1]) + groups[|groups| - 1]
  }

  /** The words of each chunk, laid end to end. */
  function WordsOf(chunks: seq<string>): seq<string> {
    if chunks == [] then [] else WordsOf(chunks[..|chunks| - 1]) + Split(chunks[|chunks| - 1])
  }

  /** Chunk `index` holding `group` respects the budget, unless it is a single word. */
  predicate Fits(group: seq<string>, index: nat, maxSize: int) {
    |group| >= 2 ==> |Join(group)| + Lead(index) <= maxSize
  }

  /** Adding `next` to chunk `index` holding `group` would have pushed the counter past the budget. */
  predicate Overflows(group: seq<string>, index: nat, next: string, maxSize: int) {
    |Join(group)| + Lead(index) + |next| + 1 > maxSize
  }

  /** What the loop keeps true after consuming the words `done`. */
  ghost predicate Inv(acc: Acc, maxSize: int, done: seq<string>) {
    && Concat(acc.closed) + acc.current == done
    && (forall i :: 0 <= i < |acc.closed| ==> acc.closed[i] != [])
    && (acc.current == [] ==> acc.closed == [] && acc.size == 0)
    && (acc.current != [] ==> acc.size == |Join(acc.current)| + Lead(|acc.closed|))
    && (|acc.current| >= 2 ==> acc.size <= maxSize)
    && (forall i :: 0 <= i < |acc.closed| ==> Fits(acc.closed[i], i, maxSize))
    && (forall i :: 0 <= i < |acc.closed| - 1 ==> Overflows(acc.closed[i], i, acc.closed[i + 1][0], maxSize))
    && (acc.closed != [] ==>
          acc.current != [] && Overflows(acc.closed[|acc.closed| - 1], |acc.closed| - 1, acc.current[0], maxSize))
  }

  lemma ConcatSnoc(groups: seq<seq<string>>, g: seq<string>)
    ensures Concat(groups + [g]) == Concat(groups) + g
  {
    assert (groups + [g])[..|groups|] == groups;
  }

  /** Closing the open chunk keeps the loop invariant. */
  lemma CloseKeepsInv(acc: Acc, word: string, maxSize: int, done: seq<string>)
    requires Inv(acc, maxSize, done)
    requires acc.size + |word| + 1 > maxSize && acc.current != []
    ensures Inv(Acc(acc.closed + [acc.current], [word], |word|), maxSize, done + [word])
  {
    var next := Acc(acc.closed + [acc.current], [word], |word|);
    ConcatSnoc(acc.closed, acc.current);
    assert Join([word]) == word;
    assert next.closed[|next.closed| - 1] == acc.current;
    assert forall i :: 0 <= i < |acc.closed| ==> next.closed[i] == acc.closed[i];
  }

  /** Placing the first word keeps the loop invariant. */
  lemma StartKeepsInv(acc: Acc, word: string, maxSize: int, done: seq<string>)
    requires Inv(acc, maxSize, done)
    requires acc.current == []
    ensures Inv(Acc(acc.closed, [word], acc.size + |word| + 1), maxSize, done + [word])
  {
    assert Concat([]) == [];
  }

  /** Extending the open chunk within the budget keeps the loop invariant. */
  lemma ExtendKeepsInv(acc: Acc, word: string, maxSize: int, done: seq<string>)
    requires Inv(acc, maxSize, done)
    requires acc.size + |word| + 1 <= maxSize && acc.current != []
    ensures Inv(Acc(acc.closed, acc.current + [word], acc.size + |word| + 1), maxSize, done + [word])
  {
    JoinAppend(acc.current, [word]);
    assert (acc.current + [word])[0] == acc.current[0];
  }

  /** One iteration keeps the loop invariant. */
  lemma FeedKeepsInv(acc: Acc, word: string, maxSize: int, done: seq<string>)
    requires Inv(acc, maxSize, done)
    ensures Inv(Feed(acc, word, maxSize), maxSize, done + [word])
  {
    if acc.size + |word| + 1 > maxSize && acc.current != [] {
      CloseKeepsInv(acc, word, maxSize, done);
    } else if acc.current == [] {
      StartKeepsInv(acc, word, maxSize, done);
    } else {
      ExtendKeepsInv(acc, word, maxSize, done);
    }
  }

  /** The whole loop keeps the invariant. */
  lemma {:induction false} FeedAllKeepsInv(acc: Acc, words: seq<string>, maxSize: int, done: seq<string>)
    requires Inv(acc, maxSize, done)
    ensures Inv(FeedAll(acc, words, maxSize), maxSize, done + words)
    decreases |words|
  {
    if words != [] {
      var next, done' := Feed(acc, words[0], maxSize), done + [words[0]];
      FeedKeepsInv(acc, words[0], maxSize, done);
      FeedAllKeepsInv(next, words[1..], maxSize, done');
      ShiftFirst(done, words);
      assert FeedAll(acc, words, maxSize) == FeedAll(next, words[1..], maxSize);
    }
  }

  lemma ShiftFirst(done: seq<string>, words: seq<string>)
    requires words != []
    ensures (done + [words[0]]) + words[1..] == done + words
  {
  }

  /** After the loop, flushing the open chunk turns the loop invariant into the properties of `GroupsSpec`. */
  lemma FlushSpec(acc: Acc, maxSize: int, words: seq<string>)
    requires Inv(acc, maxSize, words)
    ensures var gs := Flush(acc);
      && Concat(gs) == words
      && (forall i :: 0 <= i < |gs| ==> gs[i] != [])
      && (gs == [] <==> words == [])
      && (forall i :: 0 <= i < |gs| ==> Fits(gs[i], i, maxSize))
      && (forall i :: 0 <= i < |gs| - 1 ==> Overflows(gs[i], i, gs[i + 1][0], maxSize))
  {
    var gs := Flush(acc);
    if acc.current != [] {
      ConcatSnoc(acc.closed, acc.current);
      assert forall i :: 0 <= i < |acc.closed| ==> gs[i] == acc.closed[i];
    } else {
      assert Concat(gs) + [] == words;
    }
  }

  /** The chunks, laid end to end, give back `words`; none is empty; there are none exactly when there are no words. */
  lemma GroupsCover(words: seq<string>, maxSize: int)
    ensures var gs := Groups(words, maxSize);
      && Concat(gs) == words
      && (forall i :: 0 <= i < |gs| ==> gs[i] != [])
      && (gs == [] <==> words == [])
  {
    var start := Acc([], [], 0);
    assert Inv(start, maxSize, []);
    FeedAllKeepsInv(start, words, maxSize, []);
    assert [] + words == words;
    FlushSpec(FeedAll(start, words, maxSize), maxSize, words);
  }

  /**
   * Every chunk of two or more words fits the budget (chunk 0 with one character
   * to spare), and every chunk but the last was closed only because its
   * successor's first word would have pushed the counter past the budget.
   */
  lemma GroupsBudget(words: seq<string>, maxSize: int)
    ensures var gs := Groups(words, maxSize);
      && (forall i :: 0 <= i < |gs| ==> gs[i] != [])
      && (forall i :: 0 <= i < |gs| ==> Fits(gs[i], i, maxSize))
      && (forall i :: 0 <= i < |gs| - 1 ==> Overflows(gs[i], i, gs[i + 1][0], maxSize))
  {
    var start := Acc([], [], 0);
    assert Inv(start, maxSize, []);
    FeedAllKeepsInv(start, words, maxSize, []);
    assert [] + words == words;
    FlushSpec(FeedAll(start, words, maxSize), maxSize, words);
  }

  /** `GroupsCover` and `GroupsBudget` together: what the loop of lines 59-69 builds. */
  lemma GroupsSpec(words: seq<string>, maxSize: int)
    ensures var gs := Groups(words, maxSize);
      && Concat(gs) == words
      && (forall i :: 0 <= i < |gs| ==> gs[i] != [])
      && (gs == [] <==> words == [])
      && (forall i :: 0 <= i < |gs| ==> Fits(gs[i], i, maxSize))
      && (forall i :: 0 <= i < |gs| - 1 ==> Overflows(gs[i], i, gs[i + 1][0], maxSize))
  {
    GroupsCover(words, maxSize);
    GroupsBudget(words, maxSize);
  }

  /** Every word of a chunk is a word of the whole list. */
  lemma {:induction false} ConcatAllWords(gs: seq<seq<string>>)
    requires AllWords(Concat(gs))
    ensures forall i :: 0 <= i < |gs| ==> AllWords(gs[i])
  {
    if gs != [] {
      var init, last := gs[..|gs| - 1], gs[|gs| - 1];
      var prefix := Concat(init);
      assert Concat(gs) == prefix + last;
      assert forall k :: 0 <= k < |last| ==> last[k] == Concat(gs)[|prefix| + k];
      assert forall k :: 0 <= k < |prefix| ==> prefix[k] == Concat(gs)[k];
      ConcatAllWords(init);
    }
  }

  /** Joining the joined chunks gives the join of all their words. */
  lemma {:induction false} JoinConcat(gs: seq<seq<string>>)
    requires forall i :: 0 <= i < |gs| ==> gs[i] != []
    ensures Join(JoinEach(gs)) == Join(Concat(gs))
    ensures gs != [] ==> Concat(gs) != []
  {
    if gs != [] {
      var init, last := gs[..|gs| - 1], gs[|gs| - 1];
      JoinConcat(init);
      assert JoinEach(gs) == JoinEach(init) + [Join(last)];
      if init == [] {
        assert Concat(gs) == last;
      } else {
        JoinAppend(JoinEach(init), [Join(last)]);
        JoinAppend(Concat(init), last);
      }
    }
  }

  /** Splitting every chunk again gives back exactly the words the chunks were built from. */
  lemma {:induction false} WordsOfJoinEach(gs: seq<seq<string>>)
    requires forall i :: 0 <= i < |gs| ==> AllWords(gs[i])
    ensures WordsOf(JoinEach(gs)) == Concat(gs)
  {
    if gs != [] {
      var init, last := gs[..|gs| - 1], gs[|gs| - 1];
      assert JoinEach(gs)[..|gs| - 1] == JoinEach(init);
      WordsOfJoinEach(init);
      SplitJoin(last);
    }
  }

  /**
   * Round trip of `chunk_text`: the words of all chunks, in order, are exactly
   * `text.split()`; so no word is split, dropped, reordered or invented.
   */
  lemma ChunkRoundTrip(text: string, maxSize: int)
    ensures WordsOf(ChunkText(text, maxSize)) == Split(text)
  {
    var gs := Groups(Split(text), maxSize);
    GroupsCover(Split(text), maxSize);
    ConcatAllWords(gs);
    WordsOfJoinEach(gs);
  }

  /** No chunk is empty, and whitespace-only or empty text gives no chunks at all. */
  lemma ChunksNonEmpty(text: string, maxSize: int)
    ensures ChunkText(text, maxSize) == [] <==> AllSpace(text)
    ensures forall i :: 0 <= i < |ChunkText(text, maxSize)| ==> ChunkText(text, maxSize)[i] != ""
  {
    var gs := Groups(Split(text), maxSize);
    GroupsCover(Split(text), maxSize);
    ConcatAllWords(gs);
    SplitEmpty(text);
    forall i | 0 <= i < |gs|
      ensures Join(gs[i]) != ""
    {
      JoinStartsWithFirst(gs[i]);
    }
  }

  /**
   * The budget: a chunk whose length, plus one for chunk 0, exceeds `maxSize` is one
   * single word. So a chunk of two or more words is at most `maxSize` long (chunk 0
   * at most `maxSize - 1`), and only a word longer than the budget makes a chunk
   * longer than it.
   */
  lemma ChunkBound(text: string, maxSize: int)
    ensures var chunks := ChunkText(text, maxSize);
      forall i :: 0 <= i < |chunks| && |chunks[i]| + Lead(i) > maxSize ==> IsWord(chunks[i])
  {
    var gs := Groups(Split(text), maxSize);
    GroupsOverBudgetOneWord(Split(text), maxSize);
    forall i | 0 <= i < |gs| && |gs[i]| == 1
      ensures Join(gs[i]) == gs[i][0]
    {
      assert gs[i] == [gs[i][0]];
    }
  }

  /** A group over the budget (with its `Lead`) holds a single word. */
  lemma GroupsOverBudgetOneWord(words: seq<string>, maxSize: int)
    requires AllWords(words)
    ensures var gs := Groups(words, maxSize);
      forall i :: 0 <= i < |gs| && |Join(gs[i])| + Lead(i) > maxSize ==> |gs[i]| == 1 && IsWord(gs[i][0])
  {
    var gs := Groups(words, maxSize);
    GroupsSpec(words, maxSize);
    ConcatAllWords(gs);
  }


  /**
   * Chunk `i` of `chunks` was closed only because adding the first word of chunk
   * `i + 1` would have pushed the counter past the budget.
   */
  predicate ClosedGreedily(chunks: seq<string>, maxSize: int) {
    forall i :: 0 <= i < |chunks| - 1 ==> ClosedBefore(chunks[i], i, chunks[i + 1], maxSize)
  }

  predicate ClosedBefore(chunk: string, index: nat, next: string, maxSize: int) {
    |Split(next)| > 0 && |chunk| + Lead(index) + 1 + |Split(next)[0]| > maxSize
  }

  /**
   * Greedy closing of `chunk_text`. For chunk 0 the counter is one above the
   * joined length, so chunk 0 closes one character early.
   */
  lemma ChunkGreedy(text: string, maxSize: int)
    ensures ClosedGreedily(ChunkText(text, maxSize), maxSize)
  {
    var gs := Groups(Split(text), maxSize);
    GroupsSpec(Split(text), maxSize);
    ConcatAllWords(gs);
    forall i | 0 <= i < |gs|
      ensures Split(Join(gs[i])) == gs[i]
    {
      SplitJoin(gs[i]);
    }
  }

  /**
   * Text whose normalised form is at least one character shorter than the budget
   * is one chunk. (Exactly filling the budget is not enough; see `FirstChunkClosesEarly`.)
   */
  lemma OneChunkWhenShort(text: string, maxSize: int)
    requires !AllSpace(text)
    requires |Join(Split(text))| + 1 <= maxSize
    ensures |ChunkText(text, maxSize)| == 1
    ensures ChunkText(text, maxSize)[0] == Join(Split(text))
  {
    SplitEmpty(text);
    OneGroupWhenShort(Split(text), maxSize);
  }

  /** Words whose join is at least one shorter than the budget form one group. */
  lemma OneGroupWhenShort(words: seq<string>, maxSize: int)
    requires words != []
    requires |Join(words)| + 1 <= maxSize
    ensures Groups(words, maxSize) == [words]
  {
    var gs := Groups(words, maxSize);
    GroupsSpec(words, maxSize);
    if |gs| >= 2 {
      JoinCoversFirstTwo(gs);
      assert false;
    }
    assert gs == [gs[0]];
    assert Concat(gs) == gs[0];
  }


  /** A single word is one chunk, however long: the loop closes a chunk only when another word arrives. */
  lemma OneWordOneChunk(text: string, maxSize: int)
    requires |Split(text)| == 1
    ensures ChunkText(text, maxSize) == Split(text)
  {
    var w := Split(text)[0];
    assert Split(text) == [w];
    var start := Acc([], [], 0);
    var fed := Feed(start, w, maxSize);
    assert fed == Acc([], [w], |w| + 1);
    assert FeedAll(start, [w], maxSize) == FeedAll(fed, [], maxSize);
    assert Groups([w], maxSize) == [[w]];
    assert Join([w]) == w;
  }

  /** With two or more chunks, the whole join holds the first chunk, a space and the next chunk's first word. */
  lemma JoinCoversFirstTwo(gs: seq<seq<string>>)
    requires |gs| >= 2
    requires forall i :: 0 <= i < |gs| ==> gs[i] != []
    ensures |Join(Concat(gs))| >= |Join(gs[0])| + 1 + |gs[1][0]|
  {
    var rest := gs[1..];
    assert gs == [gs[0]] + rest;
    ConcatAppend([gs[0]], rest);
    assert Concat([gs[0]]) == gs[0] by {
      ConcatSnoc([], gs[0]);
    }
    assert rest[0] == gs[1];
    ConcatFirst(rest);
    JoinAppend(gs[0], Concat(rest));
    JoinStartsWithFirst(Concat(rest));
  }

  lemma {:induction false} ConcatAppend(a: seq<seq<string>>, b: seq<seq<string>>)
    ensures Concat(a + b) == Concat(a) + Concat(b)
    decreases |b|
  {
    if b == [] {
      assert a + b == a;
    } else {
      var init := b[..|b| - 1];
      assert a + b == (a + init) + [b[|b| - 1]];
      ConcatSnoc(a + init, b[|b| - 1]);
      ConcatAppend(a, init);
      ConcatSnoc(init, b[|b| - 1]);
      assert init + [b[|b| - 1]] == b;
    }
  }

  /** The list of all words starts with the first word of the first non-empty chunk. */
  lemma ConcatFirst(gs: seq<seq<string>>)
    requires gs != [] && gs[0] != []
    ensures Concat(gs) != [] && Concat(gs)[0] == gs[0][0]
  {
    ConcatAppend([gs[0]], gs[1..]);
    assert [gs[0]] + gs[1..] == gs;
    assert Concat([gs[0]]) == gs[0] by {
      ConcatSnoc([], gs[0]);
    }
  }

  /**
   * The first chunk's counter over-counts by one: two words whose join exactly
   * fills the budget (for instance "ab cd" with a budget of 5) are still cut
   * into two chunks.
   */
  lemma FirstChunkClosesEarly(a: string, b: string, maxSize: int)
    requires IsWord(a) && IsWord(b)
    requires |a| + 1 + |b| == maxSize
    ensures |Join(Split(a + " " + b))| == maxSize
    ensures ChunkText(a + " " + b, maxSize) == [a, b]
  {
    SplitTwoWords(a, b);
    calc {
      ChunkText(a + " " + b, maxSize);
      JoinEach(Groups([a, b], maxSize));
      { GroupsTwoWords(a, b, maxSize); }
      JoinEach([[a], [b]]);
      [a, b];
    }
  }

  lemma SplitTwoWords(a: string, b: string)
    requires IsWord(a) && IsWord(b)
    ensures Split(a + " " + b) == [a, b]
    ensures Join([a, b]) == a + " " + b
  {
    var ws := [a, b];
    assert ws[1..] == [b];
    assert Join(ws) == a + " " + b;
    SplitJoin(ws);
  }

  lemma GroupsTwoWords(a: string, b: string, maxSize: int)
    requires |a| + 1 + |b| == maxSize && |b| > 0
    ensures Groups([a, b], maxSize) == [[a], [b]]
  {
    var ws := [a, b];
    var a1 := Feed(Acc([], [], 0), a, maxSize);
    assert a1 == Acc([], [a], |a| + 1);
    var a2 := Feed(a1, b, maxSize);
    assert a2 == Acc([[a]], [b], |b|);
    assert ws[1..] == [b];
    assert [b][1..] == [];
    assert FeedAll(a1, [b], maxSize) == FeedAll(a2, [], maxSize);
  }
}
