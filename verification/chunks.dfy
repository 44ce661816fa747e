/** The legacy node text: a list of `[tag, text]` chunks, where the tag names the language of
    a code chunk (`"python"` for a doctest example) and `None` marks prose. Coalescing merges
    each run of neighbouring chunks with the same tag into one chunk. */
module Chunks {
  import opened Results

  datatype Chunk = Chunk(tag: Option<string>, text: string)

  function Tags(cs: seq<Chunk>): (r: seq<Option<string>>)
    ensures |r| == |cs|
  {
    if |cs| == 0 then [] else Tags(cs[..|cs| - 1]) + [cs[|cs| - 1].tag]
  }

  /** The tag sequence lists each chunk's tag at the chunk's position. */
  lemma {:induction false} TagsAt(cs: seq<Chunk>)
    ensures forall i :: 0 <= i < |cs| ==> Tags(cs)[i] == cs[i].tag
  {
    if |cs| > 0 {
      var init := cs[..|cs| - 1];
      TagsAt(init);
      assert forall i :: 0 <= i < |init| ==> init[i] == cs[i];
    }
  }

  /** All chunk texts joined in order: what a reader of the rendered page sees. */
  function Texts(cs: seq<Chunk>): string
  {
    if |cs| == 0 then "" else Texts(cs[..|cs| - 1]) + cs[|cs| - 1].text
  }

  predicate NoAdjacentSameTag(cs: seq<Chunk>) {
    forall i :: 0 <= i < |cs| - 1 ==> cs[i].tag != cs[i + 1].tag
  }

  predicate AllSameTag(cs: seq<Chunk>) {
    forall i :: 0 <= i < |cs| ==> cs[i].tag == cs[0].tag
  }

  /** Reference definition: a sequence with every run of equal neighbours cut down to one. */
  function Dedup<T(==)>(xs: seq<T>): seq<T>
  {
    if |xs| <= 1 then xs
    else if xs[|xs| - 1] == xs[|xs| - 2] then Dedup(xs[..|xs| - 1])
    else Dedup(xs[..|xs| - 1]) + [xs[|xs| - 1]]
  }

  lemma DedupSnoc<T>(xs: seq<T>, x: T)
    requires |xs| > 0
    ensures Dedup(xs + [x]) == if x == xs[|xs| - 1] then Dedup(xs) else Dedup(xs) + [x]
  {
    assert (xs + [x])[..|xs|] == xs;
  }

  lemma TextsSnoc(cs: seq<Chunk>, c: Chunk)
    ensures Texts(cs + [c]) == Texts(cs) + c.text
    ensures Tags(cs + [c]) == Tags(cs) + [c.tag]
  {
    assert (cs + [c])[..|cs|] == cs;
  }

  /** One step of the coalescing loop: a chunk with the tag of the current run extends its
      text, any other chunk starts a new run. */
  function Push(acc: seq<Chunk>, c: Chunk): (r: seq<Chunk>)
    requires |acc| > 0
    ensures |r| > 0
  {
    var last := acc[|acc| - 1];
    if last.tag == c.tag then acc[..|acc| - 1] + [Chunk(last.tag, last.text + c.text)]
    else acc + [c]
  }

  /** A step keeps the first tag and ends with the chunk's tag, grows the list only when the
      tag changes, keeps neighbours distinct, and appends the chunk's text. */
  lemma PushSpec(acc: seq<Chunk>, c: Chunk)
    requires |acc| > 0
    ensures var r := Push(acc, c);
            && |r| == (if acc[|acc| - 1].tag == c.tag then |acc| else |acc| + 1)
            && r[0].tag == acc[0].tag && r[|r| - 1].tag == c.tag
            && (NoAdjacentSameTag(acc) ==> NoAdjacentSameTag(r))
            && Texts(r) == Texts(acc) + c.text
            && Tags(r) == if acc[|acc| - 1].tag == c.tag then Tags(acc) else Tags(acc) + [c.tag]
  {
    var last := acc[|acc| - 1];
    var front := acc[..|acc| - 1];
    assert acc == front + [last];
    TextsSnoc(front, last);
    if last.tag == c.tag {
      var merged := Chunk(last.tag, last.text + c.text);
      var r := front + [merged];
      assert Push(acc, c) == r;
      TextsSnoc(front, merged);
      if NoAdjacentSameTag(acc) {
        forall i | 0 <= i < |r| - 1 ensures r[i].tag != r[i + 1].tag {
          assert r[i] == acc[i];
          assert r[i + 1].tag == acc[i + 1].tag;
        }
      }
    } else {
      var r := acc + [c];
      assert Push(acc, c) == r;
      TextsSnoc(acc, c);
      if NoAdjacentSameTag(acc) {
        forall i | 0 <= i < |r| - 1 ensures r[i].tag != r[i + 1].tag {
          assert r[i] == acc[i];
          if i + 1 < |acc| {
            assert r[i + 1] == acc[i + 1];
          }
        }
      }
    }
  }

  /** A step leaves every chunk before the accumulator's last one as it is. */
  lemma PushFront(acc: seq<Chunk>, c: Chunk)
    requires |acc| > 0
    ensures var r := Push(acc, c);
            |r| >= |acc| && r[..|acc| - 1] == acc[..|acc| - 1]
  {
    var front := acc[..|acc| - 1];
    var r := Push(acc, c);
    if acc[|acc| - 1].tag == c.tag {
      assert r == front + [Chunk(acc[|acc| - 1].tag, acc[|acc| - 1].text + c.text)];
    } else {
      assert r == acc + [c];
    }
    assert r[..|front|] == front;
  }

  lemma PushTags(init: seq<Chunk>, acc: seq<Chunk>, c: Chunk)
    requires |init| > 0 && |acc| > 0
    requires Tags(acc) == Dedup(Tags(init))
    requires acc[|acc| - 1].tag == init[|init| - 1].tag
    ensures Tags(Push(acc, c)) == Dedup(Tags(init + [c]))
  {
    PushSpec(acc, c);
    TextsSnoc(init, c);
    assert Tags(init) == Tags(init[..|init| - 1]) + [init[|init| - 1].tag];
    DedupSnoc(Tags(init), c.tag);
  }

  lemma PushShape(init: seq<Chunk>, acc: seq<Chunk>, c: Chunk)
    requires 0 < |acc| <= |init|
    requires acc[0].tag == init[0].tag && acc[|acc| - 1].tag == init[|init| - 1].tag
    requires |acc| == 1 <==> AllSameTag(init)
    ensures var r, cs := Push(acc, c), init + [c];
            && |r| <= |cs|
            && r[0].tag == cs[0].tag && r[|r| - 1].tag == cs[|cs| - 1].tag
            && (|r| == 1 <==> AllSameTag(cs))
  {
    PushSpec(acc, c);
    var cs := init + [c];
    assert forall i :: 0 <= i < |init| ==> cs[i] == init[i];
    assert cs[|cs| - 1] == c;
    if AllSameTag(cs) {
      assert cs[|cs| - 2].tag == cs[0].tag;
      assert AllSameTag(init);
    }
    if AllSameTag(init) && c.tag == init[|init| - 1].tag {
      assert forall i :: 0 <= i < |cs| ==> cs[i].tag == cs[0].tag by {
        forall i | 0 <= i < |cs| ensures cs[i].tag == cs[0].tag {
          if i < |init| {
            assert cs[i] == init[i];
          }
        }
      }
    }
  }

  /** The coalescing pass as it is evidently meant: the chunks are pushed one by one. */
  function Coalesce(cs: seq<Chunk>): (r: seq<Chunk>)
    ensures |cs| > 0 ==> |r| > 0
  {
    if |cs| <= 1 then cs else Push(Coalesce(cs[..|cs| - 1]), cs[|cs| - 1])
  }

  /** Each maximal run of chunks sharing a tag becomes one chunk carrying the run's joined
      text: no two neighbours share a tag, the joined text is unchanged, the tags are the
      input's with repeats cut down, and a single chunk remains exactly when all tags agree. */
  lemma {:induction false} CoalesceSpec(cs: seq<Chunk>)
    ensures var r := Coalesce(cs);
            && |r| <= |cs|
            && (|cs| > 0 ==> r[0].tag == cs[0].tag && r[|r| - 1].tag == cs[|cs| - 1].tag)
            && NoAdjacentSameTag(r)
            && Texts(r) == Texts(cs)
            && Tags(r) == Dedup(Tags(cs))
            && (|cs| > 0 ==> (|r| == 1 <==> AllSameTag(cs)))
  {
    if |cs| > 1 {
      var init := cs[..|cs| - 1];
      var c := cs[|cs| - 1];
      assert cs == init + [c];
      CoalesceSpec(init);
      var acc := Coalesce(init);
      assert Coalesce(cs) == Push(acc, c);
      PushSpec(acc, c);
      PushTags(init, acc, c);
      PushShape(init, acc, c);
      TextsSnoc(init, c);
    }
  }

  /** A step only looks at the last chunk of the accumulator. */
  lemma PushAppend(xs: seq<Chunk>, ys: seq<Chunk>, c: Chunk)
    requires |ys| > 0
    ensures Push(xs + ys, c) == xs + Push(ys, c)
  {
    var zs := xs + ys;
    assert zs[|zs| - 1] == ys[|ys| - 1];
    assert zs[..|zs| - 1] == xs + ys[..|ys| - 1];
  }

  /** Runs never cross a change of tag: a list cut where the tag changes coalesces part by
      part. With the single-chunk clause of `CoalesceSpec` this pins every output chunk to
      the joined text of exactly its own run. */
  lemma {:induction false} CoalesceSplit(a: seq<Chunk>, b: seq<Chunk>)
    requires |a| > 0 && |b| > 0
    requires a[|a| - 1].tag != b[0].tag
    ensures Coalesce(a + b) == Coalesce(a) + Coalesce(b)
    decreases |b|
  {
    var ab := a + b;
    var c := b[|b| - 1];
    var front := ab[..|ab| - 1];
    assert ab[|ab| - 1] == c;
    if |b| == 1 {
      assert front == a;
      CoalesceSpec(a);
      var acc := Coalesce(a);
      assert acc[|acc| - 1].tag != c.tag;
      assert Push(acc, c) == acc + [c];
    } else {
      var init := b[..|b| - 1];
      assert front == a + init;
      assert init[0] == b[0];
      CoalesceSplit(a, init);
      PushAppend(Coalesce(a), Coalesce(init), c);
    }
  }

  /** Coalescing a list one longer is one more step. */
  lemma CoalesceSnoc(cs: seq<Chunk>, i: nat)
    requires 1 <= i < |cs|
    ensures Coalesce(cs[..i + 1]) == Push(Coalesce(cs[..i]), cs[i])
  {
    var prefix := cs[..i + 1];
    assert prefix[..|prefix| - 1] == cs[..i];
    assert prefix[|prefix| - 1] == cs[i];
  }

  lemma PushOnto(front: seq<Chunk>, last: Chunk, c: Chunk)
    ensures Push(front + [last], c) == if last.tag == c.tag then front + [Chunk(last.tag, last.text + c.text)]
                                       else front + [last] + [c]
  {
    assert (front + [last])[..|front|] == front;
  }

  /** Two chunks of one tag merge into one. */
  lemma CoalesceSameTagPair(a: Chunk, b: Chunk)
    requires a.tag == b.tag
    ensures Coalesce([a, b]) == [Chunk(a.tag, a.text + b.text)]
  {
    assert [a, b][..1] == [a];
  }

  /** Coalescing keeps a chunk list whose neighbours already differ in tag as it is. */
  lemma {:induction false} CoalesceFixesDistinctRuns(cs: seq<Chunk>)
    requires NoAdjacentSameTag(cs)
    ensures Coalesce(cs) == cs
  {
    if |cs| > 1 {
      var init := cs[..|cs| - 1];
      assert NoAdjacentSameTag(init);
      var c := cs[|cs| - 1];
      CoalesceFixesDistinctRuns(init);
      assert Coalesce(cs) == Push(init, c);
      assert init[|init| - 1].tag != c.tag;
      assert Push(init, c) == init + [c];
      assert init + [c] == cs;
    }
  }

  /** Coalescing twice is coalescing once. */
  lemma CoalesceIdempotent(cs: seq<Chunk>)
    ensures Coalesce(Coalesce(cs)) == Coalesce(cs)
  {
    CoalesceSpec(cs);
    CoalesceFixesDistinctRuns(Coalesce(cs));
  }
}
