/** The time-token stream both adapters build next to the frames: every
    fourth timestamp is turned into the tokens of a "Time {t}s:" label, and
    each label is followed by a block of 144 placeholder ids standing for
    one compressed group of frames. The tokenizer is an opaque function
    from a timestamp to the ids of its label. */
module TimeTokens {
  import opened Arith
  import opened SeqUtils

  /** The id the adapters write for every visual position of a group. */
  const PlaceholderId: int := 151654
  /** Placeholder ids per label. */
  const BlockSize: nat := 144
  /** One label per this many timestamps. */
  const LabelStride: nat := 4

  /** `s[::n]`: the first element, then every `n`-th one after it. */
  function EveryNth<T>(s: seq<T>, n: nat): (r: seq<T>)
    requires n > 0
    ensures |r| <= |s|
  {
    if |s| == 0 then []
    else if |s| <= n then [s[0]]
    else [s[0]] + EveryNth(s[n..], n)
  }

  /** The slice keeps exactly `ceil(|s| / n)` elements, and its `j`-th
      element is `s[j * n]`. */
  lemma {:induction false} EveryNthIndex<T>(s: seq<T>, n: nat)
    requires n > 0
    ensures |EveryNth(s, n)| == CeilDiv(|s|, n)
    ensures forall j :: 0 <= j < |EveryNth(s, n)| ==>
      j * n < |s| && EveryNth(s, n)[j] == s[j * n]
  {
    if |s| == 0 {
    } else if |s| <= n {
      CeilDivStep(|s|, n);
    } else {
      var rest := s[n..];
      EveryNthIndex(rest, n);
      assert EveryNth(s, n) == [s[0]] + EveryNth(rest, n);
      EveryNthCons(s, n, rest, EveryNth(rest, n));
    }
  }

  /** One step of `EveryNthIndex`: putting `s[0]` in front of the slice of
      `s[n..]` gives the slice of `s`. */
  lemma {:induction false} EveryNthCons<T>(s: seq<T>, n: nat, rest: seq<T>, rr: seq<T>)
    requires 0 < n < |s| && rest == s[n..]
    requires |rr| == CeilDiv(|rest|, n)
    requires forall j :: 0 <= j < |rr| ==> j * n < |rest| && rr[j] == rest[j * n]
    ensures |[s[0]] + rr| == CeilDiv(|s|, n)
    ensures forall j :: 0 <= j < |[s[0]] + rr| ==> j * n < |s| && ([s[0]] + rr)[j] == s[j * n]
  {
    var r := [s[0]] + rr;
    CeilDivStep(|rest|, n);
    assert |rest| + n == |s|;
    forall j | 0 <= j < |r|
      ensures j * n < |s| && r[j] == s[j * n]
    {
      if j > 0 {
        assert r[j] == rr[j - 1];
        assert (j - 1) * n + n == j * n;
      }
    }
  }

  /** The per-label pieces before flattening: the label's ids, then the
      placeholder block, for each kept timestamp in order. */
  function Pieces(kept: seq<real>, tokenize: real -> seq<int>, block: seq<int>): (ps: seq<seq<int>>)
    ensures |ps| == 2 * |kept|
  {
    if |kept| == 0 then []
    else [tokenize(kept[0]), block] + Pieces(kept[1..], tokenize, block)
  }

  /** Even pieces are labels and odd pieces are the block. */
  lemma {:induction false} PiecesAt(kept: seq<real>, tokenize: real -> seq<int>, block: seq<int>)
    ensures forall i :: 0 <= i < |kept| ==>
      Pieces(kept, tokenize, block)[2 * i] == tokenize(kept[i])
      && Pieces(kept, tokenize, block)[2 * i + 1] == block
  {
    if |kept| > 0 {
      PiecesAt(kept[1..], tokenize, block);
      var ps := Pieces(kept, tokenize, block);
      forall i | 0 <= i < |kept|
        ensures ps[2 * i] == tokenize(kept[i]) && ps[2 * i + 1] == block
      {
        if i > 0 {
          assert ps[2 * i] == Pieces(kept[1..], tokenize, block)[2 * (i - 1)];
          assert ps[2 * i + 1] == Pieces(kept[1..], tokenize, block)[2 * (i - 1) + 1];
        }
      }
    }
  }

  /** The block of placeholder ids after every label. */
  function PlaceholderBlock(): (b: seq<int>)
    ensures |b| == BlockSize
    ensures forall i :: 0 <= i < |b| ==> b[i] == PlaceholderId
  {
    Repeat(PlaceholderId, BlockSize)
  }

  /** The flattened time embedding for the timestamps of one visual input. */
  function TimeEmbedding(times: seq<real>, tokenize: real -> seq<int>): seq<int>
  {
    Concat(Pieces(EveryNth(times, LabelStride), tokenize, PlaceholderBlock()))
  }

  /** `token_frames_sum`: the number of labels, `(len(times) + 3) // 4`. */
  function LabelCount(times: seq<real>): nat
  {
    (|times| + 3) / 4
  }

  /** The number of labels is `token_frames_sum`, and label `j` is the
      timestamp of frame `4 * j`. */
  lemma KeptTimes(times: seq<real>)
    ensures |EveryNth(times, LabelStride)| == LabelCount(times)
    ensures forall j :: 0 <= j < LabelCount(times) ==>
      4 * j < |times| && EveryNth(times, LabelStride)[j] == times[4 * j]
  {
    EveryNthIndex(times, LabelStride);
  }

  /** How often `x` occurs in `s`. */
  function Count(s: seq<int>, x: int): nat
  {
    multiset(s)[x]
  }

  /** How often the placeholder id occurs in the labels alone. */
  function LabelPlaceholders(kept: seq<real>, tokenize: real -> seq<int>): nat
  {
    if |kept| == 0 then 0 else Count(tokenize(kept[0]), PlaceholderId) + LabelPlaceholders(kept[1..], tokenize)
  }

  /** The summed length of the labels. */
  function LabelLength(kept: seq<real>, tokenize: real -> seq<int>): nat
  {
    if |kept| == 0 then 0 else |tokenize(kept[0])| + LabelLength(kept[1..], tokenize)
  }

  lemma CountAppend(a: seq<int>, b: seq<int>, x: int)
    ensures Count(a + b, x) == Count(a, x) + Count(b, x)
  {
    assert multiset(a + b) == multiset(a) + multiset(b);
  }

  /** A sequence holding only `x` holds it once per position. */
  lemma {:induction false} UniformCount(s: seq<int>, x: int)
    requires forall i :: 0 <= i < |s| ==> s[i] == x
    ensures Count(s, x) == |s|
  {
    if |s| > 0 {
      UniformCount(s[1..], x);
      assert s == [s[0]] + s[1..];
    }
  }

  /** Flattening the pieces of a list that starts with a timestamp puts that
      label and one block first, ahead of the rest of the embedding. */
  lemma EmbeddingStarts(kept: seq<real>, tokenize: real -> seq<int>, block: seq<int>)
    requires |kept| > 0
    ensures Concat(Pieces(kept, tokenize, block))
      == tokenize(kept[0]) + (block + Concat(Pieces(kept[1..], tokenize, block)))
  {
    var rest := Pieces(kept[1..], tokenize, block);
    var ps := [tokenize(kept[0]), block] + rest;
    assert ps[1..] == [block] + rest;
    assert ([block] + rest)[1..] == rest;
  }

  /** Flattening the pieces yields one label, then one block, per kept
      timestamp: a block made only of placeholders contributes its length
      in placeholders per label, on top of whatever the labels contribute,
      and the length is the labels' length plus one block per label. */
  lemma {:induction false} EmbeddingCounts(kept: seq<real>, tokenize: real -> seq<int>, block: seq<int>)
    requires forall i :: 0 <= i < |block| ==> block[i] == PlaceholderId
    ensures var e := Concat(Pieces(kept, tokenize, block));
      && Count(e, PlaceholderId) == |block| * |kept| + LabelPlaceholders(kept, tokenize)
      && |e| == LabelLength(kept, tokenize) + |block| * |kept|
  {
    if |kept| > 0 {
      var lbl := tokenize(kept[0]);
      var rest := Concat(Pieces(kept[1..], tokenize, block));
      EmbeddingCounts(kept[1..], tokenize, block);
      UniformCount(block, PlaceholderId);
      EmbeddingStarts(kept, tokenize, block);
      CountAppend(block, rest, PlaceholderId);
      CountAppend(lbl, block + rest, PlaceholderId);
      assert |block| * |kept| == |block| + |block| * (|kept| - 1);
    }
  }

  /** No placeholder comes from the labels exactly when no label's ids
      contain the placeholder id. */
  lemma {:induction false} LabelPlaceholdersZero(kept: seq<real>, tokenize: real -> seq<int>)
    ensures LabelPlaceholders(kept, tokenize) == 0 <==>
      forall i :: 0 <= i < |kept| ==> PlaceholderId !in tokenize(kept[i])
  {
    if |kept| > 0 {
      LabelPlaceholdersZero(kept[1..], tokenize);
      assert forall i :: 1 <= i < |kept| ==> kept[i] == kept[1..][i - 1];
      assert PlaceholderId in tokenize(kept[0]) <==> PlaceholderId in multiset(tokenize(kept[0]));
    }
  }

  /** The embedding holds exactly `144 * token_frames_sum` placeholder ids
      if and only if no label kept for these timestamps tokenizes to the
      placeholder id; its length is the labels' length plus that count;
      and it is laid out as label, block, label, block, ... */
  lemma TimeEmbeddingPlaceholders(times: seq<real>, tokenize: real -> seq<int>)
    ensures var kept := EveryNth(times, LabelStride);
      && (Count(TimeEmbedding(times, tokenize), PlaceholderId) == BlockSize * LabelCount(times)
          <==> forall i :: 0 <= i < |kept| ==> PlaceholderId !in tokenize(kept[i]))
      && |TimeEmbedding(times, tokenize)| == LabelLength(kept, tokenize) + BlockSize * LabelCount(times)
  {
    var kept := EveryNth(times, LabelStride);
    KeptTimes(times);
    EmbeddingCounts(kept, tokenize, PlaceholderBlock());
    LabelPlaceholdersZero(kept, tokenize);
  }

  /** The pieces flattened into the embedding alternate between the label
      of timestamp `4 * j` and a block of 144 placeholder ids. */
  lemma TimeEmbeddingLayout(times: seq<real>, tokenize: real -> seq<int>)
    ensures var ps := Pieces(EveryNth(times, LabelStride), tokenize, PlaceholderBlock());
      && |ps| == 2 * LabelCount(times)
      && forall j :: 0 <= j < LabelCount(times) ==>
           ps[2 * j] == tokenize(times[4 * j])
           && ps[2 * j + 1] == PlaceholderBlock()
  {
    KeptTimes(times);
    PiecesAt(EveryNth(times, LabelStride), tokenize, PlaceholderBlock());
  }

  /** The timestamps of the image branch: `float(i)` for each image. */
  function ImageTimes(n: nat): (ts: seq<real>)
    ensures |ts| == n
  {
    seq(n, i => i as real)
  }

  /** For images the labels fall on 0, 4, 8, ...: label `j` is `4 * j`. */
  lemma ImageLabels(n: nat)
    ensures var kept := EveryNth(ImageTimes(n), LabelStride);
      && |kept| == (n + 3) / 4
      && forall j :: 0 <= j < |kept| ==> kept[j] == (4 * j) as real
  {
    KeptTimes(ImageTimes(n));
  }
}
