/** The list helpers both adapters carry: `flatten`, `pad_sequence` (left or
    right padding of token rows) and the left truncation in `tok_encode`. */
module SeqUtils {
  import opened Outcomes
  import opened Arith

  /** All rows one after another, in order. */
  function Concat<T>(xss: seq<seq<T>>): seq<T>
  {
    if |xss| == 0 then [] else xss[0] + Concat(xss[1..])
  }

  /** The sum of the row lengths. */
  function SumLengths<T>(xss: seq<seq<T>>): nat
  {
    if |xss| == 0 then 0 else |xss[0]| + SumLengths(xss[1..])
  }

  lemma {:induction false} ConcatLength<T>(xss: seq<seq<T>>)
    ensures |Concat(xss)| == SumLengths(xss)
  {
    if |xss| > 0 {
      ConcatLength(xss[1..]);
    }
  }

  lemma {:induction false} ConcatAppend<T>(xss: seq<seq<T>>, yss: seq<seq<T>>)
    ensures Concat(xss + yss) == Concat(xss) + Concat(yss)
  {
    if |xss| == 0 {
      assert xss + yss == yss;
    } else {
      assert (xss + yss)[1..] == xss[1..] + yss;
      ConcatAppend(xss[1..], yss);
    }
  }

  /** `flatten`: the nested loop appending every element of every sublist. */
  method Flatten<T>(input: seq<seq<T>>) returns (r: seq<T>)
    ensures r == Concat(input)
    ensures |r| == SumLengths(input)
  {
    r := [];
    for i := 0 to |input|
      invariant r == Concat(input[..i])
    {
      for j := 0 to |input[i]|
        invariant r == Concat(input[..i]) + input[i][..j]
      {
        r := r + [input[i][j]];
      }
      assert input[i][..|input[i]|] == input[i];
      assert input[..i + 1] == input[..i] + [input[i]];
      ConcatAppend(input[..i], [input[i]]);
    }
    assert input[..|input|] == input;
    ConcatLength(input);
  }

  /** `[x] * n`. */
  function Repeat<T>(x: T, n: nat): (r: seq<T>)
    ensures |r| == n
    ensures forall i :: 0 <= i < n ==> r[i] == x
  {
    if n == 0 then [] else [x] + Repeat(x, n - 1)
  }

  /** `torch.flip(row, [0])`. */
  function Reverse<T>(s: seq<T>): (r: seq<T>)
    ensures |r| == |s|
    ensures forall i :: 0 <= i < |s| ==> r[i] == s[|s| - 1 - i]
  {
    if |s| == 0 then [] else Reverse(s[1..]) + [s[0]]
  }

  /** The length of the longest row (0 for no rows). */
  function MaxLength<T>(rows: seq<seq<T>>): (m: nat)
    ensures forall i :: 0 <= i < |rows| ==> |rows[i]| <= m
    ensures |rows| > 0 ==> exists i :: 0 <= i < |rows| && |rows[i]| == m
  {
    if |rows| == 0 then 0
    else
      var rest := MaxLength(rows[1..]);
      if |rows[0]| >= rest then |rows[0]| else rest
  }

  /** `MaxLength` sees only the row lengths. */
  lemma {:induction false} MaxLengthOfLengths<T>(a: seq<seq<T>>, b: seq<seq<T>>)
    requires |a| == |b|
    requires forall i :: 0 <= i < |a| ==> |a[i]| == |b[i]|
    ensures MaxLength(a) == MaxLength(b)
  {
    if |a| > 0 {
      MaxLengthOfLengths(a[1..], b[1..]);
    }
  }

  datatype PaddingSide = Left | Right

  /** `tokenizer.padding_side == "left"` picks left padding; any other value pads on the right. */
  function PaddingSideOf(side: string): PaddingSide
  {
    if side == "left" then Left else Right
  }

  /** `pad_sequence` of an empty list raises. */
  datatype PadError = EmptyBatch

  /** `torch.nn.utils.rnn.pad_sequence(rows, batch_first=True, padding_value=pad)`:
      every row extended on the right to the longest row's length. */
  function PadRows<T>(rows: seq<seq<T>>, pad: T): (r: Result<seq<seq<T>>, PadError>)
    ensures r.Failure? <==> |rows| == 0
    ensures r.Success? ==> |r.value| == |rows|
    ensures r.Success? ==> forall i :: 0 <= i < |rows| ==>
      |rows[i]| <= |r.value[i]| == MaxLength(rows) && r.value[i][..|rows[i]|] == rows[i]
    ensures r.Success? ==> forall i, j :: 0 <= i < |rows| && |rows[i]| <= j < MaxLength(rows) ==>
      r.value[i][j] == pad
  {
    if |rows| == 0 then Failure(EmptyBatch)
    else
      var width := MaxLength(rows);
      Success(seq(|rows|, i requires 0 <= i < |rows| => rows[i] + Repeat(pad, width - |rows[i]|)))
  }

  /** The adapters' `pad_sequence`: for left padding each row is flipped,
      the batch is padded on the right, and every padded row is flipped back. */
  function PadSequence<T>(rows: seq<seq<T>>, side: PaddingSide, pad: T): Result<seq<seq<T>>, PadError>
  {
    if side == Right then PadRows(rows, pad)
    else
      match PadRows(ReverseRows(rows), pad)
      case Failure(e) => Failure(e)
      case Success(padded) => Success(ReverseRows(padded))
  }

  /** `out` is `rows` padded on the right with `pad` to the longest row. */
  ghost predicate RightPadded<T>(rows: seq<seq<T>>, out: seq<seq<T>>, pad: T)
  {
    && |out| == |rows|
    && forall i :: 0 <= i < |rows| ==>
      && |rows[i]| <= |out[i]| == MaxLength(rows)
      && out[i][..|rows[i]|] == rows[i]
      && forall j :: |rows[i]| <= j < MaxLength(rows) ==> out[i][j] == pad
  }

  /** `out` is `rows` padded on the left with `pad` to the longest row. */
  ghost predicate LeftPadded<T>(rows: seq<seq<T>>, out: seq<seq<T>>, pad: T)
  {
    && |out| == |rows|
    && forall i :: 0 <= i < |rows| ==>
      && |rows[i]| <= |out[i]| == MaxLength(rows)
      && out[i][MaxLength(rows) - |rows[i]|..] == rows[i]
      && forall j :: 0 <= j < MaxLength(rows) - |rows[i]| ==> out[i][j] == pad
  }

  /** Right padding: an empty batch is an error; otherwise every padded row
      is the original row followed only by pad values. */
  lemma PadSequenceRight<T>(rows: seq<seq<T>>, pad: T)
    ensures PadSequence(rows, Right, pad).Failure? <==> |rows| == 0
    ensures PadSequence(rows, Right, pad).Success? ==> RightPadded(rows, PadSequence(rows, Right, pad).value, pad)
  {
  }

  /** Left padding (flip, pad, flip back): an empty batch is an error;
      otherwise every padded row is the original row preceded only by pad
      values. */
  lemma PadSequenceLeft<T>(rows: seq<seq<T>>, pad: T)
    ensures PadSequence(rows, Left, pad).Failure? <==> |rows| == 0
    ensures PadSequence(rows, Left, pad).Success? ==> LeftPadded(rows, PadSequence(rows, Left, pad).value, pad)
  {
    if |rows| > 0 {
      var flipped := ReverseRows(rows);
      var padded := PadRows(flipped, pad).value;
      var back := ReverseRows(padded);
      assert PadSequence(rows, Left, pad) == Success(back);
      FlipPadFlip(rows, flipped, padded, back, pad);
    }
  }

  /** The tokenizer's `padding_side` decides the shape: `"left"` pads
      every row on the left, any other value on the right. */
  lemma PadSequenceBySide<T>(rows: seq<seq<T>>, paddingSide: string, pad: T)
    ensures var r := PadSequence(rows, PaddingSideOf(paddingSide), pad);
      && (r.Failure? <==> |rows| == 0)
      && (r.Success? && paddingSide == "left" ==> LeftPadded(rows, r.value, pad))
      && (r.Success? && paddingSide != "left" ==> RightPadded(rows, r.value, pad))
  {
    if paddingSide == "left" {
      PadSequenceLeft(rows, pad);
    } else {
      PadSequenceRight(rows, pad);
    }
  }

  /** `torch.flip` applied to every row. */
  function ReverseRows<T>(rows: seq<seq<T>>): (r: seq<seq<T>>)
    ensures |r| == |rows|
    ensures forall i :: 0 <= i < |rows| ==> r[i] == Reverse(rows[i])
  {
    seq(|rows|, i requires 0 <= i < |rows| => Reverse(rows[i]))
  }

  /** Flipping every row, right-padding, and flipping back pads on the left. */
  lemma {:induction false} FlipPadFlip<T>(rows: seq<seq<T>>, flipped: seq<seq<T>>, padded: seq<seq<T>>, back: seq<seq<T>>, pad: T)
    requires |flipped| == |rows| == |padded| == |back|
    requires forall i :: 0 <= i < |rows| ==> flipped[i] == Reverse(rows[i])
    requires forall i :: 0 <= i < |rows| ==> back[i] == Reverse(padded[i])
    requires RightPadded(flipped, padded, pad)
    ensures LeftPadded(rows, back, pad)
  {
    MaxLengthOfLengths(flipped, rows);
    var w := MaxLength(rows);
    forall i | 0 <= i < |rows|
      ensures |rows[i]| <= |back[i]| == w
      ensures back[i][w - |rows[i]|..] == rows[i]
      ensures forall j :: 0 <= j < w - |rows[i]| ==> back[i][j] == pad
    {
      FlipPadFlipRow(rows[i], flipped[i], padded[i], back[i], w, pad);
    }
  }

  /** One row of `FlipPadFlip`. */
  lemma {:induction false} FlipPadFlipRow<T>(row: seq<T>, flipped: seq<T>, padded: seq<T>, back: seq<T>, w: nat, pad: T)
    requires flipped == Reverse(row) && back == Reverse(padded)
    requires |row| <= |padded| == w && padded[..|row|] == flipped
    requires forall j :: |row| <= j < w ==> padded[j] == pad
    ensures |back| == w && back[w - |row|..] == row
    ensures forall j :: 0 <= j < w - |row| ==> back[j] == pad
  {
    var d := w - |row|;
    forall j | 0 <= j < d
      ensures back[j] == pad
    {
      assert back[j] == padded[w - 1 - j];
    }
    forall j | 0 <= j < |row|
      ensures back[d + j] == row[j]
    {
      assert back[d + j] == padded[|row| - 1 - j];
      assert padded[|row| - 1 - j] == flipped[|row| - 1 - j];
    }
  }

  /** Python's normalisation of a slice start: negative values count from
      the end, and the result is clamped to `[0, len]`. */
  function SliceStart(start: int, len: nat): (k: nat)
    ensures k <= len
    ensures start >= 0 ==> k == Min(start, len)
    ensures start < 0 ==> k == if len + start >= 0 then len + start else 0
  {
    if start < 0 then (if len + start >= 0 then len + start else 0)
    else if start > len then len
    else start
  }

  /** `if left_truncate_len: encoding = encoding[-left_truncate_len:]`:
      `None` and `0` leave the encoding alone; a positive limit keeps the
      last tokens; a negative one (Python slice semantics) drops the first ones. */
  function LeftTruncate<T>(encoding: seq<T>, limit: Option<int>): (r: seq<T>)
    ensures limit == None || limit == Some(0) ==> r == encoding
    ensures limit.Some? && limit.value > 0 ==>
      |r| == Min(|encoding|, limit.value) && r == encoding[|encoding| - |r|..]
    ensures limit.Some? && limit.value < 0 ==> r == encoding[Min(|encoding|, -limit.value)..]
  {
    match limit
    case None => encoding
    case Some(n) => if n == 0 then encoding else encoding[SliceStart(-n, |encoding|)..]
  }

  /** `tok_encode`: the tokenizer's encoding (an opaque function of the text
      and the special-token flag, `False` when not given), left-truncated. */
  function TokEncode(encode: (string, bool) -> seq<int>, text: string,
                     leftTruncateLen: Option<int>, addSpecialTokens: Option<bool>): (r: seq<int>)
    ensures var e := encode(text, addSpecialTokens == Some(true));
      |r| <= |e| && r == e[|e| - |r|..]
    ensures leftTruncateLen.Some? && leftTruncateLen.value > 0 ==> |r| <= leftTruncateLen.value
  {
    var special := match addSpecialTokens case None => false case Some(b) => b;
    LeftTruncate(encode(text, special), leftTruncateLen)
  }
}
