/** How one request of `generate_until` becomes the text handed to the
    tokenizer: the visual branch decides whether the question gets a line of
    image markers, `videoxl.py` appends an instruction to questions that
    mention "Information ", the conversation template wraps the question,
    and every `mm:ss` time in the wrapped prompt is rewritten. The padded
    batch of token ids and its attention mask follow. The conversation
    template and the tokenizer are opaque functions. */
module PromptAssembly {
  import opened Outcomes
  import opened PyStr
  import opened SeqUtils
  import opened FrameSampler
  import opened TimeTokens
  import opened TimeRewrite
  import opened Selection

  /** `videoxl.py` (`VideoXL`) or `w_chunk_bilevel/.../videoxl2.py` (`VideoXL2`). */
  datatype Adapter = VideoXL | VideoXL2

  /** The visual input of one request once its branch has run: a list of
      images, or a video file together with the outcome of `load_video`.
      `ImageList(0)` stands for an empty visual list. */
  datatype Visual =
    | ImageList(count: nat)
    | VideoFile(load: Result<Sample, SampleError>)

  datatype AssemblyError =
    | UnboundFrames                   // `len(frames)` read before any earlier request bound `frames`
    | NoVisual                        // `visual[0]` of an empty visual list raises `IndexError`
    | NotAPath                        // `os.path.basename` of an image instead of a path raises `TypeError`
    | SelectionFailed(err: SelectionError)  // the unit lookup of `VideoXL2` raises

  /** `image_tensor is not None and len(image_tensor) != 0`: an image list
      always leaves one tensor; a video leaves one only when it loaded (a
      failed load raises inside the `try`, and `image_tensor` becomes `None`). */
  predicate HasVisual(v: Visual)
  {
    v.ImageList? || v.load.Success?
  }

  /** `time_stamps` after the branch: the time embedding of `float(i)` per
      image, or of the loaded timestamps, and nothing after a failed load. */
  function TimeStamps(v: Visual, tokenize: real -> seq<int>): (ts: seq<seq<int>>)
  {
    match v
    case ImageList(n) => [TimeEmbedding(ImageTimes(n), tokenize)]
    case VideoFile(load) => if load.Success? then [TimeEmbedding(load.value.timestamps, tokenize)] else []
  }

  /** `" ".join([marker] * k)`. */
  function MarkerLine(marker: string, k: nat): string
  {
    Join(Repeat(marker, k), " ")
  }

  /** The marker line, a newline, then the context. */
  function WithMarkers(context: string, marker: string, k: nat): string
  {
    MarkerLine(marker, k) + "\n" + context
  }

  /** The number of markers as the code reads it: one unless the token
      strategy is "multiple", and then `len(frames)`. A video's frames are
      its loaded indices; the image branch never binds `frames`, so the
      count is whatever an earlier video request of the same call left in
      it (`stale`), and an error when there was none. */
  function MarkerCountAsWritten(v: Visual, strategy: string, stale: Option<nat>): (r: Result<nat, AssemblyError>)
    requires HasVisual(v)
  {
    if strategy != "multiple" then Success(1)
    else match v
      case ImageList(_) => if stale.Some? then Success(stale.value) else Failure(UnboundFrames)
      case VideoFile(load) => Success(|load.value.indices|)
  }

  /** The question as the code builds it, stale `frames` included. */
  function QuestionAsWritten(v: Visual, context: string, marker: string, strategy: string,
                             stale: Option<nat>): Result<string, AssemblyError>
    requires |marker| > 0
  {
    if HasVisual(v) && !Contains(context, marker) then
      match MarkerCountAsWritten(v, strategy, stale)
      case Failure(e) => Failure(e)
      case Success(k) => Success(WithMarkers(context, marker, k))
    else Success(context)
  }

  /** The number of markers: one unless the strategy is "multiple", and
      then one per loaded frame or one per image. */
  function MarkerCount(v: Visual, strategy: string): nat
    requires HasVisual(v)
  {
    if strategy != "multiple" then 1
    else match v
      case ImageList(n) => n
      case VideoFile(load) => |load.value.indices|
  }

  /** The question: the context alone when there is no visual input or the
      context already holds a marker, otherwise the marker line, a newline
      and the context. */
  function Question(v: Visual, context: string, marker: string, strategy: string): string
    requires |marker| > 0
  {
    if HasVisual(v) && !Contains(context, marker) then WithMarkers(context, marker, MarkerCount(v, strategy))
    else context
  }

  const InformationCue := "Information "
  const BestOptionSuffix := "\nOnly give the best option."

  /** `videoxl.py` asks for the best option whenever the question mentions
      "Information ". */
  function BestOption(question: string): string
  {
    if Contains(question, InformationCue) then question + BestOptionSuffix else question
  }

  /** The question each adapter hands to the conversation template.
      Both adapters read the first visual before anything else, so an
      empty visual list fails first. `VideoXL2` then looks up the selected
      units of the request before any branch runs: it takes the base name
      of the visual as a path, which fails for an image, and then derives
      the unique id from the benchmark's rule, which fails for a benchmark
      no rule matches. */
  function AdapterQuestion(a: Adapter, v: Visual, context: string, marker: string, strategy: string,
                           benchmark: string): Result<string, AssemblyError>
    requires |marker| > 0
  {
    var q := Question(v, context, marker, strategy);
    if v == ImageList(0) then Failure(NoVisual)
    else if a == VideoXL then Success(BestOption(q))
    else if v.ImageList? then Failure(NotAPath)
    else if RuleOf(benchmark).None? then Failure(SelectionFailed(UnboundUniqueId))
    else Success(q)
  }

  /** The prompt of one request: the question wrapped by the conversation
      template, with every `mm:ss` time rewritten to seconds. */
  function Prompt(a: Adapter, v: Visual, context: string, marker: string, strategy: string,
                  benchmark: string, wrap: string -> string): Result<string, AssemblyError>
    requires |marker| > 0
  {
    match AdapterQuestion(a, v, context, marker, strategy, benchmark)
    case Failure(e) => Failure(e)
    case Success(q) => Success(ConvertPrompt(wrap(q)))
  }

  /** The question each adapter hands to the template as the code is
      written: for `VideoXL` the marker count reads `frames`, which an
      image request finds unbound or stale. `VideoXL2` fails on an image
      before its marker line, so for it nothing differs from
      `AdapterQuestion`. */
  function AdapterQuestionAsWritten(a: Adapter, v: Visual, context: string, marker: string, strategy: string,
                                    benchmark: string, stale: Option<nat>): Result<string, AssemblyError>
    requires |marker| > 0
  {
    if v == ImageList(0) then Failure(NoVisual)
    else if a == VideoXL2 then AdapterQuestion(a, v, context, marker, strategy, benchmark)
    else match QuestionAsWritten(v, context, marker, strategy, stale)
      case Failure(e) => Failure(e)
      case Success(q) => Success(BestOption(q))
  }

  /** The prompt of one request as the code is written, `stale` being the
      frame count an earlier video request of the same call left in
      `frames`, if any. */
  function PromptAsWritten(a: Adapter, v: Visual, context: string, marker: string, strategy: string,
                           benchmark: string, stale: Option<nat>, wrap: string -> string): Result<string, AssemblyError>
    requires |marker| > 0
  {
    match AdapterQuestionAsWritten(a, v, context, marker, strategy, benchmark, stale)
    case Failure(e) => Failure(e)
    case Success(q) => Success(ConvertPrompt(wrap(q)))
  }

  /** The question is the bare context exactly when there is no visual
      input or the context already holds a marker; otherwise it is the
      marker line, a newline and the context, and ends with the context. */
  lemma QuestionShape(v: Visual, context: string, marker: string, strategy: string)
    requires |marker| > 0
    ensures Question(v, context, marker, strategy) == context <==>
      !HasVisual(v) || Contains(context, marker)
    ensures HasVisual(v) && !Contains(context, marker) ==>
      var q := Question(v, context, marker, strategy);
      var line := MarkerLine(marker, MarkerCount(v, strategy));
      && q == line + "\n" + context
      && |q| > |context|
      && q[|q| - |context|..] == context
  {
    if HasVisual(v) && !Contains(context, marker) {
      var q := Question(v, context, marker, strategy);
      var line := MarkerLine(marker, MarkerCount(v, strategy));
      assert q == (line + "\n") + context;
    }
  }

  /** A marker without spaces can be counted back from the marker line:
      splitting the line at spaces gives `k` copies of the marker. */
  lemma MarkerLineSplit(marker: string, k: nat)
    requires k >= 1 && ' ' !in marker
    ensures Split(MarkerLine(marker, k), " ") == Repeat(marker, k)
  {
    SplitJoin(Repeat(marker, k), ' ');
  }

  /** With the "multiple" strategy a loaded video gets one marker per
      frame, and an image list, under the corrected count, one per image;
      any other strategy gets one. */
  lemma MarkerLineCounts(v: Visual, context: string, marker: string, strategy: string)
    requires |marker| > 0 && ' ' !in marker
    requires HasVisual(v) && !Contains(context, marker)
    ensures var k := if strategy != "multiple" then 1
                     else if v.ImageList? then v.count else |v.load.value.indices|;
      k >= 1 ==>
        Split(MarkerLine(marker, MarkerCount(v, strategy)), " ") == Repeat(marker, k)
  {
    var k := MarkerCount(v, strategy);
    if k >= 1 {
      MarkerLineSplit(marker, k);
    }
  }

  /** A video whose load fails leaves a text-only request: the question is
      the context and there are no time tokens. */
  lemma LoadFailureTextOnly(e: SampleError, context: string, marker: string, strategy: string,
                            tokenize: real -> seq<int>)
    requires |marker| > 0
    ensures Question(VideoFile(Failure(e)), context, marker, strategy) == context
    ensures TimeStamps(VideoFile(Failure(e)), tokenize) == []
  {
  }

  /** A loaded video gets one time embedding whose labels are every fourth
      timestamp of the sample. */
  lemma LoadedVideoTimeStamps(s: Sample, tokenize: real -> seq<int>)
    ensures TimeStamps(VideoFile(Success(s)), tokenize) == [TimeEmbedding(s.timestamps, tokenize)]
    ensures |EveryNth(s.timestamps, LabelStride)| == (|s.timestamps| + 3) / 4
  {
    KeptTimes(s.timestamps);
  }

  /** The instruction is appended exactly when the question mentions
      "Information ", and then the question is kept as its prefix. */
  lemma BestOptionIff(question: string)
    ensures BestOption(question) != question <==> Contains(question, InformationCue)
    ensures Contains(question, InformationCue) ==>
      BestOption(question) == question + BestOptionSuffix
    ensures BestOption(question)[..|question|] == question
  {
  }

  /** Under the corrected marker count: `VideoXL` fails only on an empty
      visual list; `VideoXL2` fails
      exactly on image lists and on a benchmark no rule matches; and for a
      video both answer, asking the same question unless it mentions
      "Information ". */
  lemma AdaptersAgree(v: Visual, context: string, marker: string, strategy: string, benchmark: string)
    requires |marker| > 0
    ensures AdapterQuestion(VideoXL, v, context, marker, strategy, benchmark).Failure? <==> v == ImageList(0)
    ensures AdapterQuestion(VideoXL2, v, context, marker, strategy, benchmark).Failure? <==>
      v.ImageList? || RuleOf(benchmark).None?
    ensures var q := Question(v, context, marker, strategy);
      v.VideoFile? && RuleOf(benchmark).Some? ==>
        (AdapterQuestion(VideoXL, v, context, marker, strategy, benchmark)
           == AdapterQuestion(VideoXL2, v, context, marker, strategy, benchmark)
         <==> !Contains(q, InformationCue))
  {
    BestOptionIff(Question(v, context, marker, strategy));
  }

  /** Under the corrected marker count, a prompt is built for every
      request except an empty visual list, and, for `VideoXL2`, an image
      list or a benchmark no rule matches; the error is the first one the
      code runs into. `PromptOutcomeAsWritten` adds the unbound `frames`. */
  lemma PromptOutcome(a: Adapter, v: Visual, context: string, marker: string, strategy: string,
                      benchmark: string, wrap: string -> string)
    requires |marker| > 0
    ensures var r := Prompt(a, v, context, marker, strategy, benchmark, wrap);
      && (r.Failure? <==> v == ImageList(0) || (a == VideoXL2 && (v.ImageList? || RuleOf(benchmark).None?)))
      && (v == ImageList(0) ==> r == Failure(NoVisual))
      && (a == VideoXL2 && v.ImageList? && v.count > 0 ==> r == Failure(NotAPath))
      && (a == VideoXL2 && v.VideoFile? && RuleOf(benchmark).None? ==>
            r == Failure(SelectionFailed(UnboundUniqueId)))
  {
  }

  /** The prompt path as the code is written. Besides the failures of
      `PromptOutcome`, `VideoXL` fails on an image list under "multiple"
      that needs a marker line when no earlier video bound `frames`, and
      after an earlier video it gives the images that video's frame count
      of markers. In every other case it builds the corrected prompt. */
  lemma PromptOutcomeAsWritten(a: Adapter, v: Visual, context: string, marker: string, strategy: string,
                               benchmark: string, stale: Option<nat>, wrap: string -> string)
    requires |marker| > 0
    ensures var r := PromptAsWritten(a, v, context, marker, strategy, benchmark, stale, wrap);
      var staleImage := a == VideoXL && v.ImageList? && v.count > 0 && strategy == "multiple"
                        && !Contains(context, marker);
      && (r.Failure? <==> v == ImageList(0) || (staleImage && stale.None?)
                          || (a == VideoXL2 && (v.ImageList? || RuleOf(benchmark).None?)))
      && (v == ImageList(0) ==> r == Failure(NoVisual))
      && (staleImage && stale.None? ==> r == Failure(UnboundFrames))
      && (staleImage && stale.Some? ==>
            r == Success(ConvertPrompt(wrap(BestOption(WithMarkers(context, marker, stale.value))))))
      && (!staleImage ==> r == Prompt(a, v, context, marker, strategy, benchmark, wrap))
  {
    if v != ImageList(0) && a == VideoXL {
      if v.VideoFile? || strategy != "multiple" || Contains(context, marker) {
        QuestionAsWrittenAgrees(v, context, marker, strategy, stale);
      }
    }
  }

  /** The code as written agrees with `Question` for videos and for a
      strategy other than "multiple", and whenever no marker line is added. */
  lemma QuestionAsWrittenAgrees(v: Visual, context: string, marker: string, strategy: string,
                                stale: Option<nat>)
    requires |marker| > 0
    requires v.VideoFile? || strategy != "multiple" || !HasVisual(v) || Contains(context, marker)
    ensures QuestionAsWritten(v, context, marker, strategy, stale)
      == Success(Question(v, context, marker, strategy))
  {
  }

  /** An image request with the "multiple" strategy and no earlier video
      in the call fails on the unbound `frames`; after an earlier video it
      gets that video's frame count of markers instead of one per image. */
  lemma ImageMarkersAsWritten(n: nat, context: string, marker: string, stale: Option<nat>)
    requires |marker| > 0 && !Contains(context, marker)
    ensures stale.None? ==>
      QuestionAsWritten(ImageList(n), context, marker, "multiple", stale) == Failure(UnboundFrames)
    ensures stale.Some? ==>
      QuestionAsWritten(ImageList(n), context, marker, "multiple", stale)
        == Success(WithMarkers(context, marker, stale.value))
  {
  }

  /** With the corrected count an image request with the "multiple"
      strategy gets one marker per image, whatever came before it. */
  lemma ImageMarkersCorrected(n: nat, context: string, marker: string)
    requires |marker| > 0 && ' ' !in marker && !Contains(context, marker) && n >= 1
    ensures var q := Question(ImageList(n), context, marker, "multiple");
      && q == MarkerLine(marker, n) + "\n" + context
      && Split(MarkerLine(marker, n), " ") == Repeat(marker, n)
  {
    MarkerLineSplit(marker, n);
  }

  /** `pad_token_id`, or the end-of-sequence id when there is none. */
  function PadTokenId(padId: Option<int>, eosId: int): int
  {
    if padId.Some? then padId.value else eosId
  }

  /** `input_ids.ne(pad)`: which positions of the padded batch are not padding. */
  function AttentionMask(ids: seq<seq<int>>, pad: int): (m: seq<seq<bool>>)
    ensures |m| == |ids|
    ensures forall i :: 0 <= i < |ids| ==> |m[i]| == |ids[i]|
    ensures forall i, j :: 0 <= i < |ids| && 0 <= j < |ids[i]| ==> (m[i][j] <==> ids[i][j] != pad)
  {
    seq(|ids|, i requires 0 <= i < |ids| => seq(|ids[i]|, j requires 0 <= j < |ids[i]| => ids[i][j] != pad))
  }

  /** A right-padded row without the pad id in its prompt is non-padding
      exactly on the prompt's positions. */
  lemma RightRowMask(row: seq<int>, out: seq<int>, pad: int)
    requires pad !in row
    requires |row| <= |out| && out[..|row|] == row
    requires forall j :: |row| <= j < |out| ==> out[j] == pad
    ensures forall j :: 0 <= j < |out| ==> (out[j] != pad <==> j < |row|)
  {
    forall j | 0 <= j < |row|
      ensures out[j] == row[j]
    {
      assert out[..|row|][j] == out[j];
    }
  }

  /** A left-padded row without the pad id in its prompt is non-padding
      exactly on its last `|row|` positions. */
  lemma LeftRowMask(row: seq<int>, out: seq<int>, pad: int)
    requires pad !in row
    requires |row| <= |out| && out[|out| - |row|..] == row
    requires forall j :: 0 <= j < |out| - |row| ==> out[j] == pad
    ensures forall j :: 0 <= j < |out| ==> (out[j] != pad <==> j >= |out| - |row|)
  {
    var d := |out| - |row|;
    forall j | d <= j < |out|
      ensures out[j] == row[j - d]
    {
      assert out[d..][j - d] == out[j];
    }
  }

  /** In any right-padded batch whose prompts hold no pad id, the mask
      marks exactly the first `|rows[i]|` positions of row `i`. */
  lemma RightPaddedMask(rows: seq<seq<int>>, ids: seq<seq<int>>, pad: int)
    requires RightPadded(rows, ids, pad)
    requires forall i :: 0 <= i < |rows| ==> pad !in rows[i]
    ensures var m := AttentionMask(ids, pad);
      && |m| == |rows|
      && forall i :: 0 <= i < |rows| ==>
           && |m[i]| == MaxLength(rows)
           && forall j :: 0 <= j < |m[i]| ==> (m[i][j] <==> j < |rows[i]|)
  {
    var m := AttentionMask(ids, pad);
    forall i | 0 <= i < |rows|
      ensures forall j :: 0 <= j < |m[i]| ==> (m[i][j] <==> j < |rows[i]|)
    {
      RightRowMask(rows[i], ids[i], pad);
    }
  }

  /** In any left-padded batch whose prompts hold no pad id, the mask
      marks exactly the last `|rows[i]|` positions of row `i`. */
  lemma LeftPaddedMask(rows: seq<seq<int>>, ids: seq<seq<int>>, pad: int)
    requires LeftPadded(rows, ids, pad)
    requires forall i :: 0 <= i < |rows| ==> pad !in rows[i]
    ensures var m := AttentionMask(ids, pad);
      && |m| == |rows|
      && forall i :: 0 <= i < |rows| ==>
           && |m[i]| == MaxLength(rows)
           && forall j :: 0 <= j < |m[i]| ==> (m[i][j] <==> j >= |m[i]| - |rows[i]|)
  {
    var m := AttentionMask(ids, pad);
    forall i | 0 <= i < |rows|
      ensures forall j :: 0 <= j < |m[i]| ==> (m[i][j] <==> j >= |m[i]| - |rows[i]|)
    {
      LeftRowMask(rows[i], ids[i], pad);
    }
  }

  /** Right padding of a non-empty batch with `pad_token_id` (or the
      end-of-sequence id when there is none), whose prompts hold no such
      id: the attention mask marks exactly each prompt's own leading
      positions. */
  lemma AttentionMaskRight(rows: seq<seq<int>>, padId: Option<int>, eosId: int)
    requires |rows| > 0
    requires forall i :: 0 <= i < |rows| ==> PadTokenId(padId, eosId) !in rows[i]
    ensures var pad := PadTokenId(padId, eosId);
      var m := AttentionMask(PadSequence(rows, Right, pad).value, pad);
      && |m| == |rows|
      && forall i :: 0 <= i < |rows| ==>
           && |m[i]| == MaxLength(rows)
           && forall j :: 0 <= j < |m[i]| ==> (m[i][j] <==> j < |rows[i]|)
  {
    var pad := PadTokenId(padId, eosId);
    PadSequenceRight(rows, pad);
    RightPaddedMask(rows, PadSequence(rows, Right, pad).value, pad);
  }

  /** Left padding of a non-empty batch with `pad_token_id` (or the
      end-of-sequence id when there is none), whose prompts hold no such
      id: the attention mask marks exactly each prompt's own trailing
      positions. */
  lemma AttentionMaskLeft(rows: seq<seq<int>>, padId: Option<int>, eosId: int)
    requires |rows| > 0
    requires forall i :: 0 <= i < |rows| ==> PadTokenId(padId, eosId) !in rows[i]
    ensures var pad := PadTokenId(padId, eosId);
      var m := AttentionMask(PadSequence(rows, Left, pad).value, pad);
      && |m| == |rows|
      && forall i :: 0 <= i < |rows| ==>
           && |m[i]| == MaxLength(rows)
           && forall j :: 0 <= j < |m[i]| ==> (m[i][j] <==> j >= |m[i]| - |rows[i]|)
  {
    var pad := PadTokenId(padId, eosId);
    PadSequenceLeft(rows, pad);
    LeftPaddedMask(rows, PadSequence(rows, Left, pad).value, pad);
  }
}
