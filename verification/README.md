# Video-XL-2 evaluation adapters, modelled in Dafny

Video-XL-2 plugs its video-language model into the lmms-eval evaluation framework
through two near-duplicate adapters:

- `videoxl.py` (class `VideoXL`);
- `w_chunk_bilevel/.../videoxl2.py` (class `VideoXL2`), which also selects
  memory units per question.

Most of both files is device setup and model calls. Underneath sit small,
sequential routines that decide what the model is shown. This project
models those routines once and proves what they compute:

| module | file | models |
|---|---|---|
| `Outcomes` | `outcomes.dfy` | `Option` and `Result`, the error paths of the Python code |
| `Arith` | `arith.dfy` | ceiling division and the few non-linear facts the other modules use |
| `PyStr` | `py_str.dfy` | the Python `str` operations the adapters use: `in`, `find`, `split(sep)`, `split(sep)[0]`, `split(sep)[-1]`, `sep.join`, `replace`, `strip()` |
| `SeqUtils` | `seq_utils.dfy` | `flatten`, `pad_sequence` (flip, pad on the right, flip back), `tok_encode` (left truncation) |
| `FrameSampler` | `frame_sampler.dfy` | the frame-index arithmetic of `load_video` and of the `load_video_uniform` that wins in `videoxl2.py` |
| `TimeTokens` | `time_tokens.dfy` | the time-token stream: a `"Time {t}s:"` label for every fourth timestamp, each followed by 144 placeholder ids `151654` |
| `TimeRewrite` | `time_rewrite.dfy` | `mmss_to_seconds` and `convert_time_in_prompt` |
| `PromptAssembly` | `prompt_assembly.dfy` | the image-marker line, the "best option" suffix of `videoxl.py`, the prompt handed to the tokenizer, and the attention mask of the padded batch |
| `Selection` | `selection.dfy` | `get_mapping_dict`, the benchmark name, the unique-id rules and the lookup of `get_selected_unit_indices` |

Where the two adapters share code, one definition models both. The table
below cites the `videoxl.py` copy. The matching `videoxl2.py` lines are:

| `videoxl.py` | `videoxl2.py` |
|---|---|
| 210-215 | 228-234 |
| 243-250 | 261-268 |
| 259-264 | 277-282 |
| 288-329 | 306-341 |
| 390-412 | 365-387 |
| 483-491 | 472-480 |
| 564-580 | 516-532 |
| 616-620 | 559-563 |

Several parts of the system are opaque parameters:

- The tokenizer is an uninterpreted function from a timestamp to the ids of
  its label, or from a text to its encoding.
- The conversation template is an uninterpreted function from question to
  prompt.
- The float-derived strides `round(fps_avg / rate)` are an uninterpreted
  function of the requested rate.
- The timestamps `round(idx / fps_avg, 1)` are an uninterpreted function of
  the frame index. `FrameSampler.LoadVideoTimestampsSorted` assumes it never
  decreases, and then proves that `load_video`'s timestamps never decrease.

Every error the Python code can raise on these paths is a `Failure` value:

- `range` with step 0;
- `//` by an empty index list, or `round(fps_avg / 0)` for a zero higher rate;
- a non-positive average frame rate: `load_video` returns a three-element
  tuple, and the caller's two-name unpack raises inside its `try`;
- a negative `linspace` count;
- `load_video_uniform` on a video without frames (no frame to fetch) and on a
  zero average rate (division in the timestamps);
- an empty batch in `pad_sequence`;
- an unbound `unique_id`;
- an unbound `frames` at `videoxl.py:575`, for an image list under the "multiple"
  strategy when no earlier video request of the call bound it. Only the
  as-written members `QuestionAsWritten` and `PromptAsWritten` return this
  failure: `Prompt` uses the corrected count of one marker per image (see
  "## Findings");
- an empty visual list, whose first element both adapters read (`videoxl.py:469`,
  `videoxl2.py:442`);
- the base name of an image instead of a path, which `videoxl2.py` asks for
  at line 442 before any visual branch runs;
- in `videoxl2.py`, the same lookup leaves `unique_id` unbound for a
  benchmark no rule matches, so every request of that benchmark fails.

None of them is a precondition.

`convert_time_in_prompt` is modelled as the code behaves:

1. It collects the non-overlapping `\d{2}:\d{2}` matches, leftmost first.
2. For each match in turn it calls `str.replace`, which rewrites every
   occurrence of that text.

This pass is not the same as "each time in the prompt is translated once".
`"12:34 34:12:34"` finds `["12:34", "34:12"]`. The first replacement turns it
into `"754 seconds 34:754 seconds"`, so `"34:12"` is never converted. The
result holds a new match `"34:75"`, so the rewrite is not idempotent.
`TimeRewrite.NotIdempotent` proves this. When the times are separated by
colon-free text, the pass behaves as expected (`TimeRewrite.ConvertInterleaved`).

## Model

| member | source | states |
|---|---|---|
| `TimeRewrite.FindAllEmptyIff` | Video-XL-2/eval/lvu/lmms_eval/models/videoxl.py:400-403 | `findall` of `\d{2}:\d{2}` returns nothing exactly when the pattern matches at no position |
| `TimeRewrite.FindAllFirst` | Video-XL-2/eval/lvu/lmms_eval/models/videoxl.py:403 | the first match returned is the text at a position where the pattern matches, and no earlier position matches |
| `TimeRewrite.FindAllInterleave` | Video-XL-2/eval/lvu/lmms_eval/models/videoxl.py:403 | in a text made of colon-free gaps and `mm:ss` times, `findall` returns exactly those times, in order |
| `TimeRewrite.ParseInt` | Video-XL-2/eval/lvu/lmms_eval/models/videoxl.py:392 | `int()` of a piece succeeds exactly on a non-empty string of decimal digits |
| `TimeRewrite.MmssOfTimeText` | Video-XL-2/eval/lvu/lmms_eval/models/videoxl.py:390-393 | for a matched `mm:ss`, `mmss_to_seconds` is `60 * mm + ss` |
| `TimeRewrite.DecimalValue` | Video-XL-2/eval/lvu/lmms_eval/models/videoxl.py:409 | the decimal text written for a number of seconds reads back as that number |
| `TimeRewrite.DecimalOfDigits` | Video-XL-2/eval/lvu/lmms_eval/models/videoxl.py:409 | a digit string without a leading zero is the decimal text of its value, so the rendering is the inverse of reading |
| `TimeRewrite.ConvertTimeInPrompt` | Video-XL-2/eval/lvu/lmms_eval/models/videoxl.py:395-412 | the result has one prompt per input prompt, and output `i` is the conversion of input `i` alone |
| `TimeRewrite.ConvertPromptUnchangedIff` | Video-XL-2/eval/lvu/lmms_eval/models/videoxl.py:401-409 | a prompt comes back unchanged exactly when no `\d{2}:\d{2}` matches in it |
| `TimeRewrite.ApplyReplacementsLength` | Video-XL-2/eval/lvu/lmms_eval/models/videoxl.py:407-409 | the replacements never shorten the prompt, and lengthen it when the first found time occurs in it |
| `TimeRewrite.ReplaceInterleave` | Video-XL-2/eval/lvu/lmms_eval/models/videoxl.py:409 | `replace(t, label)` on colon-free gaps and `mm:ss` pieces swaps exactly the pieces equal to `t` and leaves the gaps alone |
| `TimeRewrite.ApplyInterleave` | Video-XL-2/eval/lvu/lmms_eval/models/videoxl.py:408-409 | when every time piece is among the found times, the replacement loop relabels each time piece and nothing else |
| `TimeRewrite.ConvertInterleaved` | Video-XL-2/eval/lvu/lmms_eval/models/videoxl.py:395-412 | with colon-free text between the times, every time becomes `"<60m+s> seconds"` in place and the rest of the prompt is kept |
| `TimeRewrite.EventExample` | Video-XL-2/eval/lvu/lmms_eval/models/videoxl.py:395-412 | `"Event at 02:05 and 10:30"` becomes `"Event at 125 seconds and 630 seconds"` |
| `TimeRewrite.ConvertRepeated` | Video-XL-2/eval/lvu/lmms_eval/models/videoxl.py:406-409 | a time that occurs twice is rewritten at both places by its first `replace` |
| `TimeRewrite.NotIdempotent` | Video-XL-2/eval/lvu/lmms_eval/models/videoxl.py:395-412 | `"12:34 34:12:34"` becomes `"754 seconds 34:754 seconds"`, and converting that text changes it again |
| `FrameSampler.PyRange` | Video-XL-2/eval/lvu/lmms_eval/models/videoxl.py:308 | `range(0, n, step)` raises exactly for step 0 and is empty for a negative step |
| `FrameSampler.PyRangeMembers` | Video-XL-2/eval/lvu/lmms_eval/models/videoxl.py:307-308 | with a positive step the indices are `0, step, 2*step, ...`, strictly increasing, and they are exactly the multiples of `step` in `[0, n)` |
| `FrameSampler.RangeInBounds` | Video-XL-2/eval/lvu/lmms_eval/models/videoxl.py:308 | every index of a successful range lies in `[0, n)` |
| `FrameSampler.LinspaceShape` | Video-XL-2/eval/lvu/lmms_eval/models/videoxl.py:321 | `linspace(0, last, k)` stays in `[0, last]`, never decreases, starts at 0 and ends at `last` for `k >= 2` |
| `FrameSampler.LinspaceStrict` | Video-XL-2/eval/lvu/lmms_eval/models/videoxl.py:321 | with no more samples than points, the linspace indices strictly increase |
| `FrameSampler.LinspaceRepeats` | Video-XL-2/eval/lvu/w_chunk_bilevel/lmms_eval/models/videoxl2.py:352 | with more samples than points, two neighbouring indices coincide |
| `FrameSampler.TimestampsMonotone` | Video-XL-2/eval/lvu/lmms_eval/models/videoxl.py:325 | for a monotone timestamp function, non-decreasing indices give non-decreasing timestamps |
| `FrameSampler.ResampleWhen` | Video-XL-2/eval/lvu/lmms_eval/models/videoxl.py:313-317 | re-striding happens only when `max_fps` is set and `min(max_frames // count, max_fps)` exceeds the requested rate, and then uses that rate's stride; it fails exactly on an empty index list or a zero stride or rate; a positive re-stride yields exactly its multiples below the frame count, increasing |
| `FrameSampler.CapShape` | Video-XL-2/eval/lvu/lmms_eval/models/videoxl.py:319-322 | a positive budget bounds the list; a list over budget becomes exactly `max_frames` indices from 0 to `n - 1`; a list within budget is kept; indices stay in `[0, n)` |
| `FrameSampler.LoadVideoShape` | Video-XL-2/eval/lvu/lmms_eval/models/videoxl.py:288-329 | a non-positive average rate fails before any index is chosen; on success every index is a frame of the video, the indices never decrease, there is one timestamp per index in the same order, and a positive budget bounds the count |
| `FrameSampler.LoadVideoTimestampsSorted` | Video-XL-2/eval/lvu/lmms_eval/models/videoxl.py:319-325 | for a timestamp function that never decreases, the timestamps `load_video` returns never decrease |
| `FrameSampler.LoadVideoPlainStride` | Video-XL-2/eval/lvu/lmms_eval/models/videoxl.py:301-325 | without `max_fps` and within budget, the indices are exactly the multiples of the stride below the frame count, strictly increasing |
| `FrameSampler.LoadVideoUniformShape` | Video-XL-2/eval/lvu/w_chunk_bilevel/lmms_eval/models/videoxl2.py:343-362 | the call fails exactly on a negative count or a positive count over an empty or zero-rate video; otherwise there are exactly `k` indices in the video, non-decreasing, from 0 to the last frame, distinct when `k` fits and repeating when it does not, one timestamp each |
| `TimeTokens.EveryNthIndex` | Video-XL-2/eval/lvu/lmms_eval/models/videoxl.py:484 | `s[::n]` keeps `ceil(len / n)` elements, and element `j` is `s[j * n]` |
| `TimeTokens.KeptTimes` | Video-XL-2/eval/lvu/lmms_eval/models/videoxl.py:483-484 | `times[::4]` holds `token_frames_sum = (len(times) + 3) // 4` labels, label `j` being `times[4 * j]` |
| `TimeTokens.EmbeddingCounts` | Video-XL-2/eval/lvu/lmms_eval/models/videoxl.py:486-491 | the flattened embedding holds one block of placeholders per label on top of what the labels hold, and its length is the labels' length plus one block per label |
| `TimeTokens.TimeEmbeddingPlaceholders` | Video-XL-2/eval/lvu/lmms_eval/models/videoxl.py:483-491 | the embedding holds exactly `144 * token_frames_sum` placeholder ids if and only if no kept label tokenizes to the placeholder id |
| `TimeTokens.TimeEmbeddingLayout` | Video-XL-2/eval/lvu/lmms_eval/models/videoxl.py:486-491 | the pieces alternate: label of `times[4 * j]`, then 144 copies of `151654`, for each `j` |
| `TimeTokens.ImageLabels` | Video-XL-2/eval/lvu/lmms_eval/models/videoxl.py:481-484 | for `n` images the labels are `0.0, 4.0, 8.0, ...`, `(n + 3) // 4` of them |
| `PromptAssembly.QuestionShape` | Video-XL-2/eval/lvu/lmms_eval/models/videoxl.py:564-580 | the question is the bare context exactly when there is no visual tensor or the context already holds the marker; otherwise it is the marker line, a newline, then the context |
| `PromptAssembly.MarkerLineSplit` | Video-XL-2/eval/lvu/lmms_eval/models/videoxl.py:577 | a marker line of `k` space-free markers splits at spaces back into `k` markers |
| `PromptAssembly.MarkerLineCounts` | Video-XL-2/eval/lvu/lmms_eval/models/videoxl.py:575-577 | the marker line holds one marker per loaded frame under "multiple" and one marker otherwise; for an image list it counts one marker per image, the corrected count of "## Findings", not the code's `len(frames)` |
| `PromptAssembly.LoadFailureTextOnly` | Video-XL-2/eval/lvu/lmms_eval/models/videoxl.py:557-564 | a video whose load fails yields the bare context and no time tokens |
| `PromptAssembly.LoadedVideoTimeStamps` | Video-XL-2/eval/lvu/lmms_eval/models/videoxl.py:506-516 | a loaded video contributes one time embedding built from its timestamps, with `(len + 3) // 4` labels |
| `PromptAssembly.BestOptionIff` | Video-XL-2/eval/lvu/lmms_eval/models/videoxl.py:593-594 | the suffix is appended exactly when the question contains `"Information "`, and the question stays as its prefix |
| `PromptAssembly.AdaptersAgree` | Video-XL-2/eval/lvu/lmms_eval/models/videoxl.py:593-594 | with the corrected marker count, `videoxl.py` fails only on an empty visual list; `videoxl2.py` fails exactly on image lists and on a benchmark no unique-id rule matches; for a video under a matching benchmark the two hand the same question to the template exactly when it does not mention `"Information "` |
| `PromptAssembly.PromptOutcome` | Video-XL-2/eval/lvu/w_chunk_bilevel/lmms_eval/models/videoxl2.py:388-442 | with the corrected marker count, a prompt is built unless the visual list is empty or, for `videoxl2.py`, the first visual is an image (base name of a non-path) or the benchmark matches no rule (unbound `unique_id`); the error is the first one the code reaches |
| `PromptAssembly.PromptOutcomeAsWritten` | Video-XL-2/eval/lvu/lmms_eval/models/videoxl.py:469-612 | as the code is written, `videoxl.py` also fails on an image list under "multiple" that needs a marker line when no earlier video bound `frames`, and after an earlier video it gives the images that video's frame count of markers; in every other case the prompt equals the corrected one |
| `PromptAssembly.QuestionAsWrittenAgrees` | Video-XL-2/eval/lvu/lmms_eval/models/videoxl.py:564-580 | the assembly as written equals the corrected one for videos, for any strategy but "multiple", and whenever no marker line is added |
| `PromptAssembly.ImageMarkersAsWritten` | Video-XL-2/eval/lvu/lmms_eval/models/videoxl.py:575 | an image request under "multiple" fails on the unbound `frames` when no video came before it, and otherwise gets the earlier video's frame count of markers |
| `PromptAssembly.ImageMarkersCorrected` | Video-XL-2/eval/lvu/lmms_eval/models/videoxl.py:572-577 | with the corrected count, an image request under "multiple" gets exactly one marker per image |
| `PromptAssembly.AttentionMask` | Video-XL-2/eval/lvu/lmms_eval/models/videoxl.py:620 | the mask has the batch's shape and is true exactly where the id differs from the pad id |
| `PromptAssembly.RightPaddedMask` | Video-XL-2/eval/lvu/lmms_eval/models/videoxl.py:617-620 | in a right-padded batch whose prompts hold no pad id, row `i` of the mask is true exactly on its first `len(row i)` positions |
| `PromptAssembly.LeftPaddedMask` | Video-XL-2/eval/lvu/lmms_eval/models/videoxl.py:617-620 | in a left-padded batch whose prompts hold no pad id, row `i` of the mask is true exactly on its last `len(row i)` positions |
| `PromptAssembly.AttentionMaskRight` | Video-XL-2/eval/lvu/lmms_eval/models/videoxl.py:616-620 | with `pad_token_id`, or the end-of-sequence id when there is none, as the pad, right padding then masking marks exactly each prompt's own tokens, at the front of its row |
| `PromptAssembly.AttentionMaskLeft` | Video-XL-2/eval/lvu/lmms_eval/models/videoxl.py:616-620 | with `pad_token_id`, or the end-of-sequence id when there is none, as the pad, left padding then masking marks exactly each prompt's own tokens, at the end of its row |
| `SeqUtils.Flatten` | Video-XL-2/eval/lvu/lmms_eval/models/videoxl.py:259-264 | the loop returns the in-order concatenation of the sublists, whose length is the sum of theirs |
| `SeqUtils.ConcatAppend` | Video-XL-2/eval/lvu/lmms_eval/models/videoxl.py:259-264 | flattening distributes over appending lists of sublists |
| `SeqUtils.PadRows` | Video-XL-2/eval/lvu/lmms_eval/models/videoxl.py:213 | padding fails exactly on an empty batch; otherwise every row is lengthened to the longest, keeping its prefix and filling with the pad value |
| `SeqUtils.PadSequenceRight` | Video-XL-2/eval/lvu/lmms_eval/models/videoxl.py:210-215 | right padding: each row is a prefix of its output row of maximal length, followed only by pad values |
| `SeqUtils.PadSequenceLeft` | Video-XL-2/eval/lvu/lmms_eval/models/videoxl.py:210-215 | left padding by flip, pad, flip: each row is a suffix of its output row of maximal length, preceded only by pad values |
| `SeqUtils.PadSequenceBySide` | Video-XL-2/eval/lvu/lmms_eval/models/videoxl.py:210-215 | `padding_side == "left"` gives left-padded rows and any other value right-padded rows; an empty batch fails either way |
| `SeqUtils.FlipPadFlip` | Video-XL-2/eval/lvu/lmms_eval/models/videoxl.py:211-215 | reversing right-padded reversed rows gives left-padded rows |
| `SeqUtils.LeftTruncate` | Video-XL-2/eval/lvu/lmms_eval/models/videoxl.py:248-249 | `None` or 0 keeps the encoding; a positive limit keeps its last `min(len, limit)` tokens; a negative one drops its first tokens |
| `SeqUtils.TokEncode` | Video-XL-2/eval/lvu/lmms_eval/models/videoxl.py:243-250 | the result is a suffix of the tokenizer's encoding, no longer than a positive truncation length |
| `Selection.MappingDictKeys` | Video-XL-2/eval/lvu/w_chunk_bilevel/lmms_eval/models/videoxl2.py:190-200 | a unique id is in the merged table exactly when some category that is not `None` lists it |
| `Selection.MappingDictLastWriter` | Video-XL-2/eval/lvu/w_chunk_bilevel/lmms_eval/models/videoxl2.py:193-198 | a unique id's entry is its indices and config from the last category that lists it |
| `Selection.BasenameOf` | Video-XL-2/eval/lvu/w_chunk_bilevel/lmms_eval/models/videoxl2.py:390 | the base name is a suffix of the path free of `/`, preceded by `/` when shorter than the path |
| `Selection.BasenameJoin` | Video-XL-2/eval/lvu/w_chunk_bilevel/lmms_eval/models/videoxl2.py:390 | the base name of `dir + "/" + name` is `name` when `name` has no `/` |
| `Selection.BenchmarkNameShape` | Video-XL-2/eval/lvu/w_chunk_bilevel/lmms_eval/models/videoxl2.py:90 | the benchmark name is the prefix of the file's base name up to its first `".json"` |
| `Selection.RuleOfOrder` | Video-XL-2/eval/lvu/w_chunk_bilevel/lmms_eval/models/videoxl2.py:392-403 | the unique-id rule is the first branch whose name occurs in the benchmark, with "videomme" before "mlvu" before "vnbench"/"longvideobench" before "lvbench"; no branch leaves no rule |
| `Selection.VideoMmeKeyShape` | Video-XL-2/eval/lvu/w_chunk_bilevel/lmms_eval/models/videoxl2.py:394-397 | the Video-MME question key is free of `"\n["` with subtitles and free of `"option.\n"` without |
| `Selection.OptionsKeyShape` | Video-XL-2/eval/lvu/w_chunk_bilevel/lmms_eval/models/videoxl2.py:400-403 | for vnbench, longvideobench and lvbench the question key is the text before the first `"\nA."` |
| `Selection.VideoKeyShape` | Video-XL-2/eval/lvu/w_chunk_bilevel/lmms_eval/models/videoxl2.py:398-403 | the video key is the whole base name, except for lvbench, where it is the name before the first `".mp4"` |
| `Selection.SelectedUnitIndicesLookup` | Video-XL-2/eval/lvu/w_chunk_bilevel/lmms_eval/models/videoxl2.py:388-411 | the lookup fails exactly when no branch matches, and otherwise returns the stored pair exactly when the unique id is a key and `(None, None)` when it is not |
| `Selection.SelectedFromFile` | Video-XL-2/eval/lvu/w_chunk_bilevel/lmms_eval/models/videoxl2.py:405-411 | against the table of the selection file, a request gets the entry of the last category listing its id, and nothing when none lists it |
| `PyStr.ContainsIff` | Video-XL-2/eval/lvu/lmms_eval/models/videoxl.py:593 | `pat in s` holds exactly when `pat` occurs at some position of `s` |
| `PyStr.SplitJoin` | Video-XL-2/eval/lvu/lmms_eval/models/videoxl.py:577 | joining parts free of a one-character separator and splitting again gives back the parts |
| `PyStr.JoinSplit` | Video-XL-2/eval/lvu/w_chunk_bilevel/lmms_eval/models/videoxl2.py:393 | splitting and re-joining with the same separator gives back the string |
| `PyStr.SplitHeadPrefix` | Video-XL-2/eval/lvu/w_chunk_bilevel/lmms_eval/models/videoxl2.py:401 | `s.split(sep)[0]` is the longest prefix of `s` free of `sep`, followed by `sep` when `sep` occurs |
| `PyStr.SplitLastSuffix` | Video-XL-2/eval/lvu/w_chunk_bilevel/lmms_eval/models/videoxl2.py:395 | `s.split(sep)[-1]` is a suffix of `s` free of `sep`, preceded by `sep` when `sep` occurs, and all of `s` otherwise |
| `PyStr.SplitLastIsLastPart` | Video-XL-2/eval/lvu/w_chunk_bilevel/lmms_eval/models/videoxl2.py:395 | the last part computed directly is the last element of `split` |
| `PyStr.ReplaceIsJoinOfSplit` | Video-XL-2/eval/lvu/lmms_eval/models/videoxl.py:409 | `s.replace(old, new)` is `new.join(s.split(old))` |
| `PyStr.ReplaceLength` | Video-XL-2/eval/lvu/lmms_eval/models/videoxl.py:409 | replacing a text by one at least as long never shortens the string |
| `PyStr.StripShape` | Video-XL-2/eval/lvu/w_chunk_bilevel/lmms_eval/models/videoxl2.py:399 | `strip()` returns the middle of the text, with no whitespace at either end and only whitespace cut away around it |

## Left out

- Video decoding and the filesystem are left out: `decord`, the `cv2` frame count (`video_len`), `read_video_pyav`, and `load_video_imgs`. A video is its frame count and its average rate. The other decoding backends of the video branch are not modelled.
- Float arithmetic is left out: `round(fps_avg / rate)` and `round(idx / fps_avg, 1)` are opaque functions.
- `FrameSampler.Linspace`: `np.linspace(..., dtype=int)` is computed in floating point and truncated; the model uses exact integer division `i * last / (k - 1)`. The two can differ by rounding.
- `TimeRewrite.ParseInt`: Python `int()` also accepts signs, surrounding whitespace and underscores. The model accepts digit strings only, which is all the `\d{2}` matches can hold.
- `\d` is taken as the ASCII digits. Python's `str` patterns also match other Unicode decimal digits.
- `PyStr.SplitLast`: `split(sep)[-1]` is modelled by the left-to-right scan `split` performs, not by a search for the last occurrence. The two differ only for separators that overlap themselves.
- The tokenizer, `tokenizer_image_token`, the conversation templates and the value of `DEFAULT_IMAGE_TOKEN` are opaque. The marker is any non-empty text, and some lemmas also require it to be free of spaces.
- `PromptAssembly.Prompt` is described by `PromptAssembly.PromptOutcome` only as far as success and the error go. The prompt text itself goes through the opaque template, so the model proves only its pieces: the marker assembly, the best-option suffix and the time rewrite.
- `utils.Collator` batching and reordering, `model.generate`, `loglikelihood`, model loading, accelerator and distributed setup are left out. They are framework glue or calls into the model.
- Tensor dtype and device moves, progress bars and logging are left out.
- The first `load_video_uniform` in `videoxl2.py` (lines 284-303) is shadowed by the second definition and is not modelled separately. It computes the same indices as `videoxl.py:266-285`.
- `ImageList(n)` is one count standing for two values: `len(image_tensor)`, returned by the opaque `process_images_mvbench` and used for the time labels (`videoxl.py:475-481`), and `len(visual)`, used by the corrected marker count (`videoxl.py:573`). The model assumes the two are equal.
- The image branch of `videoxl2.py` (lines 461-485) and its marker line 527 are not modelled separately: line 442 raises on an image before they are reached, and that failure is what the model records.
- `PromptAssembly.PromptOutcome`: states the failures under the corrected marker count, not under the `len(frames)` of `videoxl.py:575`. Under the code's count an image list under "multiple" with no marker in the context also fails when `frames` is unbound. `PromptAssembly.PromptOutcomeAsWritten` states that behaviour.
- `PromptAssembly.AdaptersAgree`: compares the adapters under the corrected marker count. `videoxl.py` as written also fails on the unbound `frames` at line 575, as `PromptAssembly.PromptOutcomeAsWritten` states.
- `PromptAssembly.MarkerLineCounts`: gives an image list one marker per image, the corrected count. The code at `videoxl.py:575` counts `len(frames)`, which is unbound or left over from an earlier video (`PromptAssembly.ImageMarkersAsWritten`).
- A `preprocess` failure after a successful decord load (`videoxl.py:555`) is not modelled. The code then sets `image_tensor` to `None` but keeps the time embedding appended at line 519, so `generate` gets a time embedding and no images. In the model a loaded video always yields a visual tensor.
- The marker arm for `task_type == "image"` is not modelled. It is dead code, because both visual branches set `task_type = "video"`.

## Findings

| source | as written | input that shows it | evidently intended | confidence | as-written member | corrected member |
|---|---|---|---|---|---|---|
| Video-XL-2/eval/lvu/lmms_eval/models/videoxl.py:575 | the image branch sets `task_type = "video"` (line 497), so its marker count under the "multiple" strategy is `len(frames)`, but only the video branch binds `frames` | the first request of a `generate_until` call is a list of `n` images, `token_strategy` is "multiple" and the context holds no marker: `frames` is unbound and the call raises; after an earlier video request the images get that video's frame count of markers instead of `n` | one marker per image, as the dead `task_type == "image"` arm computes | not executed | `PromptAssembly.ImageMarkersAsWritten` | `PromptAssembly.ImageMarkersCorrected` |
