/** `convert_time_in_prompt`: every `mm:ss` time in a prompt (regular
    expression `\d{2}:\d{2}`) is rewritten as "<seconds> seconds". The
    adapters first collect the matches with `findall` and then apply one
    `str.replace` per match to the whole prompt, one after another, so the
    rewrite is not a single left-to-right pass. */
module TimeRewrite {
  import opened Outcomes
  import opened PyStr

  /** `\d`, restricted to the ASCII digits. */
  predicate IsDigit(c: char)
  {
    '0' <= c <= '9'
  }

  predicate AllDigits(s: string)
  {
    forall k :: 0 <= k < |s| ==> IsDigit(s[k])
  }

  /** `\d{2}:\d{2}` matches `s` at index `i`. */
  predicate MatchAt(s: string, i: int)
  {
    && 0 <= i && i + 5 <= |s|
    && IsDigit(s[i]) && IsDigit(s[i + 1]) && s[i + 2] == ':'
    && IsDigit(s[i + 3]) && IsDigit(s[i + 4])
  }

  /** A complete `mm:ss` text such as `findall` returns. */
  predicate IsTimeText(t: string)
  {
    |t| == 5 && MatchAt(t, 0)
  }

  /** `re.findall(r'(\d{2}:\d{2})', s)`: the matches found scanning left to
      right, resuming after each match. */
  function FindAll(s: string): (r: seq<string>)
    ensures forall j :: 0 <= j < |r| ==> IsTimeText(r[j])
    decreases |s|
  {
    if |s| < 5 then []
    else if MatchAt(s, 0) then [s[..5]] + FindAll(s[5..])
    else FindAll(s[1..])
  }

  /** A match in `s[1..]` is a match in `s` one place later, and back. */
  lemma MatchShift(s: string, i: int)
    requires |s| > 0 && 0 <= i
    ensures MatchAt(s[1..], i) <==> MatchAt(s, i + 1)
  {
  }

  /** `findall` finds nothing exactly when the pattern matches nowhere. */
  lemma {:induction false} FindAllEmptyIff(s: string)
    ensures FindAll(s) == [] <==> forall i :: !MatchAt(s, i)
    decreases |s|
  {
    if |s| >= 5 && !MatchAt(s, 0) {
      FindAllEmptyIff(s[1..]);
      forall i | 0 <= i
        ensures MatchAt(s[1..], i) <==> MatchAt(s, i + 1)
      {
        MatchShift(s, i);
      }
      if exists i :: MatchAt(s, i) {
        var i :| MatchAt(s, i);
        assert MatchAt(s[1..], i - 1);
      }
    }
  }

  /** The first match `findall` reports is the leftmost one, and it occurs
      in `s`. */
  lemma {:induction false} FindAllFirst(s: string)
    requires FindAll(s) != []
    ensures exists i :: (MatchAt(s, i) && OccursAt(s, FindAll(s)[0], i)
      && forall j :: 0 <= j < i ==> !MatchAt(s, j))
    decreases |s|
  {
    if MatchAt(s, 0) {
      assert OccursAt(s, FindAll(s)[0], 0);
    } else {
      var t := s[1..];
      FindAllFirst(t);
      var i :| MatchAt(t, i) && OccursAt(t, FindAll(t)[0], i)
        && forall j :: 0 <= j < i ==> !MatchAt(t, j);
      MatchShift(s, i);
      assert s[i + 1..i + 6] == t[i..i + 5];
      forall j | 0 <= j < i + 1
        ensures !MatchAt(s, j)
      {
        if j > 0 {
          MatchShift(s, j - 1);
        }
      }
      assert OccursAt(s, FindAll(s)[0], i + 1);
    }
  }

  /** The value of a non-empty string of decimal digits. */
  function DigitsValue(s: string): nat
    requires AllDigits(s)
  {
    if |s| == 0 then 0
    else 10 * DigitsValue(s[..|s| - 1]) + ((s[|s| - 1] as int) - ('0' as int))
  }

  /** `int(t)` for the texts that reach it here: a non-empty run of digits;
      anything else is a `ValueError`, written `None`. */
  function ParseInt(t: string): (r: Option<nat>)
    ensures r.Some? <==> |t| > 0 && AllDigits(t)
  {
    if |t| > 0 && AllDigits(t) then Some(DigitsValue(t)) else None
  }

  /** `mmss_to_seconds`: split at ':' into exactly two integers and combine
      them as minutes and seconds; any other shape raises. */
  function MmssToSeconds(t: string): Option<int>
  {
    var parts := Split(t, ":");
    if |parts| != 2 then None
    else
      match (ParseInt(parts[0]), ParseInt(parts[1]))
      case (Some(m), Some(sec)) => Some(m * 60 + sec)
      case _ => None
  }

  /** The seconds a matched `mm:ss` text stands for. */
  function SecondsOf(t: string): (n: nat)
    requires IsTimeText(t)
    ensures n <= 99 * 60 + 99
  {
    TwoDigits(t[..2]);
    TwoDigits(t[3..]);
    60 * DigitsValue(t[..2]) + DigitsValue(t[3..])
  }

  /** Two digits read as a number below 100. */
  lemma TwoDigits(s: string)
    requires |s| == 2 && AllDigits(s)
    ensures DigitsValue(s) == 10 * ((s[0] as int) - ('0' as int)) + ((s[1] as int) - ('0' as int)) <= 99
  {
    var h := s[..1];
    assert h[..0] == [];
    assert DigitsValue(h) == (s[0] as int) - ('0' as int);
  }

  /** On every text `findall` can return, `mmss_to_seconds` succeeds and
      reads the two digit pairs as minutes and seconds. */
  lemma MmssOfTimeText(t: string)
    requires IsTimeText(t)
    ensures MmssToSeconds(t) == Some(SecondsOf(t))
  {
    assert OccursAt(t, ":", 2);
    assert !OccursAt(t, ":", 0) && !OccursAt(t, ":", 1);
    assert Find(t, ":") == Some(2);
    SplitStep(t, ":");
    var rest := t[3..];
    assert forall j :: !OccursAt(rest, ":", j);
    assert Find(rest, ":") == None;
    SplitStep(rest, ":");
    assert Split(t, ":") == [t[..2], t[3..]];
  }

  /** `str(n)` for a natural number. */
  function Decimal(n: nat): (r: string)
    ensures |r| >= 1 && AllDigits(r)
    ensures |r| > 1 ==> r[0] != '0'
  {
    var d := [(('0' as int) + n % 10) as char];
    if n < 10 then d else Decimal(n / 10) + d
  }

  /** Reading `str(n)` back gives `n`. */
  lemma {:induction false} DecimalValue(n: nat)
    ensures DigitsValue(Decimal(n)) == n
  {
    if n >= 10 {
      DecimalValue(n / 10);
      var r := Decimal(n);
      assert r[..|r| - 1] == Decimal(n / 10);
    }
  }

  /** A digit string with no leading zero is `str` of its value. */
  lemma {:induction false} DecimalOfDigits(s: string)
    requires |s| >= 1 && AllDigits(s)
    requires |s| > 1 ==> s[0] != '0'
    ensures Decimal(DigitsValue(s)) == s
    decreases |s|
  {
    var init := s[..|s| - 1];
    if |s| > 1 {
      assert init[0] == s[0];
      DecimalOfDigits(init);
      DigitsValuePositive(init);
      assert s == init + [s[|s| - 1]];
    }
  }

  /** A digit string that does not start with '0' has a positive value. */
  lemma {:induction false} DigitsValuePositive(s: string)
    requires |s| >= 1 && AllDigits(s) && s[0] != '0'
    ensures DigitsValue(s) >= 1
    decreases |s|
  {
    if |s| > 1 {
      var init := s[..|s| - 1];
      assert init[0] == s[0];
      DigitsValuePositive(init);
    }
  }

  /** The text a matched time is replaced with: `f"{seconds} seconds"`. */
  function Label(t: string): (r: string)
    requires IsTimeText(t)
    ensures |r| > |t|
  {
    Decimal(SecondsOf(t)) + " seconds"
  }

  /** The replacement loop: each matched text in turn is replaced, all its
      occurrences at once, in the prompt as rewritten so far. */
  function ApplyReplacements(s: string, times: seq<string>): string
    requires forall j :: 0 <= j < |times| ==> IsTimeText(times[j])
    decreases |times|
  {
    if |times| == 0 then s
    else ApplyReplacements(Replace(s, times[0], Label(times[0])), times[1..])
  }

  /** The rewrite of one prompt. */
  function ConvertPrompt(p: string): string
  {
    ApplyReplacements(p, FindAll(p))
  }

  /** `convert_time_in_prompt`: every prompt of the list rewritten, in order. */
  method ConvertTimeInPrompt(prompts: seq<string>) returns (res: seq<string>)
    ensures |res| == |prompts|
    ensures forall i :: 0 <= i < |prompts| ==> res[i] == ConvertPrompt(prompts[i])
  {
    res := [];
    for i := 0 to |prompts|
      invariant |res| == i
      invariant forall k :: 0 <= k < i ==> res[k] == ConvertPrompt(prompts[k])
    {
      res := res + [ConvertPrompt(prompts[i])];
    }
  }

  /** The replacements never shorten the prompt, and they lengthen it once
      the first replaced text occurs in it. */
  lemma {:induction false} ApplyReplacementsLength(s: string, times: seq<string>)
    requires forall j :: 0 <= j < |times| ==> IsTimeText(times[j])
    ensures |ApplyReplacements(s, times)| >= |s|
    ensures |times| > 0 && Contains(s, times[0]) ==> |ApplyReplacements(s, times)| > |s|
    decreases |times|
  {
    if |times| > 0 {
      var next := Replace(s, times[0], Label(times[0]));
      ReplaceLength(s, times[0], Label(times[0]));
      ApplyReplacementsLength(next, times[1..]);
    }
  }

  /** A prompt is left unchanged exactly when it holds no `mm:ss` time. */
  lemma ConvertPromptUnchangedIff(p: string)
    ensures ConvertPrompt(p) == p <==> forall i :: !MatchAt(p, i)
  {
    FindAllEmptyIff(p);
    var times := FindAll(p);
    if times != [] {
      FindAllFirst(p);
      ContainsIff(p, times[0]);
      ApplyReplacementsLength(p, times);
    }
  }

  /** No match before index `k`: `findall` starts scanning at `k`. */
  lemma {:induction false} FindAllSkip(s: string, k: nat)
    requires k <= |s|
    requires forall j :: 0 <= j < k ==> !MatchAt(s, j)
    ensures FindAll(s) == FindAll(s[k..])
  {
    if k > 0 {
      MatchShift(s, 0);
      forall j | 0 <= j < k - 1
        ensures !MatchAt(s[1..], j)
      {
        MatchShift(s, j);
      }
      FindAllSkip(s[1..], k - 1);
      assert s[1..][k - 1..] == s[k..];
    }
  }

  /** `s` holds no colon, so no `mm:ss` time can sit inside it. */
  predicate NoColon(s: string)
  {
    forall k :: 0 <= k < |s| ==> s[k] != ':'
  }

  /** Neither of the first two characters of `s` is a colon. */
  predicate HeadNoColon(s: string)
  {
    forall k :: 0 <= k < 2 && k < |s| ==> s[k] != ':'
  }

  /** A piece of prompt text whose only colons are those of a whole time. */
  predicate Piece(x: string)
  {
    NoColon(x) || IsTimeText(x)
  }

  /** `gaps[0] + items[0] + gaps[1] + ... + items[n-1] + gaps[n]`. */
  function Interleave(gaps: seq<string>, items: seq<string>): string
    requires |gaps| == |items| + 1
  {
    if |items| == 0 then gaps[0]
    else gaps[0] + (items[0] + Interleave(gaps[1..], items[1..]))
  }

  /** The intended rewrite: every item replaced by its own label. */
  function Labels(items: seq<string>): (r: seq<string>)
    requires forall i :: 0 <= i < |items| ==> IsTimeText(items[i])
    ensures |r| == |items|
    ensures forall i :: 0 <= i < |items| ==> r[i] == Label(items[i])
  {
    if |items| == 0 then [] else [Label(items[0])] + Labels(items[1..])
  }

  lemma LabelNoColon(t: string)
    requires IsTimeText(t)
    ensures NoColon(Label(t))
  {
  }

  lemma {:induction false} InterleaveHead(gaps: seq<string>, xs: seq<string>)
    requires |gaps| == |xs| + 1
    requires forall i :: 0 <= i < |gaps| ==> NoColon(gaps[i])
    requires forall i :: 0 <= i < |xs| ==> Piece(xs[i])
    ensures HeadNoColon(Interleave(gaps, xs))
  {
    if |xs| > 0 {
      InterleaveHead(gaps[1..], xs[1..]);
      HeadAppend(xs[0], Interleave(gaps[1..], xs[1..]));
      HeadAppend(gaps[0], xs[0] + Interleave(gaps[1..], xs[1..]));
    }
  }

  lemma HeadAppend(x: string, rest: string)
    requires Piece(x) && HeadNoColon(rest)
    ensures HeadNoColon(x + rest)
  {
    forall k | 0 <= k < 2 && k < |x + rest|
      ensures (x + rest)[k] != ':'
    {
      if k >= |x| {
        assert (x + rest)[k] == rest[k - |x|];
      }
    }
  }

  /** A piece other than `t`, followed by text that does not start near a
      colon, holds no occurrence of `t` and no match of the pattern
      beginning inside it. */
  lemma PieceNoOccurrence(x: string, rest: string, t: string)
    requires Piece(x) && HeadNoColon(rest) && IsTimeText(t) && x != t
    ensures forall j :: 0 <= j < |x| ==> !OccursAt(x + rest, t, j)
    ensures NoColon(x) ==> forall j :: 0 <= j < |x| ==> !MatchAt(x + rest, j)
  {
    var s := x + rest;
    forall j | 0 <= j < |x|
      ensures !OccursAt(s, t, j)
      ensures NoColon(x) ==> !MatchAt(s, j)
    {
      if j + 5 <= |s| {
        assert s[j..j + 5][2] == s[j + 2];
        if j + 2 >= |x| {
          assert s[j + 2] == rest[j + 2 - |x|];
        } else if j == 0 && IsTimeText(x) {
          assert s[..5] == x;
        }
      }
    }
  }

  /** Replacing a piece that is not `t` copies it. */
  lemma ReplacePastPiece(x: string, rest: string, t: string, r: string)
    requires Piece(x) && HeadNoColon(rest) && IsTimeText(t) && x != t
    ensures Replace(x + rest, t, r) == x + Replace(rest, t, r)
  {
    PieceNoOccurrence(x, rest, t);
    ReplaceSkip(x + rest, t, r, |x|);
    assert (x + rest)[..|x|] == x && (x + rest)[|x|..] == rest;
  }

  /** Every item equal to `t` swapped for `r`. */
  function Swap(xs: seq<string>, t: string, r: string): (ys: seq<string>)
    ensures |ys| == |xs|
    ensures forall i :: 0 <= i < |xs| ==> ys[i] == if xs[i] == t then r else xs[i]
  {
    if |xs| == 0 then [] else [if xs[0] == t then r else xs[0]] + Swap(xs[1..], t, r)
  }

  /** `replace` on interleaved text replaces exactly the items equal to `t`:
      the colon-free gaps and labels never form a new occurrence. */
  lemma {:induction false} ReplaceInterleave(gaps: seq<string>, xs: seq<string>, t: string, r: string)
    requires |gaps| == |xs| + 1
    requires forall i :: 0 <= i < |gaps| ==> NoColon(gaps[i])
    requires forall i :: 0 <= i < |xs| ==> Piece(xs[i])
    requires IsTimeText(t)
    ensures Replace(Interleave(gaps, xs), t, r) == Interleave(gaps, Swap(xs, t, r))
  {
    var g := gaps[0];
    if |xs| == 0 {
      ReplacePastPiece(g, "", t, r);
      assert g + "" == g;
    } else {
      var x := xs[0];
      var rest := Interleave(gaps[1..], xs[1..]);
      InterleaveHead(gaps[1..], xs[1..]);
      HeadAppend(x, rest);
      ReplacePastPiece(g, x + rest, t, r);
      ReplaceInterleave(gaps[1..], xs[1..], t, r);
      if x == t {
        assert (x + rest)[..|t|] == t && (x + rest)[|t|..] == rest;
      } else {
        ReplacePastPiece(x, rest, t, r);
      }
      assert Swap(xs, t, r)[1..] == Swap(xs[1..], t, r);
    }
  }

  /** `findall` on interleaved text finds exactly the items. */
  lemma {:induction false} FindAllInterleave(gaps: seq<string>, items: seq<string>)
    requires |gaps| == |items| + 1
    requires forall i :: 0 <= i < |gaps| ==> NoColon(gaps[i])
    requires forall i :: 0 <= i < |items| ==> IsTimeText(items[i])
    ensures FindAll(Interleave(gaps, items)) == items
  {
    var g := gaps[0];
    if |items| == 0 {
      PieceNoOccurrence(g, "", "00:00");
      assert g + "" == g;
      FindAllSkip(g, |g|);
    } else {
      var x := items[0];
      var rest := Interleave(gaps[1..], items[1..]);
      InterleaveHead(gaps[1..], items[1..]);
      HeadAppend(x, rest);
      PieceNoOccurrence(g, x + rest, "00:00");
      FindAllSkip(g + (x + rest), |g|);
      assert (g + (x + rest))[|g|..] == x + rest;
      assert (x + rest)[..5] == x && (x + rest)[5..] == rest;
      FindAllInterleave(gaps[1..], items[1..]);
    }
  }

  /** Each item that is a time, replaced by its label. */
  function Relabel(xs: seq<string>): (ys: seq<string>)
    ensures |ys| == |xs|
    ensures forall i :: 0 <= i < |xs| ==> ys[i] == if IsTimeText(xs[i]) then Label(xs[i]) else xs[i]
  {
    if |xs| == 0 then []
    else [if IsTimeText(xs[0]) then Label(xs[0]) else xs[0]] + Relabel(xs[1..])
  }

  /** The replacement loop over a list of times that includes every time
      among the items labels each of them. */
  lemma {:induction false} ApplyInterleave(gaps: seq<string>, xs: seq<string>, ts: seq<string>)
    requires |gaps| == |xs| + 1
    requires forall i :: 0 <= i < |gaps| ==> NoColon(gaps[i])
    requires forall i :: 0 <= i < |xs| ==> Piece(xs[i])
    requires forall j :: 0 <= j < |ts| ==> IsTimeText(ts[j])
    requires forall i :: 0 <= i < |xs| && IsTimeText(xs[i]) ==> xs[i] in ts
    ensures ApplyReplacements(Interleave(gaps, xs), ts) == Interleave(gaps, Relabel(xs))
    decreases |ts|
  {
    if |ts| == 0 {
      assert Relabel(xs) == xs;
    } else {
      var t := ts[0];
      var lbl := Label(t);
      var ys := Swap(xs, t, lbl);
      ReplaceInterleave(gaps, xs, t, lbl);
      LabelNoColon(t);
      SwapKeepsPremises(xs, ts, lbl, ys);
      ApplyInterleave(gaps, ys, ts[1..]);
    }
  }

  /** After the first time of `ts` is swapped for its colon-free label, the
      items are still pieces, every time among them is in the rest of `ts`,
      and relabelling them gives what relabelling the originals gives. */
  lemma {:induction false} SwapKeepsPremises(xs: seq<string>, ts: seq<string>, lbl: string, ys: seq<string>)
    requires |ts| > 0
    requires forall i :: 0 <= i < |xs| ==> Piece(xs[i])
    requires forall i :: 0 <= i < |xs| && IsTimeText(xs[i]) ==> xs[i] in ts
    requires IsTimeText(ts[0]) && NoColon(lbl) && lbl == Label(ts[0])
    requires ys == Swap(xs, ts[0], lbl)
    ensures forall i :: 0 <= i < |ys| ==> Piece(ys[i])
    ensures forall i :: 0 <= i < |ys| && IsTimeText(ys[i]) ==> ys[i] in ts[1..]
    ensures Relabel(ys) == Relabel(xs)
  {
    NoColonNotTime(lbl);
    SwapLeavesTimes(xs, ts, lbl, ys);
    SwapRelabel(xs, ts[0], lbl, ys);
  }

  /** Colon-free text is never a time. */
  lemma {:induction false} NoColonNotTime(s: string)
    requires NoColon(s)
    ensures !IsTimeText(s)
  {
    if |s| >= 3 {
      assert s[2] != ':';
    }
  }

  lemma {:induction false} SwapLeavesTimes(xs: seq<string>, ts: seq<string>, lbl: string, ys: seq<string>)
    requires |ts| > 0
    requires forall i :: 0 <= i < |xs| ==> Piece(xs[i])
    requires forall i :: 0 <= i < |xs| && IsTimeText(xs[i]) ==> xs[i] in ts
    requires NoColon(lbl) && !IsTimeText(lbl)
    requires ys == Swap(xs, ts[0], lbl)
    ensures forall i :: 0 <= i < |ys| ==> Piece(ys[i])
    ensures forall i :: 0 <= i < |ys| && IsTimeText(ys[i]) ==> ys[i] in ts[1..]
  {
    forall i | 0 <= i < |ys| && IsTimeText(ys[i])
      ensures ys[i] in ts[1..]
    {
      assert ys[i] == xs[i] && xs[i] != ts[0];
    }
  }

  lemma {:induction false} SwapRelabel(xs: seq<string>, t: string, lbl: string, ys: seq<string>)
    requires IsTimeText(t) && lbl == Label(t) && !IsTimeText(lbl)
    requires ys == Swap(xs, t, lbl)
    ensures Relabel(ys) == Relabel(xs)
  {
    forall i | 0 <= i < |xs|
      ensures Relabel(ys)[i] == Relabel(xs)[i]
    {
      if xs[i] == t {
        assert ys[i] == lbl;
      }
    }
  }

  /** When the times of a prompt are separated by colon-free text, the
      rewrite is the intended one: each time, and nothing else, is replaced
      by its label. */
  lemma ConvertInterleaved(gaps: seq<string>, items: seq<string>)
    requires |gaps| == |items| + 1
    requires forall i :: 0 <= i < |gaps| ==> NoColon(gaps[i])
    requires forall i :: 0 <= i < |items| ==> IsTimeText(items[i])
    ensures ConvertPrompt(Interleave(gaps, items)) == Interleave(gaps, Labels(items))
  {
    FindAllInterleave(gaps, items);
    ApplyInterleave(gaps, items, items);
    assert Relabel(items) == Labels(items);
  }

  lemma LabelOf0205()
    ensures Label("02:05") == "125 seconds"
  {
    TwoDigits("02:05"[..2]);
    TwoDigits("02:05"[3..]);
    assert Decimal(125) == "125";
  }

  lemma LabelOf1030()
    ensures Label("10:30") == "630 seconds"
  {
    TwoDigits("10:30"[..2]);
    TwoDigits("10:30"[3..]);
    assert Decimal(630) == "630";
  }

  lemma EventPromptText()
    ensures Interleave(["Event at ", " and ", ""], ["02:05", "10:30"]) == "Event at 02:05 and 10:30"
  {
    assert "Event at " + ("02:05" + (" and " + ("10:30" + ""))) == "Event at 02:05 and 10:30";
  }

  lemma EventResultText()
    ensures Interleave(["Event at ", " and ", ""], ["125 seconds", "630 seconds"])
      == "Event at 125 seconds and 630 seconds"
  {
    assert "Event at " + ("125 seconds" + (" and " + ("630 seconds" + "")))
      == "Event at 125 seconds and 630 seconds";
  }

  /** "Event at 02:05 and 10:30" becomes "Event at 125 seconds and 630 seconds". */
  lemma EventExample()
    ensures ConvertPrompt("Event at 02:05 and 10:30") == "Event at 125 seconds and 630 seconds"
  {
    var gaps := ["Event at ", " and ", ""];
    var items := ["02:05", "10:30"];
    assert NoColon(gaps[0]) && NoColon(gaps[1]) && NoColon(gaps[2]);
    ConvertInterleaved(gaps, items);
    LabelOf0205();
    LabelOf1030();
    assert Labels(items) == ["125 seconds", "630 seconds"];
    EventPromptText();
    EventResultText();
  }

  lemma LabelOf1234()
    ensures Label("12:34") == "754 seconds"
  {
    TwoDigits("12:34"[..2]);
    TwoDigits("12:34"[3..]);
    assert Decimal(754) == "754";
  }

  lemma RepeatFindAll()
    ensures FindAll("12:34" + (" 34:" + "12:34")) == ["12:34", "34:12"]
  {
    var p := "12:34" + (" 34:" + "12:34");
    var u := p[5..];
    assert MatchAt(p, 0) && p[..5] == "12:34" && u == " 34:12:34";
    assert !MatchAt(u, 0);
    FindAllSkip(u, 1);
    var v := u[1..];
    assert MatchAt(v, 0) && v[..5] == "34:12" && v[5..] == ":34";
  }

  /** An occurrence at the front is replaced and the scan resumes after it. */
  lemma ReplaceHead(t: string, rest: string, r: string)
    requires |t| > 0
    ensures Replace(t + rest, t, r) == r + Replace(rest, t, r)
  {
    assert (t + rest)[..|t|] == t && (t + rest)[|t|..] == rest;
  }

  /** A text repeated after a gap in which it does not start is replaced
      both times. */
  lemma ReplaceTwice(t: string, a: string, l: string)
    requires |t| > 0
    requires forall j :: 0 <= j < |a| ==> a[j] != t[0]
    ensures Replace(t + (a + t), t, l) == l + (a + l)
  {
    ReplaceHead(t, a + t, l);
    forall j | 0 <= j < |a|
      ensures !OccursAt(a + t, t, j)
    {
      assert (a + t)[j..j + |t|][0] == (a + t)[j];
    }
    ReplaceSkip(a + t, t, l, |a|);
    assert (a + t)[..|a|] == a && (a + t)[|a|..] == t + "";
    ReplaceHead(t, "", l);
    assert l + "" == l;
  }

  /** A prompt holding time `t`, then a gap, then `t` again, where
      `findall` also reports a second time `u` that is gone once `t` is
      replaced: both copies of `t` are labelled and nothing else changes. */
  lemma ConvertRepeated(t: string, a: string, u: string)
    requires IsTimeText(t) && IsTimeText(u)
    requires FindAll(t + (a + t)) == [t, u]
    requires forall j :: 0 <= j < |a| ==> a[j] != t[0]
    requires forall j :: !OccursAt(Label(t) + (a + Label(t)), u, j)
    ensures ConvertPrompt(t + (a + t)) == Label(t) + (a + Label(t))
  {
    var p := t + (a + t);
    var once := Label(t) + (a + Label(t));
    ReplaceTwice(t, a, Label(t));
    ContainsIff(once, u);
    ReplaceAbsent(once, u, Label(u));
    assert [t, u][1..] == [u];
    calc {
      ConvertPrompt(p);
      ApplyReplacements(p, [t, u]);
      ApplyReplacements(Replace(p, t, Label(t)), [u]);
      ApplyReplacements(once, [u]);
      ApplyReplacements(Replace(once, u, Label(u)), []);
      once;
    }
  }

  lemma OnceHasNoRepeat()
    ensures forall j :: !OccursAt("754 seconds 34:754 seconds", "34:12", j)
  {
    var q := "754 seconds 34:754 seconds";
    forall j | 0 <= j
      ensures !OccursAt(q, "34:12", j)
    {
      if j + 5 <= |q| {
        assert q[j..j + 5][2] == q[j + 2];
        assert q[j..j + 5][3] == q[j + 3];
      }
    }
  }

  lemma RepeatOnce()
    ensures ConvertPrompt("12:34" + (" 34:" + "12:34")) == "754 seconds 34:754 seconds"
  {
    var t, a, u := "12:34", " 34:", "34:12";
    RepeatFindAll();
    LabelOf1234();
    assert Label(t) + (a + Label(t)) == "754 seconds 34:754 seconds";
    OnceHasNoRepeat();
    ConvertRepeated(t, a, u);
  }

  lemma OnceChanges()
    ensures ConvertPrompt("754 seconds 34:754 seconds") != "754 seconds 34:754 seconds"
  {
    var once := "754 seconds 34:754 seconds";
    assert MatchAt(once, 12);
    ConvertPromptUnchangedIff(once);
  }

  /** The rewrite is not idempotent: rewriting "12:34 34:12:34" replaces the
      repeated time twice and leaves "34:75" behind, which a second rewrite
      changes again. */
  lemma NotIdempotent()
    ensures ConvertPrompt("12:34" + (" 34:" + "12:34")) == "754 seconds 34:754 seconds"
    ensures ConvertPrompt("754 seconds 34:754 seconds") != "754 seconds 34:754 seconds"
  {
    RepeatOnce();
    OnceChanges();
  }
}
