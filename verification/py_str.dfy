/** The Python `str` operations the two adapters lean on — `in`, `find`,
    `split(sep)`, `sep.join`, `replace` and `strip()` — over `seq<char>`.
    Each is written the way CPython scans (left to right, non-overlapping)
    and is tied by a lemma to an independent description of its result. */
module PyStr {
  import opened Outcomes

  /** `pat` occurs in `s` starting at index `i`. */
  predicate OccursAt(s: string, pat: string, i: int)
  {
    0 <= i && i + |pat| <= |s| && s[i..i + |pat|] == pat
  }

  /** An occurrence in `s[1..]` is an occurrence in `s` one place later. */
  lemma {:induction false} OccursShift(s: string, pat: string)
    requires |s| > 0
    ensures forall j :: OccursAt(s[1..], pat, j) ==> OccursAt(s, pat, j + 1)
    ensures forall j :: 1 <= j && OccursAt(s, pat, j) ==> OccursAt(s[1..], pat, j - 1)
  {
    forall j | 0 <= j && j + |pat| <= |s| - 1
      ensures OccursAt(s[1..], pat, j) <==> OccursAt(s, pat, j + 1)
    {
      assert s[1..][j..j + |pat|] == s[j + 1..j + 1 + |pat|];
    }
    forall j | 1 <= j && OccursAt(s, pat, j)
      ensures OccursAt(s[1..], pat, j - 1)
    {
      assert s[1..][j - 1..j - 1 + |pat|] == s[j..j + |pat|];
    }
  }

  /** One instance of `OccursShift`. */
  lemma {:induction false} OccursShiftAt(s: string, pat: string, j: int)
    requires |s| > 0 && 0 <= j
    ensures OccursAt(s[1..], pat, j) <==> OccursAt(s, pat, j + 1)
  {
    if j + |pat| <= |s| - 1 {
      assert s[1..][j..j + |pat|] == s[j + 1..j + 1 + |pat|];
    }
  }

  /** `s.find(pat)`: the first occurrence, with `None` for Python's -1. */
  function Find(s: string, pat: string): (r: Option<nat>)
    ensures r.Some? ==> OccursAt(s, pat, r.value)
    ensures r.Some? ==> forall j :: 0 <= j < r.value ==> !OccursAt(s, pat, j)
    ensures r.None? ==> forall j :: !OccursAt(s, pat, j)
    decreases |s|
  {
    if |s| < |pat| then None
    else if s[..|pat|] == pat then Some(0)
    else
      OccursShift(s, pat);
      match Find(s[1..], pat)
      case None => None
      case Some(k) => Some(k + 1)
  }

  /** Python `pat in s`. */
  predicate Contains(s: string, pat: string)
  {
    Find(s, pat).Some?
  }

  /** `pat in s` holds exactly when `pat` occurs somewhere in `s`. */
  lemma {:induction false} ContainsIff(s: string, pat: string)
    ensures Contains(s, pat) <==> exists i :: OccursAt(s, pat, i)
  {
    if exists i :: OccursAt(s, pat, i) {
      var i :| OccursAt(s, pat, i);
      assert 0 <= i;
    }
  }

  /** An occurrence inside a prefix is an occurrence in the whole string. */
  lemma {:induction false} OccursInPrefix(s: string, k: nat, pat: string, j: int)
    requires k <= |s|
    requires OccursAt(s[..k], pat, j)
    ensures OccursAt(s, pat, j) && j + |pat| <= k
  {
    assert s[..k][j..j + |pat|] == s[j..j + |pat|];
  }

  /** An occurrence inside a suffix is an occurrence in the whole string, shifted. */
  lemma {:induction false} OccursInSuffix(s: string, k: nat, pat: string, j: int)
    requires k <= |s|
    ensures OccursAt(s[k..], pat, j) <==> (0 <= j && OccursAt(s, pat, k + j))
  {
    if 0 <= j && j + |pat| <= |s| - k {
      assert s[k..][j..j + |pat|] == s[k + j..k + j + |pat|];
    }
  }

  /** `s.split(sep)`: cut at every occurrence of `sep`, found left to right
      without overlap. An empty `sep` raises `ValueError` in Python. */
  function Split(s: string, sep: string): (parts: seq<string>)
    requires |sep| > 0
    decreases |s|
    ensures |parts| >= 1
  {
    match Find(s, sep)
    case None => [s]
    case Some(k) => [s[..k]] + Split(s[k + |sep|..], sep)
  }

  /** No part of a split contains the separator. */
  lemma {:induction false} SplitPartsFree(s: string, sep: string)
    requires |sep| > 0
    ensures forall k :: 0 <= k < |Split(s, sep)| ==> !Contains(Split(s, sep)[k], sep)
    decreases |s|
  {
    SplitStep(s, sep);
    if Find(s, sep).Some? {
      var k := Find(s, sep).value;
      var head := s[..k];
      assert !Contains(head, sep) by {
        if Contains(head, sep) {
          OccursInPrefix(s, k, sep, Find(head, sep).value);
        }
      }
      SplitPartsFree(s[k + |sep|..], sep);
    }
  }

  /** `sep.join(parts)`. */
  function Join(parts: seq<string>, sep: string): string
  {
    if |parts| == 0 then []
    else if |parts| == 1 then parts[0]
    else parts[0] + sep + Join(parts[1..], sep)
  }

  /** One step of the split scan. */
  lemma {:induction false} SplitStep(s: string, sep: string)
    requires |sep| > 0
    ensures Find(s, sep).None? ==> Split(s, sep) == [s]
    ensures Find(s, sep).Some? ==>
      var k := Find(s, sep).value;
      && s == s[..k] + sep + s[k + |sep|..]
      && Split(s, sep) == [s[..k]] + Split(s[k + |sep|..], sep)
  {
    if Find(s, sep).Some? {
      var k := Find(s, sep).value;
      assert s[k..k + |sep|] == sep;
      assert s == s[..k] + s[k..k + |sep|] + s[k + |sep|..];
    }
  }

  /** Splitting and re-joining with the same separator gives back the string. */
  lemma {:induction false} JoinSplit(s: string, sep: string)
    requires |sep| > 0
    ensures Join(Split(s, sep), sep) == s
    decreases |s|
  {
    SplitStep(s, sep);
    if Find(s, sep).Some? {
      var k := Find(s, sep).value;
      var rest := s[k + |sep|..];
      JoinSplit(rest, sep);
      var tail := Split(rest, sep);
      assert ([s[..k]] + tail)[1..] == tail;
    }
  }

  /** No occurrence of a one-character pattern in a string without that character. */
  lemma {:induction false} AbsentChar(s: string, c: char)
    requires c !in s
    ensures Find(s, [c]).None?
  {
    forall j | 0 <= j < |s|
      ensures !OccursAt(s, [c], j)
    {
      assert s[j..j + 1] == [s[j]];
    }
  }

  /** Joining with a one-character separator that no part contains and
      splitting again gives back the parts. */
  lemma {:induction false} SplitJoin(parts: seq<string>, c: char)
    requires |parts| >= 1
    requires forall k :: 0 <= k < |parts| ==> c !in parts[k]
    ensures Split(Join(parts, [c]), [c]) == parts
    decreases |parts|
  {
    var s := Join(parts, [c]);
    SplitStep(s, [c]);
    if |parts| == 1 {
      AbsentChar(s, c);
    } else {
      var p0 := parts[0];
      var tail := Join(parts[1..], [c]);
      assert s == p0 + [c] + tail;
      FirstSeparator(p0, c, tail);
      SplitJoin(parts[1..], c);
      assert parts == [p0] + parts[1..];
    }
  }

  /** `s.split(sep)[0]`: the text before the first occurrence of `sep`. */
  function SplitHead(s: string, sep: string): (r: string)
    requires |sep| > 0
    ensures Find(s, sep).None? ==> r == s
    ensures Find(s, sep).Some? ==> r == s[..Find(s, sep).value]
  {
    Split(s, sep)[0]
  }

  /** `s.split(sep)[0]` is the longest prefix of `s` free of `sep`: it is
      followed by `sep` when `sep` occurs, and is all of `s` otherwise. */
  lemma {:induction false} SplitHeadPrefix(s: string, sep: string)
    requires |sep| > 0
    ensures var r := SplitHead(s, sep);
      && |r| <= |s| && s[..|r|] == r
      && !Contains(r, sep)
      && (Contains(s, sep) ==> OccursAt(s, sep, |r|))
      && (!Contains(s, sep) ==> r == s)
  {
    SplitPartsFree(s, sep);
  }

  /** `s.split(sep)[-1]`, scanning as `split` does. */
  function SplitLast(s: string, sep: string): string
    requires |sep| > 0
    decreases |s|
  {
    match Find(s, sep)
    case None => s
    case Some(k) => SplitLast(s[k + |sep|..], sep)
  }

  /** `s.split(sep)[-1]` is the text after the last occurrence found by the
      left-to-right scan: a suffix of `s` free of `sep`, preceded by `sep`
      when `sep` occurs at all, and all of `s` otherwise. */
  lemma {:induction false} SplitLastSuffix(s: string, sep: string)
    requires |sep| > 0
    ensures var r := SplitLast(s, sep);
      && |r| <= |s| && r == s[|s| - |r|..]
      && !Contains(r, sep)
      && (Contains(s, sep) ==> OccursAt(s, sep, |s| - |r| - |sep|))
      && (!Contains(s, sep) ==> r == s)
  {
    SplitLastPosition(s, sep);
    SplitLastFree(s, sep);
  }

  /** `r` is a suffix of `s`; when `found`, `sep` sits right before it,
      and otherwise it is all of `s`. */
  ghost predicate LastPartOf(s: string, sep: string, r: string, found: bool)
  {
    && |r| <= |s| && r == s[|s| - |r|..]
    && (found ==> OccursAt(s, sep, |s| - |r| - |sep|))
    && (!found ==> r == s)
  }

  /** The last part is a suffix, preceded by `sep` when `sep` occurs. */
  lemma {:induction false} SplitLastPosition(s: string, sep: string)
    requires |sep| > 0
    ensures var r := SplitLast(s, sep);
      && |r| <= |s| && r == s[|s| - |r|..]
      && (Contains(s, sep) ==> OccursAt(s, sep, |s| - |r| - |sep|))
      && (!Contains(s, sep) ==> r == s)
  {
    SplitLastPlaced(s, sep);
  }

  lemma {:induction false} SplitLastPlaced(s: string, sep: string)
    requires |sep| > 0
    ensures LastPartOf(s, sep, SplitLast(s, sep), Contains(s, sep))
    decreases |s|
  {
    match Find(s, sep)
    case None =>
      SplitLastNone(s, sep);
    case Some(k) =>
      var rest := s[k + |sep|..];
      SplitLastPlaced(rest, sep);
      SplitLastLink(s, sep, k, rest, SplitLast(rest, sep), Contains(rest, sep));
  }

  lemma {:induction false} SplitLastNone(s: string, sep: string)
    requires |sep| > 0 && Find(s, sep).None?
    ensures SplitLast(s, sep) == s && !Contains(s, sep)
    ensures LastPartOf(s, sep, s, false)
  {
    assert s[|s| - |s|..] == s;
  }

  /** One step of `SplitLastPlaced`: the facts about the text after the
      first occurrence carry over to the whole text. */
  lemma {:induction false} SplitLastLink(s: string, sep: string, k: nat, rest: string, r: string, found: bool)
    requires |sep| > 0 && Find(s, sep) == Some(k) && rest == s[k + |sep|..]
    requires r == SplitLast(rest, sep)
    requires LastPartOf(rest, sep, r, found)
    ensures SplitLast(s, sep) == r && Contains(s, sep)
    ensures LastPartOf(s, sep, r, true)
  {
    SplitLastUnfold(s, sep, k);
    SplitLastStep(s, sep, k, rest, r, found);
  }

  /** The last part holds no `sep`. */
  lemma {:induction false} SplitLastFree(s: string, sep: string)
    requires |sep| > 0
    ensures !Contains(SplitLast(s, sep), sep)
    decreases |s|
  {
    if Find(s, sep).Some? {
      var k := Find(s, sep).value;
      SplitLastFree(s[k + |sep|..], sep);
      SplitLastUnfold(s, sep, k);
    }
  }

  lemma {:induction false} SplitLastStep(s: string, sep: string, k: nat, rest: string, r: string, found: bool)
    requires |sep| > 0 && OccursAt(s, sep, k) && rest == s[k + |sep|..]
    requires |r| <= |rest| && r == rest[|rest| - |r|..]
    requires found ==> OccursAt(rest, sep, |rest| - |r| - |sep|)
    requires !found ==> r == rest
    ensures |r| <= |s| && r == s[|s| - |r|..]
    ensures OccursAt(s, sep, |s| - |r| - |sep|)
  {
    SuffixOfSuffix(s, k + |sep|, r);
    if found {
      OccursInSuffix(s, k + |sep|, sep, |rest| - |r| - |sep|);
    } else {
      assert |s| - |r| - |sep| == k;
    }
  }

  lemma {:induction false} SuffixOfSuffix(s: string, m: nat, r: string)
    requires m <= |s| && |r| <= |s| - m && r == s[m..][|s| - m - |r|..]
    ensures r == s[|s| - |r|..]
  {
  }

  /** `SplitLast` is the last part of `Split`. */
  lemma {:induction false} SplitLastIsLastPart(s: string, sep: string)
    requires |sep| > 0
    ensures SplitLast(s, sep) == Split(s, sep)[|Split(s, sep)| - 1]
    decreases |s|
  {
    if Find(s, sep).Some? {
      var k := Find(s, sep).value;
      var rest := s[k + |sep|..];
      SplitLastIsLastPart(rest, sep);
      SplitLastUnfold(s, sep, k);
      SplitUnfold(s, sep, k);
      LastOfCons(s[..k], Split(rest, sep));
    }
  }

  lemma {:induction false} SplitLastUnfold(s: string, sep: string, k: nat)
    requires |sep| > 0 && Find(s, sep) == Some(k)
    ensures SplitLast(s, sep) == SplitLast(s[k + |sep|..], sep)
  {
  }

  lemma {:induction false} SplitUnfold(s: string, sep: string, k: nat)
    requires |sep| > 0 && Find(s, sep) == Some(k)
    ensures Split(s, sep) == [s[..k]] + Split(s[k + |sep|..], sep)
  {
  }

  lemma {:induction false} LastOfCons<T>(x: T, xs: seq<T>)
    requires |xs| > 0
    ensures ([x] + xs)[|[x] + xs| - 1] == xs[|xs| - 1]
  {
  }

  /** `s.replace(old, new)`: CPython's scan, replacing every occurrence of
      `old` found left to right without overlap. */
  function Replace(s: string, target: string, repl: string): string
    requires |target| > 0
    decreases |s|
  {
    if |s| < |target| then s
    else if s[..|target|] == target then repl + Replace(s[|target|..], target, repl)
    else [s[0]] + Replace(s[1..], target, repl)
  }

  /** Joining parts whose first part is extended at the front. */
  lemma {:induction false} JoinPrefix(x: string, parts: seq<string>, sep: string)
    requires |parts| >= 1
    ensures Join([x + parts[0]] + parts[1..], sep) == x + Join(parts, sep)
  {
    var ps := [x + parts[0]] + parts[1..];
    if |parts| > 1 {
      assert ps[1..] == parts[1..];
    }
  }

  /** In `p0 + [c] + tail` with `c` absent from `p0`, the first `c` is the
      one after `p0`. */
  lemma {:induction false} FirstSeparator(p0: string, c: char, tail: string)
    requires c !in p0
    ensures var s := p0 + [c] + tail;
      && Find(s, [c]) == Some(|p0|)
      && s[..|p0|] == p0 && s[|p0| + 1..] == tail
  {
    var s := p0 + [c] + tail;
    assert s[|p0|..|p0| + 1] == [c];
    assert OccursAt(s, [c], |p0|);
    forall j | 0 <= j < |p0|
      ensures !OccursAt(s, [c], j)
    {
      assert s[j] == p0[j];
    }
  }

  /** When `old` is not at the front of `s`, splitting `s` extends the
      first part of splitting `s[1..]` by `s[0]`. */
  lemma {:induction false} SplitNotAtFront(s: string, sep: string)
    requires |sep| > 0 && |s| > 0 && !OccursAt(s, sep, 0)
    ensures var tail := Split(s[1..], sep);
      Split(s, sep) == [[s[0]] + tail[0]] + tail[1..]
  {
    var t := s[1..];
    SplitStep(s, sep);
    SplitStep(t, sep);
    if Find(t, sep).None? {
      assert s == [s[0]] + t;
    } else {
      var k := Find(t, sep).value;
      SplitNotAtFrontFound(s, sep, k);
    }
  }

  lemma {:induction false} SplitNotAtFrontFound(s: string, sep: string, k: nat)
    requires |sep| > 0 && |s| > 0 && Find(s, sep) == Some(k + 1)
    requires Find(s[1..], sep) == Some(k)
    ensures var tail := Split(s[1..], sep);
      Split(s, sep) == [[s[0]] + tail[0]] + tail[1..]
  {
    var t := s[1..];
    SplitUnfold(s, sep, k + 1);
    SplitUnfold(t, sep, k);
    assert s[..k + 1] == [s[0]] + t[..k];
    assert s[k + 1 + |sep|..] == t[k + |sep|..];
  }

  /** `s.replace(old, new)` is `new.join(s.split(old))`: the replacement
      scan and the split scan find the same occurrences. */
  lemma {:induction false} ReplaceIsJoinOfSplit(s: string, target: string, repl: string)
    requires |target| > 0
    ensures Replace(s, target, repl) == Join(Split(s, target), repl)
    decreases |s|
  {
    if |s| < |target| {
      assert Find(s, target).None?;
    } else if s[..|target|] == target {
      assert Find(s, target) == Some(0);
      SplitStep(s, target);
      ReplaceIsJoinOfSplit(s[|target|..], target, repl);
    } else {
      ReplaceIsJoinOfSplit(s[1..], target, repl);
      SplitNotAtFront(s, target);
      var tail := Split(s[1..], target);
      JoinPrefix([s[0]], tail, repl);
    }
  }

  /** When `old` does not occur in `s`, replacing it changes nothing. */
  lemma {:induction false} ReplaceAbsent(s: string, target: string, repl: string)
    requires |target| > 0
    requires !Contains(s, target)
    ensures Replace(s, target, repl) == s
  {
    ReplaceIsJoinOfSplit(s, target, repl);
  }

  /** The first occurrence is replaced, the text before it is kept, and the
      scan resumes after it. */
  lemma {:induction false} ReplaceAtFirst(s: string, target: string, repl: string)
    requires |target| > 0
    requires Find(s, target).Some?
    ensures var k := Find(s, target).value;
      Replace(s, target, repl) == s[..k] + repl + Replace(s[k + |target|..], target, repl)
  {
    var k := Find(s, target).value;
    var rest := s[k + |target|..];
    ReplaceIsJoinOfSplit(s, target, repl);
    ReplaceIsJoinOfSplit(rest, target, repl);
    SplitStep(s, target);
    var tail := Split(rest, target);
    assert ([s[..k]] + tail)[1..] == tail;
  }

  /** Without an occurrence at the front, `replace` copies the first
      character and carries on with the rest. */
  lemma {:induction false} ReplaceNoMatchStep(s: string, target: string, repl: string)
    requires 0 < |target| && |s| > 0 && !OccursAt(s, target, 0)
    ensures Replace(s, target, repl) == [s[0]] + Replace(s[1..], target, repl)
  {
    if |s| >= |target| {
      assert s[..|target|] != target;
    } else {
      assert s == [s[0]] + s[1..];
    }
  }

  /** No occurrence before `k` in `s` means none before `k - 1` in `s[1..]`. */
  lemma {:induction false} NoOccurrenceShifted(s: string, target: string, k: nat)
    requires 0 < k <= |s|
    requires forall j :: 0 <= j < k ==> !OccursAt(s, target, j)
    ensures forall j :: 0 <= j < k - 1 ==> !OccursAt(s[1..], target, j)
  {
    forall j | 0 <= j < k - 1
      ensures !OccursAt(s[1..], target, j)
    {
      OccursShiftAt(s, target, j);
    }
  }

  /** Text before the first occurrence is copied unchanged. */
  lemma {:induction false} ReplaceSkip(s: string, target: string, repl: string, k: nat)
    requires 0 < |target| && k <= |s|
    requires forall j :: 0 <= j < k ==> !OccursAt(s, target, j)
    ensures Replace(s, target, repl) == s[..k] + Replace(s[k..], target, repl)
  {
    if k > 0 {
      var t := s[1..];
      ReplaceNoMatchStep(s, target, repl);
      NoOccurrenceShifted(s, target, k);
      ReplaceSkip(t, target, repl, k - 1);
      assert t[k - 1..] == s[k..];
      assert s[..k] == [s[0]] + t[..k - 1];
    }
  }

  /** A replacement at least as long as the text it replaces never
      shortens the string, and a strictly longer one lengthens every string
      in which the text occurs. */
  lemma {:induction false} ReplaceLength(s: string, target: string, repl: string)
    requires 0 < |target| <= |repl|
    ensures |Replace(s, target, repl)| >= |s|
    ensures |target| < |repl| && Contains(s, target) ==> |Replace(s, target, repl)| > |s|
    decreases |s|
  {
    if |s| < |target| {
      assert !Contains(s, target);
    } else if s[..|target|] == target {
      ReplaceLength(s[|target|..], target, repl);
    } else {
      ReplaceLength(s[1..], target, repl);
      OccursShift(s, target);
      if Contains(s, target) {
        assert Find(s[1..], target).Some?;
      }
    }
  }

  /** Python's whitespace (`str.isspace()`): the characters `str.strip()`
      removes. */
  predicate IsSpace(c: char)
  {
    || '\t' <= c <= '\r'
    || '\U{001C}' <= c <= ' '
    || c == '\U{0085}' || c == '\U{00A0}' || c == '\U{1680}'
    || '\U{2000}' <= c <= '\U{200A}'
    || c == '\U{2028}' || c == '\U{2029}' || c == '\U{202F}' || c == '\U{205F}'
    || c == '\U{3000}'
  }

  /** `s.lstrip()`. */
  function StripLeading(s: string): (r: string)
    ensures |r| <= |s| && r == s[|s| - |r|..]
    ensures forall i :: 0 <= i < |s| - |r| ==> IsSpace(s[i])
    ensures |r| > 0 ==> !IsSpace(r[0])
  {
    if |s| > 0 && IsSpace(s[0]) then StripLeading(s[1..]) else s
  }

  /** `s.rstrip()`. */
  function StripTrailing(s: string): (r: string)
    ensures |r| <= |s| && r == s[..|r|]
    ensures forall i :: |r| <= i < |s| ==> IsSpace(s[i])
    ensures |r| > 0 ==> !IsSpace(r[|r| - 1])
  {
    if |s| > 0 && IsSpace(s[|s| - 1]) then StripTrailing(s[..|s| - 1]) else s
  }

  /** The number of leading whitespace characters of `s`. */
  function LeadingSpaces(s: string): (n: nat)
    ensures n <= |s|
    ensures forall i :: 0 <= i < n ==> IsSpace(s[i])
    ensures n < |s| ==> !IsSpace(s[n])
  {
    if |s| > 0 && IsSpace(s[0]) then 1 + LeadingSpaces(s[1..]) else 0
  }

  /** `s.strip()`: the middle of `s` between its leading and trailing
      whitespace. */
  function Strip(s: string): string
  {
    StripTrailing(StripLeading(s))
  }

  /** `r` is the text of `s` starting at `a` with only whitespace after
      it, and it neither starts nor ends with whitespace. */
  ghost predicate StrippedAt(s: string, r: string, a: nat)
  {
    && a + |r| <= |s|
    && r == s[a..a + |r|]
    && (forall i :: a + |r| <= i < |s| ==> IsSpace(s[i]))
    && (|r| > 0 ==> !IsSpace(r[0]) && !IsSpace(r[|r| - 1]))
  }

  /** The stripped text is the part of `s` after its leading whitespace
      with only whitespace after it, and it neither starts nor ends with
      whitespace. */
  lemma {:induction false} StripShape(s: string)
    ensures StrippedAt(s, Strip(s), LeadingSpaces(s))
  {
    var t := StripLeading(s);
    StripLeadingDrops(s);
    StripMiddle(s, t, StripTrailing(t), LeadingSpaces(s));
  }

  lemma {:induction false} StripMiddle(s: string, t: string, r: string, a: nat)
    requires a <= |s| && t == s[a..]
    requires |r| <= |t| && r == t[..|r|]
    requires forall i :: |r| <= i < |t| ==> IsSpace(t[i])
    requires |t| > 0 ==> !IsSpace(t[0])
    requires |r| > 0 ==> !IsSpace(r[|r| - 1])
    ensures StrippedAt(s, r, a)
  {
    forall i | a + |r| <= i < |s|
      ensures IsSpace(s[i])
    {
      assert s[i] == t[i - a];
    }
  }

  /** `lstrip()` drops exactly the leading whitespace. */
  lemma {:induction false} StripLeadingDrops(s: string)
    ensures |s| - |StripLeading(s)| == LeadingSpaces(s)
  {
    if |s| > 0 && IsSpace(s[0]) {
      StripLeadingDrops(s[1..]);
    }
  }
}
