/** The unit selection of the chunked adapter (`videoxl2.py`): the
    selection file is folded into one table keyed by unique id, the
    benchmark is named after the file, and each request's unique id is built
    from the video's file name and a benchmark-specific part of the
    question text, then looked up in the table. Unit indices and category
    configurations are opaque values. */
module Selection {
  import opened Outcomes
  import opened PyStr

  /** A category of the selection file that is not `None`: its `config`
      and its `selected_unit_indices`, keyed by unique id. */
  datatype Category<I, C> = Category(config: C, units: map<string, I>)

  /** The selection file: the categories in file order, each `None` or present. */
  type SelectionInfo<I, C> = seq<(string, Option<Category<I, C>>)>

  /** The dictionary one category contributes: every unique id paired with
      its indices and the category's configuration. */
  function Entries<I, C>(c: Category<I, C>): (d: map<string, (I, C)>)
  {
    map uid | uid in c.units :: (c.units[uid], c.config)
  }

  /** `get_mapping_dict`: the categories' dictionaries merged in file
      order, `None` categories skipped, later categories overwriting
      earlier ones. */
  function MappingDict<I, C>(info: SelectionInfo<I, C>): map<string, (I, C)>
  {
    if |info| == 0 then map[]
    else
      var d := MappingDict(info[..|info| - 1]);
      match info[|info| - 1].1
      case None => d
      case Some(c) => d + Entries(c)
  }

  /** Category `k` is present and lists `uid`. */
  predicate Holds<I, C>(info: SelectionInfo<I, C>, k: int, uid: string)
  {
    0 <= k < |info| && info[k].1.Some? && uid in info[k].1.value.units
  }

  /** One step of the fold: the table of all categories is the table of
      all but the last, updated by the last one when it is present. */
  lemma MappingDictStep<I, C>(info: SelectionInfo<I, C>, uid: string)
    requires |info| > 0
    ensures var init := MappingDict(info[..|info| - 1]);
      var d := MappingDict(info);
      && (Holds(info, |info| - 1, uid) ==>
            uid in d && d[uid] == (info[|info| - 1].1.value.units[uid], info[|info| - 1].1.value.config))
      && (!Holds(info, |info| - 1, uid) ==>
            (uid in d <==> uid in init) && (uid in d ==> d[uid] == init[uid]))
  {
    var last := info[|info| - 1].1;
    if last.Some? {
      assert uid in Entries(last.value) <==> uid in last.value.units;
    }
  }

  /** The categories before the last one, read in the shorter file. */
  lemma HoldsInInit<I, C>(info: SelectionInfo<I, C>, uid: string)
    requires |info| > 0
    ensures forall k :: 0 <= k < |info| - 1 ==>
      (Holds(info[..|info| - 1], k, uid) <==> Holds(info, k, uid))
  {
    var init := info[..|info| - 1];
    forall k | 0 <= k < |info| - 1
      ensures Holds(init, k, uid) <==> Holds(info, k, uid)
    {
      assert init[k] == info[k];
    }
  }

  /** A unique id is in the table exactly when some present category lists it. */
  lemma {:induction false} MappingDictKeys<I, C>(info: SelectionInfo<I, C>, uid: string)
    ensures uid in MappingDict(info) <==> exists k :: Holds(info, k, uid)
  {
    if |info| > 0 {
      var init := info[..|info| - 1];
      MappingDictKeys(init, uid);
      HoldsInInit(info, uid);
      MappingDictStep(info, uid);
      if exists k :: Holds(info, k, uid) {
        var k :| Holds(info, k, uid);
        if k < |init| {
          assert Holds(init, k, uid);
        }
      }
      if exists k :: Holds(init, k, uid) {
        var k :| Holds(init, k, uid);
        assert Holds(info, k, uid);
      }
    }
  }

  /** The table entry of a unique id comes from the last present category
      that lists it. */
  lemma {:induction false} MappingDictLastWriter<I, C>(info: SelectionInfo<I, C>, uid: string, k: nat)
    requires Holds(info, k, uid)
    requires forall j :: k < j < |info| ==> !Holds(info, j, uid)
    ensures uid in MappingDict(info)
    ensures MappingDict(info)[uid] == (info[k].1.value.units[uid], info[k].1.value.config)
  {
    var init := info[..|info| - 1];
    MappingDictStep(info, uid);
    if k < |info| - 1 {
      HoldsInInit(info, uid);
      assert Holds(init, k, uid);
      forall j | k < j < |init|
        ensures !Holds(init, j, uid)
      {
        assert !Holds(info, j, uid);
      }
      MappingDictLastWriter(init, uid, k);
    }
  }

  /** `os.path.basename`: the text after the last '/'. */
  function Basename(path: string): string
  {
    SplitLast(path, "/")
  }

  /** The base name is the part of the path after its last '/'. */
  lemma {:induction false} BasenameOf(path: string)
    ensures var b := Basename(path);
      && |b| <= |path| && b == path[|path| - |b|..]
      && '/' !in b
      && (|b| < |path| ==> path[|path| - |b| - 1] == '/')
  {
    var b := Basename(path);
    SplitLastSuffix(path, "/");
    CharContains(b, '/');
    SlashBefore(path, b, Contains(path, "/"));
  }

  /** A character occurs in a text exactly when the one-character
      pattern `[c]` is found in it. */
  lemma {:induction false} CharContains(s: string, c: char)
    ensures c in s <==> Contains(s, [c])
  {
    if c in s {
      var i :| 0 <= i < |s| && s[i] == c;
      assert s[i..i + 1] == [c];
      assert OccursAt(s, [c], i);
    }
    if Contains(s, [c]) {
      var k := Find(s, [c]).value;
      assert s[k..k + 1] == [c];
      assert s[k] == c;
    }
  }

  lemma {:induction false} SlashBefore(path: string, b: string, found: bool)
    requires |b| <= |path| && b == path[|path| - |b|..]
    requires found ==> OccursAt(path, "/", |path| - |b| - 1)
    requires !found ==> b == path
    ensures |b| < |path| ==> path[|path| - |b| - 1] == '/'
  {
    if found {
      assert path[|path| - |b| - 1..|path| - |b|] == "/";
    }
  }

  /** A name without '/' after a directory and a '/' is its own base name. */
  lemma {:induction false} BasenameJoin(dir: string, name: string)
    requires '/' !in name
    ensures Basename(dir + "/" + name) == name
  {
    var p := dir + "/" + name;
    BasenameOf(p);
    LastSlashSegment(dir, name, p, Basename(p));
  }

  lemma {:induction false} LastSlashSegment(dir: string, name: string, p: string, b: string)
    requires '/' !in name && p == dir + "/" + name
    requires |b| <= |p| && b == p[|p| - |b|..] && '/' !in b
    requires |b| < |p| ==> p[|p| - |b| - 1] == '/'
    ensures b == name
  {
    assert p[|dir|] == '/';
    assert forall j :: |dir| < j < |p| ==> p[j] == name[j - |dir| - 1];
    assert forall j :: |p| - |b| <= j < |p| ==> p[j] == b[j - (|p| - |b|)];
    assert b == p[|dir| + 1..];
  }

  /** `self.benchmark`: the selection file's base name up to its first ".json". */
  function BenchmarkName(selectionPath: string): string
  {
    SplitHead(Basename(selectionPath), ".json")
  }

  /** The benchmark name is a prefix of the file's base name, free of '/'
      and of ".json", and followed by ".json" when the name holds one. */
  lemma BenchmarkNameShape(selectionPath: string)
    ensures var b := Basename(selectionPath);
      var n := BenchmarkName(selectionPath);
      && |n| <= |b| && b[..|n|] == n
      && '/' !in n
      && !Contains(n, ".json")
      && (Contains(b, ".json") ==> OccursAt(b, ".json", |n|))
  {
    var b := Basename(selectionPath);
    BasenameOf(selectionPath);
    SplitHeadPrefix(b, ".json");
    var n := BenchmarkName(selectionPath);
    assert forall i :: 0 <= i < |n| ==> n[i] == b[i];
  }

  /** Which unique-id rule a benchmark uses. */
  datatype Rule = VideoMME | MLVU | VNBench | LVBench

  /** The first branch whose name occurs in the benchmark; `None` when no
      branch matches, and then `unique_id` is never bound. */
  function RuleOf(benchmark: string): Option<Rule>
  {
    if Contains(benchmark, "videomme") then Some(VideoMME)
    else if Contains(benchmark, "mlvu_test") || Contains(benchmark, "mlvu") then Some(MLVU)
    else if Contains(benchmark, "vnbench") || Contains(benchmark, "longvideobench") then Some(VNBench)
    else if Contains(benchmark, "lvbench") then Some(LVBench)
    else None
  }

  const SubtitleCue := "This video's subtitles are listed below:"
  const RespondCue := "Respond with only the letter (A, B, C, or D) of the correct option.\n"

  /** The part of the question text that goes into the unique id. */
  function QuestionKey(rule: Rule, inp: string): string
  {
    match rule
    case VideoMME =>
      if Contains(inp, SubtitleCue) then SplitHead(SplitLast(inp, RespondCue), "\n[")
      else SplitLast(SplitHead(inp, "\n["), "option.\n")
    case MLVU => Strip(SplitHead(inp, "\n("))
    case VNBench => SplitHead(inp, "\nA.")
    case LVBench => SplitHead(inp, "\nA.")
  }

  /** The part of the video's base name that goes into the unique id: the
      whole name, or for LVBench the name up to its first ".mp4". */
  function VideoKey(rule: Rule, videoName: string): string
  {
    if rule == LVBench then SplitHead(videoName, ".mp4") else videoName
  }

  /** `unique_id` is read without having been bound. */
  datatype SelectionError = UnboundUniqueId

  /** The unique id of a request: video key, '_', question key. */
  function UniqueId(benchmark: string, inp: string, videoPath: string): Result<string, SelectionError>
  {
    match RuleOf(benchmark)
    case None => Failure(UnboundUniqueId)
    case Some(rule) => Success(VideoKey(rule, Basename(videoPath)) + "_" + QuestionKey(rule, inp))
  }

  /** `get_selected_unit_indices`: the table entry of the request's unique
      id, or `None` (the pair `(None, None)`) when the id is not listed. */
  function SelectedUnitIndices<I, C>(benchmark: string, inp: string, videoPath: string,
                                    table: map<string, (I, C)>): Result<Option<(I, C)>, SelectionError>
  {
    match UniqueId(benchmark, inp, videoPath)
    case Failure(e) => Failure(e)
    case Success(uid) => Success(if uid in table then Some(table[uid]) else None)
  }

  /** The branches are tried in source order: a benchmark naming several
      benchmarks takes the first branch that matches, and one naming none
      leaves the id unbound. */
  lemma RuleOfOrder(benchmark: string)
    ensures RuleOf(benchmark) == Some(VideoMME) <==> Contains(benchmark, "videomme")
    ensures RuleOf(benchmark) == Some(MLVU) <==>
      !Contains(benchmark, "videomme") && Contains(benchmark, "mlvu")
    ensures RuleOf(benchmark) == Some(VNBench) <==>
      && !Contains(benchmark, "videomme") && !Contains(benchmark, "mlvu")
      && (Contains(benchmark, "vnbench") || Contains(benchmark, "longvideobench"))
    ensures RuleOf(benchmark) == Some(LVBench) <==>
      && !Contains(benchmark, "videomme") && !Contains(benchmark, "mlvu")
      && !Contains(benchmark, "vnbench") && !Contains(benchmark, "longvideobench")
      && Contains(benchmark, "lvbench")
    ensures RuleOf(benchmark).None? <==>
      && !Contains(benchmark, "videomme") && !Contains(benchmark, "mlvu")
      && !Contains(benchmark, "vnbench") && !Contains(benchmark, "longvideobench")
      && !Contains(benchmark, "lvbench")
  {
    MlvuTestHasMlvu(benchmark);
  }

  /** A name holding "mlvu_test" holds "mlvu". */
  lemma MlvuTestHasMlvu(s: string)
    ensures Contains(s, "mlvu_test") ==> Contains(s, "mlvu")
  {
    if Contains(s, "mlvu_test") {
      var i := Find(s, "mlvu_test").value;
      assert s[i..i + 4] == s[i..i + 9][..4];
      assert OccursAt(s, "mlvu", i);
      ContainsIff(s, "mlvu");
    }
  }

  /** For Video-NIAH, LongVideoBench and LVBench the question key is the
      text before the options: the longest prefix free of "\nA.", followed
      by "\nA." when the text holds it. */
  lemma OptionsKeyShape(rule: Rule, inp: string)
    requires rule == VNBench || rule == LVBench
    ensures var q := QuestionKey(rule, inp);
      && |q| <= |inp| && inp[..|q|] == q && !Contains(q, "\nA.")
      && (Contains(inp, "\nA.") ==> OccursAt(inp, "\nA.", |q|))
  {
    SplitHeadPrefix(inp, "\nA.");
  }

  /** For Video-MME the question key is free of "\n[" when the text carries
      subtitles (the part after the answer instruction, up to the first
      "\n["), and free of "option.\n" otherwise (the part after the last
      "option.\n" before the first "\n["). */
  lemma VideoMmeKeyShape(inp: string)
    ensures var q := QuestionKey(VideoMME, inp);
      && (Contains(inp, SubtitleCue) ==> !Contains(q, "\n["))
      && (!Contains(inp, SubtitleCue) ==> !Contains(q, "option.\n"))
  {
    if Contains(inp, SubtitleCue) {
      SplitHeadPrefix(SplitLast(inp, RespondCue), "\n[");
    } else {
      SplitLastSuffix(SplitHead(inp, "\n["), "option.\n");
    }
  }

  /** The LVBench key is the name up to its first ".mp4": a prefix free of
      ".mp4", followed by ".mp4" when the name holds one. */
  lemma VideoKeyShape(rule: Rule, videoName: string)
    ensures var v := VideoKey(rule, videoName);
      && (rule != LVBench ==> v == videoName)
      && (rule == LVBench ==>
            |v| <= |videoName| && videoName[..|v|] == v && !Contains(v, ".mp4")
            && (Contains(videoName, ".mp4") ==> OccursAt(videoName, ".mp4", |v|)))
  {
    SplitHeadPrefix(videoName, ".mp4");
  }

  /** The lookup succeeds exactly when some branch matches; it then yields
      an entry exactly when the unique id is in the table, and that entry. */
  lemma SelectedUnitIndicesLookup<I, C>(benchmark: string, inp: string, videoPath: string,
                                        table: map<string, (I, C)>)
    ensures var r := SelectedUnitIndices(benchmark, inp, videoPath, table);
      && (r.Failure? <==> RuleOf(benchmark).None?)
      && (r.Success? ==>
            var uid := UniqueId(benchmark, inp, videoPath).value;
            && (r.value.Some? <==> uid in table)
            && (r.value.Some? ==> r.value.value == table[uid]))
  {
  }

  /** Against the table built from the selection file, a request gets the
      indices and configuration of the last present category listing its
      unique id, and nothing when no category lists it. */
  lemma SelectedFromFile<I, C>(info: SelectionInfo<I, C>, benchmark: string, inp: string,
                               videoPath: string, k: nat)
    requires RuleOf(benchmark).Some?
    ensures var uid := UniqueId(benchmark, inp, videoPath).value;
      var r := SelectedUnitIndices(benchmark, inp, videoPath, MappingDict(info));
      && (r.value.None? <==> forall j :: !Holds(info, j, uid))
      && (Holds(info, k, uid) && (forall j :: k < j < |info| ==> !Holds(info, j, uid)) ==>
            r.value == Some((info[k].1.value.units[uid], info[k].1.value.config)))
  {
    var uid := UniqueId(benchmark, inp, videoPath).value;
    MappingDictKeys(info, uid);
    if Holds(info, k, uid) && (forall j :: k < j < |info| ==> !Holds(info, j, uid)) {
      MappingDictLastWriter(info, uid, k);
    }
  }
}
