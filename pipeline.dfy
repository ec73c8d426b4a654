/**
  The matching and aggregation loop of `main`
  (vrt/misw-4103-pixelmatch/index.js:122-151, 182-197): group both corpora,
  keep the base scenarios the candidate also has, sort each scenario's steps,
  pair every base step with the first candidate entry of equal step, compare
  each pair and collect one report per scenario.
*/
module Pipeline {
  import opened Wrappers
  import opened Naming
  import opened Grouping
  import opened StepSort
  import opened Seqs
  import opened PixelCompare

  /** A base entry and the candidate entry chosen for it. */
  datatype Pair = Pair(base: Shot, cand: Shot)

  /** One object pushed onto `comparisons`; old and new paths are the corpus file names. */
  datatype Comparison = Comparison(step: nat, oldFile: string, newFile: string, diffPath: string, outcome: Outcome)

  /** The data one `<scenario>.html` report is rendered from. */
  datatype ScenarioReport = ScenarioReport(scenario: string, comparisons: seq<Comparison>)

  /**
    How a run ends: the early return when a corpus directory is missing, normal
    completion, or an exception from an undecodable file, after which the
    reports already written remain.
  */
  datatype RunOutcome =
    | InputMissing
    | Completed(reports: seq<ScenarioReport>)
    | Aborted(reports: seq<ScenarioReport>, unreadable: string)

  /** `group2[k]` is truthy: the candidate has an array (never empty) under `k`. */
  function InCandidate(cand: Groups): string -> bool
  {
    (k: string) => k in cand.lists
  }

  /** `Object.keys(group1).filter(k => group2[k])`. */
  function CommonScenarios(base: Groups, cand: Groups): (r: seq<string>)
    ensures forall k :: k in r <==> k in base.order && k in cand.lists
  {
    Filter(base.order, InCandidate(cand))
  }

  /** `steps2.find(s => s.step === step)`: the first entry with that step. */
  function FindStep(list: seq<Shot>, step: nat): (r: Option<Shot>)
    ensures r.None? <==> forall i :: 0 <= i < |list| ==> list[i].step != step
    ensures r.Some? ==> exists i :: 0 <= i < |list| && list[i] == r.value && r.value.step == step
                                    && forall j :: 0 <= j < i ==> list[j].step != step
  {
    if list == [] then None
    else if list[0].step == step then
      Some(list[0])
    else
      var r := FindStep(list[1..], step);
      assert forall i :: 1 <= i < |list| ==> list[i] == list[1..][i - 1];
      if r.Some? then
        var i :| 0 <= i < |list[1..]| && list[1..][i] == r.value && r.value.step == step
                 && forall j :: 0 <= j < i ==> list[1..][j].step != step;
        assert list[i + 1] == r.value;
        r
      else r
  }

  /** The candidate list has an entry with this base entry's step. */
  function HasPartner(cand: seq<Shot>): Shot -> bool
  {
    (e: Shot) => FindStep(cand, e.step).Some?
  }

  /** The pairs the loop compares, in base order; a base entry without partner is skipped. */
  function MatchSteps(base: seq<Shot>, cand: seq<Shot>): seq<Pair>
  {
    if base == [] then []
    else
      var init, last := base[..|base| - 1], base[|base| - 1];
      var rest := MatchSteps(init, cand);
      match FindStep(cand, last.step)
      case None => rest
      case Some(c) => rest + [Pair(last, c)]
  }

  /**
    The compared base entries are the base entries that have a partner, in
    base order, and each is paired with the first candidate entry of its step.
  */
  lemma {:induction false} MatchStepsPairs(base: seq<Shot>, cand: seq<Shot>)
    ensures |MatchSteps(base, cand)| == |Filter(base, HasPartner(cand))|
    ensures forall i :: 0 <= i < |MatchSteps(base, cand)| ==>
              && MatchSteps(base, cand)[i].base == Filter(base, HasPartner(cand))[i]
              && Some(MatchSteps(base, cand)[i].cand) == FindStep(cand, MatchSteps(base, cand)[i].base.step)
  {
    if base != [] {
      MatchStepsPairs(base[..|base| - 1], cand);
    }
  }

  /**
    Which base entries are compared: each as often as it occurs in the base
    list when the candidate has its step, never otherwise; in base order; with
    the first candidate entry of that step, whose step is equal.
  */
  lemma MatchStepsSelection(base: seq<Shot>, cand: seq<Shot>, e: Shot)
    ensures var m, idx := Filter(base, HasPartner(cand)), KeptPositions(base, HasPartner(cand));
            && |MatchSteps(base, cand)| == |idx| <= |base|
            && multiset(m)[e] == (if HasPartner(cand)(e) then multiset(base)[e] else 0)
            && (forall i :: 0 <= i < |idx| ==> MatchSteps(base, cand)[i].base == base[idx[i]])
            && forall p :: p in MatchSteps(base, cand) ==> p.base.step == p.cand.step && p.cand in cand
  {
    MatchStepsPairs(base, cand);
    FilterMultiplicity(base, HasPartner(cand), e);
    FilterOrdered(base, HasPartner(cand));
    var r := MatchSteps(base, cand);
    forall p | p in r ensures p.base.step == p.cand.step && p.cand in cand {
      var i :| 0 <= i < |r| && r[i] == p;
    }
  }

  /** With the base list sorted, the compared steps are non-decreasing (equal when the base repeats a step). */
  lemma MatchStepsSorted(base: seq<Shot>, cand: seq<Shot>)
    requires SortedByStep(base)
    ensures forall i, j :: 0 <= i < j < |MatchSteps(base, cand)| ==>
              MatchSteps(base, cand)[i].base.step <= MatchSteps(base, cand)[j].base.step
  {
    var r, m := MatchSteps(base, cand), Filter(base, HasPartner(cand));
    MatchStepsPairs(base, cand);
    FilterOrdered(base, HasPartner(cand));
    var idx := KeptPositions(base, HasPartner(cand));
    forall i, j | 0 <= i < j < |r| ensures r[i].base.step <= r[j].base.step {
      assert r[i].base == base[idx[i]] && r[j].base == base[idx[j]] && idx[i] < idx[j];
    }
  }

  /** Base steps 1 and 2 against candidate steps 1 and 3: only step 1 is compared. */
  lemma MatchStepsMissingStepsSkipped()
    ensures var b1, b2 := Shot("ESC017_1.png", 1), Shot("ESC017_2.png", 2);
            var c1, c3 := Shot("ESC017_1.png", 1), Shot("ESC017_3.png", 3);
            MatchSteps([b1, b2], [c1, c3]) == [Pair(b1, c1)]
  {
    var b1, b2 := Shot("ESC017_1.png", 1), Shot("ESC017_2.png", 2);
    var c1, c3 := Shot("ESC017_1.png", 1), Shot("ESC017_3.png", 3);
    assert [b1, b2][..1] == [b1];
    assert [b1][..0] == [];
    assert FindStep([c1, c3], 1) == Some(c1);
    assert FindStep([c1, c3], 2).None?;
    assert MatchSteps([b1], [c1, c3]) == [Pair(b1, c1)];
  }

  lemma {:induction false} MatchStepsAppend(base: seq<Shot>, more: seq<Shot>, cand: seq<Shot>)
    ensures MatchSteps(base + more, cand) == MatchSteps(base, cand) + MatchSteps(more, cand)
    decreases |more|
  {
    if more == [] {
      assert base + more == base;
    } else {
      var minit := more[..|more| - 1];
      assert (base + more)[..|base + more| - 1] == base + minit;
      MatchStepsAppend(base, minit, cand);
    }
  }

  /** The comparison recorded for one pair, or the file whose decoding throws. */
  function ComparePair(scenario: string, p: Pair, readBase: Decoder, readCand: Decoder, pm: PixelMatch)
    : Result<Comparison, string>
    requires DefinedOnEqualSizes(pm)
  {
    match CompareWithPixelMatch(p.base.file, p.cand.file, readBase, readCand, pm)
    case Err(f) => Err(f)
    case Ok(o) => Ok(Comparison(p.base.step, p.base.file, p.cand.file, DiffReportPath(scenario, p.base.step), o))
  }

  /**
    The pairs compared in order; the first pair that throws ends the
    scenario (and the run) with its file.
  */
  function ComparePairs(scenario: string, ps: seq<Pair>, readBase: Decoder, readCand: Decoder, pm: PixelMatch)
    : Result<seq<Comparison>, string>
    requires DefinedOnEqualSizes(pm)
  {
    if ps == [] then Ok([])
    else
      match ComparePairs(scenario, ps[..|ps| - 1], readBase, readCand, pm)
      case Err(f) => Err(f)
      case Ok(cs) =>
        match ComparePair(scenario, ps[|ps| - 1], readBase, readCand, pm)
        case Err(f) => Err(f)
        case Ok(c) => Ok(cs + [c])
  }

  /**
    All pairs succeed and give their comparisons in order, or the result is
    the error of the first pair that throws.
  */
  lemma {:induction false} ComparePairsAllOrFirstError(scenario: string, ps: seq<Pair>,
                                                      readBase: Decoder, readCand: Decoder, pm: PixelMatch)
    requires DefinedOnEqualSizes(pm)
    ensures var r := ComparePairs(scenario, ps, readBase, readCand, pm);
            && (r.Ok? <==> forall i :: 0 <= i < |ps| ==> ComparePair(scenario, ps[i], readBase, readCand, pm).Ok?)
            && (r.Ok? ==>
                  && |r.value| == |ps|
                  && forall i :: 0 <= i < |ps| ==> r.value[i] == ComparePair(scenario, ps[i], readBase, readCand, pm).value)
            && (r.Err? ==>
                  exists i :: && 0 <= i < |ps|
                              && ComparePair(scenario, ps[i], readBase, readCand, pm) == Err(r.error)
                              && forall j :: 0 <= j < i ==> ComparePair(scenario, ps[j], readBase, readCand, pm).Ok?)
  {
    if ps != [] {
      var init := ps[..|ps| - 1];
      ComparePairsAllOrFirstError(scenario, init, readBase, readCand, pm);
      assert forall i :: 0 <= i < |init| ==> init[i] == ps[i];
    }
  }

  lemma {:induction false} ComparePairsAppendErr(scenario: string, ps: seq<Pair>, more: seq<Pair>,
                                                readBase: Decoder, readCand: Decoder, pm: PixelMatch)
    requires DefinedOnEqualSizes(pm)
    requires ComparePairs(scenario, ps, readBase, readCand, pm).Err?
    ensures ComparePairs(scenario, ps + more, readBase, readCand, pm) == ComparePairs(scenario, ps, readBase, readCand, pm)
    decreases |more|
  {
    if more == [] {
      assert ps + more == ps;
    } else {
      var minit := more[..|more| - 1];
      assert (ps + more)[..|ps + more| - 1] == ps + minit;
      ComparePairsAppendErr(scenario, ps, minit, readBase, readCand, pm);
    }
  }

  /** What one scenario's loop yields: its comparisons, or the file that threw. */
  function CompareScenario(scenario: string, steps1: seq<Shot>, steps2: seq<Shot>,
                           readBase: Decoder, readCand: Decoder, pm: PixelMatch): Result<seq<Comparison>, string>
    requires DefinedOnEqualSizes(pm)
  {
    ComparePairs(scenario, MatchSteps(steps1, steps2), readBase, readCand, pm)
  }

  /** One more base entry adds its pair, if it has a partner, at the end. */
  lemma MatchStepsSnoc(base: seq<Shot>, x: Shot, cand: seq<Shot>)
    ensures MatchSteps(base + [x], cand) ==
            MatchSteps(base, cand) + (if FindStep(cand, x.step).Some? then [Pair(x, FindStep(cand, x.step).value)] else [])
  {
    assert (base + [x])[..|base|] == base;
  }

  /** A pair that throws ends the whole scenario with its file, whatever follows. */
  lemma ScenarioAbortsAt(scenario: string, steps1: seq<Shot>, steps2: seq<Shot>, i: nat,
                         readBase: Decoder, readCand: Decoder, pm: PixelMatch)
    requires DefinedOnEqualSizes(pm) && i < |steps1|
    requires ComparePairs(scenario, MatchSteps(steps1[..i + 1], steps2), readBase, readCand, pm).Err?
    ensures CompareScenario(scenario, steps1, steps2, readBase, readCand, pm)
            == ComparePairs(scenario, MatchSteps(steps1[..i + 1], steps2), readBase, readCand, pm)
  {
    var ps := MatchSteps(steps1[..i + 1], steps2);
    var rest := MatchSteps(steps1[i + 1..], steps2);
    MatchStepsAppend(steps1[..i + 1], steps1[i + 1..], steps2);
    assert steps1[..i + 1] + steps1[i + 1..] == steps1;
    ComparePairsAppendErr(scenario, ps, rest, readBase, readCand, pm);
  }

  /** The prefix of the base list that ends in the throwing entry already fails with that entry's file. */
  lemma PrefixAborts(scenario: string, steps: seq<Shot>, steps2: seq<Shot>,
                     readBase: Decoder, readCand: Decoder, pm: PixelMatch)
    requires DefinedOnEqualSizes(pm) && steps != []
    requires ComparePairs(scenario, MatchSteps(steps[..|steps| - 1], steps2), readBase, readCand, pm).Ok?
    requires FindStep(steps2, steps[|steps| - 1].step).Some?
    requires CompareWithPixelMatch(steps[|steps| - 1].file, FindStep(steps2, steps[|steps| - 1].step).value.file,
                                   readBase, readCand, pm).Err?
    ensures ComparePairs(scenario, MatchSteps(steps, steps2), readBase, readCand, pm)
            == Err(CompareWithPixelMatch(steps[|steps| - 1].file, FindStep(steps2, steps[|steps| - 1].step).value.file,
                                         readBase, readCand, pm).error)
  {
    var last := steps[|steps| - 1];
    var pair := Pair(last, FindStep(steps2, last.step).value);
    var init := MatchSteps(steps[..|steps| - 1], steps2);
    assert MatchSteps(steps, steps2) == init + [pair];
    ComparePairsSnocErr(scenario, init, pair, readBase, readCand, pm);
  }

  lemma ComparePairsSnocErr(scenario: string, ps: seq<Pair>, p: Pair, readBase: Decoder, readCand: Decoder, pm: PixelMatch)
    requires DefinedOnEqualSizes(pm)
    requires ComparePairs(scenario, ps, readBase, readCand, pm).Ok?
    requires CompareWithPixelMatch(p.base.file, p.cand.file, readBase, readCand, pm).Err?
    ensures ComparePairs(scenario, ps + [p], readBase, readCand, pm)
            == Err(CompareWithPixelMatch(p.base.file, p.cand.file, readBase, readCand, pm).error)
  {
    assert (ps + [p])[..|ps|] == ps;
  }

  /** The indexed loop over the sorted base steps of one scenario. */
  method CompareSteps(scenario: string, steps1: seq<Shot>, steps2: seq<Shot>,
                      readBase: Decoder, readCand: Decoder, pm: PixelMatch)
    returns (r: Result<seq<Comparison>, string>)
    requires DefinedOnEqualSizes(pm)
    ensures r == CompareScenario(scenario, steps1, steps2, readBase, readCand, pm)
  {
    var comparisons: seq<Comparison> := [];
    for i := 0 to |steps1|
      invariant ComparePairs(scenario, MatchSteps(steps1[..i], steps2), readBase, readCand, pm) == Ok(comparisons)
    {
      var step1Data := steps1[i];
      assert steps1[..i + 1] == steps1[..i] + [step1Data];
      MatchStepsSnoc(steps1[..i], step1Data, steps2);
      var step2Data := FindStep(steps2, step1Data.step);
      if step2Data.None? {
        continue;
      }
      var resultInfo := CompareWithPixelMatch(step1Data.file, step2Data.value.file, readBase, readCand, pm);
      if resultInfo.Err? {
        assert steps1[..i + 1][..i] == steps1[..i];
        PrefixAborts(scenario, steps1[..i + 1], steps2, readBase, readCand, pm);
        ScenarioAbortsAt(scenario, steps1, steps2, i, readBase, readCand, pm);
        return Err(resultInfo.error);
      }
      ghost var ps := MatchSteps(steps1[..i + 1], steps2);
      assert ps[..|ps| - 1] == MatchSteps(steps1[..i], steps2);
      comparisons := comparisons + [Comparison(step1Data.step, step1Data.file, step2Data.value.file,
                                               DiffReportPath(scenario, step1Data.step), resultInfo.value)];
    }
    assert steps1[..|steps1|] == steps1;
    return Ok(comparisons);
  }

  /** The steps of `scenario` as the loop sees them, after the in-place sort. */
  function SortedSteps(g: Groups, scenario: string): seq<Shot>
    requires scenario in g.lists
  {
    StableSort(g.lists[scenario])
  }

  /** The reports of the scenarios `scs`, in that order, until a scenario throws. */
  function ReportsFor(scs: seq<string>, g1: Groups, g2: Groups,
                      readBase: Decoder, readCand: Decoder, pm: PixelMatch): (out: RunOutcome)
    requires DefinedOnEqualSizes(pm)
    requires forall k :: k in scs ==> k in g1.lists && k in g2.lists
    ensures !out.InputMissing?
  {
    if scs == [] then Completed([])
    else
      var init, scenario := scs[..|scs| - 1], scs[|scs| - 1];
      assert forall k :: k in init ==> k in scs;
      var before := ReportsFor(init, g1, g2, readBase, readCand, pm);
      if !before.Completed? then before
      else
        match CompareScenario(scenario, SortedSteps(g1, scenario), SortedSteps(g2, scenario), readBase, readCand, pm)
        case Err(f) => Aborted(before.reports, f)
        case Ok(cs) => Completed(before.reports + [ScenarioReport(scenario, cs)])
  }

  /** One more scenario: its report is appended, or the run aborts with its file. */
  lemma ReportsForSnoc(scs: seq<string>, scenario: string, g1: Groups, g2: Groups,
                       readBase: Decoder, readCand: Decoder, pm: PixelMatch)
    requires DefinedOnEqualSizes(pm)
    requires forall k :: k in scs + [scenario] ==> k in g1.lists && k in g2.lists
    requires ReportsFor(scs, g1, g2, readBase, readCand, pm).Completed?
    ensures var rs := ReportsFor(scs, g1, g2, readBase, readCand, pm).reports;
            ReportsFor(scs + [scenario], g1, g2, readBase, readCand, pm) ==
              match CompareScenario(scenario, SortedSteps(g1, scenario), SortedSteps(g2, scenario), readBase, readCand, pm)
              case Err(f) => Aborted(rs, f)
              case Ok(cs) => Completed(rs + [ScenarioReport(scenario, cs)])
  {
    assert (scs + [scenario])[..|scs|] == scs;
  }

  /** What `main` produces for two directory listings (None: the directory does not exist). */
  function RunSpec(baseListing: Option<seq<string>>, candListing: Option<seq<string>>,
                   readBase: Decoder, readCand: Decoder, pm: PixelMatch): RunOutcome
    requires DefinedOnEqualSizes(pm)
  {
    if baseListing.None? || candListing.None? then InputMissing
    else
      var g1, g2 := GroupFiles(baseListing.value), GroupFiles(candListing.value);
      CommonScenariosKnown(baseListing.value, candListing.value);
      ReportsFor(CommonScenarios(g1, g2), g1, g2, readBase, readCand, pm)
  }

  /** The common scenarios have arrays in both groupings and are listed once each. */
  lemma CommonScenariosKnown(baseFiles: seq<string>, candFiles: seq<string>)
    ensures forall k :: k in CommonScenarios(GroupFiles(baseFiles), GroupFiles(candFiles)) ==>
              k in GroupFiles(baseFiles).lists && k in GroupFiles(candFiles).lists
    ensures forall a, b :: 0 <= a < b < |CommonScenarios(GroupFiles(baseFiles), GroupFiles(candFiles))| ==>
              CommonScenarios(GroupFiles(baseFiles), GroupFiles(candFiles))[a]
              != CommonScenarios(GroupFiles(baseFiles), GroupFiles(candFiles))[b]
  {
    GroupFilesContents(baseFiles);
    FilterDistinct(GroupFiles(baseFiles).order, InCandidate(GroupFiles(candFiles)));
  }

  lemma {:induction false} ReportsForAbortedPersists(scs: seq<string>, more: seq<string>, g1: Groups, g2: Groups,
                                                    readBase: Decoder, readCand: Decoder, pm: PixelMatch)
    requires DefinedOnEqualSizes(pm)
    requires forall k :: k in scs + more ==> k in g1.lists && k in g2.lists
    requires ReportsFor(scs, g1, g2, readBase, readCand, pm).Aborted?
    ensures ReportsFor(scs + more, g1, g2, readBase, readCand, pm) == ReportsFor(scs, g1, g2, readBase, readCand, pm)
    decreases |more|
  {
    if more == [] {
      assert scs + more == scs;
    } else {
      var minit := more[..|more| - 1];
      assert (scs + more)[..|scs + more| - 1] == scs + minit;
      ReportsForAbortedPersists(scs, minit, g1, g2, readBase, readCand, pm);
    }
  }

  /**
    `main`: give up quietly when a directory is missing; otherwise group both
    listings, keep the common scenarios, sort both step arrays of each in place,
    compare, and emit one report per scenario until a file fails to decode.
  */
  method Run(baseListing: Option<seq<string>>, candListing: Option<seq<string>>,
             readBase: Decoder, readCand: Decoder, pm: PixelMatch) returns (out: RunOutcome)
    requires DefinedOnEqualSizes(pm)
    ensures out == RunSpec(baseListing, candListing, readBase, readCand, pm)
  {
    if baseListing.None? || candListing.None? {
      return InputMissing;
    }
    var group1 := GetScenarioGroups(baseListing.value);
    var group2 := GetScenarioGroups(candListing.value);
    var allScenarios := CommonScenarios(group1, group2);
    CommonScenariosKnown(baseListing.value, candListing.value);
    var lists1, lists2 := group1.lists, group2.lists;
    var reports: seq<ScenarioReport> := [];
    for i := 0 to |allScenarios|
      invariant ReportsFor(allScenarios[..i], group1, group2, readBase, readCand, pm) == Completed(reports)
      invariant forall j :: i <= j < |allScenarios| ==>
                  && allScenarios[j] in lists1 && lists1[allScenarios[j]] == group1.lists[allScenarios[j]]
                  && allScenarios[j] in lists2 && lists2[allScenarios[j]] == group2.lists[allScenarios[j]]
    {
      var scenario := allScenarios[i];
      lists1 := lists1[scenario := StableSort(lists1[scenario])];
      lists2 := lists2[scenario := StableSort(lists2[scenario])];
      var steps1, steps2 := lists1[scenario], lists2[scenario];
      var r := CompareSteps(scenario, steps1, steps2, readBase, readCand, pm);
      PrefixSnoc(allScenarios, i);
      ReportsForSnoc(allScenarios[..i], scenario, group1, group2, readBase, readCand, pm);
      if r.Err? {
        PrefixSplit(allScenarios, i + 1);
        ReportsForAbortedPersists(allScenarios[..i + 1], allScenarios[i + 1..], group1, group2, readBase, readCand, pm);
        return Aborted(reports, r.error);
      }
      reports := reports + [ScenarioReport(scenario, r.value)];
    }
    assert allScenarios[..|allScenarios|] == allScenarios;
    return Completed(reports);
  }

  lemma PrefixSnoc<T>(s: seq<T>, i: nat)
    requires i < |s|
    ensures s[..i + 1] == s[..i] + [s[i]]
  {
  }

  lemma PrefixSplit<T>(s: seq<T>, i: nat)
    requires i <= |s|
    ensures s[..i] + s[i..] == s
  {
  }

  /**
    A report row is backed by the corpora: its old file is a base screenshot and
    its new file a candidate screenshot, both named for this scenario and step;
    both decode; its diff path is `<scenario>/diff_<step>.png`; and its outcome
    is the comparison of those two images.
  */
  ghost predicate ComparisonBacked(scenario: string, c: Comparison, baseFiles: seq<string>, candFiles: seq<string>,
                                   readBase: Decoder, readCand: Decoder, pm: PixelMatch)
    requires DefinedOnEqualSizes(pm)
  {
    && c.oldFile in baseFiles && ParseName(c.oldFile) == Some(ShotName(scenario, c.step))
    && c.newFile in candFiles && ParseName(c.newFile) == Some(ShotName(scenario, c.step))
    && c.diffPath == DiffReportPath(scenario, c.step)
    && readBase(c.oldFile).Some? && readCand(c.newFile).Some?
    && c.outcome == CompareImages(readBase(c.oldFile).value, readCand(c.newFile).value, pm)
  }

  /** The rows of one scenario's report: non-decreasing by step and each backed by the corpora. */
  ghost predicate RowsBacked(scenario: string, cs: seq<Comparison>, baseFiles: seq<string>, candFiles: seq<string>,
                             readBase: Decoder, readCand: Decoder, pm: PixelMatch)
    requires DefinedOnEqualSizes(pm)
  {
    && (forall i, j :: 0 <= i < j < |cs| ==> cs[i].step <= cs[j].step)
    && (forall j :: 0 <= j < |cs| ==> ComparisonBacked(scenario, cs[j], baseFiles, candFiles, readBase, readCand, pm))
  }

  /** An entry of a scenario's sorted steps is a screenshot of that corpus with that scenario and step. */
  lemma SortedStepFromCorpus(files: seq<string>, scenario: string, e: Shot)
    requires scenario in GroupFiles(files).lists && e in SortedSteps(GroupFiles(files), scenario)
    ensures e.file in files && ParseName(e.file) == Some(ShotName(scenario, e.step))
  {
    GroupFilesContents(files);
    assert e in multiset(SortedSteps(GroupFiles(files), scenario));
    assert e in GroupFiles(files).lists[scenario];
  }

  /** The row recorded for a matched pair that compares is backed by the corpora. */
  lemma RowBacked(scenario: string, baseFiles: seq<string>, candFiles: seq<string>,
                  readBase: Decoder, readCand: Decoder, pm: PixelMatch, p: Pair)
    requires DefinedOnEqualSizes(pm)
    requires scenario in GroupFiles(baseFiles).lists && scenario in GroupFiles(candFiles).lists
    requires p in MatchSteps(SortedSteps(GroupFiles(baseFiles), scenario), SortedSteps(GroupFiles(candFiles), scenario))
    requires ComparePair(scenario, p, readBase, readCand, pm).Ok?
    ensures ComparisonBacked(scenario, ComparePair(scenario, p, readBase, readCand, pm).value,
                             baseFiles, candFiles, readBase, readCand, pm)
  {
    PairFromCorpora(scenario, baseFiles, candFiles, p);
  }

  /**
    The rows of a scenario that completed: at most one per base screenshot,
    non-decreasing by step, each backed by the corpora.
  */
  lemma ScenarioRowsBacked(scenario: string, baseFiles: seq<string>, candFiles: seq<string>,
                           readBase: Decoder, readCand: Decoder, pm: PixelMatch)
    requires DefinedOnEqualSizes(pm)
    requires scenario in GroupFiles(baseFiles).lists && scenario in GroupFiles(candFiles).lists
    requires CompareScenario(scenario, SortedSteps(GroupFiles(baseFiles), scenario),
                             SortedSteps(GroupFiles(candFiles), scenario), readBase, readCand, pm).Ok?
    ensures var cs := CompareScenario(scenario, SortedSteps(GroupFiles(baseFiles), scenario),
                                      SortedSteps(GroupFiles(candFiles), scenario), readBase, readCand, pm).value;
            && |cs| <= |GroupFiles(baseFiles).lists[scenario]|
            && RowsBacked(scenario, cs, baseFiles, candFiles, readBase, readCand, pm)
  {
    var s1, s2 := SortedSteps(GroupFiles(baseFiles), scenario), SortedSteps(GroupFiles(candFiles), scenario);
    var cs := CompareScenario(scenario, s1, s2, readBase, readCand, pm).value;
    ScenarioRowsOrdered(scenario, GroupFiles(baseFiles), GroupFiles(candFiles), readBase, readCand, pm);
    forall j | 0 <= j < |cs| ensures ComparisonBacked(scenario, cs[j], baseFiles, candFiles, readBase, readCand, pm) {
      ScenarioRowBacked(scenario, baseFiles, candFiles, readBase, readCand, pm, j);
    }
  }

  /** A completed scenario has at most one row per base screenshot, non-decreasing by step. */
  lemma ScenarioRowsOrdered(scenario: string, g1: Groups, g2: Groups,
                            readBase: Decoder, readCand: Decoder, pm: PixelMatch)
    requires DefinedOnEqualSizes(pm)
    requires scenario in g1.lists && scenario in g2.lists
    requires CompareScenario(scenario, SortedSteps(g1, scenario), SortedSteps(g2, scenario), readBase, readCand, pm).Ok?
    ensures var cs := CompareScenario(scenario, SortedSteps(g1, scenario), SortedSteps(g2, scenario),
                                      readBase, readCand, pm).value;
            && |cs| <= |g1.lists[scenario]|
            && forall i, j :: 0 <= i < j < |cs| ==> cs[i].step <= cs[j].step
  {
    var list1 := g1.lists[scenario];
    var s1, s2 := SortedSteps(g1, scenario), SortedSteps(g2, scenario);
    var ps := MatchSteps(s1, s2);
    var cs := CompareScenario(scenario, s1, s2, readBase, readCand, pm).value;
    ComparePairsAllOrFirstError(scenario, ps, readBase, readCand, pm);
    assert |cs| <= |list1| by {
      MatchStepsPairs(s1, s2);
      assert |s1| == |list1| by { assert |multiset(s1)| == |multiset(list1)|; }
    }
    assert forall i, j :: 0 <= i < j < |ps| ==> ps[i].base.step <= ps[j].base.step by {
      StableSortSorted(list1);
      MatchStepsSorted(s1, s2);
    }
    forall i, j | 0 <= i < j < |cs| ensures cs[i].step <= cs[j].step {
      assert cs[i].step == ps[i].base.step && cs[j].step == ps[j].base.step;
    }
  }

  /** Row `j` of a completed scenario is backed by the corpora. */
  lemma ScenarioRowBacked(scenario: string, baseFiles: seq<string>, candFiles: seq<string>,
                          readBase: Decoder, readCand: Decoder, pm: PixelMatch, j: nat)
    requires DefinedOnEqualSizes(pm)
    requires scenario in GroupFiles(baseFiles).lists && scenario in GroupFiles(candFiles).lists
    requires CompareScenario(scenario, SortedSteps(GroupFiles(baseFiles), scenario),
                             SortedSteps(GroupFiles(candFiles), scenario), readBase, readCand, pm).Ok?
    requires j < |CompareScenario(scenario, SortedSteps(GroupFiles(baseFiles), scenario),
                                  SortedSteps(GroupFiles(candFiles), scenario), readBase, readCand, pm).value|
    ensures ComparisonBacked(scenario, CompareScenario(scenario, SortedSteps(GroupFiles(baseFiles), scenario),
                                                       SortedSteps(GroupFiles(candFiles), scenario),
                                                       readBase, readCand, pm).value[j],
                             baseFiles, candFiles, readBase, readCand, pm)
  {
    var s1, s2 := SortedSteps(GroupFiles(baseFiles), scenario), SortedSteps(GroupFiles(candFiles), scenario);
    var ps := MatchSteps(s1, s2);
    ComparePairsAllOrFirstError(scenario, ps, readBase, readCand, pm);
    assert ps[j] in ps;
    RowBacked(scenario, baseFiles, candFiles, readBase, readCand, pm, ps[j]);
  }

  /** Scenario `k` of `scs` as `main` compares it. */
  function ScenarioResult(k: string, g1: Groups, g2: Groups, readBase: Decoder, readCand: Decoder, pm: PixelMatch)
    : Result<seq<Comparison>, string>
    requires DefinedOnEqualSizes(pm) && k in g1.lists && k in g2.lists
  {
    CompareScenario(k, SortedSteps(g1, k), SortedSteps(g2, k), readBase, readCand, pm)
  }

  /** The reports written are those of the leading scenarios of `scs`, one for one and in order. */
  lemma {:induction false} ReportsForRows(scs: seq<string>, g1: Groups, g2: Groups,
                                          readBase: Decoder, readCand: Decoder, pm: PixelMatch)
    requires DefinedOnEqualSizes(pm)
    requires forall k :: k in scs ==> k in g1.lists && k in g2.lists
    ensures |ReportsFor(scs, g1, g2, readBase, readCand, pm).reports| <= |scs|
    ensures forall i :: 0 <= i < |ReportsFor(scs, g1, g2, readBase, readCand, pm).reports| ==>
              && ReportsFor(scs, g1, g2, readBase, readCand, pm).reports[i].scenario == scs[i]
              && ScenarioResult(scs[i], g1, g2, readBase, readCand, pm)
                 == Ok(ReportsFor(scs, g1, g2, readBase, readCand, pm).reports[i].comparisons)
  {
    if scs != [] {
      var init, scenario := scs[..|scs| - 1], scs[|scs| - 1];
      assert forall k :: k in init ==> k in scs;
      ReportsForRows(init, g1, g2, readBase, readCand, pm);
      ReportsForEnd(init, g1, g2, readBase, readCand, pm);
      var before := ReportsFor(init, g1, g2, readBase, readCand, pm);
      var out := ReportsFor(scs, g1, g2, readBase, readCand, pm);
      var r := ScenarioResult(scenario, g1, g2, readBase, readCand, pm);
      var extended := before.Completed? && r.Ok?;
      if extended {
        assert out.reports == before.reports + [ScenarioReport(scenario, r.value)];
        assert |before.reports| == |init|;
      } else if before.Completed? {
        assert out.reports == before.reports;
      } else {
        assert out == before;
      }
      forall i | 0 <= i < |out.reports|
        ensures out.reports[i].scenario == scs[i]
        ensures ScenarioResult(scs[i], g1, g2, readBase, readCand, pm) == Ok(out.reports[i].comparisons)
      {
        if i < |before.reports| {
          assert out.reports[i] == before.reports[i] && scs[i] == init[i];
        } else {
          assert extended && i == |init|;
          assert out.reports[i] == ScenarioReport(scenario, r.value);
        }
      }
    }
  }

  /** A completed run reports every scenario; an aborted one stops at the first scenario that throws. */
  lemma {:induction false} ReportsForEnd(scs: seq<string>, g1: Groups, g2: Groups,
                                         readBase: Decoder, readCand: Decoder, pm: PixelMatch)
    requires DefinedOnEqualSizes(pm)
    requires forall k :: k in scs ==> k in g1.lists && k in g2.lists
    ensures ReportsFor(scs, g1, g2, readBase, readCand, pm).Completed? ==>
              |ReportsFor(scs, g1, g2, readBase, readCand, pm).reports| == |scs|
    ensures ReportsFor(scs, g1, g2, readBase, readCand, pm).Aborted? ==>
              && |ReportsFor(scs, g1, g2, readBase, readCand, pm).reports| < |scs|
              && ScenarioResult(scs[|ReportsFor(scs, g1, g2, readBase, readCand, pm).reports|], g1, g2, readBase, readCand, pm)
                 == Err(ReportsFor(scs, g1, g2, readBase, readCand, pm).unreadable)
  {
    if scs != [] {
      var init, scenario := scs[..|scs| - 1], scs[|scs| - 1];
      assert forall k :: k in init ==> k in scs;
      ReportsForEnd(init, g1, g2, readBase, readCand, pm);
      var before := ReportsFor(init, g1, g2, readBase, readCand, pm);
      if before.Completed? {
        var r := ScenarioResult(scenario, g1, g2, readBase, readCand, pm);
        if r.Err? {
          assert ReportsFor(scs, g1, g2, readBase, readCand, pm) == Aborted(before.reports, r.error);
        }
      } else {
        assert ReportsFor(scs, g1, g2, readBase, readCand, pm) == before;
        assert scs[|before.reports|] == init[|before.reports|];
      }
    }
  }

  /** A scenario throws on a base file its decoder rejects, or else on such a candidate file. */
  lemma ScenarioAbortBacked(scenario: string, baseFiles: seq<string>, candFiles: seq<string>,
                            readBase: Decoder, readCand: Decoder, pm: PixelMatch)
    requires DefinedOnEqualSizes(pm)
    requires scenario in GroupFiles(baseFiles).lists && scenario in GroupFiles(candFiles).lists
    requires CompareScenario(scenario, SortedSteps(GroupFiles(baseFiles), scenario),
                             SortedSteps(GroupFiles(candFiles), scenario), readBase, readCand, pm).Err?
    ensures var f := CompareScenario(scenario, SortedSteps(GroupFiles(baseFiles), scenario),
                                     SortedSteps(GroupFiles(candFiles), scenario), readBase, readCand, pm).error;
            (f in baseFiles && readBase(f).None?) || (f in candFiles && readCand(f).None?)
  {
    var s1, s2 := SortedSteps(GroupFiles(baseFiles), scenario), SortedSteps(GroupFiles(candFiles), scenario);
    var ps := MatchSteps(s1, s2);
    ComparePairsAllOrFirstError(scenario, ps, readBase, readCand, pm);
    MatchStepsPairs(s1, s2);
    var f := ComparePairs(scenario, ps, readBase, readCand, pm).error;
    var i :| 0 <= i < |ps| && ComparePair(scenario, ps[i], readBase, readCand, pm) == Err(f);
    var p := ps[i];
    var w := CompareWithPixelMatch(p.base.file, p.cand.file, readBase, readCand, pm);
    assert w.Err? && w.error == f;
    assert p in ps;
    PairFromCorpora(scenario, baseFiles, candFiles, p);
    if readBase(p.base.file).None? {
      assert f == p.base.file;
    } else {
      assert f == p.cand.file && readCand(p.cand.file).None?;
    }
  }

  /** Both files of a matched pair are screenshots of their corpora, named for the scenario and one common step. */
  lemma PairFromCorpora(scenario: string, baseFiles: seq<string>, candFiles: seq<string>, p: Pair)
    requires scenario in GroupFiles(baseFiles).lists && scenario in GroupFiles(candFiles).lists
    requires p in MatchSteps(SortedSteps(GroupFiles(baseFiles), scenario), SortedSteps(GroupFiles(candFiles), scenario))
    ensures p.base.file in baseFiles && p.cand.file in candFiles && p.cand.step == p.base.step
    ensures ParseName(p.base.file) == Some(ShotName(scenario, p.base.step))
    ensures ParseName(p.cand.file) == Some(ShotName(scenario, p.cand.step))
  {
    var s1, s2 := SortedSteps(GroupFiles(baseFiles), scenario), SortedSteps(GroupFiles(candFiles), scenario);
    MatchStepsPairs(s1, s2);
    var j :| 0 <= j < |MatchSteps(s1, s2)| && MatchSteps(s1, s2)[j] == p;
    assert p.base in Filter(s1, HasPartner(s2));
    SortedStepFromCorpus(baseFiles, scenario, p.base);
    var k :| 0 <= k < |s2| && s2[k] == p.cand && p.cand.step == p.base.step;
    SortedStepFromCorpus(candFiles, scenario, p.cand);
  }

  /**
    When both directories exist the run is not cut short, and its reports name
    the scenarios present in both corpora, in the base corpus's
    first-appearance order: all of them, unless the run aborts, in which case
    the unreadable file is a file of the base corpus its decoder rejects or a
    file of the candidate corpus its decoder rejects.
  */
  lemma RunReportsScenarios(baseFiles: seq<string>, candFiles: seq<string>,
                            readBase: Decoder, readCand: Decoder, pm: PixelMatch)
    requires DefinedOnEqualSizes(pm)
    ensures var out := RunSpec(Some(baseFiles), Some(candFiles), readBase, readCand, pm);
            var common := CommonScenarios(GroupFiles(baseFiles), GroupFiles(candFiles));
            && !out.InputMissing?
            && |out.reports| <= |common|
            && (out.Completed? ==> |out.reports| == |common|)
            && (out.Aborted? ==>
                  && |out.reports| < |common|
                  && ((out.unreadable in baseFiles && readBase(out.unreadable).None?) ||
                      (out.unreadable in candFiles && readCand(out.unreadable).None?)))
            && forall i :: 0 <= i < |out.reports| ==> out.reports[i].scenario == common[i]
  {
    var g1, g2 := GroupFiles(baseFiles), GroupFiles(candFiles);
    var common := CommonScenarios(g1, g2);
    CommonScenariosKnown(baseFiles, candFiles);
    var out := ReportsFor(common, g1, g2, readBase, readCand, pm);
    assert RunSpec(Some(baseFiles), Some(candFiles), readBase, readCand, pm) == out;
    ReportsForRows(common, g1, g2, readBase, readCand, pm);
    ReportsForEnd(common, g1, g2, readBase, readCand, pm);
    if out.Aborted? {
      ScenarioAbortBacked(common[|out.reports|], baseFiles, candFiles, readBase, readCand, pm);
    }
  }

  /**
    Every row of every report is backed by the corpora: its files are a base
    and a candidate screenshot named for its scenario and step, its diff path
    is `<scenario>/diff_<step>.png`, its outcome is the comparison of the two
    decoded images; and each report's rows are non-decreasing by step.
  */
  lemma RunRowsBacked(baseFiles: seq<string>, candFiles: seq<string>,
                      readBase: Decoder, readCand: Decoder, pm: PixelMatch)
    requires DefinedOnEqualSizes(pm)
    ensures var out := RunSpec(Some(baseFiles), Some(candFiles), readBase, readCand, pm);
            forall i :: 0 <= i < |out.reports| ==>
              RowsBacked(out.reports[i].scenario, out.reports[i].comparisons, baseFiles, candFiles, readBase, readCand, pm)
  {
    var g1, g2 := GroupFiles(baseFiles), GroupFiles(candFiles);
    var common := CommonScenarios(g1, g2);
    CommonScenariosKnown(baseFiles, candFiles);
    var out := ReportsFor(common, g1, g2, readBase, readCand, pm);
    assert RunSpec(Some(baseFiles), Some(candFiles), readBase, readCand, pm) == out;
    ReportsForRows(common, g1, g2, readBase, readCand, pm);
    forall i | 0 <= i < |out.reports|
      ensures RowsBacked(out.reports[i].scenario, out.reports[i].comparisons, baseFiles, candFiles, readBase, readCand, pm)
    {
      assert out.reports[i].scenario == common[i];
      ScenarioRowsBacked(common[i], baseFiles, candFiles, readBase, readCand, pm);
    }
  }
}
