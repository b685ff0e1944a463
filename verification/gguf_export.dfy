/**
  The file bookkeeping around GGUF export, in the two conversion scripts.

  scripts/4_bulk_convert_gguf.py (`convert_adapter_to_gguf`): merge the
  adapter to FP16 unless the merged copy is already cached, then for each of
  two quantisations skip the target when its output file exists, otherwise
  convert into a fresh temporary directory and move the first `.gguf` file
  listed there to the output path.

  scripts/bulk_convert_gguf.py (`convert_model`): one conversion, then search
  the temporary directory and then the working directory for the first file
  that looks like the exported model, and move it to `gguf_models/<name>`.

  The library calls (loading, merging, conversion) are inputs saying whether
  they succeed and what they leave in a directory; existence checks are a set
  of existing paths; directory listings are sequences in `os.listdir` order.
 */
module GgufExport {
  import opened Wrappers
  import opened Strings
  import opened Checkpoints

  const GgufModelsDir := "gguf_models"
  const GgufExtension := ".gguf"

  /** A quantisation: the method name the converter takes (`q_method`) and the suffix of the output file. */
  datatype Quant = Quant(methodName: string, suffix: string)

  /** The targets `convert_adapter_to_gguf` produces, in order. */
  const TargetQuants := [Quant("q4_k_m", "Q4_K_M"), Quant("q3_k_m", "Q3_K_M")]

  /** The position of the first name `wanted` accepts, if any. */
  function FirstWhere(names: seq<string>, wanted: string -> bool): (r: Option<nat>)
    ensures r.Some? ==> r.value < |names| && wanted(names[r.value])
    ensures r.Some? ==> forall j :: 0 <= j < r.value ==> !wanted(names[j])
    ensures r.None? <==> forall j :: 0 <= j < |names| ==> !wanted(names[j])
  {
    if |names| == 0 then None
    else if wanted(names[0]) then Some(0)
    else
      match FirstWhere(names[1..], wanted)
      case None => None
      case Some(k) => Some(k + 1)
  }

  // ---------------------------------------------------------------------
  // convert_adapter_to_gguf
  // ---------------------------------------------------------------------

  /** The output file name `<base>.<SUFFIX>.gguf`. */
  function OutputFileName(base: string, suffix: string): (name: string)
    ensures |name| == |base| + 1 + |suffix| + |GgufExtension|
    ensures StartsWith(name, base) && EndsWith(name, GgufExtension)
    ensures name[|base|] == '.' && name[|base| + 1..|name| - |GgufExtension|] == suffix
  {
    base + "." + suffix + GgufExtension
  }

  /** Different quantisation suffixes give different file names. */
  lemma OutputFileNameInjective(base: string, s1: string, s2: string)
    requires OutputFileName(base, s1) == OutputFileName(base, s2)
    ensures s1 == s2
  {
    var n := OutputFileName(base, s1);
    assert s1 == n[|base| + 1..|n| - |GgufExtension|];
  }

  /** Where a target's file ends up: `gguf_models/<base>.<SUFFIX>.gguf`. */
  function OutputPath(base: string, suffix: string): (path: string)
    ensures EndsWith(path, OutputFileName(base, suffix))
  {
    PathJoin(GgufModelsDir, OutputFileName(base, suffix))
  }

  /** Different suffixes never share an output path, so one target cannot
      overwrite or skip because of another. */
  lemma OutputPathInjective(base: string, s1: string, s2: string)
    ensures OutputPath(base, s1) == OutputPath(base, s2) ==> s1 == s2
  {
    if OutputPath(base, s1) == OutputPath(base, s2) {
      assert GgufModelsDir[..1] == "g";
      PathJoinInjective(GgufModelsDir, OutputFileName(base, s1), OutputFileName(base, s2));
      OutputFileNameInjective(base, s1, s2);
    }
  }

  /** The two targets' output paths, for every base name. */
  lemma TargetPathsDistinct(base: string)
    ensures OutputPath(base, TargetQuants[0].suffix) != OutputPath(base, TargetQuants[1].suffix)
  {
    OutputPathInjective(base, TargetQuants[0].suffix, TargetQuants[1].suffix);
  }

  /** Where the merged FP16 model's `config.json` lives in the cache. */
  function MergedConfigPath(cacheRoot: string, base: string): string {
    PathJoin(PathJoin(PathJoin(cacheRoot, "merged_models"), base + "-fp16"), "config.json")
  }

  predicate IsGgufName(name: string) {
    EndsWith(name, GgufExtension)
  }

  /** What loading the adapter and converting it into a target's temporary
      directory did: raised, or left these names there in listing order. */
  datatype Conversion = ConversionFailed | Produced(listing: seq<string>)

  /** What happened to one target. */
  datatype TargetOutcome =
    | AlreadyExists(path: string)
    | Moved(source: string, destination: string)
    | NoGgufProduced
    | ConversionError

  /** The search after a conversion: move the first `.gguf` listed in `dir`
      to `finalPath`, if there is one. */
  function MoveFirstGguf(dir: string, listing: seq<string>, finalPath: string): (o: TargetOutcome)
    ensures o.Moved? || o.NoGgufProduced?
    ensures o.NoGgufProduced? <==> forall j :: 0 <= j < |listing| ==> !IsGgufName(listing[j])
    ensures o.Moved? ==>
              && o.destination == finalPath
              && exists i :: 0 <= i < |listing| && IsGgufName(listing[i])
                             && (forall j :: 0 <= j < i ==> !IsGgufName(listing[j]))
                             && o.source == PathJoin(dir, listing[i])
  {
    match FirstWhere(listing, IsGgufName)
    case None => NoGgufProduced
    case Some(i) => Moved(PathJoin(dir, listing[i]), finalPath)
  }

  /** One iteration of the target loop. */
  function ConvertTarget(q: Quant, base: string, tempBase: string, existing: set<string>, conv: Conversion): (o: TargetOutcome)
    ensures o.AlreadyExists? <==> OutputPath(base, q.suffix) in existing
    ensures o.AlreadyExists? ==> o.path == OutputPath(base, q.suffix)
    ensures o.ConversionError? <==> OutputPath(base, q.suffix) !in existing && conv.ConversionFailed?
    ensures o.NoGgufProduced? <==>
              && OutputPath(base, q.suffix) !in existing && conv.Produced?
              && forall j :: 0 <= j < |conv.listing| ==> !IsGgufName(conv.listing[j])
    ensures o.Moved? ==>
              && o.destination == OutputPath(base, q.suffix) && o.destination !in existing
              && conv.Produced?
              && exists i :: 0 <= i < |conv.listing| && IsGgufName(conv.listing[i])
                             && (forall j :: 0 <= j < i ==> !IsGgufName(conv.listing[j]))
                             && o.source == PathJoin(PathJoin(tempBase, q.methodName), conv.listing[i])
  {
    var finalPath := OutputPath(base, q.suffix);
    if finalPath in existing then AlreadyExists(finalPath)
    else if conv.ConversionFailed? then ConversionError
    else MoveFirstGguf(PathJoin(tempBase, q.methodName), conv.listing, finalPath)
  }

  /** The target loop: each target sees the files the earlier ones moved into place. */
  function ConvertTargets(quants: seq<Quant>, base: string, tempBase: string, existing: set<string>,
                          convert: Quant -> Conversion): (outcomes: seq<TargetOutcome>)
    ensures |outcomes| == |quants|
  {
    if |quants| == 0 then []
    else
      var o := ConvertTarget(quants[0], base, tempBase, existing, convert(quants[0]));
      var existing' := if o.Moved? then existing + {o.destination} else existing;
      [o] + ConvertTargets(quants[1..], base, tempBase, existing', convert)
  }

  /** A file appearing at some other path does not change a target's outcome. */
  lemma ConvertTargetIgnoresOther(q: Quant, base: string, tempBase: string, existing: set<string>,
                                  extra: string, conv: Conversion)
    requires OutputPath(base, q.suffix) != extra
    ensures ConvertTarget(q, base, tempBase, existing + {extra}, conv) == ConvertTarget(q, base, tempBase, existing, conv)
  {
  }

  /** With distinct suffixes no target's move decides a later target's skip:
      each outcome is what that target alone would give. */
  lemma {:induction false} ConvertTargetsIndependent(quants: seq<Quant>, base: string, tempBase: string,
                                                     existing: set<string>, convert: Quant -> Conversion)
    requires forall i, j :: 0 <= i < j < |quants| ==> quants[i].suffix != quants[j].suffix
    ensures forall i :: 0 <= i < |quants| ==>
              ConvertTargets(quants, base, tempBase, existing, convert)[i]
                == ConvertTarget(quants[i], base, tempBase, existing, convert(quants[i]))
  {
    if |quants| > 0 {
      var o := ConvertTarget(quants[0], base, tempBase, existing, convert(quants[0]));
      var existing' := if o.Moved? then existing + {o.destination} else existing;
      var rest := quants[1..];
      assert forall i, j :: 0 <= i < j < |rest| ==> rest[i].suffix != rest[j].suffix by {
        forall i, j | 0 <= i < j < |rest| ensures rest[i].suffix != rest[j].suffix {
          assert rest[i] == quants[i + 1] && rest[j] == quants[j + 1];
        }
      }
      ConvertTargetsIndependent(rest, base, tempBase, existing', convert);
      var all := ConvertTargets(quants, base, tempBase, existing, convert);
      assert all == [o] + ConvertTargets(rest, base, tempBase, existing', convert);
      forall i | 0 <= i < |quants|
        ensures all[i] == ConvertTarget(quants[i], base, tempBase, existing, convert(quants[i]))
      {
        if i > 0 {
          assert quants[i] == rest[i - 1];
          assert all[i] == ConvertTarget(rest[i - 1], base, tempBase, existing', convert(rest[i - 1]));
          if o.Moved? {
            assert quants[0].suffix != quants[i].suffix;
            OutputPathInjective(base, quants[i].suffix, quants[0].suffix);
            ConvertTargetIgnoresOther(quants[i], base, tempBase, existing, o.destination, convert(quants[i]));
          }
        }
      }
    }
  }

  /** How `convert_adapter_to_gguf` ended. */
  datatype AdapterReport =
    | AdapterNotFound
    | MergeFailed
    | Exported(merged: bool, outcomes: seq<TargetOutcome>)

  /** `convert_adapter_to_gguf(adapter_path, output_base_name)`. `adapter` is
      `None` for Python's `None`; `existing` holds the paths that exist; a
      merge that raises is `mergeSucceeds == false`. */
  function ConvertAdapterToGguf(adapter: Option<string>, base: string, cacheRoot: string, tempBase: string,
                                existing: set<string>, mergeSucceeds: bool,
                                convert: Quant -> Conversion): (r: AdapterReport)
    ensures r == AdapterNotFound <==> adapter.None? || adapter.value == "" || adapter.value !in existing
    ensures r == MergeFailed <==>
              && adapter.Some? && adapter.value != "" && adapter.value in existing
              && MergedConfigPath(cacheRoot, base) !in existing && !mergeSucceeds
    ensures r.Exported? ==> (r.merged <==> MergedConfigPath(cacheRoot, base) !in existing)
    ensures r.Exported? ==> |r.outcomes| == |TargetQuants| == 2
    ensures r.Exported? ==> forall i :: 0 <= i < 2 ==>
              r.outcomes[i] == ConvertTarget(TargetQuants[i], base, tempBase, existing, convert(TargetQuants[i]))
  {
    if adapter.None? || adapter.value == "" || adapter.value !in existing then AdapterNotFound
    else
      var cached := MergedConfigPath(cacheRoot, base) in existing;
      if !cached && !mergeSucceeds then MergeFailed
      else
        ConvertTargetsIndependent(TargetQuants, base, tempBase, existing, convert);
        Exported(!cached, ConvertTargets(TargetQuants, base, tempBase, existing, convert))
  }

  /** Existing outputs are never overwritten, and at most one file is moved
      per target, always into that target's own output path. */
  lemma ExportNeverOverwrites(adapter: Option<string>, base: string, cacheRoot: string, tempBase: string,
                              existing: set<string>, mergeSucceeds: bool, convert: Quant -> Conversion)
    ensures var r := ConvertAdapterToGguf(adapter, base, cacheRoot, tempBase, existing, mergeSucceeds, convert);
            r.Exported? ==> forall i :: 0 <= i < |r.outcomes| && r.outcomes[i].Moved? ==>
              && r.outcomes[i].destination !in existing
              && r.outcomes[i].destination == OutputPath(base, TargetQuants[i].suffix)
  {
  }

  /** The two targets never move into the same place. */
  lemma ExportDestinationsDistinct(adapter: Option<string>, base: string, cacheRoot: string, tempBase: string,
                                   existing: set<string>, mergeSucceeds: bool, convert: Quant -> Conversion)
    ensures var r := ConvertAdapterToGguf(adapter, base, cacheRoot, tempBase, existing, mergeSucceeds, convert);
            r.Exported? && r.outcomes[0].Moved? && r.outcomes[1].Moved? ==>
              r.outcomes[0].destination != r.outcomes[1].destination
  {
    TargetPathsDistinct(base);
  }

  /** An adapter picked from a listing exists and is a non-empty path. */
  lemma ListedAdapterExists(baseDir: string, listing: seq<string>, existing: set<string>, adapter: Option<string>)
    requires baseDir != ""
    requires forall k :: 0 <= k < |listing| ==> PathJoin(baseDir, listing[k]) in existing
    requires FinalAdapter in listing ==> adapter == Some(PathJoin(baseDir, FinalAdapter))
    requires FinalAdapter !in listing && adapter.Some? ==>
               exists k :: 0 <= k < |listing| && adapter.value == PathJoin(baseDir, listing[k])
    ensures adapter.Some? ==> adapter.value in existing && adapter.value != ""
  {
    if FinalAdapter in listing {
      var k :| 0 <= k < |listing| && listing[k] == FinalAdapter;
      assert PathJoin(baseDir, listing[k]) in existing;
    }
  }

  const AdapterRoot := "outputs"
  const ExportBaseName := "verilog-llama-3-8b"

  /** The script's entry point: pick the adapter under "outputs" and export
      it, or report that there is none. The listing of "outputs" decides
      which adapter paths exist. */
  method ExportLatestAdapter(listing: seq<string>, cacheRoot: string, tempBase: string, existing: set<string>,
                             mergeSucceeds: bool, convert: Quant -> Conversion)
    returns (adapter: Option<string>, report: Option<AdapterReport>)
    requires FinalAdapter !in listing ==> StepsParse(AdapterRoot, listing)
    requires forall k :: 0 <= k < |listing| ==> PathJoin(AdapterRoot, listing[k]) in existing
    ensures IsLatest(AdapterRoot, listing, adapter)
    ensures adapter.None? ==> report.None?
    ensures adapter.Some? ==>
              report == Some(ConvertAdapterToGguf(adapter, ExportBaseName, cacheRoot, tempBase, existing, mergeSucceeds, convert))
    ensures report.None? <==> FinalAdapter !in listing && forall k :: 0 <= k < |listing| ==> !IsCheckpoint(listing[k])
    ensures report.Some? ==> report.value != AdapterNotFound
  {
    adapter := LatestCheckpoint(AdapterRoot, listing);
    if adapter.None? {
      return adapter, None;
    }
    ListedAdapterExists(AdapterRoot, listing, existing, adapter);
    report := Some(ConvertAdapterToGguf(adapter, ExportBaseName, cacheRoot, tempBase, existing, mergeSucceeds, convert));
  }

  // ---------------------------------------------------------------------
  // convert_model
  // ---------------------------------------------------------------------

  const ExportTempDir := "temp_gguf_export"
  const CandidateTag := "llama-3-8b"

  /** A file the search takes for the exported model. */
  predicate IsCandidate(name: string) {
    EndsWith(name, GgufExtension) && Contains(name, CandidateTag)
  }

  /** A directory searched, with its listing. */
  datatype SearchDir = SearchDir(path: string, names: seq<string>)

  /** A candidate's place: directory `dir`, entry `index` of its listing. */
  datatype Hit = Hit(dir: nat, index: nat)

  /** The nested search loop from directory `d` on: the first candidate of
      the first directory that has one. */
  function FindCandidate(dirs: seq<SearchDir>, d: nat): (r: Option<Hit>)
    requires d <= |dirs|
    ensures r.None? <==> forall e, i :: d <= e < |dirs| && 0 <= i < |dirs[e].names| ==> !IsCandidate(dirs[e].names[i])
    ensures r.Some? ==>
              && d <= r.value.dir < |dirs| && r.value.index < |dirs[r.value.dir].names|
              && IsCandidate(dirs[r.value.dir].names[r.value.index])
              && (forall e, j :: d <= e < r.value.dir && 0 <= j < |dirs[e].names| ==> !IsCandidate(dirs[e].names[j]))
              && (forall j :: 0 <= j < r.value.index ==> !IsCandidate(dirs[r.value.dir].names[j]))
    decreases |dirs| - d
  {
    if d == |dirs| then None
    else
      match FirstWhere(dirs[d].names, IsCandidate)
      case Some(i) => Some(Hit(d, i))
      case None => FindCandidate(dirs, d + 1)
  }

  /** How `convert_model` ended. `LoadRaised` is the one failure not caught
      inside it: loading happens before its `try`. */
  datatype ExportOutcome =
    | ExportSkipped
    | LoadRaised
    | SaveFailed
    | ExportMoved(source: string, destination: string)
    | NoCandidate

  /** `convert_model(adapter_path, output_name)`: `tempListing` and
      `cwdListing` are the two directories' contents after the conversion. */
  function ConvertModel(adapter: Option<string>, outputName: string, existing: set<string>,
                        loadSucceeds: bool, saveSucceeds: bool,
                        tempListing: seq<string>, cwd: string, cwdListing: seq<string>): (o: ExportOutcome)
    ensures o == ExportSkipped <==> adapter.None? || adapter.value == "" || adapter.value !in existing
    ensures o == LoadRaised <==> o != ExportSkipped && !loadSucceeds
    ensures o == SaveFailed <==> o != ExportSkipped && loadSucceeds && !saveSucceeds
    ensures o.ExportMoved? ==> o.destination == PathJoin(GgufModelsDir, outputName)
    ensures o.ExportMoved? ==>
              || (exists i :: 0 <= i < |tempListing| && IsCandidate(tempListing[i])
                              && (forall j :: 0 <= j < i ==> !IsCandidate(tempListing[j]))
                              && o.source == PathJoin(ExportTempDir, tempListing[i]))
              || (&& (forall j :: 0 <= j < |tempListing| ==> !IsCandidate(tempListing[j]))
                  && exists i :: 0 <= i < |cwdListing| && IsCandidate(cwdListing[i])
                                 && (forall j :: 0 <= j < i ==> !IsCandidate(cwdListing[j]))
                                 && o.source == PathJoin(cwd, cwdListing[i]))
    ensures o == NoCandidate <==>
              && o != ExportSkipped && loadSucceeds && saveSucceeds
              && (forall j :: 0 <= j < |tempListing| ==> !IsCandidate(tempListing[j]))
              && (forall j :: 0 <= j < |cwdListing| ==> !IsCandidate(cwdListing[j]))
  {
    if adapter.None? || adapter.value == "" || adapter.value !in existing then ExportSkipped
    else if !loadSucceeds then LoadRaised
    else if !saveSucceeds then SaveFailed
    else
      var dirs := [SearchDir(ExportTempDir, tempListing), SearchDir(cwd, cwdListing)];
      var found := FindCandidate(dirs, 0);
      assert dirs[0].names == tempListing && dirs[1].names == cwdListing;
      if found.None? then
        assert forall j :: 0 <= j < |tempListing| ==> !IsCandidate(tempListing[j]);
        assert forall j :: 0 <= j < |cwdListing| ==> !IsCandidate(cwdListing[j]);
        NoCandidate
      else
        var hit := found.value;
        if hit.dir == 0 then
          assert IsCandidate(tempListing[hit.index]);
          ExportMoved(PathJoin(ExportTempDir, tempListing[hit.index]), PathJoin(GgufModelsDir, outputName))
        else
          assert forall j :: 0 <= j < |tempListing| ==> !IsCandidate(tempListing[j]);
          assert IsCandidate(cwdListing[hit.index]);
          ExportMoved(PathJoin(cwd, cwdListing[hit.index]), PathJoin(GgufModelsDir, outputName))
  }

  /** What one `convert_model` call in the entry point sees. */
  datatype ExportEnv = ExportEnv(
    adapterListing: seq<string>,
    existing: set<string>,
    loadSucceeds: bool,
    saveSucceeds: bool,
    tempListing: seq<string>,
    cwd: string,
    cwdListing: seq<string>)

  /** The entry point's two jobs: adapter directory and output name. */
  const ExportJobs := [("outputs", "verilog-llama-3-8b.Q4_K_M.gguf"), ("outputs_mg", "verilog-llama-3-8b-mg.Q4_K_M.gguf")]

  /** No adapter to pick: neither `final_adapter` nor any checkpoint is listed. */
  predicate NoAdapter(listing: seq<string>) {
    FinalAdapter !in listing && forall j :: 0 <= j < |listing| ==> !IsCheckpoint(listing[j])
  }

  /** One job of the entry point: pick the adapter under `adapterRoot`, then
      `convert_model` it to `outputName`. */
  method ConvertJob(adapterRoot: string, outputName: string, env: ExportEnv)
    returns (adapter: Option<string>, o: ExportOutcome)
    requires adapterRoot != ""
    requires FinalAdapter !in env.adapterListing ==> StepsParse(adapterRoot, env.adapterListing)
    requires forall j :: 0 <= j < |env.adapterListing| ==> PathJoin(adapterRoot, env.adapterListing[j]) in env.existing
    ensures IsLatest(adapterRoot, env.adapterListing, adapter)
    ensures o == ConvertModel(adapter, outputName, env.existing, env.loadSucceeds, env.saveSucceeds,
                              env.tempListing, env.cwd, env.cwdListing)
    ensures o == ExportSkipped <==> NoAdapter(env.adapterListing)
    ensures o == LoadRaised <==> !NoAdapter(env.adapterListing) && !env.loadSucceeds
    ensures o.ExportMoved? ==> o.destination == PathJoin(GgufModelsDir, outputName)
  {
    adapter := LatestCheckpoint(adapterRoot, env.adapterListing);
    ListedAdapterExists(adapterRoot, env.adapterListing, env.existing, adapter);
    o := ConvertModel(adapter, outputName, env.existing, env.loadSucceeds, env.saveSucceeds,
                      env.tempListing, env.cwd, env.cwdListing);
  }

  /** What one job of the entry point promises: the adapter it picked and
      the outcome of converting it, as `ConvertJob` states them. */
  predicate JobDone(job: (string, string), env: ExportEnv, adapter: Option<string>, o: ExportOutcome) {
    && (FinalAdapter !in env.adapterListing ==> StepsParse(job.0, env.adapterListing))
    && IsLatest(job.0, env.adapterListing, adapter)
    && o == ConvertModel(adapter, job.1, env.existing, env.loadSucceeds, env.saveSucceeds,
                         env.tempListing, env.cwd, env.cwdListing)
    && (o == ExportSkipped <==> NoAdapter(env.adapterListing))
    && (o == LoadRaised <==> !NoAdapter(env.adapterListing) && !env.loadSucceeds)
    && (o.ExportMoved? ==> o.destination == PathJoin(GgufModelsDir, job.1))
  }

  /** The entry point: run the jobs in order; a load that raises ends the script. */
  method ConvertAll(envs: seq<ExportEnv>) returns (adapters: seq<Option<string>>, outcomes: seq<ExportOutcome>)
    requires |envs| == |ExportJobs|
    requires forall k :: 0 <= k < |envs| && FinalAdapter !in envs[k].adapterListing ==>
               StepsParse(ExportJobs[k].0, envs[k].adapterListing)
    requires forall k, j :: 0 <= k < |envs| && 0 <= j < |envs[k].adapterListing| ==>
               PathJoin(ExportJobs[k].0, envs[k].adapterListing[j]) in envs[k].existing
    ensures 1 <= |outcomes| <= |ExportJobs| && |adapters| == |outcomes|
    ensures forall k :: 0 <= k < |outcomes| ==> IsLatest(ExportJobs[k].0, envs[k].adapterListing, adapters[k])
    ensures forall k :: 0 <= k < |outcomes| ==>
              outcomes[k] == ConvertModel(adapters[k], ExportJobs[k].1, envs[k].existing, envs[k].loadSucceeds,
                                          envs[k].saveSucceeds, envs[k].tempListing, envs[k].cwd, envs[k].cwdListing)
    ensures forall k :: 0 <= k < |outcomes| ==>
              (outcomes[k] == LoadRaised <==> !NoAdapter(envs[k].adapterListing) && !envs[k].loadSucceeds)
    ensures forall k :: 0 <= k < |outcomes| - 1 ==> outcomes[k] != LoadRaised
    ensures |outcomes| < |ExportJobs| ==> outcomes[|outcomes| - 1] == LoadRaised
    ensures forall k :: 0 <= k < |outcomes| ==> (outcomes[k] == ExportSkipped <==> NoAdapter(envs[k].adapterListing))
    ensures forall k :: 0 <= k < |outcomes| ==>
              outcomes[k].ExportMoved? ==> outcomes[k].destination == PathJoin(GgufModelsDir, ExportJobs[k].1)
  {
    adapters, outcomes := [], [];
    var k := 0;
    while k < |ExportJobs|
      invariant k <= |ExportJobs| && |outcomes| == k && |adapters| == k
      invariant forall m :: 0 <= m < k ==> JobDone(ExportJobs[m], envs[m], adapters[m], outcomes[m])
      invariant forall m :: 0 <= m < k ==> outcomes[m] != LoadRaised
    {
      var job := ExportJobs[k];
      var adapter, o := ConvertJob(job.0, job.1, envs[k]);
      assert JobDone(job, envs[k], adapter, o);
      adapters, outcomes := adapters + [adapter], outcomes + [o];
      if o == LoadRaised {
        return;
      }
      k := k + 1;
    }
  }
}
