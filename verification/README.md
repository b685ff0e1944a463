# verilog-finetune: the decision logic, modelled in Dafny

This project models the small parts of the verilog-finetune scripts that make
decisions rather than call machine-learning libraries, and proves what those
parts promise:

- **Dataset curation** (`scripts/2_process_data.py`), module `Curation`. The
  rank filter `filter_high_quality` admits a PyraNet row when its JSON
  description has a `rank` that coerces to at least 18.
  `format_pyranet` and `format_synthetic` fill the three-slot Alpaca template
  and append `<|end_of_text|>`.
  `main` filters, maps, concatenates and shuffles.
- **Benchmark post-processing** (`scripts/4_benchmark.py`), module
  `Benchmark`. It covers:
  - `extract_verilog` exactly as written, together with a corrected version
    (see Findings);
  - the three-keyword `basic_syntax_check`;
  - per case: the status, summary record and written files;
  - the pass count.
- **Checkpoint selection** (`get_latest_checkpoint`), module `Checkpoints`.
  The function is defined identically in both conversion scripts. It prefers
  `final_adapter`, otherwise picks the `checkpoint-*` entry with the largest
  step, otherwise returns nothing.
- **GGUF output bookkeeping**, module `GgufExport`. This covers the merge
  decision, the two quantisation targets, skip-if-exists and the
  first-`.gguf`-wins move of `convert_adapter_to_gguf`. It also covers the
  two-directory candidate search of `convert_model` and both scripts' entry
  points.

The Python string operations these rely on are in module `Strings`:
`in`, `startswith`, `endswith`, `strip()`, `", ".join`, `split("-")[-1]`,
`int()` on digits and `os.path.join`. It also holds `FindFrom`, the left-to-right scan the regular-expression engine makes for the closing fence of the corrected pattern. `Wrappers` holds `Option`.

What the outside world contributes is passed in as data:
- what `json.loads` and `float()` made of a row (`Curation.Decoded`,
  `Curation.FloatCoercion`);
- the inference CLI's reply for each prompt;
- directory listings, in `os.listdir` order;
- the set of paths that exist;
- whether each library call (merge, load, conversion) raised, and what it
  left in a directory;
- the permutation the seeded shuffle picks, as a sequence of transpositions.

## Model

| member | source | states |
|---|---|---|
| Curation.Admit | scripts/2_process_data.py:20-47 | The filter never raises and rejects a non-string description, malformed JSON and non-object JSON. A missing rank, a non-numeric rank, NaN and a too-large integer are rejected. A finite rank is admitted iff it is at least 18.0, and an infinite one iff it is positive. |
| Curation.Render | scripts/2_process_data.py:66 | The text starts with the template preamble, ends with `<\|end_of_text\|>`, has the instruction right after the preamble and the output right before the sentinel, and its length is the sum of the parts. |
| Curation.RenderSlotsRoundTrip | scripts/2_process_data.py:8-17 | Reading the three slots back out of a rendered text gives exactly the instruction, context and output that were filled in. |
| Curation.PyraNetInstruction | scripts/2_process_data.py:53-64 | The instruction is never empty. A truthy parsed description gives exactly its `str()` rendering, so a non-empty string is used verbatim. Any instruction other than the fallback comes from a truthy parsed description. A non-string column or a non-object JSON value gives exactly the fallback sentence. |
| Curation.FormatPyraNet | scripts/2_process_data.py:50-67 | The text ends with the sentinel and contains the code verbatim. |
| Curation.FormatPyraNetSlots | scripts/2_process_data.py:50-67 | A PyraNet record reads back as (instruction, "", code). |
| Curation.FormatSynthetic | scripts/2_process_data.py:69-74 | The text ends with the sentinel and contains `rtl` verbatim. |
| Curation.FormatSyntheticSlots | scripts/2_process_data.py:69-74 | No fallback: a synthetic record reads back as (`evolved_nl`, "", `rtl`) unchanged. |
| Curation.Filter | scripts/2_process_data.py:89 | Every kept row is admitted, every admitted row is kept, and the kept rows are a sub-multiset of the input. |
| Curation.FilterCount | scripts/2_process_data.py:89-90 | The filtered dataset has exactly as many rows as the filter admits. |
| Curation.FilterRows | scripts/2_process_data.py:89 | The row-by-row filter loop yields the filtered rows, as many as are admitted. |
| Curation.MapRows | scripts/2_process_data.py:95-100 | The `map` loop gives one record per row, in order, each the row's formatting. |
| Curation.Assemble | scripts/2_process_data.py:89-105 | The concatenated corpus has (admitted PyraNet rows) + (synthetic rows) records, each ending with the sentinel. |
| Curation.Shuffle | scripts/2_process_data.py:106 | Shuffling keeps the length and the multiset of records. |
| Curation.Unshuffled | scripts/2_process_data.py:89-105 | The reference corpus before shuffling: the formatted admitted PyraNet rows, in order, followed by the formatted synthetic rows. |
| Curation.ProcessData | scripts/2_process_data.py:84-110 | Nothing is saved iff the PyraNet split is empty, because the retention ratio divides by its size (line 92). Otherwise the saved corpus is a permutation of the formatted admitted rows followed by the formatted synthetic rows. Its size is the admitted count plus the synthetic count, and every text is non-empty and ends with the sentinel. |
| Curation.NotGateExample | scripts/2_process_data.py:40-66 | A rank-20 row with description "Build a NOT gate" is admitted, and its text contains the description and the code and ends with the sentinel. |
| Curation.LowRankExcluded | scripts/2_process_data.py:40-47 | A rank-5 row is filtered out. |
| Strings.Strip | scripts/4_benchmark.py:54 | The result is no longer than the input and neither starts nor ends with whitespace. |
| Strings.TrimStartSplits | scripts/4_benchmark.py:54 | `lstrip()` removes a prefix of the input made only of whitespace, and keeps the rest unchanged. |
| Strings.TrimEndSplits | scripts/4_benchmark.py:54 | `rstrip()` removes a suffix of the input made only of whitespace, and keeps the rest unchanged. |
| Strings.StripIsStrip | scripts/4_benchmark.py:54 | `strip()` returns a part of its input flanked only by whitespace, and the part neither starts nor ends with whitespace. |
| Strings.StripUnique | scripts/4_benchmark.py:54 | Only one part of a string has those properties, so they define `strip()`. |
| Strings.StripIgnoresPadding | scripts/4_benchmark.py:50-54 | Whitespace added on either side of a string does not change its strip. |
| Strings.PathJoin | scripts/4_bulk_convert_gguf.py:85 | `os.path.join` of two components: an absolute second component or an empty first one replaces the result, and a "/" is inserted unless the first already ends with one. Its properties are stated by Strings.PathJoinAbsolute and Strings.PathJoinInjective. |
| Strings.Join | scripts/4_benchmark.py:68 | `sep.join(parts)`: the parts in order with `sep` between neighbours, "" for no parts. |
| Strings.DigitsValue | scripts/4_bulk_convert_gguf.py:27 | `int()` on a string of ASCII decimal digits: the decimal value, read most significant digit first. |
| Strings.AfterLast | scripts/4_bulk_convert_gguf.py:27 | `split("-")[-1]` is a suffix without "-", and it is preceded by "-" whenever it is not the whole string. |
| Strings.AfterLastUnique | scripts/4_bulk_convert_gguf.py:27 | Only one suffix has those three properties, so they define `split("-")[-1]`. |
| Benchmark.ExtractVerilog | scripts/4_benchmark.py:44-56 | As written: any reply containing a fence gives "". Without a fence, a reply mentioning "endmodule" gives its strip, and any other reply gives "". A non-empty result always contains "endmodule". |
| Benchmark.EndmoduleMentionsModule | scripts/4_benchmark.py:53 | A text containing "endmodule" contains "module", so the fallback's first test is implied by its second. |
| Benchmark.ExtractFenced | scripts/4_benchmark.py:46-47 | The corrected extractor, with the closing fence restored, agrees with the code as written on every reply without a fence. |
| Benchmark.FencedAtBlock | scripts/4_benchmark.py:46-50 | Once past an opening fence whose block closes with the next fence, the corrected pattern captures the block's text, without a leading `verilog` tag, stripped. |
| Benchmark.ExtractFencedBody | scripts/4_benchmark.py:46-50 | For any reply whose first fenced block is its first fence pair, the corrected extractor returns exactly that block's text, stripped. This holds with or without the `verilog` tag, whatever whitespace follows the fence, and for an empty or all-whitespace body. |
| Benchmark.ExtractVerilogFenced | scripts/4_benchmark.py:47-50 | As written, any reply holding a fenced block extracts to "", whatever the block and the text around it hold. |
| Benchmark.SyntaxIssues | scripts/4_benchmark.py:60-66 | Each of the three messages is reported iff its keyword is absent. Nothing else is reported, in the fixed order module, endmodule, semicolon. |
| Benchmark.MissingModuleImpliesMissingEndmodule | scripts/4_benchmark.py:61-64 | "Missing 'module'" is never reported without "Missing 'endmodule'". |
| Benchmark.SyntaxCheck | scripts/4_benchmark.py:58-68 | "PASS" iff the code contains "module", "endmodule" and ";". Otherwise "FAIL: " followed by the issues joined by ", ". Never "NO_CODE". |
| Benchmark.ExtractedCodeKeywords | scripts/4_benchmark.py:53-64 | A non-empty extraction's check reports nothing or only the missing semicolons. |
| Benchmark.CaseFile | scripts/4_benchmark.py:90-97 | A case's file is `benchmark_results/<id><extension>`: it starts with the output directory and a "/", and ends with the extension. |
| Benchmark.Transcript | scripts/4_benchmark.py:90-92 | The transcript goes to `<id>.md` and holds "# Prompt", the prompt, a blank line, "# Raw Output" and the raw reply. |
| Benchmark.CaseFileInjective | scripts/4_benchmark.py:90-97 | Two different case ids never give the same file path for the same extension. |
| Benchmark.BenchmarkIdsDistinct | scripts/4_benchmark.py:12-32 | The twelve benchmark ids are pairwise different. |
| Benchmark.CaseFilesDistinct | scripts/4_benchmark.py:90-97 | Two cases with different ids never write to the same file, whether transcript or Verilog file. |
| Benchmark.SuiteFilesDistinct | scripts/4_benchmark.py:12-32 | Over the twelve benchmarks, run as in lines 90-97, no case overwrites a file another case wrote. |
| Benchmark.RunCase | scripts/4_benchmark.py:84-107 | Status is "NO_CODE" iff the extracted code is empty, and otherwise the syntax check of the code. `has_code` is non-emptiness and `length` is the code length. The transcript is always written, and the `.v` file holding the code is written only when there is code. |
| Benchmark.CountPass | scripts/4_benchmark.py:112 | The pass count never exceeds the number of summary entries. |
| Benchmark.Summary | scripts/4_benchmark.py:78-107 | One summary entry per benchmark, in benchmark order, each that case's record. |
| Benchmark.RunSuite | scripts/4_benchmark.py:80-114 | The run yields that summary and a pass count equal to the number of "PASS" entries, at most the number of benchmarks. |
| Benchmark.CountPasses | scripts/4_benchmark.py:112 | The summing loop counts exactly the "PASS" entries. |
| Benchmark.FencedRepliesNeverPass | scripts/4_benchmark.py:94-112 | As written, if every reply uses a fence then every case is NO_CODE and none passes. |
| Benchmark.NoPassWithoutCode | scripts/4_benchmark.py:112 | A summary whose entries are all NO_CODE has pass count 0. |
| Benchmark.SampleReplyAsWritten | scripts/4_benchmark.py:47-50 | A typical fenced reply holding a complete module extracts to "" and its case is NO_CODE. |
| Benchmark.FencedModulePasses | scripts/4_benchmark.py:46-68 | With the corrected extractor, a reply whose first fenced block mentions "endmodule" and ";" extracts to the block's stripped text and its case is "PASS", tagged or not. |
| Checkpoints.StepText | scripts/4_bulk_convert_gguf.py:20-27 | The text the sort key converts: the globbed path `<base_dir>/<name>` after its last "-". |
| Checkpoints.Key | scripts/4_bulk_convert_gguf.py:20-27 | An entry has a sort key iff it is a `checkpoint-*` entry; the key is the `int()` of its step text. |
| Checkpoints.StepTextOfName | scripts/4_bulk_convert_gguf.py:20-27 | The sort key of a globbed `checkpoint-*` path depends only on the entry's own name, never on the base directory. |
| Checkpoints.LastOfLargestUnique | scripts/4_bulk_convert_gguf.py:27-28 | At most one entry is the last among those with the largest step, so that property names the element that a stable ascending sort puts last. |
| Checkpoints.ScanLatest | scripts/bulk_convert_gguf.py:22-24 | The scan finds the stable sort's last checkpoint, and finds none iff there are no checkpoints. |
| Checkpoints.IsLatest | scripts/4_bulk_convert_gguf.py:19-28 | The reference specification of `get_latest_checkpoint`: `final_adapter` when listed, otherwise none when no checkpoint is listed, otherwise the checkpoint a stable ascending sort by step puts last. |
| Checkpoints.LatestUnique | scripts/4_bulk_convert_gguf.py:19-28 | The promise of `get_latest_checkpoint` names one result for every listing. |
| Checkpoints.LatestCheckpoint | scripts/4_bulk_convert_gguf.py:19-28 | `final_adapter` wins whenever it is listed, whatever the checkpoint names; steps are only needed when it is absent. Otherwise the result is a listed checkpoint with maximal step, the last such one in listing order. The result is `None` iff there is neither. |
| GgufExport.FirstWhere | scripts/4_bulk_convert_gguf.py:119-125 | The first name the test accepts, with none before it, or none at all. |
| GgufExport.OutputFileName | scripts/4_bulk_convert_gguf.py:84 | `<base>.<SUFFIX>.gguf`: the base, a dot, the suffix, then the extension. |
| GgufExport.OutputPath | scripts/4_bulk_convert_gguf.py:85 | A target's output path ends with its file name `<base>.<SUFFIX>.gguf`. |
| GgufExport.OutputPathInjective | scripts/4_bulk_convert_gguf.py:84-85 | Different suffixes never give the same output path. |
| GgufExport.TargetPathsDistinct | scripts/4_bulk_convert_gguf.py:77-85 | The Q4_K_M and Q3_K_M targets have different output paths for every base name. |
| GgufExport.MergedConfigPath | scripts/4_bulk_convert_gguf.py:45-47 | The path whose existence decides the merge: `config.json` in `<cache>/merged_models/<base>-fp16`. |
| GgufExport.MoveFirstGguf | scripts/4_bulk_convert_gguf.py:118-128 | After a conversion, either nothing is moved and no listed name ends in `.gguf`, or exactly one file is moved to the target path: the first listed `.gguf`. |
| GgufExport.ConvertTarget | scripts/4_bulk_convert_gguf.py:83-131 | A target is skipped iff its output path exists. Otherwise a failed conversion is reported, or no `.gguf` was produced, or exactly one file is moved: the first `.gguf` listed in the target's temporary directory, moved to a path that did not exist. |
| GgufExport.ConvertTargets | scripts/4_bulk_convert_gguf.py:83-138 | One outcome per target, in order. Each target is decided on the paths that existed plus the files earlier targets moved; that a target's outcome does not depend on the others is stated by GgufExport.ConvertTargetsIndependent. |
| GgufExport.ConvertTargetIgnoresOther | scripts/4_bulk_convert_gguf.py:87 | A file appearing at another path does not change a target's outcome. |
| GgufExport.ConvertTargetsIndependent | scripts/4_bulk_convert_gguf.py:83-89 | With distinct suffixes, a file moved by one target never decides a later target's skip. |
| GgufExport.ConvertAdapterToGguf | scripts/4_bulk_convert_gguf.py:30-89 | A missing, empty or non-existent adapter path returns early. The merge runs iff the cached `config.json` is absent, and its failure stops the export. Otherwise exactly the two targets are processed in order, each as it would be alone. |
| GgufExport.ExportNeverOverwrites | scripts/4_bulk_convert_gguf.py:87-89 | No move ever targets a path that existed, and each target moves only into its own output path. |
| GgufExport.ExportDestinationsDistinct | scripts/4_bulk_convert_gguf.py:77-122 | The two targets never move into the same file. |
| GgufExport.ListedAdapterExists | scripts/4_bulk_convert_gguf.py:158-160 | An adapter picked from a listing exists and is a non-empty path, so it passes the early-return test. |
| GgufExport.ExportLatestAdapter | scripts/4_bulk_convert_gguf.py:157-162 | The entry point picks the latest adapter under `outputs`. It converts iff one is found, the report is exactly that adapter's conversion, and a found adapter is never reported as missing. |
| GgufExport.IsCandidate | scripts/bulk_convert_gguf.py:63 | A file is a candidate iff its name ends in `.gguf` and contains `llama-3-8b`. |
| GgufExport.FindCandidate | scripts/bulk_convert_gguf.py:59-72 | The directories are searched in order. The result is the first candidate of the first directory that has one, or none iff no directory has a candidate. |
| GgufExport.ConvertModel | scripts/bulk_convert_gguf.py:26-80 | A missing adapter skips, and a load failure escapes. A failed save is caught. A candidate must end in `.gguf` and contain `llama-3-8b`. The temporary directory's first candidate wins, and the working directory is searched only when the temporary directory has none. The destination is always `gguf_models/<output_name>`. |
| GgufExport.ConvertJob | scripts/bulk_convert_gguf.py:84-85 | A job picks the latest adapter of its directory and its outcome is exactly that adapter's conversion. It skips iff the directory lists neither `final_adapter` nor a checkpoint. A load failure escapes iff an adapter was found and its load fails. A move always targets the job's output name. |
| GgufExport.ConvertAll | scripts/bulk_convert_gguf.py:82-89 | Both jobs run in order unless the first one's load raises. Each job picks its latest adapter and its outcome is that adapter's conversion. A job raises iff it has an adapter whose load fails, skips iff its directory has no adapter, and every move targets that job's own output name. |

## Left out

- Training (`scripts/3_train_from_local.py`), guided generation (`scripts/6_guided_generation.py`) and dataset inspection (`scripts/1_inspect_data.py`): model training, an external CLI call, printing and file writes (saved adapters, a GGUF file, a `.v` file), with no decision logic of their own.
- `run_ollama`: the subprocess call is replaced by the reply it returns, given as input. A call that exits with a non-zero status returns "", which the model covers.
- `Benchmark.RunSuite`: a `run_ollama` failure other than a non-zero exit is not modelled. A missing `ollama` binary (`FileNotFoundError`) or output that cannot be decoded as text (`UnicodeDecodeError`) escapes `main` at the first case, so no summary is written and no pass count is printed. The model always yields a summary.
- `json.loads` and `float()`: their outcomes are inputs. A non-string column holding `bytes`, which `json.loads` would accept, is treated like any other non-string value.
- `Dataset.shuffle(seed=3407)`: the generator is not modelled. The permutation is given as transpositions, and only the multiset and count are proved.
- `Curation.Shuffle`: states a permutation, not which one the seeded generator picks.
- `Checkpoints.LatestCheckpoint`: when `final_adapter` is not listed, requires every checkpoint's step text to be ASCII digits. `int()`, which is only reached in that case, also accepts signs, whitespace, underscores and non-ASCII digits, and raises on anything else; neither is modelled.
- File-system effects are not modelled: directory creation and removal, `shutil.move`, writing `.md`/`.v`/`summary.json`, and saving the dataset. A move is assumed to succeed. Existence checks and listings are inputs.
- `GgufExport.ConvertTarget`: an exception raised by `shutil.move` inside the per-target `try` is not modelled. It would be reported like a failed conversion.
- Cache-directory environment variables, `gc.collect()`, CUDA cache calls, timing and console output.
- Model loading, merging and GGUF conversion: only whether they raise, and what they leave in a directory, are inputs.
- The `quantization` parameter of `convert_model` is always its default at the call sites, so it is not a parameter of the model.

## Findings

| source | as written | input that shows it | evidently intended | confidence | as-written member | corrected member |
|---|---|---|---|---|---|---|
| scripts/4_benchmark.py:47 | The pattern is a fence (three backticks), an optional "verilog", `\s*` and a lazy group `(.*?)`, followed by an adjacent empty string literal. Nothing closes the group, so it always captures "" and every reply containing a fence extracts to "" (status NO_CODE). | A reply made of "Here is the module:", a newline, a fence tagged "verilog", a one-line inverter module ending in "endmodule", and a closing fence extracts to "". | The same pattern followed by a closing fence (the comment at line 46), returning the stripped body of the first fenced block. | not executed | Benchmark.ExtractVerilog (exhibited by Benchmark.SampleReplyAsWritten and Benchmark.ExtractVerilogFenced) | Benchmark.ExtractFenced (proved by Benchmark.ExtractFencedBody and Benchmark.FencedModulePasses) |

The benchmark run (`Benchmark.RunCase`, `Benchmark.RunSuite`) takes the
extractor as a parameter. `Benchmark.FencedRepliesNeverPass` states what the
code as written does to a whole run. `Benchmark.FencedModulePasses` states
what the corrected extractor does.
