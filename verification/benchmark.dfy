/**
  Benchmark post-processing (scripts/4_benchmark.py): extracting Verilog from
  a model reply, the three-keyword structure check, and the per-case status,
  summary record, written files and pass count of the benchmark run.

  The reply of the inference CLI for each prompt is an input: the model does
  not run a subprocess.
 */
module Benchmark {
  import opened Wrappers
  import opened Strings

  const OutputDir := "benchmark_results"

  datatype Bench = Bench(id: string, prompt: string)

  /** The ids of the twelve benchmark cases, levels 1 to 4, in run order. */
  const BenchmarkIds: seq<string> := [
    "L1_01_Mux2to1",
    "L1_02_Comparator",
    "L1_03_PriorityEnc",
    "L2_01_BCDCounter",
    "L2_02_EdgeDetect",
    "L2_03_UnivShiftReg",
    "L3_01_SeqDetect",
    "L3_02_TrafficLight",
    "L3_03_SatAdder",
    "L4_01_DualPortRAM",
    "L4_02_ClockDiv",
    "L4_03_UART_Tx"
  ]

  /** The prompt of each case, in the same order. */
  const BenchmarkPrompts: seq<string> := [
    "Write a 2-to-1 multiplexer in Verilog. Inputs: a, b, sel. Output: y. Use a continuous assignment (assign).",
    "Write a module that compares two 4-bit numbers A and B. Output a single bit 'equal' which is high if they are the same.",
    "Implement a 4-to-2 priority encoder in Verilog. If multiple bits are high, the highest index bit should take priority. Include a 'valid' output.",
    "Design a 4-bit BCD (Binary Coded Decimal) counter. It should count from 0 to 9 and then wrap around to 0. Inputs: clk, reset (synchronous).",
    "Write a module that detects the rising edge of an input signal 'in'. Output a pulse 'edge_detected' for exactly one clock cycle.",
    "Create an 8-bit shift register with modes: 00: Hold, 01: Shift Right, 10: Shift Left, 11: Load Parallel Data. Use a 2-bit 'mode' input.",
    "Design a Moore-type FSM to detect the sequence '1101'. Output 'found' should be high when the sequence is detected. Use localparam for state definitions.",
    "Write a simplified traffic light controller for a crossroad. States: Green (10 cycles), Yellow (2 cycles), Red (10 cycles). Use a 'timer' counter internally.",
    "Implement an 8-bit signed adder. If the result overflows, saturate it to the maximum or minimum possible value (clipping) instead of wrapping around.",
    "Write a Verilog module for a dual-port RAM. Parameters: DATA_WIDTH (default 8), ADDR_WIDTH (default 4). Port A is write-only, Port B is read-only.",
    "Create a clock divider that takes a 50MHz input clock and produces a 1Hz output clock. Use parameters for the division ratio calculation.",
    "Design a module that takes an 8-bit byte and formats it into a UART frame: 1 start bit (low), 8 data bits, and 1 stop bit (high). Output the serial data bit by bit."
  ]

  /** The twelve benchmark cases. */
  const Benchmarks: seq<Bench> :=
    seq(|BenchmarkIds|, k requires 0 <= k < |BenchmarkIds| => Bench(BenchmarkIds[k], BenchmarkPrompts[k]))

  const Fence := "```"
  /** A fence without its last backtick: what must follow a stretch of text
      for a fence to start inside it. */
  const FenceHead := "``"
  const LanguageTag := "verilog"

  /** `extract_verilog` as written. Its pattern has no closing fence (the
      intended closing ``` became an empty string literal next to the raw
      string), so its lazy group always captures the empty string: any reply
      with a fence extracts to "". Without a fence, a reply mentioning both
      keywords is returned stripped. */
  function ExtractVerilog(text: string): (code: string)
    ensures Contains(text, Fence) ==> code == ""
    ensures !Contains(text, Fence) && Contains(text, "endmodule") ==> IsStripOf(text, code)
    ensures !Contains(text, "endmodule") ==> code == ""
    ensures code != "" ==> Contains(code, "endmodule")
  {
    EndmoduleMentionsModule(text);
    if Contains(text, Fence) then Strip("")  // the first (always empty) capture, stripped
    else if Contains(text, "module") && Contains(text, "endmodule") then
      StripKeepsWord(text, "endmodule");
      StripIsStrip(text);
      Strip(text)
    else ""
  }

  /** "endmodule" contains "module", so the fallback's first test never
      decides anything the second does not. */
  lemma EndmoduleMentionsModule(s: string)
    ensures Contains(s, "endmodule") ==> Contains(s, "module")
  {
    if Contains(s, "endmodule") {
      var i :| 0 <= i <= |s| - |"endmodule"| && OccursAt(s, "endmodule", i);
      assert s[i + 3..i + 9] == s[i..i + 9][3..] == "module";
      ContainsAt(s, "module", i + 3);
    }
  }

  /** After the opening fence at `i`: skip an immediate "verilog" tag. */
  function AfterTag(text: string, i: nat): (p: nat)
    requires i <= |text|
    ensures i <= p <= |text|
  {
    if StartsWith(text[i..], LanguageTag) then i + |LanguageTag| else i
  }

  /** The first offset at or after `p` that is not whitespace (or the end). */
  function SkipSpace(text: string, p: nat): (q: nat)
    requires p <= |text|
    ensures p <= q <= |text|
    ensures q < |text| ==> !IsSpace(text[q])
    decreases |text| - p
  {
    if p < |text| && IsSpace(text[p]) then SkipSpace(text, p + 1) else p
  }

  /** What `\s*` skips is whitespace. */
  lemma {:induction false} SkipSpaceSkipsSpace(text: string, p: nat)
    requires p <= |text|
    ensures AllSpace(text[p..SkipSpace(text, p)])
    decreases |text| - p
  {
    if p < |text| && IsSpace(text[p]) {
      var q := SkipSpace(text, p);
      SkipSpaceSkipsSpace(text, p + 1);
      assert text[p..q] == [text[p]] + text[p + 1..q];
    }
  }

  /** What `extract_verilog` evidently intends: the pattern with its closing
      fence, "```(?:verilog)?\s*(.*?)```" under DOTALL. The first match starts
      at the first fence: if that one has no closing fence after it, no later
      one has either, and the keyword fallback applies. */
  function ExtractFenced(text: string): (code: string)
    ensures !Contains(text, Fence) ==> code == ExtractVerilog(text)
  {
    match FindFrom(text, Fence, 0)
    case None => ExtractVerilog(text)
    case Some(open) => FencedAt(text, open)
  }

  /** Where the corrected pattern's capture starts, after the fence at `open`:
      past an immediate "verilog" tag and then past any whitespace. */
  function CaptureStart(text: string, open: nat): (start: nat)
    requires open + |Fence| <= |text|
    ensures open + |Fence| <= start <= |text|
  {
    SkipSpace(text, AfterTag(text, open + |Fence|))
  }

  /** The corrected extractor once its first fence is found at `open`: the
      stripped capture up to the next fence, or, with no closing fence, the
      keyword fallback. */
  function FencedAt(text: string, open: nat): (code: string)
    requires open + |Fence| <= |text|
  {
    var start := CaptureStart(text, open);
    match FindFrom(text, Fence, start)
    case Some(close) => Strip(text[start..close])
    case None =>
      if Contains(text, "module") && Contains(text, "endmodule") then Strip(text) else ""
  }

  /** A reply holding one fenced block: `before`, a fence, the block's
      `inner` text (with its "verilog" tag, if any), a fence, and `after`. */
  function Block(before: string, inner: string, after: string): string {
    before + Fence + inner + Fence + after
  }

  /** The part of a block's inner text the corrected pattern looks at after
      its optional tag: `(?:verilog)?` is greedy, so a leading tag is skipped. */
  function Untagged(inner: string): string {
    if StartsWith(inner, LanguageTag) then inner[|LanguageTag|..] else inner
  }

  /** No fence starts inside `s`, counting one that would run on into a
      fence right after `s`. */
  predicate NoFenceStartsIn(s: string) {
    !Contains(s + FenceHead, Fence)
  }

  lemma BlockLayout(before: string, inner: string, after: string)
    ensures var text := Block(before, inner, after);
            var n := |before|;
            var c := n + |Fence| + |inner|;
            && |text| == c + |Fence| + |after|
            && text[0..n + |FenceHead|] == before + FenceHead
            && OccursAt(text, Fence, n)
            && text[n + |Fence|..c + |FenceHead|] == inner + FenceHead
            && OccursAt(text, Fence, c)
  {
    var text := Block(before, inner, after);
    var n := |before|;
    var c := n + |Fence| + |inner|;
    assert text == before + Fence + inner + Fence + after;
    assert forall k :: n <= k < n + |Fence| ==> text[k] == '`';
    assert forall k :: c <= k < c + |Fence| ==> text[k] == '`';
    assert forall k :: n + |Fence| <= k < c ==> text[k] == inner[k - n - |Fence|];
  }

  /** A stretch of `text` starting at `from` and then running into a fence
      holds no fence start of its own when `seg` holds none. */
  lemma FenceFreeRun(text: string, from: nat, seg: string)
    requires from + |seg| + |FenceHead| <= |text| && text[from..from + |seg| + |FenceHead|] == seg + FenceHead
    requires NoFenceStartsIn(seg)
    ensures forall j :: from <= j < from + |seg| ==> !OccursAt(text, Fence, j)
  {
    forall j | from <= j < from + |seg| ensures !OccursAt(text, Fence, j) {
      SliceOfSlice(text, from, from + |seg| + |FenceHead|, j, |Fence|);
      assert !OccursAt(seg + FenceHead, Fence, j - from);
    }
  }

  /** The optional tag of a block's inner text is recognised in place: the
      pattern resumes where `Untagged(inner)` starts. */
  lemma TagSkipped(text: string, i: nat, inner: string)
    requires i + |inner| < |text| && text[i..i + |inner|] == inner && text[i + |inner|] == '`'
    ensures AfterTag(text, i) + |Untagged(inner)| == i + |inner|
    ensures text[AfterTag(text, i)..i + |inner|] == Untagged(inner)
  {
    if |inner| >= |LanguageTag| {
      assert text[i..][..|LanguageTag|] == inner[..|LanguageTag|];
      assert text[i + |LanguageTag|..i + |inner|] == inner[|LanguageTag|..];
    } else {
      assert !StartsWith(inner, LanguageTag);
      assert text[i..][|inner|] == '`';
      assert forall k :: 0 <= k < |LanguageTag| ==> LanguageTag[k] != '`';
      assert !StartsWith(text[i..], LanguageTag);
    }
  }

  /** The whitespace the pattern's `\s*` skips is whitespace `strip()`
      would drop anyway. */
  lemma SkipSpaceStrip(text: string, p: nat, c: nat, u: string, start: nat)
    requires p <= c < |text| && !IsSpace(text[c]) && text[p..c] == u
    requires start == SkipSpace(text, p)
    ensures start <= c
    ensures Strip(text[start..c]) == Strip(u)
  {
    SkipSpaceSkipsSpace(text, p);
    assert start <= c;
    assert u == text[p..start] + text[start..c] + "";
    StripIgnoresPadding(text[p..start], text[start..c], "");
  }

  /** `\s*` stops at the first character that is not whitespace. */
  lemma {:induction false} SkipSpaceStops(text: string, p: nat, c: nat)
    requires p <= c < |text| && !IsSpace(text[c])
    ensures SkipSpace(text, p) <= c
    decreases c - p
  {
    if p < c && IsSpace(text[p]) {
      SkipSpaceStops(text, p + 1, c);
    }
  }

  /** `inner` followed by the head of a fence, read back at `i`. */
  lemma InnerThenFence(text: string, i: nat, inner: string)
    requires i + |inner| + |FenceHead| <= |text| && text[i..i + |inner| + |FenceHead|] == inner + FenceHead
    ensures text[i..i + |inner|] == inner && text[i + |inner|] == '`'
  {
    var run := text[i..i + |inner| + |FenceHead|];
    assert text[i..i + |inner|] == run[..|inner|];
    assert text[i + |inner|] == run[|inner|];
  }

  /** After a fence at `open` that opens `inner`, the capture starts within `inner`. */
  lemma CaptureWithin(text: string, open: nat, inner: string)
    requires open + |Fence| + |inner| + |FenceHead| <= |text|
    requires text[open + |Fence|..open + |Fence| + |inner| + |FenceHead|] == inner + FenceHead
    ensures CaptureStart(text, open) <= open + |Fence| + |inner|
  {
    var i := open + |Fence|;
    var c := i + |inner|;
    InnerThenFence(text, i, inner);
    TagSkipped(text, i, inner);
    SkipSpaceStops(text, AfterTag(text, i), c);
  }

  /** What the capture runs to the end of `inner` strips to the stripped
      untagged text. */
  lemma CaptureStripped(text: string, open: nat, inner: string, start: nat)
    requires open + |Fence| + |inner| + |FenceHead| <= |text|
    requires text[open + |Fence|..open + |Fence| + |inner| + |FenceHead|] == inner + FenceHead
    requires start == CaptureStart(text, open) <= open + |Fence| + |inner|
    ensures Strip(text[start..open + |Fence| + |inner|]) == Strip(Untagged(inner))
  {
    assert |Fence| == 3 && |FenceHead| == 2;
    var i := open + |Fence|;
    InnerThenFence(text, i, inner);
    TagSkipped(text, i, inner);
    SkipSpaceStrip(text, AfterTag(text, i), i + |inner|, Untagged(inner), start);
  }

  /** Once the capture's start and closing fence are known, `FencedAt`
      returns the capture stripped. */
  lemma FencedAtIs(text: string, open: nat, start: nat, close: nat, code: string)
    requires open + |Fence| <= |text| && CaptureStart(text, open) == start <= close <= |text|
    requires FindFrom(text, Fence, start) == Some(close) && Strip(text[start..close]) == code
    ensures FencedAt(text, open) == code
  {
  }

  /** A fence at the end of `seg`, preceded from `from` on by a stretch where
      no fence starts, is the first fence found from anywhere in that stretch. */
  lemma FenceFoundAt(text: string, from: nat, seg: string, start: nat)
    requires from + |seg| + |Fence| <= |text| && text[from..from + |seg| + |FenceHead|] == seg + FenceHead
    requires OccursAt(text, Fence, from + |seg|) && NoFenceStartsIn(seg)
    requires from <= start <= from + |seg|
    ensures FindFrom(text, Fence, start) == Some(from + |seg|)
  {
    FenceFreeRun(text, from, seg);
    FindFromIs(text, Fence, start, from + |seg|);
  }

  /** The corrected extractor, once past its first fence, on a block whose
      next fence closes `inner`: the capture is `inner` untagged, stripped. */
  lemma FencedAtBlock(text: string, open: nat, inner: string)
    requires open + |Fence| + |inner| + |Fence| <= |text|
    requires text[open + |Fence|..open + |Fence| + |inner| + |FenceHead|] == inner + FenceHead
    requires OccursAt(text, Fence, open + |Fence| + |inner|) && NoFenceStartsIn(inner)
    ensures FencedAt(text, open) == Strip(Untagged(inner))
  {
    var start := CaptureStart(text, open);
    CaptureWithin(text, open, inner);
    FenceFoundAt(text, open + |Fence|, inner, start);
    CaptureStripped(text, open, inner, start);
    FencedAtIs(text, open, start, open + |Fence| + |inner|, Strip(Untagged(inner)));
  }

  /** The corrected extractor returns exactly the stripped text of a reply's
      first fenced block, tagged "verilog" or bare, whatever whitespace and
      content the block holds. */
  lemma ExtractFencedBody(before: string, inner: string, after: string)
    requires NoFenceStartsIn(before) && NoFenceStartsIn(inner)
    ensures ExtractFenced(Block(before, inner, after)) == Strip(Untagged(inner))
  {
    var text := Block(before, inner, after);
    BlockLayout(before, inner, after);
    FenceFoundAt(text, 0, before, 0);
    FencedAtBlock(text, |before|, inner);
  }

  /** As written, a reply holding a fenced block extracts to nothing. */
  lemma ExtractVerilogFenced(before: string, inner: string, after: string)
    ensures ExtractVerilog(Block(before, inner, after)) == ""
  {
    BlockLayout(before, inner, after);
    ContainsAt(Block(before, inner, after), Fence, |before|);
  }

  const MissingModule := "Missing 'module' keyword"
  const MissingEndmodule := "Missing 'endmodule' keyword"
  const NoSemicolons := "No semicolons found (likely malformed)"

  /** Position of an issue message in the check's fixed reporting order. */
  function IssueRank(issue: string): nat {
    if issue == MissingModule then 0 else if issue == MissingEndmodule then 1 else 2
  }

  /** The issues `basic_syntax_check` collects, in the order it tests them. */
  function SyntaxIssues(code: string): (issues: seq<string>)
    ensures MissingModule in issues <==> !Contains(code, "module")
    ensures MissingEndmodule in issues <==> !Contains(code, "endmodule")
    ensures NoSemicolons in issues <==> !Contains(code, ";")
    ensures forall k :: 0 <= k < |issues| ==> issues[k] in {MissingModule, MissingEndmodule, NoSemicolons}
    ensures forall j, k :: 0 <= j < k < |issues| ==> IssueRank(issues[j]) < IssueRank(issues[k])
  {
    (if !Contains(code, "module") then [MissingModule] else [])
      + (if !Contains(code, "endmodule") then [MissingEndmodule] else [])
      + (if !Contains(code, ";") then [NoSemicolons] else [])
  }

  /** A missing "module" is never reported alone: "endmodule" is then missing too. */
  lemma MissingModuleImpliesMissingEndmodule(code: string)
    requires MissingModule in SyntaxIssues(code)
    ensures MissingEndmodule in SyntaxIssues(code)
  {
    if Contains(code, "endmodule") {
      EndmoduleMentionsModule(code);
    }
  }

  /** `basic_syntax_check`. */
  function SyntaxCheck(code: string): (status: string)
    ensures status == "PASS" <==> Contains(code, "module") && Contains(code, "endmodule") && Contains(code, ";")
    ensures status != "PASS" ==> status == "FAIL: " + Join(SyntaxIssues(code), ", ")
    ensures status != "NO_CODE"
  {
    var issues := SyntaxIssues(code);
    if issues == [] then "PASS"
    else
      var status := "FAIL: " + Join(issues, ", ");
      assert status[0] == 'F';
      status
  }

  /** A non-empty extraction always mentions "endmodule", so its check can at
      most report the missing semicolons. */
  lemma ExtractedCodeKeywords(text: string)
    requires ExtractVerilog(text) != ""
    ensures SyntaxIssues(ExtractVerilog(text)) == [] || SyntaxIssues(ExtractVerilog(text)) == [NoSemicolons]
  {
    EndmoduleMentionsModule(ExtractVerilog(text));
  }

  datatype CaseResult = CaseResult(id: string, status: string, hasCode: bool, length: nat)

  datatype OutputFile = OutputFile(path: string, content: string)

  datatype CaseOutcome = CaseOutcome(result: CaseResult, files: seq<OutputFile>)

  /** The transcript written for every case. */
  function Transcript(bench: Bench, raw: string): OutputFile {
    OutputFile(CaseFile(bench.id, ".md"), "# Prompt\n" + bench.prompt + "\n\n# Raw Output\n" + raw)
  }

  /** The file of a case: `benchmark_results/<id><extension>`. */
  function CaseFile(id: string, extension: string): (path: string)
    ensures StartsWith(path, OutputDir + "/") && EndsWith(path, extension)
  {
    OutputDir + "/" + id + extension
  }

  /** Different ids never share a file. */
  lemma CaseFileInjective(id1: string, id2: string, extension: string)
    ensures CaseFile(id1, extension) == CaseFile(id2, extension) ==> id1 == id2
  {
    var path := CaseFile(id1, extension);
    if path == CaseFile(id2, extension) {
      var n := |OutputDir| + 1;
      assert id1 == path[n..|path| - |extension|] == id2;
    }
  }

  /** A transcript and a Verilog file never share a path, whatever the ids. */
  lemma CaseFileKindsApart(id1: string, id2: string)
    ensures CaseFile(id1, ".md") != CaseFile(id2, ".v")
  {
    var p1 := CaseFile(id1, ".md");
    var p2 := CaseFile(id2, ".v");
    assert p1[|p1| - 1] == 'd' && p2[|p2| - 1] == 'v';
  }

  /** The twelve cases have twelve different ids. */
  lemma BenchmarkIdsDistinct()
    ensures forall j, k :: 0 <= j < k < |BenchmarkIds| ==> BenchmarkIds[j] != BenchmarkIds[k]
  {
  }

  /** One iteration of the benchmark loop, for a given extractor. */
  function RunCase(bench: Bench, raw: string, extract: string -> string): (outcome: CaseOutcome)
    ensures outcome.result.id == bench.id
    ensures outcome.result.status == "NO_CODE" <==> extract(raw) == ""
    ensures outcome.result.hasCode <==> extract(raw) != ""
    ensures outcome.result.length == |extract(raw)|
    ensures extract(raw) != "" ==> outcome.result.status == SyntaxCheck(extract(raw))
    ensures |outcome.files| == (if extract(raw) == "" then 1 else 2)
    ensures outcome.files[0] == Transcript(bench, raw)
    ensures |outcome.files| == 2 ==> outcome.files[1] == OutputFile(CaseFile(bench.id, ".v"), extract(raw))
  {
    var code := extract(raw);
    var transcript := Transcript(bench, raw);
    if code == "" then
      CaseOutcome(CaseResult(bench.id, "NO_CODE", false, 0), [transcript])
    else
      var source := OutputFile(CaseFile(bench.id, ".v"), code);
      CaseOutcome(CaseResult(bench.id, SyntaxCheck(code), true, |code|), [transcript, source])
  }

  /** Every file a case writes is named after the case's id. */
  lemma CaseFilesNamed(bench: Bench, raw: string, extract: string -> string)
    ensures forall f :: f in RunCase(bench, raw, extract).files ==>
              f.path == CaseFile(bench.id, ".md") || f.path == CaseFile(bench.id, ".v")
  {
    var files := RunCase(bench, raw, extract).files;
    assert forall f :: f in files ==> f == files[0] || f == files[|files| - 1];
  }

  /** Cases with different ids never write to the same file, so no case
      overwrites another's transcript or Verilog file. */
  lemma CaseFilesDistinct(b1: Bench, raw1: string, b2: Bench, raw2: string, extract: string -> string)
    requires b1.id != b2.id
    ensures forall f, g :: f in RunCase(b1, raw1, extract).files && g in RunCase(b2, raw2, extract).files ==>
              f.path != g.path
  {
    CaseFilesNamed(b1, raw1, extract);
    CaseFilesNamed(b2, raw2, extract);
    CaseFileInjective(b1.id, b2.id, ".md");
    CaseFileInjective(b1.id, b2.id, ".v");
    CaseFileKindsApart(b1.id, b2.id);
    CaseFileKindsApart(b2.id, b1.id);
  }

  /** In a run over cases with distinct ids, no two cases write to the same file. */
  lemma RunFilesDistinct(benches: seq<Bench>, raws: seq<string>, extract: string -> string)
    requires |raws| == |benches|
    requires forall j, k :: 0 <= j < k < |benches| ==> benches[j].id != benches[k].id
    ensures forall j, k, f, g ::
              (0 <= j < k < |benches| && f in RunCase(benches[j], raws[j], extract).files
               && g in RunCase(benches[k], raws[k], extract).files) ==> f.path != g.path
  {
    forall j, k | 0 <= j < k < |benches|
      ensures forall f, g ::
                (f in RunCase(benches[j], raws[j], extract).files
                 && g in RunCase(benches[k], raws[k], extract).files) ==> f.path != g.path
    {
      CaseFilesDistinct(benches[j], raws[j], benches[k], raws[k], extract);
    }
  }

  /** Over the twelve benchmark cases, no two cases write to the same file. */
  lemma SuiteFilesDistinct(raws: seq<string>, extract: string -> string)
    requires |raws| == |Benchmarks|
    ensures forall j, k, f, g ::
              (0 <= j < k < |Benchmarks| && f in RunCase(Benchmarks[j], raws[j], extract).files
               && g in RunCase(Benchmarks[k], raws[k], extract).files) ==> f.path != g.path
  {
    BenchmarkIdsDistinct();
    assert forall k :: 0 <= k < |Benchmarks| ==> Benchmarks[k].id == BenchmarkIds[k];
    RunFilesDistinct(Benchmarks, raws, extract);
  }

  /** The number of summary entries whose status is "PASS". */
  function CountPass(summary: seq<CaseResult>): (n: nat)
    ensures n <= |summary|
  {
    if summary == [] then 0
    else CountPass(summary[..|summary| - 1]) + (if summary[|summary| - 1].status == "PASS" then 1 else 0)
  }

  /** The summary array written to summary.json. */
  function Summary(benches: seq<Bench>, raws: seq<string>, extract: string -> string): (summary: seq<CaseResult>)
    requires |raws| == |benches|
    ensures |summary| == |benches|
    ensures forall k :: 0 <= k < |benches| ==> summary[k] == RunCase(benches[k], raws[k], extract).result
  {
    seq(|benches|, k requires 0 <= k < |benches| => RunCase(benches[k], raws[k], extract).result)
  }

  /** `main`: the cases run in order, one summary entry each, then the
      pass count is summed over the summary. */
  method RunSuite(benches: seq<Bench>, raws: seq<string>, extract: string -> string)
    returns (summary: seq<CaseResult>, passed: nat)
    requires |raws| == |benches|
    ensures summary == Summary(benches, raws, extract)
    ensures passed == CountPass(summary) && passed <= |benches|
  {
    summary := Summary(benches, raws, extract);
    passed := CountPasses(summary);
  }

  /** The pass count as the loop over the summary that sums it. */
  method CountPasses(summary: seq<CaseResult>) returns (passed: nat)
    ensures passed == CountPass(summary)
  {
    passed := 0;
    var i := 0;
    while i < |summary|
      invariant i <= |summary|
      invariant passed == CountPass(summary[..i])
    {
      CountPassAppend(summary[..i], summary[i]);
      assert summary[..i + 1] == summary[..i] + [summary[i]];
      if summary[i].status == "PASS" {
        passed := passed + 1;
      }
      i := i + 1;
    }
    assert summary[..i] == summary;
  }

  /** Appending one entry adds one to the pass count exactly when it passed. */
  lemma CountPassAppend(summary: seq<CaseResult>, result: CaseResult)
    ensures CountPass(summary + [result]) == CountPass(summary) + (if result.status == "PASS" then 1 else 0)
  {
    assert (summary + [result])[..|summary|] == summary;
  }

  /** As written, a run in which every reply uses a fenced block reports
      NO_CODE for every case and passes none of them. */
  lemma FencedRepliesNeverPass(benches: seq<Bench>, raws: seq<string>)
    requires |raws| == |benches|
    requires forall k :: 0 <= k < |raws| ==> Contains(raws[k], Fence)
    ensures forall k :: 0 <= k < |benches| ==> Summary(benches, raws, ExtractVerilog)[k].status == "NO_CODE"
    ensures CountPass(Summary(benches, raws, ExtractVerilog)) == 0
  {
    NoPassWithoutCode(Summary(benches, raws, ExtractVerilog));
  }

  lemma {:induction false} NoPassWithoutCode(summary: seq<CaseResult>)
    requires forall k :: 0 <= k < |summary| ==> summary[k].status == "NO_CODE"
    ensures CountPass(summary) == 0
  {
    if summary != [] {
      NoPassWithoutCode(summary[..|summary| - 1]);
    }
  }

  /** A typical reply: a fenced, tagged Verilog module. */
  const SampleReply := Block("Here is the module:\n", "verilog\nmodule inv(input a, output y); assign y = ~a; endmodule\n", "\n")

  /** As written, the sample reply extracts to nothing and its case is NO_CODE. */
  lemma SampleReplyAsWritten(bench: Bench)
    ensures ExtractVerilog(SampleReply) == ""
    ensures RunCase(bench, SampleReply, ExtractVerilog).result.status == "NO_CODE"
  {
    ExtractVerilogFenced("Here is the module:\n", "verilog\nmodule inv(input a, output y); assign y = ~a; endmodule\n", "\n");
  }

  /** With the closing fence restored, a reply whose first fenced block holds
      a module mentioning "endmodule" and ";" extracts to that module and its
      case passes the structure check. */
  lemma FencedModulePasses(bench: Bench, before: string, inner: string, after: string)
    requires NoFenceStartsIn(before) && NoFenceStartsIn(inner)
    requires Contains(Untagged(inner), "endmodule") && Contains(Untagged(inner), ";")
    ensures ExtractFenced(Block(before, inner, after)) == Strip(Untagged(inner))
    ensures RunCase(bench, Block(before, inner, after), ExtractFenced).result.status == "PASS"
  {
    ExtractFencedBody(before, inner, after);
    StripKeepsWord(Untagged(inner), "endmodule");
    StripKeepsWord(Untagged(inner), ";");
    EndmoduleMentionsModule(Strip(Untagged(inner)));
  }
}
