/**
  Dataset curation (scripts/2_process_data.py): the rank-based quality filter
  for PyraNet rows, the Alpaca-style prompt template both sources are rendered
  into, and the corpus assembly: filter, map one record per row, concatenate,
  shuffle.

  What `json.loads` and `float()` make of a row's text is foreign to the
  script, so a row carries their outcome as data (`Decoded`, `FloatCoercion`)
  instead of the raw JSON text.
 */
module Curation {
  import opened Wrappers
  import opened Strings

  /** The three-slot template, split around its `{}` slots. */
  const Preamble := "Below is an instruction that describes a hardware design task. Write the corresponding Verilog code.\n\n### Instruction:\n"
  const InputHeader := "\n\n### Input:\n"
  const ResponseHeader := "\n\n### Response:\n"

  /** Sentinel appended after every rendered example. */
  const EndOfText := "<|end_of_text|>"

  /** Instruction used when a PyraNet row yields none of its own. */
  const FallbackInstruction := "Implement the Verilog module based on the code structure."

  /** Minimal `rank` a PyraNet row needs to be admitted. */
  const RankThreshold: real := 18.0

  /** `str()` of a JSON value that is not a string (`None`, `True`, `0`,
      `[1]`, `{}`, ...) is never empty. */
  type Rendering = s: string | s != "" witness "None"

  /** A JSON value as the script looks at it: a string, or anything else
      together with its Python truthiness and its `str()` rendering. */
  datatype JsonValue =
    | JString(s: string)
    | JNonString(truthy: bool, rendered: Rendering)

  /** What `float(rank)` makes of the `rank` entry. */
  datatype FloatCoercion =
    | Finite(value: real)
    | NaN
    | Infinity(positive: bool)
    | NotNumeric   // ValueError or TypeError: the script falls back to rank 0
    | TooLarge     // OverflowError (an int beyond the float range): not caught by the inner handler

  /** What `json.loads(description)` produced. */
  datatype Decoded =
    | Malformed      // json.loads raised
    | NotAnObject    // valid JSON, but not an object, so `.get` raises
    | Object(description: Option<JsonValue>, rank: Option<FloatCoercion>)

  /** The `description` column: a JSON-encoded string, or some other value. */
  datatype DescriptionField = NonString | Json(decoded: Decoded)

  datatype PyraNetRow = PyraNetRow(description: DescriptionField, code: string)

  datatype SyntheticRow = SyntheticRow(evolvedNl: string, rtl: string)

  /** A formatted example: exactly one field, `text`. */
  datatype Record = Record(text: string)

  /** `filter_high_quality`: total, never raises. */
  function Admit(row: PyraNetRow): (admitted: bool)
    ensures row.description.NonString? ==> !admitted
    ensures row.description.Json? && !row.description.decoded.Object? ==> !admitted
    ensures admitted ==> row.description.Json? && row.description.decoded.Object?
    ensures row.description.Json? && row.description.decoded.Object? ==>
              var rank := row.description.decoded.rank;
              && (rank.None? ==> !admitted)
              && (rank.Some? && rank.value.Finite? ==> (admitted <==> rank.value.value >= 18.0))
              && (rank.Some? && rank.value.Infinity? ==> (admitted <==> rank.value.positive))
              && (rank.Some? && (rank.value.NaN? || rank.value.NotNumeric? || rank.value.TooLarge?) ==> !admitted)
  {
    match row.description
    case NonString => false
    case Json(Malformed) => false
    case Json(NotAnObject) => false
    case Json(Object(_, rank)) =>
      // `data.get('rank', 0)` then `float(...)`; float(0) is 0.0
      var coerced := if rank.None? then Finite(0.0) else rank.value;
      match coerced
      case Finite(v) => v >= RankThreshold
      case NaN => false
      case Infinity(positive) => positive
      case NotNumeric => 0.0 >= RankThreshold
      case TooLarge => false
  }

  /** `alpaca_prompt.format(instruction, context, output) + "<|end_of_text|>"`. */
  function Render(instruction: string, context: string, output: string): (text: string)
    ensures StartsWith(text, Preamble) && EndsWith(text, EndOfText)
    ensures |text| == |Preamble| + |instruction| + |InputHeader| + |context| + |ResponseHeader| + |output| + |EndOfText|
    ensures OccursAt(text, instruction, |Preamble|)
    ensures OccursAt(text, output, |text| - |EndOfText| - |output|)
  {
    Preamble + instruction + InputHeader + context + ResponseHeader + output + EndOfText
  }

  /** Reads the three slots back out of a rendered text, given the lengths of
      the first two (the template alone cannot delimit slots that may contain
      its own headers). */
  function Slots(text: string, instructionLength: nat, contextLength: nat): Option<(string, string, string)> {
    var b := |Preamble| + instructionLength;
    var c := b + |InputHeader|;
    var d := c + contextLength;
    var e := d + |ResponseHeader|;
    if e + |EndOfText| <= |text|
       && text[..|Preamble|] == Preamble && text[b..c] == InputHeader
       && text[d..e] == ResponseHeader && EndsWith(text, EndOfText)
    then Some((text[|Preamble|..b], text[c..d], text[e..|text| - |EndOfText|]))
    else None
  }

  /** Rendering loses nothing: the slots read back are the ones filled in. */
  lemma RenderSlotsRoundTrip(instruction: string, context: string, output: string)
    ensures Slots(Render(instruction, context, output), |instruction|, |context|) == Some((instruction, context, output))
  {
    FillLayout(Preamble, instruction, InputHeader, context, ResponseHeader, output, EndOfText);
  }

  /** Where each piece of a seven-piece concatenation sits. */
  lemma FillLayout(p0: string, a: string, p1: string, b: string, p2: string, c: string, p3: string)
    ensures var t := p0 + a + p1 + b + p2 + c + p3;
            var i1 := |p0| + |a|;
            var i2 := i1 + |p1|;
            var i3 := i2 + |b|;
            var i4 := i3 + |p2|;
            && |t| == i4 + |c| + |p3|
            && t[..|p0|] == p0 && t[|p0|..i1] == a && t[i1..i2] == p1
            && t[i2..i3] == b && t[i3..i4] == p2 && t[i4..|t| - |p3|] == c
            && t[|t| - |p3|..] == p3
  {
    var u1 := p0 + a;
    var u2 := u1 + p1;
    var u3 := u2 + b;
    var u4 := u3 + p2;
    var u5 := u4 + c;
    var t := u5 + p3;
    var i1, i2, i3, i4 := |u1|, |u2|, |u3|, |u4|;
    InPrefix(u5, p3, 0, |p0|); InPrefix(u4, c, 0, |p0|); InPrefix(u3, p2, 0, |p0|);
    InPrefix(u2, b, 0, |p0|); InPrefix(u1, p1, 0, |p0|); InPrefix(p0, a, 0, |p0|);
    InPrefix(u5, p3, |p0|, i1); InPrefix(u4, c, |p0|, i1); InPrefix(u3, p2, |p0|, i1);
    InPrefix(u2, b, |p0|, i1); InPrefix(u1, p1, |p0|, i1);
    InPrefix(u5, p3, i1, i2); InPrefix(u4, c, i1, i2); InPrefix(u3, p2, i1, i2); InPrefix(u2, b, i1, i2);
    InPrefix(u5, p3, i2, i3); InPrefix(u4, c, i2, i3); InPrefix(u3, p2, i2, i3);
    InPrefix(u5, p3, i3, i4); InPrefix(u4, c, i3, i4);
    InPrefix(u5, p3, i4, |u5|);
  }

  /** A slice within the first part of a concatenation is a slice of that part. */
  lemma InPrefix(x: string, y: string, i: nat, j: nat)
    requires i <= j <= |x|
    ensures (x + y)[i..j] == x[i..j]
    ensures j == |x| ==> (x + y)[|x|..] == y
  {
  }

  /** Python truthiness of a JSON value. */
  predicate Truthy(v: JsonValue) {
    match v
    case JString(s) => s != ""
    case JNonString(truthy, _) => truthy
  }

  /** What `str.format` inserts for a JSON value. */
  function Shown(v: JsonValue): string {
    match v
    case JString(s) => s
    case JNonString(_, rendered) => rendered
  }

  /** The instruction `format_pyranet` puts in the first slot. */
  function PyraNetInstruction(description: DescriptionField): (instruction: string)
    ensures instruction != ""
    ensures description.Json? && description.decoded.Object? && description.decoded.description.Some?
            && description.decoded.description.value.JString? && description.decoded.description.value.s != ""
            ==> instruction == description.decoded.description.value.s
    ensures instruction != FallbackInstruction ==>
              description.Json? && description.decoded.Object? && description.decoded.description.Some?
              && Truthy(description.decoded.description.value)
    ensures description.NonString? || !description.decoded.Object? ==> instruction == FallbackInstruction
    ensures description.Json? && description.decoded.Object? && description.decoded.description.Some?
            && Truthy(description.decoded.description.value)
            ==> instruction == Shown(description.decoded.description.value)
    ensures description.Json? && description.decoded.Object?
            && (description.decoded.description.None? || !Truthy(description.decoded.description.value))
            ==> instruction == FallbackInstruction
  {
    // json.loads on a non-string raises, as does `.get` on a non-object;
    // both are swallowed and leave the instruction empty
    var parsed := match description
      case Json(Object(Some(v), _)) => v
      case _ => JString("");
    if Truthy(parsed) then Shown(parsed) else FallbackInstruction
  }

  /** `format_pyranet`. */
  function FormatPyraNet(row: PyraNetRow): (r: Record)
    ensures EndsWith(r.text, EndOfText)
    ensures Contains(r.text, row.code)
  {
    var text := Render(PyraNetInstruction(row.description), "", row.code);
    ContainsAt(text, row.code, |text| - |EndOfText| - |row.code|);
    Record(text)
  }

  /** A PyraNet record reads back as its instruction, an empty context and the code. */
  lemma FormatPyraNetSlots(row: PyraNetRow)
    ensures Slots(FormatPyraNet(row).text, |PyraNetInstruction(row.description)|, 0)
              == Some((PyraNetInstruction(row.description), "", row.code))
  {
    RenderSlotsRoundTrip(PyraNetInstruction(row.description), "", row.code);
  }

  /** `format_synthetic`: no fallback, both fields used unchanged. */
  function FormatSynthetic(row: SyntheticRow): (r: Record)
    ensures EndsWith(r.text, EndOfText)
    ensures Contains(r.text, row.rtl)
  {
    var text := Render(row.evolvedNl, "", row.rtl);
    ContainsAt(text, row.rtl, |text| - |EndOfText| - |row.rtl|);
    Record(text)
  }

  /** A synthetic record reads back as `evolved_nl`, an empty context and `rtl`, unchanged. */
  lemma FormatSyntheticSlots(row: SyntheticRow)
    ensures Slots(FormatSynthetic(row).text, |row.evolvedNl|, 0) == Some((row.evolvedNl, "", row.rtl))
  {
    RenderSlotsRoundTrip(row.evolvedNl, "", row.rtl);
  }

  /** How many rows the quality filter admits. */
  function CountAdmitted(rows: seq<PyraNetRow>): nat {
    if rows == [] then 0
    else CountAdmitted(rows[..|rows| - 1]) + (if Admit(rows[|rows| - 1]) then 1 else 0)
  }

  /** `ds1.filter(filter_high_quality)`: the admitted rows, in their original order. */
  function Filter(rows: seq<PyraNetRow>): (kept: seq<PyraNetRow>)
    ensures forall k :: 0 <= k < |kept| ==> Admit(kept[k])
    ensures forall row :: row in rows && Admit(row) ==> row in kept
    ensures multiset(kept) <= multiset(rows)
  {
    if rows == [] then []
    else
      var front := rows[..|rows| - 1];
      var last := rows[|rows| - 1];
      assert rows == front + [last];
      Filter(front) + (if Admit(last) then [last] else [])
  }

  lemma {:induction false} FilterCount(rows: seq<PyraNetRow>)
    ensures |Filter(rows)| == CountAdmitted(rows)
  {
    if rows != [] {
      FilterCount(rows[..|rows| - 1]);
    }
  }

  /** `Dataset.map(f)`: `f` applied to every row, in order. */
  function Map<A, B>(rows: seq<A>, f: A -> B): (out: seq<B>)
    ensures |out| == |rows|
    ensures forall k :: 0 <= k < |rows| ==> out[k] == f(rows[k])
  {
    seq(|rows|, k requires 0 <= k < |rows| => f(rows[k]))
  }

  /** The rows before the shuffle: formatted admitted PyraNet rows, then
      every formatted synthetic row. */
  function Unshuffled(pyranet: seq<PyraNetRow>, synthetic: seq<SyntheticRow>): seq<Record> {
    Map(Filter(pyranet), FormatPyraNet) + Map(synthetic, FormatSynthetic)
  }

  /** `ds1.filter(filter_high_quality)`, as the row-by-row loop it performs. */
  method FilterRows(rows: seq<PyraNetRow>) returns (kept: seq<PyraNetRow>)
    ensures kept == Filter(rows)
    ensures |kept| == CountAdmitted(rows)
  {
    kept := [];
    var i := 0;
    while i < |rows|
      invariant i <= |rows|
      invariant kept == Filter(rows[..i])
    {
      assert rows[..i + 1][..i] == rows[..i];
      if Admit(rows[i]) {
        kept := kept + [rows[i]];
      }
      i := i + 1;
    }
    assert rows[..i] == rows;
    FilterCount(rows);
  }

  /** `Dataset.map(f)` as the row-by-row loop it performs: one output per
      row, in order. */
  method MapRows<A, B>(rows: seq<A>, f: A -> B) returns (out: seq<B>)
    ensures |out| == |rows|
    ensures forall k :: 0 <= k < |rows| ==> out[k] == f(rows[k])
    ensures out == Map(rows, f)
  {
    out := [];
    var i := 0;
    while i < |rows|
      invariant i <= |rows| && |out| == i
      invariant forall k :: 0 <= k < i ==> out[k] == f(rows[k])
    {
      out := out + [f(rows[i])];
      i := i + 1;
    }
  }

  /** The filter, map and concatenate steps of `main`. */
  method Assemble(pyranet: seq<PyraNetRow>, synthetic: seq<SyntheticRow>) returns (corpus: seq<Record>)
    ensures corpus == Unshuffled(pyranet, synthetic)
    ensures |corpus| == CountAdmitted(pyranet) + |synthetic|
    ensures forall k :: 0 <= k < |corpus| ==> EndsWith(corpus[k].text, EndOfText)
  {
    var kept := FilterRows(pyranet);
    var formatted := MapRows(kept, FormatPyraNet);
    var others := MapRows(synthetic, FormatSynthetic);
    corpus := formatted + others;
  }

  /** `Dataset.shuffle`: the permutation the seeded generator picks is given
      as the sequence of transpositions that builds it. */
  method Shuffle(records: seq<Record>, swaps: seq<(nat, nat)>) returns (shuffled: seq<Record>)
    requires forall k :: 0 <= k < |swaps| ==> swaps[k].0 < |records| && swaps[k].1 < |records|
    ensures multiset(shuffled) == multiset(records)
    ensures |shuffled| == |records|
  {
    shuffled := records;
    var k := 0;
    while k < |swaps|
      invariant k <= |swaps|
      invariant |shuffled| == |records|
      invariant multiset(shuffled) == multiset(records)
    {
      var (i, j) := swaps[k];
      shuffled := shuffled[i := shuffled[j]][j := shuffled[i]];
      k := k + 1;
    }
  }

  /** `main`: the corpus that is saved, no row duplicated or dropped. The
      retention ratio reported after filtering divides by the number of
      PyraNet rows, so an empty PyraNet split raises `ZeroDivisionError`
      there and nothing is saved (`None`). */
  method ProcessData(pyranet: seq<PyraNetRow>, synthetic: seq<SyntheticRow>, swaps: seq<(nat, nat)>)
    returns (saved: Option<seq<Record>>)
    requires forall k :: 0 <= k < |swaps| ==>
               swaps[k].0 < CountAdmitted(pyranet) + |synthetic| && swaps[k].1 < CountAdmitted(pyranet) + |synthetic|
    ensures saved.None? <==> |pyranet| == 0
    ensures saved.Some? ==> |saved.value| == CountAdmitted(pyranet) + |synthetic|
    ensures saved.Some? ==> multiset(saved.value) == multiset(Unshuffled(pyranet, synthetic))
    ensures saved.Some? ==>
              forall k :: 0 <= k < |saved.value| ==> saved.value[k].text != "" && EndsWith(saved.value[k].text, EndOfText)
  {
    if |pyranet| == 0 {
      return None;
    }
    var merged := Assemble(pyranet, synthetic);
    var corpus := Shuffle(merged, swaps);
    forall k | 0 <= k < |corpus|
      ensures corpus[k].text != "" && EndsWith(corpus[k].text, EndOfText)
    {
      assert corpus[k] in multiset(merged);
      var m :| 0 <= m < |merged| && merged[m] == corpus[k];
    }
    saved := Some(corpus);
  }

  /** A well-ranked row: admitted, rendered with its own description and its
      code verbatim. */
  lemma NotGateExample()
    ensures var row := PyraNetRow(Json(Object(Some(JString("Build a NOT gate")), Some(Finite(20.0)))),
                                  "module not_gate(input a, output y); assign y = ~a; endmodule");
            && Admit(row)
            && Contains(FormatPyraNet(row).text, "Build a NOT gate")
            && Contains(FormatPyraNet(row).text, row.code)
            && EndsWith(FormatPyraNet(row).text, EndOfText)
  {
    var row := PyraNetRow(Json(Object(Some(JString("Build a NOT gate")), Some(Finite(20.0)))),
                          "module not_gate(input a, output y); assign y = ~a; endmodule");
    var text := FormatPyraNet(row).text;
    assert text == Render("Build a NOT gate", "", row.code);
    ContainsAt(text, "Build a NOT gate", |Preamble|);
  }

  /** A low-ranked row never reaches the corpus. */
  lemma LowRankExcluded(code: string)
    ensures Filter([PyraNetRow(Json(Object(None, Some(Finite(5.0)))), code)]) == []
  {
    var row := PyraNetRow(Json(Object(None, Some(Finite(5.0)))), code);
    assert [row][..0] == [];
  }
}
