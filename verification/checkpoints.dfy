/**
  Adapter selection (`get_latest_checkpoint`, defined identically in
  scripts/4_bulk_convert_gguf.py and scripts/bulk_convert_gguf.py): prefer
  `final_adapter`, otherwise the checkpoint with the highest step, otherwise
  nothing.

  The directory listing is an input, in the order the file system returns it:
  `final_adapter` exists when it is listed, and the `checkpoint-*` glob
  matches the listed names with that prefix.
 */
module Checkpoints {
  import opened Wrappers
  import opened Strings

  const FinalAdapter := "final_adapter"
  const CheckpointPrefix := "checkpoint-"

  /** A name the glob "checkpoint-*" matches. */
  predicate IsCheckpoint(name: string) {
    StartsWith(name, CheckpointPrefix)
  }

  /** What the sort key converts with `int()`: the globbed path after its last "-". */
  function StepText(baseDir: string, name: string): string {
    AfterLast(PathJoin(baseDir, name), '-')
  }

  /** Every checkpoint's step text is a decimal number, so the sort key never raises. */
  predicate StepsParse(baseDir: string, listing: seq<string>) {
    forall k :: 0 <= k < |listing| && IsCheckpoint(listing[k]) ==> IsDigits(StepText(baseDir, listing[k]))
  }

  function Step(baseDir: string, name: string): nat
    requires IsDigits(StepText(baseDir, name))
  {
    DigitsValue(StepText(baseDir, name))
  }

  /** The base directory never takes part in the key: the last "-" of a
      globbed path is inside the checkpoint's own name. */
  lemma StepTextOfName(baseDir: string, name: string)
    requires IsCheckpoint(name)
    ensures StepText(baseDir, name) == AfterLast(name, '-')
  {
    assert name[10] == '-' by { assert name[..|CheckpointPrefix|][10] == '-'; }
    assert '-' in name;
    var prefix := PathJoin(baseDir, name)[..|PathJoin(baseDir, name)| - |name|];
    assert PathJoin(baseDir, name) == prefix + name;
    AfterLastOfSuffix(prefix, name, '-');
  }

  /** The sort key of one listed name: its step when the glob matches it. */
  function Key(baseDir: string, name: string): (key: Option<nat>)
    requires IsCheckpoint(name) ==> IsDigits(StepText(baseDir, name))
    ensures key.Some? <==> IsCheckpoint(name)
  {
    if IsCheckpoint(name) then Some(Step(baseDir, name)) else None
  }

  /** The sort keys of a whole listing, entry by entry. */
  function Keys(baseDir: string, listing: seq<string>): (keys: seq<Option<nat>>)
    requires StepsParse(baseDir, listing)
    ensures |keys| == |listing|
    ensures forall k :: 0 <= k < |listing| ==> keys[k] == Key(baseDir, listing[k])
  {
    if |listing| == 0 then []
    else Keys(baseDir, listing[..|listing| - 1]) + [Key(baseDir, listing[|listing| - 1])]
  }

  /** Entry `k` is what a stable ascending sort by key puts last among the
      checkpoints of `keys[..upto]`: it is a checkpoint, no step exceeds its
      own, and every later checkpoint has a strictly smaller step. */
  predicate IsLastOfLargest(keys: seq<Option<nat>>, k: nat, upto: nat)
    requires k < |keys| && upto <= |keys|
  {
    && keys[k].Some?
    && forall j :: 0 <= j < upto && keys[j].Some? ==>
         && keys[j].value <= keys[k].value
         && (k < j ==> keys[j].value < keys[k].value)
  }

  /** At most one entry is last of the largest, so the property names the
      sort's last element exactly. */
  lemma LastOfLargestUnique(keys: seq<Option<nat>>, k1: nat, k2: nat)
    requires k1 < |keys| && k2 < |keys|
    requires IsLastOfLargest(keys, k1, |keys|) && IsLastOfLargest(keys, k2, |keys|)
    ensures k1 == k2
  {
  }

  /** One pass over the keys, keeping the latest entry whose step is at
      least the best so far: the stable sort's last element, if any. */
  method ScanLatest(keys: seq<Option<nat>>) returns (best: Option<nat>)
    ensures best.Some? ==> best.value < |keys| && IsLastOfLargest(keys, best.value, |keys|)
    ensures best.None? <==> forall j :: 0 <= j < |keys| ==> keys[j].None?
  {
    best := None;
    var i := 0;
    while i < |keys|
      invariant i <= |keys|
      invariant best.None? ==> forall j :: 0 <= j < i ==> keys[j].None?
      invariant best.Some? ==> best.value < i && IsLastOfLargest(keys, best.value, i)
    {
      if keys[i].Some? && (best.None? || keys[i].value >= keys[best.value].value) {
        best := Some(i);
      }
      i := i + 1;
    }
  }

  /** What `get_latest_checkpoint` promises: `final_adapter` when it is
      listed; otherwise nothing when no checkpoint is listed; otherwise the
      checkpoint a stable ascending sort by step puts last. The steps are
      only needed, and only parsed, when `final_adapter` is absent. */
  predicate IsLatest(baseDir: string, listing: seq<string>, latest: Option<string>)
    requires FinalAdapter !in listing ==> StepsParse(baseDir, listing)
  {
    if FinalAdapter in listing then latest == Some(PathJoin(baseDir, FinalAdapter))
    else if forall k :: 0 <= k < |listing| ==> !IsCheckpoint(listing[k]) then latest.None?
    else
      && latest.Some?
      && exists k :: 0 <= k < |listing|
                     && latest.value == PathJoin(baseDir, listing[k])
                     && IsLastOfLargest(Keys(baseDir, listing), k, |listing|)
  }

  /** `IsLatest` leaves no choice: it names one result for every listing. */
  lemma LatestUnique(baseDir: string, listing: seq<string>, l1: Option<string>, l2: Option<string>)
    requires FinalAdapter !in listing ==> StepsParse(baseDir, listing)
    requires IsLatest(baseDir, listing, l1) && IsLatest(baseDir, listing, l2)
    ensures l1 == l2
  {
    if FinalAdapter !in listing && l1.Some? && l2.Some? {
      var keys := Keys(baseDir, listing);
      var k1 :| 0 <= k1 < |listing| && l1.value == PathJoin(baseDir, listing[k1]) && IsLastOfLargest(keys, k1, |listing|);
      var k2 :| 0 <= k2 < |listing| && l2.value == PathJoin(baseDir, listing[k2]) && IsLastOfLargest(keys, k2, |listing|);
      LastOfLargestUnique(keys, k1, k2);
    }
  }

  /** `get_latest_checkpoint(base_dir)`: `final_adapter` is tested before any
      step is parsed, so only a listing without it needs parsable steps. */
  method LatestCheckpoint(baseDir: string, listing: seq<string>) returns (latest: Option<string>)
    requires FinalAdapter !in listing ==> StepsParse(baseDir, listing)
    ensures IsLatest(baseDir, listing, latest)
    ensures FinalAdapter in listing ==> latest == Some(PathJoin(baseDir, FinalAdapter))
    ensures FinalAdapter !in listing && latest.Some? ==>
              exists k :: 0 <= k < |listing|
                          && latest.value == PathJoin(baseDir, listing[k])
                          && IsLastOfLargest(Keys(baseDir, listing), k, |listing|)
    ensures latest.None? <==> FinalAdapter !in listing && forall k :: 0 <= k < |listing| ==> !IsCheckpoint(listing[k])
  {
    if FinalAdapter in listing {
      return Some(PathJoin(baseDir, FinalAdapter));
    }
    var keys := Keys(baseDir, listing);
    var best := ScanLatest(keys);
    if best.None? {
      assert forall k :: 0 <= k < |listing| ==> keys[k].None?;
      return None;
    }
    assert IsCheckpoint(listing[best.value]);
    return Some(PathJoin(baseDir, listing[best.value]));
  }
}
