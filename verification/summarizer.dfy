// DefaultSummarizer.run: the single results folded, in order, into one
// evaluation result.

module Summarizer {
  import opened Wrappers
  import Seqs
  import opened Models

  /** DefaultSummarizer.run */
  function Run(results: seq<SingleResult>): (r: EvaluationResult)
    ensures |results| == 0 <==> r.summary.None?
  {
    if |results| == 0 then EmptyResult
    else AddSingleResult(Run(results[..|results| - 1]), results[|results| - 1])
  }

  function FilePaths(results: seq<SingleResult>): (ps: seq<string>)
    ensures |ps| == |results|
    ensures forall i :: 0 <= i < |results| ==> ps[i] == results[i].filepath
  {
    if |results| == 0 then [] else FilePaths(results[..|results| - 1]) + [results[|results| - 1].filepath]
  }

  function CountMatched(results: seq<SingleResult>): nat
  {
    if |results| == 0 then 0
    else CountMatched(results[..|results| - 1]) + (if results[|results| - 1].targetTypeMatched then 1 else 0)
  }

  /** The folded result is well formed: unique paths, unique policy names
    * per file, violation flags equal to the OR of their children, and a
    * summary that describes the files. */
  lemma {:induction false} RunWellFormed(results: seq<SingleResult>)
    ensures WellFormed(Run(results))
  {
    if |results| > 0 {
      RunWellFormed(results[..|results| - 1]);
      AddSingleResultWellFormed(Run(results[..|results| - 1]), results[|results| - 1]);
    }
  }

  /** One file per distinct path, in the order the paths first appear. */
  lemma {:induction false} RunFileOrder(results: seq<SingleResult>)
    ensures Paths(Run(results).files) == Seqs.Dedup(FilePaths(results))
  {
    if |results| > 0 {
      var init := results[..|results| - 1];
      var last := results[|results| - 1];
      RunFileOrder(init);
      AddSingleResultFiles(Run(init), last);
      assert FilePaths(results) == FilePaths(init) + [last.filepath];
      Seqs.DedupSnoc(FilePaths(init), last.filepath);
    }
  }

  /** Every result whose target type matched becomes exactly one target. */
  lemma {:induction false} RunTargetCount(results: seq<SingleResult>)
    ensures TotalTargets(Run(results).files) == CountMatched(results)
  {
    if |results| > 0 {
      RunTargetCount(results[..|results| - 1]);
      AddSingleResultTargets(Run(results[..|results| - 1]), results[|results| - 1]);
    }
  }

  lemma RunStepMonotone(results: seq<SingleResult>, i: nat)
    requires |results| > 0
    requires i < |Run(results[..|results| - 1]).files| && Run(results[..|results| - 1]).files[i].violation
    ensures i < |Run(results).files| && Run(results).files[i].violation
  {
    AddSingleResultFiles(Run(results[..|results| - 1]), results[|results| - 1]);
  }

  /** Folding more results never clears a file's violation flag. */
  lemma {:induction false} RunViolationMonotone(results: seq<SingleResult>, k: nat, i: nat)
    requires k <= |results|
    requires i < |Run(results[..k]).files| && Run(results[..k]).files[i].violation
    ensures i < |Run(results).files| && Run(results).files[i].violation
    decreases |results| - k
  {
    if k < |results| {
      var next := results[..k + 1];
      Seqs.PrefixOfPrefix(results, k, k + 1);
      RunStepMonotone(next, i);
      RunViolationMonotone(results, k + 1, i);
    } else {
      assert results[..k] == results;
    }
  }

  /** Folding more results never clears a policy's violation flag: the
    * policy keeps its file, its slot and its name. */
  lemma {:induction false} RunPolicyViolationMonotone(results: seq<SingleResult>, k: nat, i: nat, j: nat)
    requires k <= |results|
    requires PolicyViolated(Run(results[..k]).files, i, j)
    ensures PolicyViolated(Run(results).files, i, j)
    ensures Run(results).files[i].policies[j].policyName == Run(results[..k]).files[i].policies[j].policyName
    decreases |results| - k
  {
    if k < |results| {
      var next := results[..k + 1];
      Seqs.PrefixOfPrefix(results, k, k + 1);
      assert next[..|next| - 1] == results[..k];
      AddSingleResultKeepsPolicyViolation(Run(results[..k]), next[|next| - 1], i, j);
      RunPolicyViolationMonotone(results, k + 1, i, j);
    } else {
      assert results[..k] == results;
    }
  }
}
