/**
 * Run accounting in `main`: the success and failure counters, the list of
 * failed paths kept when a failure file is requested, the early return on an
 * empty file list and the failure file written at the end. The workers are
 * modelled as one sequential pass over the queued files in an arbitrary
 * order; `outcomes[i]` is whether `processFile` succeeded for `files[i]`.
 */
module Upload {
  import opened Wrappers
  import opened FileList

  const Modulus: int := 0x1_0000_0000_0000_0000

  newtype uint64 = x: int | 0 <= x < Modulus

  /** `atomic.AddUint64(&c, 1)`: one more, wrapping to zero past the largest value. */
  function Inc(c: uint64): (r: uint64)
    ensures r as int == (c as int + 1) % Modulus
    ensures c as int < Modulus - 1 ==> r as int == c as int + 1
  {
    if c as int == Modulus - 1 then 0 else c + 1
  }

  lemma SmallMod(a: int)
    requires 0 <= a < Modulus
    ensures a % Modulus == a
  {
  }

  lemma ModInc(a: nat)
    ensures (a % Modulus + 1) % Modulus == (a + 1) % Modulus
  {
  }

  /** The number of items that succeeded. */
  function Successes(outcomes: seq<bool>): (n: nat)
    ensures n <= |outcomes|
  {
    if outcomes == [] then 0
    else Successes(outcomes[..|outcomes| - 1]) + if outcomes[|outcomes| - 1] then 1 else 0
  }

  /** The files whose item failed, in queue order. */
  function FailedItems(files: seq<string>, outcomes: seq<bool>): (failed: seq<string>)
    requires |files| == |outcomes|
    ensures |failed| <= |files|
  {
    if files == [] then []
    else
      var n := |files| - 1;
      FailedItems(files[..n], outcomes[..n]) + if outcomes[n] then [] else [files[n]]
  }

  /** Every item is counted once, as a success or as a failure. */
  lemma {:induction false} CountsAddUp(files: seq<string>, outcomes: seq<bool>)
    requires |files| == |outcomes|
    ensures Successes(outcomes) + |FailedItems(files, outcomes)| == |files|
  {
    if files != [] {
      var n := |files| - 1;
      CountsAddUp(files[..n], outcomes[..n]);
    }
  }

  /** A path is in the failure list exactly when some queued item for it failed. */
  lemma {:induction false} FailedItemsIff(files: seq<string>, outcomes: seq<bool>, f: string)
    requires |files| == |outcomes|
    ensures f in FailedItems(files, outcomes) <==> exists i :: 0 <= i < |files| && files[i] == f && !outcomes[i]
  {
    if files != [] {
      var n := |files| - 1;
      var pre := FailedItems(files[..n], outcomes[..n]);
      var last := if outcomes[n] then [] else [files[n]];
      assert FailedItems(files, outcomes) == pre + last;
      FailedItemsIff(files[..n], outcomes[..n], f);
      if f in last {
        assert files[n] == f && !outcomes[n];
      } else if f in pre {
        var i :| 0 <= i < n && files[..n][i] == f && !outcomes[..n][i];
        assert files[i] == f && !outcomes[i];
      }
      if i :| 0 <= i < |files| && files[i] == f && !outcomes[i] {
        if i < n {
          assert files[..n][i] == f && !outcomes[..n][i];
          assert f in pre;
        } else {
          assert f in last;
        }
      }
    }
  }

  /** The counters and the failure list shared by the workers. */
  class RunSummary {
    var ok: uint64
    var fail: uint64
    var failures: seq<string>
    /** Whether a failure file was requested (`*saveFailures != ""`). */
    const saving: bool

    /** Failures are collected only when saving, and then one per failed item. */
    ghost predicate Valid()
      reads this
    {
      && (!saving ==> failures == [])
      && (saving ==> |failures| % Modulus == fail as int)
    }

    constructor(saving: bool)
      ensures Valid()
      ensures this.saving == saving && ok == 0 && fail == 0 && failures == []
    {
      this.saving := saving;
      ok := 0;
      fail := 0;
      failures := [];
    }

    /** The bookkeeping after one item finished, successfully or not. */
    method Record(item: string, succeeded: bool)
      requires Valid()
      modifies this
      ensures Valid()
      ensures succeeded ==> ok == Inc(old(ok)) && fail == old(fail) && failures == old(failures)
      ensures !succeeded ==> ok == old(ok) && fail == Inc(old(fail))
      ensures !succeeded ==> failures == if saving then old(failures) + [item] else old(failures)
    {
      if !succeeded {
        ModInc(|failures|);
        fail := Inc(fail);
        if saving {
          failures := failures + [item];
        }
      } else {
        ok := Inc(ok);
      }
    }
  }

  /**
   * How a run ends: nothing queued, or the final counters, the failure
   * list and the text of the failure file, if one is written.
   */
  datatype RunReport =
    | NothingToUpload
    | Finished(ok: uint64, fail: uint64, failures: seq<string>, failureFile: Option<string>)

  lemma SuccessesStep(outcomes: seq<bool>, i: nat)
    requires i < |outcomes|
    ensures Successes(outcomes[..i + 1]) == Successes(outcomes[..i]) + if outcomes[i] then 1 else 0
  {
    assert outcomes[..i + 1][..i] == outcomes[..i];
  }

  /** The counters after one more item, in the terms of the loop in `Run`. */
  lemma CountStep(outcomes: seq<bool>, i: nat, ok: uint64, fail: uint64)
    requires i < |outcomes|
    requires ok as int == Successes(outcomes[..i]) % Modulus
    requires fail as int == (i - Successes(outcomes[..i])) % Modulus
    ensures outcomes[i] ==> Inc(ok) as int == Successes(outcomes[..i + 1]) % Modulus
                            && fail as int == (i + 1 - Successes(outcomes[..i + 1])) % Modulus
    ensures !outcomes[i] ==> ok as int == Successes(outcomes[..i + 1]) % Modulus
                             && Inc(fail) as int == (i + 1 - Successes(outcomes[..i + 1])) % Modulus
  {
    SuccessesStep(outcomes, i);
    ModInc(Successes(outcomes[..i]));
    ModInc(i - Successes(outcomes[..i]));
  }

  /** Below 2^64 items nothing wraps, so the counters add up to the number of items. */
  lemma FinalCounts(files: seq<string>, outcomes: seq<bool>, ok: uint64, fail: uint64)
    requires |files| == |outcomes| && |files| < Modulus
    requires ok as int == Successes(outcomes) % Modulus
    requires fail as int == (|files| - Successes(outcomes)) % Modulus
    ensures ok as int + fail as int == |files|
    ensures |FailedItems(files, outcomes)| == fail as int
  {
    CountsAddUp(files, outcomes);
    SmallMod(Successes(outcomes));
    SmallMod(|files| - Successes(outcomes));
  }

  lemma FailedItemsStep(files: seq<string>, outcomes: seq<bool>, i: nat)
    requires |files| == |outcomes| && i < |files|
    ensures FailedItems(files[..i + 1], outcomes[..i + 1])
            == FailedItems(files[..i], outcomes[..i]) + if outcomes[i] then [] else [files[i]]
  {
    assert files[..i + 1][..i] == files[..i];
    assert outcomes[..i + 1][..i] == outcomes[..i];
  }

  /** The loop of `Run` keeps its tally through one more `Record`. */
  lemma TallyStep(files: seq<string>, outcomes: seq<bool>, i: nat, saving: bool,
                  ok: uint64, fail: uint64, failures: seq<string>,
                  ok': uint64, fail': uint64, failures': seq<string>)
    requires |files| == |outcomes| && i < |files|
    requires ok as int == Successes(outcomes[..i]) % Modulus
    requires fail as int == (i - Successes(outcomes[..i])) % Modulus
    requires failures == if saving then FailedItems(files[..i], outcomes[..i]) else []
    requires outcomes[i] ==> ok' == Inc(ok) && fail' == fail && failures' == failures
    requires !outcomes[i] ==> ok' == ok && fail' == Inc(fail)
    requires !outcomes[i] ==> failures' == if saving then failures + [files[i]] else failures
    ensures ok' as int == Successes(outcomes[..i + 1]) % Modulus
    ensures fail' as int == (i + 1 - Successes(outcomes[..i + 1])) % Modulus
    ensures failures' == if saving then FailedItems(files[..i + 1], outcomes[..i + 1]) else []
  {
    CountStep(outcomes, i, ok, fail);
    FailedItemsStep(files, outcomes, i);
  }

  /**
   * The workers draining the queue: every queued file is processed once and
   * recorded, so the counters end as the numbers of successes and failures
   * (modulo 2^64) and, when saving, the failure list holds the failed files.
   */
  method Drain(files: seq<string>, outcomes: seq<bool>, saving: bool) returns (ok: uint64, fail: uint64, failures: seq<string>)
    requires |outcomes| == |files|
    ensures ok as int == Successes(outcomes) % Modulus
    ensures fail as int == (|files| - Successes(outcomes)) % Modulus
    ensures failures == if saving then FailedItems(files, outcomes) else []
  {
    var summary := new RunSummary(saving);
    var i := 0;
    while i < |files|
      invariant 0 <= i <= |files|
      invariant summary.Valid() && summary.saving == saving
      invariant summary.ok as int == Successes(outcomes[..i]) % Modulus
      invariant summary.fail as int == (i - Successes(outcomes[..i])) % Modulus
      invariant summary.failures == if saving then FailedItems(files[..i], outcomes[..i]) else []
    {
      ghost var ok0, fail0, failures0 := summary.ok, summary.fail, summary.failures;
      summary.Record(files[i], outcomes[i]);
      TallyStep(files, outcomes, i, saving, ok0, fail0, failures0, summary.ok, summary.fail, summary.failures);
      i := i + 1;
    }
    assert files[..i] == files && outcomes[..i] == outcomes;
    ok, fail, failures := summary.ok, summary.fail, summary.failures;
  }

  /**
   * The run: an empty list returns before anything is processed, and so does,
   * in effect, a worker count of zero or less, since no worker takes a file
   * from the queue. Otherwise every file is processed once, the counters end
   * as the numbers of successes and failures (modulo 2^64), and a failure
   * file holding the failed paths is written only when requested and not empty.
   */
  method Run(files: seq<string>, outcomes: seq<bool>, saving: bool, workers: int) returns (report: RunReport)
    requires |outcomes| == |files|
    ensures report.NothingToUpload? <==> files == []
    ensures files != [] && workers <= 0 ==> report == Finished(0, 0, [], None)
    ensures report.Finished? && workers > 0 ==>
              && report.ok as int == Successes(outcomes) % Modulus
              && report.fail as int == (|files| - Successes(outcomes)) % Modulus
              && report.failures == (if saving then FailedItems(files, outcomes) else [])
              && (report.failureFile.Some? <==> saving && FailedItems(files, outcomes) != [])
              && (report.failureFile.Some? ==> report.failureFile.value == Serialized(report.failures))
    ensures report.Finished? && workers > 0 && |files| < Modulus ==>
              && report.ok as int + report.fail as int == |files|
              && (saving ==> |report.failures| == report.fail as int)
  {
    if |files| == 0 {
      return NothingToUpload;
    }
    if workers <= 0 {
      return Finished(0, 0, [], None);
    }
    var ok, fail, failures := Drain(files, outcomes, saving);
    if |files| < Modulus {
      FinalCounts(files, outcomes, ok, fail);
    }
    var failureFile := None;
    if saving && |failures| > 0 {
      var contents := SaveFilesToFile(failures);
      failureFile := Some(contents);
    }
    report := Finished(ok, fail, failures, failureFile);
  }
}
