/** Retractions: exactly when a failing LO16 takes back the entry of the HI16 it is paired with, and
    the conversions that can be replayed. */
module Retraction {
  import opened Reloc
  import opened Passes
  import opened PassSafety
  import opened Meaning
  import opened Replay

  // ---- Which entry is taken back ------------------------------------------------------------------------

  predicate Retracts(job: Job, j: nat)
    requires job.Ok() && job.IsRel(j)
  {
    job.CodeAt(j) == Fail && job.events[j].ty == 6
  }

  /** The entry listed last when `j` retracts is that of its HI16. */
  predicate TakesPairedEntry(job: Job, j: nat)
    requires job.Ok() && job.IsRel(j)
  {
    Listed(job, j) != [] && Listed(job, j)[|Listed(job, j)| - 1] == job.PairedHi(j)
  }

  /** From just after HI16 `h` to `j` the predicted count comes back to its value and is never below
      it: whatever is listed in between is taken back in between. */
  predicate Balanced(job: Job, h: nat, j: nat)
    requires job.Ok() && h < j <= |job.events|
  {
    && Surviving(job, j) == Surviving(job, h + 1)
    && forall m :: h < m <= j ==> Surviving(job, m) >= Surviving(job, h + 1)
  }

  /** The list is as long as the predicted count says. */
  lemma ListedLength(job: Job, i: nat)
    requires job.Ok() && job.Disjoint() && i <= |job.events| && NoError(job, i)
    ensures |Listed(job, i)| == Surviving(job, i)
  {
    hide Job.RealStep, Job.Real, Surviving, Listed;
    ListedEntries(job, i);
    RealPassState(job, i);
    RetractionIsLegal(job, i);
  }

  /** The list has not become shorter than `n` after HI16 `h`. */
  ghost predicate NeverBelow(job: Job, h: nat, i: nat, n: nat)
    requires job.Ok() && i <= |job.events|
  {
    forall m {:trigger Listed(job, m)} :: h < m <= i ==> |Listed(job, m)| >= n
  }

  /** After HI16 `h` has been listed, its entry is there as long as the list has not become shorter
      than just after it, with the same entries below it; and once it has, it is gone. */
  lemma {:induction false} BelowIsKept(job: Job, h: nat, i: nat)
    requires job.Ok() && job.IsRel(h) && job.CodeAt(h) == Success && h < i <= |job.events|
    ensures var base := Listed(job, h + 1);
            && base != [] && base[|base| - 1] == h
            && if NeverBelow(job, h, i, |base|)
               then |Listed(job, i)| >= |base| && Listed(job, i)[..|base|] == base
               else h !in Listed(job, i)
  {
    hide Job.CodeAt, Listed;
    var base := Listed(job, h + 1);
    ListedHere(job, h);
    if i > h + 1 {
      BelowIsKept(job, h, i - 1);
      StackStep(job, i - 1);
      assert NeverBelow(job, h, i, |base|) <==> NeverBelow(job, h, i - 1, |base|) && |Listed(job, i)| >= |base|;
      if NeverBelow(job, h, i - 1, |base|) {
        Ascends(job, h);
        StackKeeps(Listed(job, i - 1), Listed(job, i), base, i - 1);
      }
    }
  }

  lemma ListedHere(job: Job, h: nat)
    requires job.Ok() && job.IsRel(h) && job.CodeAt(h) == Success
    ensures var base := Listed(job, h + 1);
            base != [] && base[|base| - 1] == h
  {
    hide Job.CodeAt;
  }

  /** A push or a pop on a stack that has `base` at the bottom. */
  lemma StackKeeps(prev: seq<nat>, now: seq<nat>, base: seq<nat>, x: nat)
    requires now == prev || now == prev + [x] || (prev != [] && now == prev[..|prev| - 1])
    requires |prev| >= |base| > 0 && prev[..|base|] == base
    ensures |now| >= |base| ==> now[..|base|] == base
    ensures |now| < |base| ==> now == base[..|base| - 1]
  {
  }

  lemma StackStep(job: Job, i: nat)
    requires job.Ok() && i < |job.events|
    ensures var prev, now := Listed(job, i), Listed(job, i + 1);
            now == prev || now == prev + [i] || (prev != [] && now == prev[..|prev| - 1])
  {
    hide Job.CodeAt;
  }

  lemma Ascends(job: Job, h: nat)
    requires job.Ok() && h < |job.events|
    ensures var s := Listed(job, h + 1);
            s != [] && s[|s| - 1] == h ==> h !in s[..|s| - 1]
  {
    var s := Listed(job, h + 1);
    assert forall p: nat, q: nat :: p < q < |s| ==> s[p] < s[q];
  }

  /** A stack with `base` at the bottom and no entry twice has the top of `base` on top only if it is `base`. */
  lemma OneTop(s: seq<nat>, base: seq<nat>)
    requires forall p: nat, q: nat :: p < q < |s| ==> s[p] < s[q]
    requires base != [] && |s| >= |base| && s[..|base|] == base
    ensures s[|s| - 1] == base[|base| - 1] <==> |s| == |base|
  {
    assert s[|base| - 1] == base[|base| - 1];
  }

  lemma BalancedLengths(job: Job, h: nat, j: nat)
    requires job.Ok() && job.Disjoint() && NoError(job, |job.events|) && h < j <= |job.events|
    ensures var n := |Listed(job, h + 1)|;
            Balanced(job, h, j) <==> |Listed(job, j)| == n && NeverBelow(job, h, j, n)
  {
    hide Listed, Surviving;
    forall m: nat {:trigger Listed(job, m)} {:trigger Surviving(job, m)} | h < m <= j
      ensures |Listed(job, m)| == Surviving(job, m)
    {
      ListedLength(job, m);
    }
  }

  /** A retraction takes back the entry of the paired HI16 exactly when the predicted count is
      balanced between the two, which is known before the real pass. */
  lemma RetractionExact(job: Job, j: nat)
    requires job.Ok() && job.Disjoint() && NoError(job, |job.events|) && job.IsRel(j) && Retracts(job, j)
    ensures job.PairedHi(j) >= 0
    ensures TakesPairedEntry(job, j) <==> Balanced(job, job.PairedHi(j), j)
  {
    hide Listed, Surviving, Job.PairedHi, Balanced, NeverBelow, NoError, Job.CodeAt;
    var h := PairedOf(job, j);
    var base, s := Listed(job, h + 1), Listed(job, j);
    BalancedLengths(job, h, j);
    BelowIsKept(job, h, j);
    if NeverBelow(job, h, j, |base|) {
      Ascending(job, j);
      OneTop(s, base);
    }
  }

  lemma Ascending(job: Job, i: nat)
    requires job.Ok() && i <= |job.events|
    ensures forall p: nat, q: nat :: p < q < |Listed(job, i)| ==> Listed(job, i)[p] < Listed(job, i)[q]
  {
  }

  lemma PairedOf(job: Job, j: nat) returns (h: nat)
    requires job.Ok() && job.IsRel(j) && Retracts(job, j)
    ensures h == job.PairedHi(j) < j && job.IsRel(h) && job.CodeAt(h) == Success
  {
    h := job.PairedHi(j);
  }

  // ---- Conversions that can be replayed -------------------------------------------------------------------

  /** Between every retraction and its HI16 the predicted count is balanced. */
  ghost predicate RetractsPairedHi(job: Job)
    requires job.Ok()
  {
    forall j: nat :: job.IsRel(j) && Retracts(job, j) ==>
      job.PairedHi(j) >= 0 && Balanced(job, job.PairedHi(j), j)
  }

  ghost predicate AllUniform(job: Job)
    requires job.Ok()
  {
    forall h: nat :: job.IsRel(h) && job.KindAt(h) == Hi ==> Uniform(job, h)
  }

  lemma ListedKeeps(job: Job, j: nat, q: nat)
    requires job.Ok() && j < |job.events| && q < |Listed(job, j)|
    requires job.IsRel(j) && Retracts(job, j) ==> q < |Listed(job, j)| - 1
    ensures q < |Listed(job, j + 1)| && Listed(job, j + 1)[q] == Listed(job, j)[q]
  {
    hide Job.CodeAt;
  }

  lemma ListedNow(job: Job, k: nat)
    requires job.Ok() && job.IsRel(k) && job.CodeAt(k) == Success
    ensures k in Listed(job, k + 1)
  {
    assert Listed(job, k + 1)[|Listed(job, k)|] == k;
  }

  /** A HI16 with a successful partner is not paired with a LO16 that fails. */
  lemma NotRetracted(job: Job, h: nat, j: nat)
    requires job.Ok() && job.IsRel(h) && AllUniform(job) && Effective(job, h)
    requires job.IsRel(j) && Retracts(job, j)
    ensures job.PairedHi(j) != h
  {
    if job.KindAt(h) == Hi {
      assert Uniform(job, h);
    }
    assert job.Partner(j, job.PairedHi(j));
  }

  /** Then a relocation with an effect, once listed, stays listed. */
  lemma {:induction false} StaysListed(job: Job, k: nat, i: nat)
    requires job.Ok() && job.IsRel(k) && k < i <= |job.events| && Effective(job, k)
    requires job.Disjoint() && NoError(job, |job.events|) && RetractsPairedHi(job) && AllUniform(job)
    ensures k in Listed(job, i)
  {
    hide Job.CodeAt, Job.PairedHi, AllUniform, LastPartner, Listed;
    if i == k + 1 {
      ListedNow(job, k);
    } else {
      var j, prev := i - 1, Listed(job, i - 1);
      StaysListed(job, k, j);
      var q: nat :| q < |prev| && prev[q] == k;
      if job.IsRel(j) && Retracts(job, j) {
        NotRetracted(job, k, j);
        RetractionExact(job, j);
      }
      ListedKeeps(job, j, q);
    }
  }

  /** A conversion under the usual assumptions: uniform groups, retractions that hit the paired
      HI16, jumps that can be expressed, and no carry that changes a register. */
  ghost predicate CleanConversion(job: Job) {
    && job.Ok() && job.Disjoint() && Packable(job) && NoError(job, |job.events|)
    && Separate(job.layout.elf, job.layout.sizes) && Separate(job.layout.ovl, job.layout.sizes)
    && AllUniform(job) && RetractsPairedHi(job)
    && (forall k: nat :: job.IsRel(k) && job.KindAt(k) == Jump ==> Expressible(job, k))
    && (forall k: nat :: job.IsRel(k) && job.KindAt(k) == Hi ==> RegisterSurvives(job, k))
  }

  lemma CleanIsReplayable(job: Job)
    requires CleanConversion(job)
    ensures Replayable(job)
  {
    hide Job.NewAddress, Job.PairedHi, Listed, Uniform, LastPartner;
    forall k: nat | job.IsRel(k) && job.KindAt(k) != Hi
      ensures Expressible(job, k)
    {
      if job.KindAt(k) == Lo { UniformIsExpressible(job, k); }
    }
    forall k: nat | job.IsRel(k) && Effective(job, k)
      ensures k in Listed(job, |job.events|)
    {
      StaysListed(job, k, |job.events|);
    }
  }
}
