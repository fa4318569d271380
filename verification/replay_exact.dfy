/** Which conversions can be replayed: exactly those that have taken back no entry that matters. */
module ReplayExact {
  import opened Words
  import opened Reloc
  import opened Passes
  import opened PassSafety
  import opened Meaning
  import opened Replay

  // ---- What no relocation touches stays, however the pass ends ----------------------------------------------

  lemma ErrorKeepsImage(job: Job, e: Engine, k: nat)
    requires job.Ok() && job.Disjoint() && job.IsRel(k) && e.Ok()
    requires job.MemAt(k, e.mem) && job.TablesAt(k, e) && job.CodeAt(k) == Error
    ensures Do(job.layout, e, job.Off(k), job.events[k].ty, false).0.mem == e.mem
  {
    hide Do, Job.CodeAt, Job.TablesAt;
    assert Load(e.mem, job.Off(k)) == job.WordAt(k, k);
    job.DoImage(k, e);
  }

  lemma {:induction false} UntouchedAlways(job: Job, i: nat, b: nat)
    requires job.Ok() && job.Disjoint() && i <= |job.events| && b < |job.mem| && job.Untouched(b)
    ensures job.Real(i).eng.mem[b] == job.mem[b]
  {
    hide Do, Job.TablesAt, Job.CodeAt, NoError, Job.WordAt, Load;
    if i > 0 {
      UntouchedAlways(job, i - 1, b);
      RealPassState(job, i - 1);
      RealPassState(job, i);
      NoErrorStep(job, i - 1);
      if NoError(job, i - 1) && !NoError(job, i) {
        ErrorKeepsImage(job, job.Real(i - 1).eng, i - 1);
      }
    }
  }

  // ---- A base from which every effect can be told -------------------------------------------------------------

  function Shifted(ovl: Quad): Quad {
    [Plus(ovl[0], 0x1_0004), Plus(ovl[1], 0x1_0004), Plus(ovl[2], 0x1_0004), Plus(ovl[3], 0x1_0004)]
  }

  lemma ShiftChanges(a: u32)
    ensures var b := Plus(a, 0x1_0004);
            && b != a && b % 0x1_0000 != a % 0x1_0000
            && HighHalf(b) % 0x1_0000 != HighHalf(a) % 0x1_0000
            && b / 4 % 0x400_0000 != a / 4 % 0x400_0000
  {
    var b := Plus(a, 0x1_0004);
    assert b == a + 0x1_0004 || b == a + 0x1_0004 - 0x1_0000_0000;
    var u, v := a / 0x1_0000, a % 0x1_0000;
    assert a == u * 0x1_0000 + v;
    var q, r := a / 4, a % 4;
    assert a == q * 4 + r;
    assert b / 4 == q + 0x4001 || b / 4 == q + 0x4001 - 0x4000_0000;
  }

  lemma ShiftedMove(L: Layout, s: nat, a: u32)
    requires s < 4
    ensures Moved(L.(ovl := Shifted(L.ovl)), s, a) == Plus(Moved(L, s, a), 0x1_0004)
  {
    hide Plus, Minus;
    MovesWith(a, L.elf[s], L.ovl[s], 0x1_0004);
  }

  lemma ShiftedAddress(job: Job, k: nat)
    requires job.Ok() && job.IsRel(k) && job.TargetOf(k) >= 0
    ensures var B := ForBase(job, Shifted(job.layout.ovl));
            B.Ok() && B.NewAddress(k) == Plus(job.NewAddress(k), 0x1_0004)
  {
    hide Plus, Job.Address, Moved, Target, Shifted, Job.Ok;
    SameCode(job, Shifted(job.layout.ovl), k);
    ShiftedMove(job.layout, job.TargetOf(k), job.Address(k));
  }

  /** Every word that the conversion has changed comes out different for the shifted base. */
  lemma ShiftedWord(job: Job, k: nat)
    requires job.Ok() && job.IsRel(k) && Effective(job, k)
    ensures var B := ForBase(job, Shifted(job.layout.ovl));
            B.Ok() && B.WordAt(k, |job.events|) != job.WordAt(k, |job.events|)
  {
    hide Job.NewAddress, Job.PairedHi, Job.Address, HighHalf, Shifted, WithHigh, Job.HiWordAt, Carries;
    var ovl, n := Shifted(job.layout.ovl), |job.events|;
    var B := ForBase(job, ovl);
    SameCode(job, ovl, k);
    if job.KindAt(k) == Hi {
      var l := LastPartner(job, k, n);
      SameLastPartner(job, ovl, k, n);
      HiWordLowHalf(job, k, n);
      HiWordLowHalf(B, k, n);
      ShiftedAddress(job, l);
      ShiftChanges(job.NewAddress(l));
    } else {
      ShiftedAddress(job, k);
      ShiftChanges(job.NewAddress(k));
      ChangedFields(job.Word0(k), job.NewAddress(k), B.NewAddress(k));
    }
  }

  lemma ChangedFields(w: u32, a: u32, b: u32)
    ensures b % 0x1_0000 != a % 0x1_0000 ==> WithLow(w, b) != WithLow(w, a)
    ensures b / 4 % 0x400_0000 != a / 4 % 0x400_0000 ==> WithJump(w, b) != WithJump(w, a)
  {
  }

  // ---- Necessity --------------------------------------------------------------------------------------------

  /** A change that is not listed is not made by the replay. */
  lemma UnlistedIsMissed(job: Job, k: nat)
    requires Prepared(job) && job.Ok() && job.IsRel(k) && Effective(job, k) && k !in Listed(job, |job.events|)
    ensures ReplayOf(job, Shifted(job.layout.ovl)).Ok()
    ensures FinalImage(ReplayOf(job, Shifted(job.layout.ovl))) != FinalImage(ForBase(job, Shifted(job.layout.ovl)))
  {
    hide Prepared, ReplayOf, FinalImage, Listed, Load, Effective, Shifted, Job.WordAt, NoError, Job.Disjoint;
    PreparedOk(job);
    var ovl := Shifted(job.layout.ovl);
    var R, B := ReplayOf(job, ovl), ForBase(job, ovl);
    ReplayOk(job, ovl);
    ReplayShape(job, ovl);
    ForBaseCompletes(job, ovl);
    FinalWord(job, k);
    FinalWord(B, k);
    ShiftedWord(job, k);
    var o := job.Off(k);
    if FinalImage(R) == FinalImage(B) {
      forall b | o <= b < o + 4 ensures FinalImage(R)[b] == FinalImage(job)[b] {
        UnlistedByte(job, ovl, k, b);
        UnchangedByte(R, b);
      }
      SameLoad(FinalImage(R), FinalImage(job), o);
    }
  }

  lemma UnchangedByte(job: Job, b: nat)
    requires job.Ok() && job.Disjoint() && b < |job.mem| && job.Untouched(b)
    ensures |FinalImage(job)| == |job.mem| && FinalImage(job)[b] == job.mem[b]
  {
    UntouchedAlways(job, |job.events|, b);
  }

  lemma SameLoad(m: seq<byte>, n: seq<byte>, o: nat)
    requires o + 4 <= |m| == |n| && forall b :: o <= b < o + 4 ==> m[b] == n[b]
    ensures Load(m, o) == Load(n, o)
  {
  }

  lemma ForBaseCompletes(job: Job, ovl: Quad)
    requires job.Ok() && job.Disjoint() && NoError(job, |job.events|)
    ensures var B := ForBase(job, ovl);
            B.Ok() && B.Disjoint() && NoError(B, |B.events|)
  {
    hide Job.Disjoint, Job.CodeAt;
    var B := ForBase(job, ovl);
    forall k: nat | k < |B.events| && B.IsRel(k) ensures B.CodeAt(k) != Error {
      SameCode(job, ovl, k);
    }
  }

  /** The replay for `ovl` completes with the image that a direct conversion gives. */
  ghost predicate Replays(job: Job, ovl: Quad)
    requires Prepared(job)
  {
    var R := ReplayOf(job, ovl);
    R.Ok() && R.Real(|R.events|).outcome == Running && FinalImage(R) == FinalImage(ForBase(job, ovl))
  }

  /** A clean conversion can be replayed for every base exactly if every relocation with an effect
      is still listed. */
  lemma ReplayExactly(job: Job)
    requires Prepared(job)
    ensures (forall ovl: Quad :: Replays(job, ovl)) <==> Complete(job)
  {
    hide Prepared, ReplayOf, FinalImage, Listed, Effective, Shifted, Job.Real;
    PreparedOk(job);
    if Complete(job) {
      forall ovl: Quad ensures Replays(job, ovl) {
        ReplayComposes(job, ovl);
      }
    } else {
      var k: nat :| job.IsRel(k) && Effective(job, k) && k !in Listed(job, |job.events|);
      UnlistedIsMissed(job, k);
      assert !Replays(job, Shifted(job.layout.ovl));
    }
  }
}
