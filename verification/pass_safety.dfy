/** Safety of the two passes over every run: retraction always has an entry of its own section
    to remove, and the dry run predicts the real pass. */
module PassSafety {
  import opened Words
  import opened Reloc
  import opened Passes

  // ---- Retraction is always legal ---------------------------------------------------------

  function ValidIn(status: seq<Status>): set<nat> {
    set r: nat | r < |status| && status[r] == Valid
  }

  /** The registers whose HI16 no LO16 has used yet. */
  function ValidRegs(e: Engine): set<nat> { ValidIn(e.status) }

  /** A successful handler call adds at most one VALID register; a first use that fails takes one away. */
  lemma DoValidRegs(L: Layout, e: Engine, o: nat, ty: nat, dry: bool)
    requires e.Ok() && o + 4 <= |e.mem|
    ensures var (f, v) := Do(L, e, o, ty, dry);
            && |ValidRegs(f)| <= |ValidRegs(e)| + (if v == Success || v == Error then 1 else 0)
            && (v == Fail && KindOf(ty) == Lo ==> |ValidRegs(f)| + 1 == |ValidRegs(e)|)
  {
    DoEffect(L, e, o, ty, dry);
    hide Do;
    var (f, v) := Do(L, e, o, ty, dry);
    if KindOf(ty) == Hi {
      SetValid(e.status, HiReg(Load(e.mem, o)));
    } else if KindOf(ty) == Lo && v != Error {
      SetUsed(e.status, LoReg(Load(e.mem, o)));
    }
  }

  lemma SetValid(status: seq<Status>, r: nat)
    requires r < |status|
    ensures |ValidIn(status[r := Valid])| <= |ValidIn(status)| + 1
  {
    assert ValidIn(status[r := Valid]) == ValidIn(status) + {r};
  }

  lemma SetUsed(status: seq<Status>, r: nat)
    requires r < |status|
    ensures |ValidIn(status[r := Used])| + (if status[r] == Valid then 1 else 0) == |ValidIn(status)|
  {
    assert ValidIn(status[r := Used]) == ValidIn(status) - {r};
  }

  /** `last` is NULL or the tail, the tail whenever the current section has an entry, and the
      current section has at least as many entries as there are VALID registers. */
  predicate ListOk(s: RealState)
    requires s.eng.Ok()
  {
    && s.base + |ValidRegs(s.eng)| <= |s.list| == s.count
    && (s.last == None || s.last == Some(|s.list| - 1))
    && (s.base < |s.list| ==> s.last == Some(|s.list| - 1))
  }

  lemma RetractionStep(job: Job, s: RealState, k: nat)
    requires job.Ok() && k < |job.events| && s.eng.Ok() && |s.eng.mem| == |job.mem|
    requires s.outcome == Running && ListOk(s)
    ensures var t := job.RealStep(s, k);
            && t.outcome != NullDeref
            && (t.outcome == Running ==> ListOk(t))
            && (job.IsRel(k) ==> t.base == s.base <= |t.list| && t.list[..s.base] == s.list[..s.base])
  {
    hide Do, Pack;
    if job.IsRel(k) {
      DoValidRegs(job.layout, s.eng, job.Off(k), job.events[k].ty, false);
    } else {
      assert ValidRegs(InitTables(s.eng)) == {};
    }
  }

  /** In every run, whatever the relocations: the real pass never follows a NULL `last`, the
      counter is the length of the list, and what is removed belongs to the current section. */
  lemma {:induction false} RetractionIsLegal(job: Job, i: nat)
    requires job.Ok() && i <= |job.events|
    ensures job.Real(i).outcome != NullDeref
    ensures job.Real(i).outcome == Running ==> ListOk(job.Real(i))
    ensures i > 0 && job.IsRel(i - 1) ==>
              && job.Real(i).base == job.Real(i - 1).base <= |job.Real(i).list|
              && job.Real(i).base <= |job.Real(i - 1).list|
              && job.Real(i).list[..job.Real(i).base] == job.Real(i - 1).list[..job.Real(i).base]
    ensures job.Real(i).outcome != Running ==> job.Real(i).base <= |job.Real(i).list|
  {
    if i == 0 {
      assert ValidRegs(job.Tables0()) == {};
    } else {
      RetractionIsLegal(job, i - 1);
      if job.Real(i - 1).outcome == Running {
        RetractionStep(job, job.Real(i - 1), i - 1);
      }
    }
  }

  /** The predicted count never goes negative either. */
  lemma {:induction false} PredictionNonNegative(job: Job, i: nat)
    requires job.Ok() && i <= |job.events|
    ensures |ValidRegs(job.Dry(i).eng)| <= job.Dry(i).count
  {
    hide Job.DryStep;
    if i == 0 {
      NoneValid(Engine(job.mem, [], [], []));
    } else {
      PredictionNonNegative(job, i - 1);
      PredictionStep(job, job.Dry(i - 1), i - 1);
    }
  }

  lemma PredictionStep(job: Job, s: DryState, k: nat)
    requires job.Ok() && k < |job.events| && s.eng.Ok() && |s.eng.mem| == |job.mem|
    requires |ValidRegs(s.eng)| <= s.count
    ensures |ValidRegs(job.DryStep(s, k).eng)| <= job.DryStep(s, k).count
  {
    hide Do, ValidIn;
    if job.IsRel(k) {
      DoValidRegs(job.layout, s.eng, job.Off(k), job.events[k].ty, true);
    } else {
      NoneValid(s.eng);
    }
  }

  lemma NoneValid(e: Engine)
    ensures ValidRegs(InitTables(e)) == {}
  {
  }

  // ---- The dry run predicts the real pass ---------------------------------------------------

  /** No relocation among the first `i` events is one the handlers reject. */
  ghost predicate NoError(job: Job, i: nat)
    requires job.Ok() && i <= |job.events|
  {
    forall k: nat :: k < i && job.IsRel(k) ==> job.CodeAt(k) != Error
  }

  /** How many entries the first `i` events leave in the list. */
  function Surviving(job: Job, i: nat): int
    requires job.Ok() && i <= |job.events|
  {
    if i == 0 then 0
    else if !job.IsRel(i - 1) then Surviving(job, i - 1)
    else Surviving(job, i - 1) + match job.CodeAt(i - 1)
      case Success => 1
      case Error => 1
      case Fail => if job.events[i - 1].ty == 6 then -1 else 0
      case FailKeepHi => 0
  }

  /** An error does not disturb the tables. */
  lemma DryTables(job: Job, k: nat, e: Engine)
    requires job.Ok() && job.IsRel(k) && e.Ok() && e.mem == job.mem && job.TablesAt(k, e)
    ensures var (f, v) := Do(job.layout, e, job.Off(k), job.events[k].ty, true);
            v == job.CodeAt(k) && f.mem == job.mem && job.TablesAt(k + 1, f)
  {
    job.DoTables(k, e, true);
    var (f, v) := Do(job.layout, e, job.Off(k), job.events[k].ty, true);
    assert job.RegisterAt(k, job.RegAt(k), e);
    if v == Error {
      var n := k + 1;
      forall r: nat | r < 32
        ensures job.RegisterAt(n, r, f)
      {
        assert job.RegisterAt(k, r, e);
      }
    }
  }

  lemma BeginTables(job: Job, k: nat, e: Engine)
    requires job.Ok() && k < |job.events| && !job.IsRel(k)
    ensures job.TablesAt(k + 1, InitTables(e))
  {
  }

  /** The whole state of the dry run, described from the image. */
  lemma {:induction false} DryRunState(job: Job, i: nat)
    requires job.Ok() && i <= |job.events|
    ensures job.Dry(i).eng.mem == job.mem && job.TablesAt(i, job.Dry(i).eng)
    ensures job.Dry(i).count == Surviving(job, i)
    ensures job.Dry(i).error <==> !NoError(job, i)
  {
    hide Job.DryStep, Job.TablesAt, NoError, Surviving;
    if i == 0 {
      DryRunStart(job);
    } else {
      DryRunState(job, i - 1);
      DryRunStep(job, job.Dry(i - 1), i - 1);
    }
  }

  lemma DryRunStart(job: Job)
    requires job.Ok()
    ensures job.Dry(0).eng.mem == job.mem && job.TablesAt(0, job.Dry(0).eng)
    ensures job.Dry(0).count == Surviving(job, 0)
    ensures !job.Dry(0).error && NoError(job, 0)
  {
  }

  lemma DryRunStep(job: Job, s: DryState, k: nat)
    requires job.Ok() && k < |job.events| && s.eng.Ok()
    requires s.eng.mem == job.mem && job.TablesAt(k, s.eng)
    requires s.count == Surviving(job, k) && (s.error <==> !NoError(job, k))
    ensures var t := job.DryStep(s, k);
            && t.eng.mem == job.mem && job.TablesAt(k + 1, t.eng)
            && t.count == Surviving(job, k + 1) && (t.error <==> !NoError(job, k + 1))
  {
    NoErrorStep(job, k);
    if job.IsRel(k) {
      DryTables(job, k, s.eng);
    } else {
      BeginTables(job, k, s.eng);
    }
  }

  lemma NoErrorStep(job: Job, k: nat)
    requires job.Ok() && k < |job.events|
    ensures NoError(job, k + 1) <==> NoError(job, k) && (job.IsRel(k) ==> job.CodeAt(k) != Error)
  {
  }

  /** The state of the real pass, described from the untouched image. */
  ghost predicate RealAt(job: Job, s: RealState, i: nat)
    requires job.Ok() && i <= |job.events| && s.eng.Ok()
  {
    && (s.outcome == Running <==> NoError(job, i))
    && (NoError(job, i) ==>
          job.MemAt(i, s.eng.mem) && job.TablesAt(i, s.eng) && s.count == Surviving(job, i))
  }

  lemma {:induction false} RealPassState(job: Job, i: nat)
    requires job.Ok() && job.Disjoint() && i <= |job.events|
    ensures RealAt(job, job.Real(i), i)
  {
    hide Job.RealStep, RealAt;
    if i == 0 {
      RealPassStart(job);
    } else {
      RealPassState(job, i - 1);
      RetractionIsLegal(job, i);
      RealPassStep(job, job.Real(i - 1), i - 1);
    }
  }

  lemma RealPassStart(job: Job)
    requires job.Ok()
    ensures RealAt(job, job.Real(0), 0)
  {
  }

  lemma RealPassStep(job: Job, s: RealState, k: nat)
    requires job.Ok() && job.Disjoint() && k < |job.events|
    requires s.eng.Ok() && |s.eng.mem| == |job.mem| && RealAt(job, s, k)
    requires job.RealStep(s, k).outcome != NullDeref
    ensures RealAt(job, job.RealStep(s, k), k + 1)
  {
    NoErrorStep(job, k);
    if NoError(job, k) {
      if job.IsRel(k) {
        RelStep(job, s, k);
      } else {
        BeginTables(job, k, s.eng);
        BeginMemory(job, k, s.eng.mem);
      }
    }
  }

  lemma RelStep(job: Job, s: RealState, k: nat)
    requires job.Ok() && job.Disjoint() && job.IsRel(k) && s.eng.Ok()
    requires s.outcome == Running && job.MemAt(k, s.eng.mem) && job.TablesAt(k, s.eng)
    ensures var t := job.RealStep(s, k);
            && (job.CodeAt(k) == Error ==> t.outcome == Aborted)
            && (t.outcome == Aborted ==> job.CodeAt(k) == Error)
            && (t.outcome == Running ==>
                  && job.MemAt(k + 1, t.eng.mem) && job.TablesAt(k + 1, t.eng)
                  && t.count - s.count == Surviving(job, k + 1) - Surviving(job, k))
  {
    hide Do, Job.MemAt, Job.TablesAt, Job.CodeAt;
    DoAt(job, s.eng, k);
  }

  /** One handler call of the real pass. */
  lemma DoAt(job: Job, e: Engine, k: nat)
    requires job.Ok() && job.Disjoint() && job.IsRel(k) && e.Ok()
    requires job.MemAt(k, e.mem) && job.TablesAt(k, e)
    ensures var (f, v) := Do(job.layout, e, job.Off(k), job.events[k].ty, false);
            v == job.CodeAt(k) && (v != Error ==> job.MemAt(k + 1, f.mem) && job.TablesAt(k + 1, f))
  {
    assert Load(e.mem, job.Off(k)) == job.WordAt(k, k);
    job.DoTables(k, e, false);
    job.DoImage(k, e);
    job.ImageStepAt(k, e.mem);
  }

  lemma BeginMemory(job: Job, k: nat, m: seq<byte>)
    requires job.Ok() && k < |job.events| && !job.IsRel(k) && job.MemAt(k, m)
    ensures job.MemAt(k + 1, m)
  {
    hide Load, Job.WordAt;
    var n := k + 1;
    forall j: nat | job.IsRel(j)
      ensures Load(m, job.Off(j)) == job.WordAt(j, n)
    {
      assert Load(m, job.Off(j)) == job.WordAt(j, k);
      BeginWord(job, j, k);
    }
  }

  lemma BeginWord(job: Job, j: nat, k: nat)
    requires job.Ok() && job.IsRel(j) && k < |job.events| && !job.IsRel(k)
    ensures job.WordAt(j, k + 1) == job.WordAt(j, k)
  {
  }

  /** The two passes agree although the second rewrites the image as it goes: after an
      error-free dry run the real pass completes, with exactly the predicted number of entries,
      and after a dry run with errors it would abort. */
  lemma DryRunPredictsRealPass(job: Job)
    requires job.Ok() && job.Disjoint()
    ensures var n := |job.events|;
            && (!job.Dry(n).error <==> job.Real(n).outcome == Running)
            && (job.Dry(n).error <==> job.Real(n).outcome == Aborted)
            && (!job.Dry(n).error ==> job.Real(n).count == job.Dry(n).count == |job.Real(n).list|)
  {
    var n := |job.events|;
    DryRunState(job, n);
    RealPassState(job, n);
    RetractionIsLegal(job, n);
  }

  /** Step by step: the real pass sees the return code the dry run saw. */
  lemma SameCodes(job: Job, k: nat)
    requires job.Ok() && job.Disjoint() && job.IsRel(k) && NoError(job, k)
    ensures var ty := job.events[k].ty;
            Do(job.layout, job.Dry(k).eng, job.Off(k), ty, true).1
            == Do(job.layout, job.Real(k).eng, job.Off(k), ty, false).1
  {
    DryRunState(job, k);
    RealPassState(job, k);
    assert Load(job.Real(k).eng.mem, job.Off(k)) == job.WordAt(k, k);
    job.DoTables(k, job.Dry(k).eng, true);
    job.DoTables(k, job.Real(k).eng, false);
  }

  lemma DryIgnoresOverlay(L: Layout, ovl: Quad, e: Engine, o: nat, ty: nat)
    requires e.Ok() && o + 4 <= |e.mem|
    ensures Do(L.(ovl := ovl), e, o, ty, true) == Do(L, e, o, ty, true)
  {
  }

  /** The dry run does not look at the overlay addresses, which are not known yet. */
  lemma {:induction false} DryRunIgnoresOverlay(job: Job, ovl: Quad, i: nat)
    requires job.Ok() && i <= |job.events|
    ensures var other := job.(layout := job.layout.(ovl := ovl));
            other.Ok() && other.Dry(i) == job.Dry(i)
  {
    hide Do, InitTables;
    var other := job.(layout := job.layout.(ovl := ovl));
    forall k: nat | other.IsRel(k) ensures other.Off(k) + 4 <= |other.mem| {
      assert job.IsRel(k);
    }
    if i > 0 {
      DryRunIgnoresOverlay(job, ovl, i - 1);
      if job.IsRel(i - 1) {
        DryIgnoresOverlay(job.layout, ovl, job.Dry(i - 1).eng, job.Off(i - 1), job.events[i - 1].ty);
      }
    }
  }
}
