/** Relocating an overlay again: the entries the converter emitted, run through the same handlers
    on the image for one base, give exactly the image for another base. */
module Replay {
  import opened Words
  import opened Reloc
  import opened Passes
  import opened PassSafety
  import opened Meaning

  // ---- The emitted entries --------------------------------------------------------------------

  /** The section relocation `k` belongs to. */
  function SectionAt(job: Job, i: nat): nat
    requires i <= |job.events|
  {
    if i == 0 then 0
    else match job.events[i - 1]
      case Begin(id) => id
      case Rel(_, _) => SectionAt(job, i - 1)
  }

  /** The relocations whose entries are listed after `i` events: a success lists one, a LO16 that
      fails outright takes back the last one listed, whichever that is. */
  function Listed(job: Job, i: nat): (idx: seq<nat>)
    requires job.Ok() && i <= |job.events|
    ensures forall q: nat :: q < |idx| ==> idx[q] < i && job.IsRel(idx[q]) && job.CodeAt(idx[q]) == Success
    ensures forall p: nat, q: nat :: p < q < |idx| ==> idx[p] < idx[q]
  {
    if i == 0 then []
    else
      var prev := Listed(job, i - 1);
      if !job.IsRel(i - 1) then prev
      else if job.CodeAt(i - 1) == Success then prev + [i - 1]
      else if job.CodeAt(i - 1) == Fail && job.events[i - 1].ty == 6 && prev != [] then prev[..|prev| - 1]
      else prev
  }

  function EntryOf(job: Job, k: nat): u32
    requires job.IsRel(k)
  {
    var id := SectionAt(job, k);
    Pack(id + 1, job.events[k].offset - (if id < 4 then job.layout.elf[id] else 0), job.events[k].ty)
  }

  /** The list holds the packed words of the listed relocations, in order. */
  ghost predicate ListMatches(job: Job, s: RealState, i: nat)
    requires job.Ok() && i <= |job.events|
  {
    var idx := Listed(job, i);
    && s.id == SectionAt(job, i)
    && |s.list| == |idx|
    && forall q: nat :: q < |idx| ==> s.list[q] == EntryOf(job, idx[q])
  }

  lemma {:induction false} ListedEntries(job: Job, i: nat)
    requires job.Ok() && job.Disjoint() && i <= |job.events| && NoError(job, i)
    ensures ListMatches(job, job.Real(i), i)
  {
    hide Job.RealStep, Job.MemAt, Job.TablesAt, ListOk, ListMatches;
    if i == 0 {
      NothingListed(job);
    } else {
      RealPassState(job, i - 1);
      RealPassState(job, i);
      RetractionIsLegal(job, i - 1);
      RetractionIsLegal(job, i);
      ListedEntries(job, i - 1);
      ListedStep(job, job.Real(i - 1), i - 1);
    }
  }

  lemma NothingListed(job: Job)
    requires job.Ok()
    ensures ListMatches(job, job.Real(0), 0)
  {
  }

  lemma ListedStep(job: Job, s: RealState, k: nat)
    requires job.Ok() && job.Disjoint() && k < |job.events| && NoError(job, k + 1)
    requires s.eng.Ok() && RealAt(job, s, k) && s.outcome == Running && ListOk(s)
    requires |s.eng.mem| == |job.mem| && job.RealStep(s, k).outcome == Running
    requires ListMatches(job, s, k)
    ensures ListMatches(job, job.RealStep(s, k), k + 1)
  {
    hide Do, Pack, EntryOf, ListMatches, ValidRegs, Job.MemAt, Job.TablesAt, Job.CodeAt, Job.Append, Job.Retract;
    if job.IsRel(k) {
      assert NoError(job, k);
      DoAt(job, s.eng, k);
      var t := s.(eng := Do(job.layout, s.eng, job.Off(k), job.events[k].ty, false).0);
      SameList(job, s, t, k);
      if job.CodeAt(k) == Success {
        ListedAppend(job, t, k);
      } else {
        ListedRetract(job, t, k);
      }
    } else {
      ListedBegin(job, s, k);
    }
  }

  lemma SameList(job: Job, s: RealState, t: RealState, i: nat)
    requires job.Ok() && i <= |job.events| && s.id == t.id && s.list == t.list
    ensures ListMatches(job, s, i) == ListMatches(job, t, i)
  {
  }

  lemma ListedBegin(job: Job, s: RealState, k: nat)
    requires job.Ok() && k < |job.events| && !job.IsRel(k) && ListMatches(job, s, k)
    requires s.outcome == Running && s.eng.Ok() && |s.eng.mem| == |job.mem|
    ensures ListMatches(job, job.RealStep(s, k), k + 1)
  {
  }

  lemma ListedAppend(job: Job, s: RealState, k: nat)
    requires job.Ok() && job.IsRel(k) && job.CodeAt(k) == Success && ListMatches(job, s, k)
    ensures ListMatches(job, job.Append(s, job.events[k].offset, job.events[k].ty), k + 1)
  {
    hide Pack, Job.CodeAt;
  }

  lemma ListedRetract(job: Job, s: RealState, k: nat)
    requires job.Ok() && job.IsRel(k) && ListMatches(job, s, k)
    requires job.CodeAt(k) == Fail || job.CodeAt(k) == FailKeepHi
    requires s.last == None || s.last == Some(|s.list| - 1)
    ensures var t := if job.events[k].ty == 6 && job.CodeAt(k) == Fail then job.Retract(s) else s;
            t.outcome == NullDeref || ListMatches(job, t, k + 1)
  {
    hide EntryOf, Job.CodeAt, Job.Retract;
    RetractTail(job, s);
  }

  lemma RetractTail(job: Job, s: RealState)
    requires s.last == None || s.last == Some(|s.list| - 1)
    ensures job.Retract(s).outcome != NullDeref ==> |s.list| > 0 && job.Retract(s).list == s.list[..|s.list| - 1] && job.Retract(s).id == s.id
  {
  }

  // ---- Replaying ----------------------------------------------------------------------------------

  /** The relocation a packed entry stands for: OVL_RELOC_GET_SEC, _ADDR and _TYPE. */
  function Unpack(elf: Quad, r: u32): Event {
    var sec := r / 0x4000_0000 - 1;
    Rel(Plus(if sec < 0 then 0 else elf[sec], r % 0x100_0000), r / 0x100_0000 % 0x40)
  }

  /** One `novl_reloc_init`, then the handlers on every entry, from layout `starts` to layout `ovl`. */
  function ReplayJob(job: Job, starts: Quad, ovl: Quad, m: seq<byte>, entries: seq<u32>): Job {
    Job(Layout(starts, job.layout.sizes, ovl), job.ep, m,
        [Begin(0)] + seq(|entries|, q requires 0 <= q < |entries| => Unpack(job.layout.elf, entries[q])))
  }

  /** Every relocation belongs to .text, .data or .rodata and lies in its first 16 MiB. */
  ghost predicate Packable(job: Job) {
    forall k: nat :: job.IsRel(k) ==>
      && SectionAt(job, k) < 3
      && 0 <= job.events[k].offset - job.layout.elf[SectionAt(job, k)] < 0x100_0000
  }

  lemma PackedFields(sec: nat, offset: nat, ty: nat)
    requires 1 <= sec <= 3 && offset < 0x100_0000
    ensures var r := Pack(sec, offset, ty);
            r / 0x4000_0000 == sec && r % 0x100_0000 == offset && r / 0x100_0000 % 0x40 == ty % 0x40
  {
  }

  lemma KindUnpacked(ty: nat)
    ensures KindOf(ty) != Unhandled ==> KindOf(ty % 0x40) == KindOf(ty)
  {
    if ty % 0x80 < 0x40 {
      assert ty == 0x40 * (2 * (ty / 0x80)) + ty % 0x80;
      assert ty % 0x40 == ty % 0x80;
    }
  }

  /** An entry stands for its relocation. */
  lemma UnpackedEntry(job: Job, k: nat)
    requires job.Ok() && job.IsRel(k) && Packable(job) && job.CodeAt(k) == Success
    ensures var e := Unpack(job.layout.elf, EntryOf(job, k));
            e.Rel? && e.offset == job.events[k].offset && KindOf(e.ty) == job.KindAt(k)
  {
    hide Pack, KindOf, Job.TargetOf, Job.HiOf, Job.UsedSince, Job.Word0;
    var id := SectionAt(job, k);
    PackedFields(id + 1, job.events[k].offset - job.layout.elf[id], job.events[k].ty);
    KindUnpacked(job.events[k].ty);
  }

  // ---- The pairing does not depend on the overlay addresses ------------------------------------------

  function ForBase(job: Job, ovl: Quad): (b: Job)
    ensures job.Ok() ==> b.Ok()
    ensures job.Disjoint() ==> b.Disjoint()
  {
    var b := job.(layout := job.layout.(ovl := ovl));
    assert forall k: nat :: b.IsRel(k) ==> job.IsRel(k) && b.Off(k) == job.Off(k);
    assert forall j: nat, k: nat :: b.IsRel(j) && b.IsRel(k) ==> (b.Apart(j, k) <==> job.Apart(j, k));
    b
  }

  lemma {:induction false} SameHiOf(job: Job, ovl: Quad, i: nat, r: nat)
    requires job.Ok() && i <= |job.events|
    ensures ForBase(job, ovl).HiOf(i, r) == job.HiOf(i, r)
    ensures ForBase(job, ovl).UsedSince(i, r) == job.UsedSince(i, r)
  {
    if i > 0 {
      SameHiOf(job, ovl, i - 1, r);
    }
  }

  lemma SameCode(job: Job, ovl: Quad, k: nat)
    requires job.Ok() && job.IsRel(k)
    ensures var b := ForBase(job, ovl);
            && b.PairedHi(k) == job.PairedHi(k) && b.Address(k) == job.Address(k)
            && b.TargetOf(k) == job.TargetOf(k) && b.CodeAt(k) == job.CodeAt(k)
  {
    SameHiOf(job, ovl, k, job.RegAt(k));
  }

  lemma {:induction false} SameLastPartner(job: Job, ovl: Quad, h: nat, i: nat)
    requires job.Ok() && i <= |job.events|
    ensures LastPartner(ForBase(job, ovl), h, i) == LastPartner(job, h, i)
  {
    hide Job.HiOf, Job.PairedHi, Job.TargetOf, Job.CodeAt, Job.Address;
    if i > 0 {
      SameLastPartner(job, ovl, h, i - 1);
      if job.IsRel(i - 1) {
        SameCode(job, ovl, i - 1);
      }
    }
  }

  // ---- Finding the pairing of a replayed entry ------------------------------------------------------

  lemma {:induction false} HiOfUnique(job: Job, i: nat, r: nat, h: nat)
    requires job.Ok() && h < i <= |job.events| && job.IsHi(h, r)
    requires forall j: nat :: h < j < i ==> job.IsRel(j) && !job.IsHi(j, r)
    ensures job.HiOf(i, r) == h
  {
    if h < i - 1 {
      assert job.IsRel(i - 1) && !job.IsHi(i - 1, r);
      HiOfUnique(job, i - 1, r, h);
    }
  }

  lemma {:induction false} LastPartnerUnique(job: Job, h: nat, i: nat, l: int)
    requires job.Ok() && -1 <= l < i <= |job.events|
    requires l >= 0 ==> job.Partner(l, h) && job.TargetOf(l) >= 0
    requires forall j: nat :: l < j < i ==> !(job.Partner(j, h) && job.TargetOf(j) >= 0)
    ensures LastPartner(job, h, i) == l
  {
    if l < i - 1 {
      LastPartnerUnique(job, h, i - 1, l);
    }
  }

  // ---- The replayed list ------------------------------------------------------------------------------

  /** The real pass changes a word because of relocation `k`. */
  predicate Effective(job: Job, k: nat)
    requires job.Ok() && job.IsRel(k)
  {
    job.CodeAt(k) == Success && (job.KindAt(k) == Hi ==> LastPartner(job, k, |job.events|) >= 0)
  }

  /** Every relocation with an effect is listed at the end. */
  ghost predicate Complete(job: Job)
    requires job.Ok()
  {
    forall k: nat :: job.IsRel(k) && Effective(job, k) ==> k in Listed(job, |job.events|)
  }

  /** The conversion was clean. */
  ghost predicate Prepared(job: Job) {
    && job.Ok() && job.Disjoint() && Packable(job) && NoError(job, |job.events|)
    && Separate(job.layout.elf, job.layout.sizes) && Separate(job.layout.ovl, job.layout.sizes)
    && (forall k: nat :: job.IsRel(k) && job.KindAt(k) != Hi ==> Expressible(job, k))
    && (forall k: nat :: job.IsRel(k) && job.KindAt(k) == Hi ==> RegisterSurvives(job, k))
  }

  /** The converted image can be relocated again: nothing that matters was retracted either. */
  ghost predicate Replayable(job: Job) { Prepared(job) && Complete(job) }

  function FinalImage(job: Job): (m: seq<byte>)
    requires job.Ok()
    ensures |m| == |job.mem|
  {
    job.Real(|job.events|).eng.mem
  }

  function ReplayOf(job: Job, ovl: Quad): Job
    requires job.Ok()
  {
    ReplayJob(job, job.layout.ovl, ovl, FinalImage(job), job.Real(|job.events|).list)
  }

  /** Entry `q` of the list, event `q + 1` of the replay, is relocation `k`. */
  ghost predicate EntryIs(job: Job, q: nat, k: nat)
    requires job.Ok()
  {
    q < |Listed(job, |job.events|)| && Listed(job, |job.events|)[q] == k
  }

  lemma ReplayedEvent(job: Job, ovl: Quad, q: nat, k: nat)
    requires Prepared(job) && EntryIs(job, q, k)
    ensures var R := ReplayOf(job, ovl);
            && |R.events| == |Listed(job, |job.events|)| + 1
            && R.IsRel(q + 1) && R.events[q + 1].offset == job.events[k].offset && R.KindAt(q + 1) == job.KindAt(k)
  {
    hide EntryOf, Unpack, Job.Real, Packable;
    ListedEntries(job, |job.events|);
    UnpackedEntry(job, k);
    var list := job.Real(|job.events|).list;
    assert list[q] == EntryOf(job, k);
    assert ReplayOf(job, ovl).events[q + 1] == Unpack(job.layout.elf, list[q]);
  }

  lemma ReplayOk(job: Job, ovl: Quad)
    requires Prepared(job)
    ensures ReplayOf(job, ovl).Ok() && ReplayOf(job, ovl).Disjoint() && |ReplayOf(job, ovl).events| == |Listed(job, |job.events|)| + 1
  {
    hide ReplayOf, EntryOf, Unpack, Job.Real, Packable, Job.CodeAt, Complete;
    var R, idx := ReplayOf(job, ovl), Listed(job, |job.events|);
    ReplayShape(job, ovl);
    forall j: nat | R.IsRel(j)
      ensures j > 0 && R.Off(j) == job.Off(idx[j - 1]) && R.Off(j) + 4 <= |R.mem|
    {
      ReplayedEvent(job, ovl, j - 1, idx[j - 1]);
    }
    forall j: nat, k: nat | j != k && R.IsRel(j) && R.IsRel(k)
      ensures R.Apart(j, k)
    {
      assert job.Apart(idx[j - 1], idx[k - 1]);
    }
  }

  lemma ReplayShape(job: Job, ovl: Quad)
    requires Prepared(job)
    ensures var R := ReplayOf(job, ovl);
            && |R.events| == |Listed(job, |job.events|)| + 1 && R.events[0] == Begin(0) && R.ep == job.ep
            && R.mem == FinalImage(job) && |R.mem| == |job.mem|
            && R.layout == Layout(job.layout.ovl, job.layout.sizes, ovl)
  {
    hide EntryOf, Unpack, Job.Real, Packable, Job.CodeAt, Complete;
    ListedEntries(job, |job.events|);
  }

  // ---- What the replay sees ---------------------------------------------------------------------------

  /** The words of the converted image still have their registers, so the pairing is the same. */
  lemma ReplayedWord(job: Job, ovl: Quad, q: nat, k: nat)
    requires Prepared(job) && EntryIs(job, q, k)
    ensures var R := ReplayOf(job, ovl);
            && R.Ok() && R.IsRel(q + 1) && R.KindAt(q + 1) == job.KindAt(k) && R.Off(q + 1) == job.Off(k)
            && R.Word0(q + 1) == job.WordAt(k, |job.events|)
            && (job.KindAt(k) == Hi || job.KindAt(k) == Lo ==> R.RegAt(q + 1) == job.RegAt(k))
  {
    hide ReplayOf, EntryOf, Unpack, Job.Real, Packable, Complete, Load, Carries;
    var n := |job.events|;
    ReplayOk(job, ovl);
    ReplayShape(job, ovl);
    ReplayedEvent(job, ovl, q, k);
    RealPassState(job, n);
    assert Load(job.Real(n).eng.mem, job.Off(k)) == job.WordAt(k, n);
    RegisterKept(job, k);
  }

  lemma RegisterKept(job: Job, k: nat)
    requires job.Ok() && job.IsRel(k)
    requires job.KindAt(k) == Hi ==> RegisterSurvives(job, k)
    ensures job.KindAt(k) == Hi || job.KindAt(k) == Lo ==>
              RegOf(job.KindAt(k), job.WordAt(k, |job.events|)) == job.RegAt(k)
  {
    hide Carries, WithLow, Job.NewAddress, Job.Word0;
    var n := |job.events|;
    if job.KindAt(k) == Hi {
      HiWordUpperHalf(job, k, n);
    } else if job.KindAt(k) == Lo {
      WithLowHalves(job.Word0(k), job.NewAddress(k));
      LoRegUpperHalf(job.WordAt(k, n));
      LoRegUpperHalf(job.Word0(k));
    }
  }

  lemma LoRegUpperHalf(w: u32)
    ensures LoReg(w) == w / 0x1_0000 / 32 % 32
  {
  }

  lemma ReplayedPairing(job: Job, ovl: Quad, q: nat, k: nat, p: nat, h: nat)
    requires Replayable(job) && EntryIs(job, q, k) && EntryIs(job, p, h)
    requires job.KindAt(k) == Lo && job.PairedHi(k) == h
    ensures ReplayOf(job, ovl).Ok() && ReplayOf(job, ovl).IsRel(q + 1) && ReplayOf(job, ovl).PairedHi(q + 1) == p + 1
  {
    hide ReplayOf, Replayable, Prepared, NoError, Job.Ok, Job.Disjoint, Load, KindOf, Minus, Job.Word0, Job.WordAt, Job.CodeAt, Job.RegAt;
    assert Prepared(job) && job.Ok() && job.Disjoint() && NoError(job, |job.events|) by { ReplayableOk(job); }
    var R, idx, r := ReplayOf(job, ovl), Listed(job, |job.events|), job.RegAt(k);
    ReplayOk(job, ovl);
    ReplayShape(job, ovl);
    ReplayedWord(job, ovl, q, k);
    ReplayedWord(job, ovl, p, h);
    assert p < q;
    forall j: nat | p + 1 < j < q + 1
      ensures R.IsRel(j) && !R.IsHi(j, r)
    {
      assert EntryIs(job, j - 1, idx[j - 1]);
      ReplayedWord(job, ovl, j - 1, idx[j - 1]);
      assert !job.IsHi(idx[j - 1], r);
    }
    assert R.IsHi(p + 1, r);
    HiOfUnique(R, q + 1, r, p + 1);
  }

  /** The pairing HI16 of a listed LO16 is listed. */
  lemma HiListed(job: Job, k: nat) returns (p: nat)
    requires Replayable(job) && job.IsRel(k) && job.KindAt(k) == Lo && job.CodeAt(k) == Success
    ensures job.PairedHi(k) >= 0 && EntryIs(job, p, job.PairedHi(k))
  {
    hide LastPartner, Listed, Expressible;
    var idx, h := Listed(job, |job.events|), job.PairedHi(k);
    assert job.Partner(k, h);
    assert Effective(job, h);
    assert h in idx;
    p :| p < |idx| && idx[p] == h;
  }

  /** A listed reference is found where the converter moved it. */
  lemma ReplayedAddress(job: Job, ovl: Quad, q: nat, k: nat)
    requires Replayable(job) && EntryIs(job, q, k) && job.KindAt(k) != Hi
    ensures var R := ReplayOf(job, ovl);
            && R.Ok() && R.IsRel(q + 1) && R.Address(q + 1) == job.NewAddress(k)
            && (job.KindAt(k) == Lo ==> R.PairedHi(q + 1) >= 0)
  {
    hide ReplayOf, Packable, Complete, Carries, Expressible, JumpAddress, PairAddress, Job.Real, Job.NewAddress, Job.WordAt, Job.CodeAt;
    ReplayedWord(job, ovl, q, k);
    CompletedRun(job);
    ReferenceExact(job, k);
    FinalWord(job, k);
    if job.KindAt(k) == Lo {
      ReplayedLoAddress(job, ovl, q, k);
    }
  }

  lemma PreparedOk(job: Job)
    requires Prepared(job)
    ensures job.Ok() && job.Disjoint() && NoError(job, |job.events|)
  {
  }

  lemma ReplayableOk(job: Job)
    requires Replayable(job)
    ensures Prepared(job) && job.Ok() && job.Disjoint() && NoError(job, |job.events|)
  {
  }

  lemma EntryListed(job: Job, q: nat, k: nat)
    requires job.Ok() && EntryIs(job, q, k)
    ensures job.IsRel(k) && job.CodeAt(k) == Success
  {
  }

  lemma ReplayedLoAddress(job: Job, ovl: Quad, q: nat, k: nat)
    requires Replayable(job) && EntryIs(job, q, k) && job.KindAt(k) == Lo
    ensures var R := ReplayOf(job, ovl);
            && R.Ok() && R.IsRel(q + 1) && R.PairedHi(q + 1) >= 0
            && R.Address(q + 1) == AddressIn(job, k, FinalImage(job))
  {
    hide ReplayOf, Replayable, Prepared, JumpAddress, PairAddress, FinalImage, Listed, EntryIs, Job.NewAddress, Job.WordAt, Load, KindOf, Minus;
    hide Job.HiOf, Job.PairedHi, Job.Word0, Job.TargetOf;
    hide Job.CodeAt;
    assert Prepared(job) && job.Ok() && job.Disjoint() && NoError(job, |job.events|) by { ReplayableOk(job); }
    assert job.IsRel(k) && job.CodeAt(k) == Success by { EntryListed(job, q, k); }
    var p := HiListed(job, k);
    var h := job.PairedHi(k);
    ReplayedWord(job, ovl, q, k);
    ReplayedWord(job, ovl, p, h);
    ReplayedPairing(job, ovl, q, k, p, h);
    FinalWord(job, k);
    FinalWord(job, h);
  }

  lemma CompletedRun(job: Job)
    requires job.Ok() && job.Disjoint() && NoError(job, |job.events|)
    ensures job.Real(|job.events|).outcome == Running
  {
    RealPassState(job, |job.events|);
  }

  lemma FinalWord(job: Job, k: nat)
    requires job.Ok() && job.Disjoint() && NoError(job, |job.events|) && job.IsRel(k)
    ensures |FinalImage(job)| == |job.mem| && Load(FinalImage(job), job.Off(k)) == job.WordAt(k, |job.events|)
  {
    RealPassState(job, |job.events|);
  }

  lemma MovedTwice(L: Layout, ovl: Quad, s: nat, a: u32)
    requires s < 4
    ensures Moved(Layout(L.ovl, L.sizes, ovl), s, Moved(L, s, a)) == Moved(Layout(L.elf, L.sizes, ovl), s, a)
  {
    hide Plus, Minus;
    MovesOn(a, L.elf[s], L.ovl[s], ovl[s]);
  }

  /** The replay moves a listed reference to where a direct conversion to the other base puts it. */
  lemma ReplayedTarget(job: Job, ovl: Quad, q: nat, k: nat)
    requires Replayable(job) && EntryIs(job, q, k) && job.KindAt(k) != Hi
    ensures var R := ReplayOf(job, ovl);
            && R.Ok() && R.IsRel(q + 1) && R.TargetOf(q + 1) == job.TargetOf(k) >= 0
            && R.NewAddress(q + 1) == ForBase(job, ovl).NewAddress(k) && R.CodeAt(q + 1) == Success
  {
    hide ReplayOf, Packable, Complete, Carries, Expressible, Job.Real, Job.Address, Moved, Target, Job.PairedHi;
    var L, a, s := job.layout, job.Address(k), job.TargetOf(k);
    ReplayShape(job, ovl);
    ReplayedWord(job, ovl, q, k);
    ReplayedAddress(job, ovl, q, k);
    TargetIsDesignation(L.elf, L.sizes, a, s, 0);
    MovedDesignates(L, a, s, a - L.elf[s]);
    TargetIsDesignation(L.ovl, L.sizes, Moved(L, s, a), s, a - L.elf[s]);
    MovedTwice(L, ovl, s, a);
    SameCode(job, ovl, k);
  }

  // ---- The two images ---------------------------------------------------------------------------------

  /** A successful partner is listed. */
  lemma SuccessfulListed(job: Job, k: nat, h: nat) returns (q: nat)
    requires Replayable(job) && job.Partner(k, h) && job.TargetOf(k) >= 0
    ensures EntryIs(job, q, k)
  {
    hide Listed, Expressible;
    assert Effective(job, k);
    var idx := Listed(job, |job.events|);
    assert k in idx;
    q :| q < |idx| && idx[q] == k;
  }

  /** Listed LO16 `k` is a partner of listed HI16 `h` in the conversion exactly when it is in the replay. */
  lemma ReplayedPartner(job: Job, ovl: Quad, p: nat, h: nat, q: nat, k: nat)
    requires Replayable(job) && EntryIs(job, p, h) && EntryIs(job, q, k)
    ensures var R := ReplayOf(job, ovl);
            && R.Ok() && (R.Partner(q + 1, p + 1) <==> job.Partner(k, h))
            && (job.Partner(k, h) ==>
                  && R.TargetOf(q + 1) == job.TargetOf(k) >= 0
                  && R.NewAddress(q + 1) == ForBase(job, ovl).NewAddress(k))
  {
    hide ReplayOf, Replayable, Prepared, NoError, Job.Ok, Job.Disjoint, Load, KindOf, Minus, Job.Word0, Job.WordAt, Job.CodeAt, Job.TargetOf, Job.NewAddress, Job.PairedHi, Job.RegAt;
    assert Prepared(job) && job.Ok() && job.Disjoint() && NoError(job, |job.events|) by { ReplayableOk(job); }
    EntryListed(job, q, k);
    ReplayedWord(job, ovl, q, k);
    if job.KindAt(k) == Lo {
      var p' := HiListed(job, k);
      ReplayedPairing(job, ovl, q, k, p', job.PairedHi(k));
      ReplayedTarget(job, ovl, q, k);
    }
  }

  /** The last successful partner of a listed HI16 is the same relocation in the replay. */
  lemma ReplayedLastPartner(job: Job, ovl: Quad, p: nat, h: nat) returns (l: int)
    requires Replayable(job) && EntryIs(job, p, h)
    ensures var R, n := ReplayOf(job, ovl), |job.events|;
            && R.Ok() && -1 <= l < |Listed(job, n)|
            && LastPartner(R, p + 1, |R.events|) == (if l < 0 then -1 else l + 1)
            && LastPartner(job, h, n) == (if l < 0 then -1 else Listed(job, n)[l])
  {
    hide ReplayOf, Replayable, Prepared, NoError, EntryIs, Listed, LastPartner, Job.Ok, Job.Disjoint, Load, KindOf, Minus;
    hide Job.Word0, Job.WordAt, Job.CodeAt, Job.TargetOf, Job.NewAddress, Job.PairedHi;
    assert Prepared(job) && job.Ok() && job.Disjoint() && NoError(job, |job.events|) by { ReplayableOk(job); }
    ReplayOk(job, ovl);
    ReplayShape(job, ovl);
    var R, idx, n := ReplayOf(job, ovl), Listed(job, |job.events|), |job.events|;
    var last := LastPartner(job, h, n);
    l := -1;
    if last >= 0 {
      l := SuccessfulListed(job, last, h);
      EntryIsListed(job, l, last);
      ReplayedPartner(job, ovl, p, h, l, last);
    }
    var l' := if l < 0 then -1 else l + 1;
    forall j: nat | l' < j < |R.events|
      ensures !(R.Partner(j, p + 1) && R.TargetOf(j) >= 0)
    {
      if j > 0 {
        ListedEntryIs(job, j - 1);
        ReplayedPartner(job, ovl, p, h, j - 1, idx[j - 1]);
      }
    }
    LastPartnerUnique(R, p + 1, |R.events|, l');
  }

  lemma ReplayedCarries(job: Job, ovl: Quad, p: nat, h: nat)
    requires Replayable(job) && EntryIs(job, p, h)
    ensures ReplayOf(job, ovl).Ok()
    ensures Carries(ReplayOf(job, ovl), p + 1, |ReplayOf(job, ovl).events|) <==> Carries(ForBase(job, ovl), h, |job.events|)
  {
    hide ReplayOf, Replayable, Prepared, NoError, EntryIs, Listed, Job.Ok, Job.Disjoint, Load, KindOf, Minus;
    hide Job.Word0, Job.WordAt, Job.CodeAt, Job.TargetOf, Job.NewAddress, Job.PairedHi;
    assert Prepared(job) && job.Ok() && job.Disjoint() && NoError(job, |job.events|) by { ReplayableOk(job); }
    ReplayOk(job, ovl);
    ReplayShape(job, ovl);
    var R, B, idx, n := ReplayOf(job, ovl), ForBase(job, ovl), Listed(job, |job.events|), |job.events|;
    if Carries(R, p + 1, |R.events|) {
      var j: nat :| j < |R.events| && R.Partner(j, p + 1) && R.TargetOf(j) >= 0 && R.NewAddress(j) >= 0xFFFF_8000;
      ListedEntryIs(job, j - 1);
      ReplayedPartner(job, ovl, p, h, j - 1, idx[j - 1]);
      SameCode(job, ovl, idx[j - 1]);
      assert B.Partner(idx[j - 1], h);
    }
    if Carries(B, h, n) {
      var k: nat :| k < n && B.Partner(k, h) && B.TargetOf(k) >= 0 && B.NewAddress(k) >= 0xFFFF_8000;
      SameCode(job, ovl, k);
      assert job.Partner(k, h);
      var q := SuccessfulListed(job, k, h);
      ReplayedPartner(job, ovl, p, h, q, k);
      assert R.Partner(q + 1, p + 1);
    }
  }

  lemma WordFromHalves(v: u32, w: u32)
    requires v / 0x1_0000 == w / 0x1_0000 && v % 0x1_0000 == w % 0x1_0000
    ensures v == w
  {
  }

  /** A listed HI16 ends up the same. */
  lemma ReplayedHiWord(job: Job, ovl: Quad, p: nat, h: nat)
    requires Replayable(job) && EntryIs(job, p, h) && job.KindAt(h) == Hi
    ensures var R := ReplayOf(job, ovl);
            R.Ok() && R.IsRel(p + 1) && R.HiWordAt(p + 1, |R.events|) == ForBase(job, ovl).HiWordAt(h, |job.events|)
  {
    hide Replayable, Prepared, ReplayOf, NoError, Job.Ok, Job.Disjoint, EntryIs, Load, Carries, LastPartner, OrCarry, HighHalf;
    hide Job.NewAddress, Job.HiWordAt, Job.TargetOf, Job.PairedHi, Job.CodeAt;
    ReplayableOk(job);
    EntryListed(job, p, h);
    var R, B, n := ReplayOf(job, ovl), ForBase(job, ovl), |job.events|;
    ReplayedWord(job, ovl, p, h);
    NoCarry(job, h);
    HiWordUpperHalf(job, h, n);
    HiWordLowHalf(job, h, n);
    HiWordUpperHalf(B, h, n);
    HiWordLowHalf(B, h, n);
    HiWordUpperHalf(R, p + 1, |R.events|);
    HiWordLowHalf(R, p + 1, |R.events|);
    ReplayedCarries(job, ovl, p, h);
    OrNothing(job.Word0(h) / 0x1_0000);
    SameLastPartner(job, ovl, h, n);
    var l := ReplayedLastPartner(job, ovl, p, h);
    if l >= 0 {
      var k := Listed(job, n)[l];
      ListedEntryIs(job, l);
      ReplayedPartner(job, ovl, p, h, l, k);
      LastIsPartner(job, h, n);
    }
    WordFromHalves(R.HiWordAt(p + 1, |R.events|), B.HiWordAt(h, n));
  }

  lemma NoCarry(job: Job, h: nat)
    requires Replayable(job) && job.IsRel(h) && job.KindAt(h) == Hi
    ensures OrCarry(job.Word0(h) / 0x1_0000, Carries(job, h, |job.events|)) == job.Word0(h) / 0x1_0000
  {
    hide Carries;
  }

  lemma ListedEntryIs(job: Job, l: nat)
    requires job.Ok() && l < |Listed(job, |job.events|)|
    ensures EntryIs(job, l, Listed(job, |job.events|)[l])
  {
  }

  lemma EntryIsListed(job: Job, l: nat, k: nat)
    requires job.Ok() && EntryIs(job, l, k)
    ensures l < |Listed(job, |job.events|)| && Listed(job, |job.events|)[l] == k
  {
  }

  lemma LastIsPartner(job: Job, h: nat, i: nat)
    requires job.Ok() && i <= |job.events|
    ensures LastPartner(job, h, i) >= 0 ==> job.Partner(LastPartner(job, h, i), h)
  {
  }

  /** Every listed word ends up the same. */
  lemma ReplayedFinalWord(job: Job, ovl: Quad, q: nat, k: nat)
    requires Replayable(job) && EntryIs(job, q, k)
    ensures var R := ReplayOf(job, ovl);
            R.Ok() && R.IsRel(q + 1) && R.WordAt(q + 1, |R.events|) == ForBase(job, ovl).WordAt(k, |job.events|)
  {
    hide Replayable, Prepared, ReplayOf, NoError, Job.Ok, Job.Disjoint, EntryIs, Load, WithLow, WithJump;
    hide Job.NewAddress, Job.HiWordAt, Job.TargetOf, Job.PairedHi, Job.CodeAt;
    ReplayableOk(job);
    EntryListed(job, q, k);
    ReplayedWord(job, ovl, q, k);
    SameCode(job, ovl, k);
    if job.KindAt(k) == Hi {
      ReplayedHiWord(job, ovl, q, k);
    } else {
      ReplayedTarget(job, ovl, q, k);
      WithTwice(job.Word0(k), job.NewAddress(k), ForBase(job, ovl).NewAddress(k));
    }
  }

  lemma WithTwice(w: u32, a: u32, b: u32)
    ensures WithLow(WithLow(w, a), b) == WithLow(w, b)
    ensures WithJump(WithJump(w, a), b) == WithJump(w, b)
  {
    WithLowHalves(w, a);
    JumpDecodes(w, a);
  }

  lemma ReplayCompletes(job: Job, ovl: Quad)
    requires Replayable(job)
    ensures var R, B := ReplayOf(job, ovl), ForBase(job, ovl);
            && R.Ok() && R.Disjoint() && NoError(R, |R.events|)
            && B.Ok() && B.Disjoint() && NoError(B, |B.events|)
  {
    hide Replayable, Prepared, ReplayOf, Listed, EntryIs, Load, Job.TargetOf, Job.PairedHi, Job.CodeAt, Job.Apart, Minus;
    ReplayableOk(job);
    ReplayOk(job, ovl);
    ReplayShape(job, ovl);
    var R, B, idx := ReplayOf(job, ovl), ForBase(job, ovl), Listed(job, |job.events|);
    forall j: nat | j < |R.events| && R.IsRel(j)
      ensures R.CodeAt(j) != Error
    {
      var q: nat := j - 1;
      ListedEntryIs(job, q);
      ReplayedWord(job, ovl, q, idx[q]);
      if job.KindAt(idx[q]) == Hi {
        HiSucceeds(R, j);
      } else {
        ReplayedTarget(job, ovl, q, idx[q]);
      }
    }
    forall k: nat | k < |B.events| && B.IsRel(k)
      ensures B.CodeAt(k) != Error
    {
      SameCode(job, ovl, k);
    }
  }

  lemma HiSucceeds(job: Job, k: nat)
    requires job.Ok() && job.IsRel(k) && job.KindAt(k) == Hi
    ensures job.CodeAt(k) == Success
  {
  }

  /** A relocation that is not listed has the same word in every converted image. */
  lemma UnlistedWord(job: Job, ovl: Quad, k: nat)
    requires Replayable(job) && job.IsRel(k) && k !in Listed(job, |job.events|)
    ensures ForBase(job, ovl).WordAt(k, |job.events|) == job.WordAt(k, |job.events|)
  {
    hide Job.NewAddress, Job.TargetOf, Job.PairedHi, Listed, Carries, Expressible;
    var B, n := ForBase(job, ovl), |job.events|;
    SameCode(job, ovl, k);
    if job.KindAt(k) == Hi {
      assert !Effective(job, k);
      SameLastPartner(job, ovl, k, n);
      UnpartneredHi(job, k, n);
      UnpartneredHi(B, k, n);
    }
  }

  lemma {:induction false} UnpartneredHi(job: Job, h: nat, i: nat)
    requires job.Ok() && job.IsRel(h) && i <= |job.events| && LastPartner(job, h, i) < 0
    ensures job.HiWordAt(h, i) == job.Word0(h)
  {
    if i > 0 {
      UnpartneredHi(job, h, i - 1);
    }
  }

  /** The bytes of the two images agree, word by word and outside the words. */
  lemma SameByte(job: Job, ovl: Quad, m: seq<byte>, b: nat)
    requires Replayable(job)
    requires ReplayOf(job, ovl).Ok() && ReplayOf(job, ovl).MemAt(|ReplayOf(job, ovl).events|, m)
    requires b < |m|
    ensures |FinalImage(ForBase(job, ovl))| == |m| && m[b] == FinalImage(ForBase(job, ovl))[b]
  {
    hide Replayable, Prepared, ReplayOf, FinalImage, Listed, EntryIs, Load, NoError, Job.WordAt, Job.Apart, Job.CodeAt;
    ReplayableOk(job);
    ReplayCompletes(job, ovl);
    ReplayShape(job, ovl);
    var R, B, idx, n := ReplayOf(job, ovl), ForBase(job, ovl), Listed(job, |job.events|), |job.events|;
    FinalMemory(job);
    FinalMemory(B);
    if !job.Untouched(b) {
      var k: nat :| job.IsRel(k) && job.Off(k) <= b < job.Off(k) + 4;
      if k in idx {
        var q: nat :| q < |idx| && idx[q] == k;
        ListedEntryIs(job, q);
        ReplayedWord(job, ovl, q, k);
        ReplayedFinalWord(job, ovl, q, k);
        assert Load(m, R.Off(q + 1)) == Load(FinalImage(B), B.Off(k));
        LoadInjective(m, FinalImage(B), job.Off(k));
        ByteOfWord(m, FinalImage(B), job.Off(k), b);
      } else {
        UnlistedWord(job, ovl, k);
        assert Load(FinalImage(job), job.Off(k)) == Load(FinalImage(B), B.Off(k));
        LoadInjective(FinalImage(job), FinalImage(B), job.Off(k));
        ByteOfWord(FinalImage(job), FinalImage(B), job.Off(k), b);
        UnlistedByte(job, ovl, k, b);
      }
    } else {
      UntouchedInReplay(job, ovl, b);
      UntouchedForBase(job, ovl, b);
    }
  }

  lemma FinalMemory(job: Job)
    requires job.Ok() && job.Disjoint() && NoError(job, |job.events|)
    ensures job.MemAt(|job.events|, FinalImage(job))
  {
    RealPassState(job, |job.events|);
  }

  lemma ByteOfWord(m: seq<byte>, n: seq<byte>, o: nat, b: nat)
    requires o <= b < o + 4 <= |m| && o + 4 <= |n| && m[o..o + 4] == n[o..o + 4]
    ensures m[b] == n[b]
  {
    assert m[b] == m[o..o + 4][b - o];
  }

  /** The replay does not touch the word of an unlisted relocation. */
  lemma UnlistedByte(job: Job, ovl: Quad, k: nat, b: nat)
    requires Prepared(job) && job.IsRel(k) && k !in Listed(job, |job.events|)
    requires job.Off(k) <= b < job.Off(k) + 4
    ensures ReplayOf(job, ovl).Untouched(b)
  {
    hide ReplayOf, Replayable, Prepared, Job.WordAt, Job.CodeAt, Load;
    PreparedOk(job);
    ReplayShape(job, ovl);
    var R, idx := ReplayOf(job, ovl), Listed(job, |job.events|);
    forall j: nat | R.IsRel(j)
      ensures b < R.Off(j) || R.Off(j) + 4 <= b
    {
      ReplayedWord(job, ovl, j - 1, idx[j - 1]);
      assert job.Apart(idx[j - 1], k);
    }
  }

  lemma UntouchedInReplay(job: Job, ovl: Quad, b: nat)
    requires Replayable(job) && job.Untouched(b)
    ensures ReplayOf(job, ovl).Untouched(b)
  {
    hide ReplayOf, Replayable, Prepared, Job.WordAt, Job.CodeAt, Load;
    ReplayableOk(job);
    ReplayShape(job, ovl);
    var R, idx := ReplayOf(job, ovl), Listed(job, |job.events|);
    forall j: nat | R.IsRel(j)
      ensures b < R.Off(j) || R.Off(j) + 4 <= b
    {
      ReplayedWord(job, ovl, j - 1, idx[j - 1]);
    }
  }

  lemma UntouchedForBase(job: Job, ovl: Quad, b: nat)
    requires job.Ok() && job.Untouched(b)
    ensures ForBase(job, ovl).Untouched(b)
  {
    var B := ForBase(job, ovl);
    forall k: nat | B.IsRel(k) ensures b < B.Off(k) || B.Off(k) + 4 <= b {
      assert job.IsRel(k);
    }
  }

  /** Relocating composes: running the handlers on just the emitted entries, from the layout of one
      base to that of another, completes and gives exactly the image converted directly. */
  lemma ReplayComposes(job: Job, ovl: Quad)
    requires Replayable(job)
    ensures var R := ReplayOf(job, ovl);
            && R.Ok() && R.Real(|R.events|).outcome == Running
            && FinalImage(R) == FinalImage(ForBase(job, ovl))
  {
    hide Replayable, Prepared, ReplayOf, NoError, Job.MemAt, Job.Disjoint;
    ReplayableOk(job);
    ReplayCompletes(job, ovl);
    var R, B := ReplayOf(job, ovl), ForBase(job, ovl);
    CompletedRun(R);
    FinalMemory(R);
    ReplayShape(job, ovl);
    SameLengths(job, ovl);
    forall b: nat | b < |FinalImage(R)|
      ensures FinalImage(R)[b] == FinalImage(B)[b]
    {
      SameByte(job, ovl, FinalImage(R), b);
    }
  }

  lemma SameLengths(job: Job, ovl: Quad)
    requires job.Ok()
    ensures |FinalImage(ForBase(job, ovl))| == |job.mem|
  {
  }
}
