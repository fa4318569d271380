/** What the real pass does to the references in the image: exactly when a reference keeps its
    meaning, for every relocation list. */
module Meaning {
  import opened Words
  import opened Reloc
  import opened Passes
  import opened PassSafety

  // ---- Places -------------------------------------------------------------------------------

  /** The address names byte `d` of section `s` in a memory where the sections start at `starts`. */
  predicate Designates(starts: Quad, sizes: Quad, address: int, s: nat, d: int)
    requires s < 4
  {
    0 <= d < sizes[s] && address == starts[s] + d
  }

  /** The sections end inside the address space and do not overlap. */
  predicate Separate(starts: Quad, sizes: Quad) {
    && (forall s :: 0 <= s < 4 ==> starts[s] + sizes[s] as int < 0x1_0000_0000)
    && (forall s, t :: 0 <= s < 4 && 0 <= t < 4 && s != t && sizes[s] > 0 && sizes[t] > 0 ==>
          starts[s] + sizes[s] as int <= starts[t] || starts[t] + sizes[t] as int <= starts[s])
  }

  /** With separate sections the scan finds the one place the address names, if there is one. */
  lemma TargetIsDesignation(starts: Quad, sizes: Quad, address: u32, s: nat, d: int)
    requires s < 4 && Separate(starts, sizes)
    ensures Designates(starts, sizes, address, s, d) ==> Target(starts, sizes, address) == s
    ensures Target(starts, sizes, address) == s ==> Designates(starts, sizes, address, s, address - starts[s])
  {
    var t := Target(starts, sizes, address);
    if Designates(starts, sizes, address, s, d) {
      assert InSection(starts, sizes, s, address);
      assert t >= 0;
      assert InSection(starts, sizes, t, address);
    } else if t == s {
      assert InSection(starts, sizes, s, address);
    }
  }

  /** Separate sections give every address at most one meaning. */
  lemma DesignationUnique(starts: Quad, sizes: Quad, address: int, s: nat, d: int, t: nat, e: int)
    requires s < 4 && t < 4 && Separate(starts, sizes)
    requires Designates(starts, sizes, address, s, d) && Designates(starts, sizes, address, t, e)
    ensures s == t && d == e
  {
  }

  /** Moving an address keeps its section and offset. */
  lemma MovedDesignates(L: Layout, address: u32, s: nat, d: int)
    requires s < 4 && Separate(L.ovl, L.sizes) && Designates(L.elf, L.sizes, address, s, d)
    ensures Designates(L.ovl, L.sizes, Moved(L, s, address), s, d)
  {
    assert L.ovl[s] + L.sizes[s] as int < 0x1_0000_0000;
  }

  // ---- Rewritten halves -------------------------------------------------------------------------

  /** The last successful LO16 among the first `i` events that is paired with HI16 `h`; -1 if none. */
  function LastPartner(job: Job, h: nat, i: nat): (l: int)
    requires job.Ok() && i <= |job.events|
    ensures -1 <= l < i
    ensures l >= 0 ==> job.Partner(l, h) && job.TargetOf(l) >= 0
    ensures forall j: nat :: l < j < i && job.Partner(j, h) ==> job.TargetOf(j) < 0
  {
    if i == 0 then -1
    else if job.Partner(i - 1, h) && job.TargetOf(i - 1) >= 0 then i - 1
    else LastPartner(job, h, i - 1)
  }

  /** The low half of a HI16 word after `i` events is decided by its last successful partner. */
  function HalfAfter(job: Job, h: nat, i: nat): nat
    requires job.Ok() && job.IsRel(h) && i <= |job.events|
  {
    var l := LastPartner(job, h, i);
    if l < 0 then job.Word0(h) % 0x1_0000 else HighHalf(job.NewAddress(l)) % 0x1_0000
  }

  /** `u | 1` when a carry is or-ed in. */
  function OrCarry(u: nat, carry: bool): nat { if carry && u % 2 == 0 then u + 1 else u }

  /** Or-ing in the high half of `a`: the low half becomes it, and the upper half takes a carry
      when it is 0x10000. */
  lemma WithHighHalves(w: u32, a: u32)
    ensures WithHigh(w, HighHalf(a)) % 0x1_0000 == HighHalf(a) % 0x1_0000
    ensures WithHigh(w, HighHalf(a)) / 0x1_0000 == OrCarry(w / 0x1_0000, a >= 0xFFFF_8000)
  {
    assert HighHalf(a) == 0x1_0000 <==> a >= 0xFFFF_8000;
  }

  lemma OrCarryTwice(u: nat, c: bool, d: bool)
    ensures OrCarry(OrCarry(u, c), d) == OrCarry(u, c || d)
  {
  }

  lemma {:induction false} HiWordLowHalf(job: Job, h: nat, i: nat)
    requires job.Ok() && job.IsRel(h) && i <= |job.events|
    ensures job.HiWordAt(h, i) % 0x1_0000 == HalfAfter(job, h, i)
  {
    hide WithHigh, HighHalf, Job.NewAddress;
    if i == 0 {
    } else {
      HiWordLowHalf(job, h, i - 1);
      if job.Partner(i - 1, h) && job.TargetOf(i - 1) >= 0 {
        WithHighHalves(job.HiWordAt(h, i - 1), job.NewAddress(i - 1));
      }
    }
  }

  /** Some successful partner among the first `i` events has a new address whose high half is 0x10000. */
  ghost predicate Carries(job: Job, h: nat, i: nat)
    requires job.Ok() && i <= |job.events|
  {
    exists j: nat :: j < i && job.Partner(j, h) && job.TargetOf(j) >= 0 && job.NewAddress(j) >= 0xFFFF_8000
  }

  /** No carry reaches the register field of HI16 `h`, or the field is odd, so that one changes nothing. */
  ghost predicate RegisterSurvives(job: Job, h: nat)
    requires job.Ok() && job.IsRel(h)
  {
    !Carries(job, h, |job.events|) || job.Word0(h) / 0x1_0000 % 2 == 1
  }

  lemma NeverCarries(job: Job, h: nat)
    requires job.Ok()
    ensures !Carries(job, h, 0)
  {
  }

  lemma CarriesStep(job: Job, h: nat, i: nat)
    requires job.Ok() && i < |job.events|
    ensures Carries(job, h, i + 1) <==>
              || Carries(job, h, i)
              || (job.Partner(i, h) && job.TargetOf(i) >= 0 && job.NewAddress(i) >= 0xFFFF_8000)
  {
  }

  /** The upper half of a HI16 word, its opcode and registers, survives exactly unless a carry is
      or-ed into an even register field. */
  lemma {:induction false} HiWordUpperHalf(job: Job, h: nat, i: nat)
    requires job.Ok() && job.IsRel(h) && i <= |job.events|
    ensures job.HiWordAt(h, i) / 0x1_0000 == OrCarry(job.Word0(h) / 0x1_0000, Carries(job, h, i))
  {
    hide WithHigh, HighHalf, OrCarry, Job.NewAddress, Job.Word0, Carries, Job.PairedHi;
    if i == 0 {
      NeverCarries(job, h);
      OrNothing(job.Word0(h) / 0x1_0000);
    } else {
      HiWordUpperHalf(job, h, i - 1);
      CarriesStep(job, h, i - 1);
      if job.Partner(i - 1, h) && job.TargetOf(i - 1) >= 0 {
        WithHighHalves(job.HiWordAt(h, i - 1), job.NewAddress(i - 1));
        OrCarryTwice(job.Word0(h) / 0x1_0000, Carries(job, h, i - 1), job.NewAddress(i - 1) >= 0xFFFF_8000);
      }
    }
  }

  lemma OrNothing(u: nat)
    ensures OrCarry(u, false) == u
  {
  }

  // ---- When a reference decodes to what it should --------------------------------------------------

  /** A jump reaches exactly the word-aligned addresses of segment 0x8. */
  lemma JumpDecodes(w: u32, a: u32)
    ensures WithJump(w, a) / 0x400_0000 == w / 0x400_0000
    ensures JumpAddress(WithJump(w, a)) == a <==> a % 4 == 0 && a / 0x1000_0000 == 8
  {
    assert WithJump(w, a) % 0x400_0000 == a / 4 % 0x400_0000;
  }

  /** A pair whose low half is that of `a` builds `a` exactly when its high half is the
      sign-compensated one, modulo 0x10000. */
  lemma PairDecodes(hi: u32, lo: u32, a: u32)
    requires lo % 0x1_0000 == a % 0x1_0000
    ensures PairAddress(hi, lo) == a <==> hi % 0x1_0000 == HighHalf(a) % 0x1_0000
  {
  }

  /** The address the reference of relocation `k` names when read from image `m`. */
  function AddressIn(job: Job, k: nat, m: seq<byte>): u32
    requires job.Ok() && job.IsRel(k) && |m| == |job.mem|
  {
    var w := Load(m, job.Off(k));
    if job.KindAt(k) == Jump then JumpAddress(w)
    else if job.KindAt(k) == Lo && job.PairedHi(k) >= 0 then PairAddress(Load(m, job.Off(job.PairedHi(k))), w)
    else w
  }

  /** What decides whether reference `k` can be expressed after the pass; it looks only at the
      image and the layout before the pass. */
  predicate Expressible(job: Job, k: nat)
    requires job.Ok() && job.IsRel(k)
  {
    match job.KindAt(k)
    case Jump =>
      job.TargetOf(k) < 0 || (job.NewAddress(k) % 4 == 0 && job.NewAddress(k) / 0x1000_0000 == 8)
    case Lo =>
      var h := job.PairedHi(k);
      h >= 0 ==>
        HalfAfter(job, h, |job.events|)
        == if job.TargetOf(k) < 0 then job.Word0(h) % 0x1_0000 else HighHalf(job.NewAddress(k)) % 0x1_0000
    case _ => true
  }

  /** A completed real pass leaves reference `k` at its new address, or at its old one when it is
      out of bounds, if and only if that is expressible. */
  lemma ReferenceExact(job: Job, k: nat)
    requires job.Ok() && job.Disjoint() && job.IsRel(k)
    requires job.Real(|job.events|).outcome == Running
    ensures job.KindAt(k) != Hi ==>
              (AddressIn(job, k, job.Real(|job.events|).eng.mem) == job.NewAddress(k) <==> Expressible(job, k))
  {
    var n := |job.events|;
    RealPassState(job, n);
    var m := job.Real(n).eng.mem;
    assert Load(m, job.Off(k)) == job.WordAt(k, n);
    assert job.CodeAt(k) != Error;
    match job.KindAt(k)
    case Jump => JumpDecodes(job.Word0(k), job.NewAddress(k));
    case Lo =>
      var h := job.PairedHi(k);
      assert Load(m, job.Off(h)) == job.WordAt(h, n);
      HiWordLowHalf(job, h, n);
      LoDecodes(job, k, job.WordAt(h, n), job.WordAt(k, n));
    case _ =>
  }

  lemma WrapLowHalf(t: int)
    ensures Wrap(t) % 0x1_0000 == t % 0x1_0000
  {
  }

  lemma PairLowHalf(hi: u32, lo: u32)
    ensures PairAddress(hi, lo) % 0x1_0000 == lo % 0x1_0000
  {
    hide Wrap;
    var t := HighPart(hi) + Sext(lo % 0x1_0000);
    WrapLowHalf(t);
    assert t % 0x1_0000 == Sext(lo % 0x1_0000) % 0x1_0000;
  }

  lemma WithLowHalves(w: u32, a: u32)
    ensures WithLow(w, a) % 0x1_0000 == a % 0x1_0000 && WithLow(w, a) / 0x1_0000 == w / 0x1_0000
  {
  }

  lemma LoDecodes(job: Job, k: nat, hi: u32, lo: u32)
    requires job.Ok() && job.IsRel(k) && job.KindAt(k) == Lo && job.PairedHi(k) >= 0
    requires lo == job.WordAt(k, |job.events|)
    ensures PairAddress(hi, lo) == job.NewAddress(k) <==>
              hi % 0x1_0000 == if job.TargetOf(k) < 0 then job.Word0(job.PairedHi(k)) % 0x1_0000
                               else HighHalf(job.NewAddress(k)) % 0x1_0000
  {
    hide PairAddress, HighHalf, WithLow, Job.PairedHi, Target, Moved, Job.Word0;
    var h := job.PairedHi(k);
    PairLowHalf(job.Word0(h), job.Word0(k));
    WithLowHalves(job.Word0(k), job.NewAddress(k));
    PairDecodes(hi, lo, job.NewAddress(k));
    if job.TargetOf(k) < 0 {
      PairDecodes(job.Word0(h), lo, job.Address(k));
    }
  }

  // ---- The whole pass ---------------------------------------------------------------------------

  /** In image `m` reference `k` names, in the overlay layout, the section and offset it named in
      the ELF layout; an out-of-bounds reference still has its value. */
  ghost predicate KeepsMeaning(job: Job, k: nat, m: seq<byte>)
    requires job.Ok() && job.IsRel(k) && |m| == |job.mem|
  {
    var L := job.layout;
    && (job.TargetOf(k) < 0 ==> AddressIn(job, k, m) == job.Address(k))
    && (forall s: nat, d: nat :: s < 4 && Designates(L.elf, L.sizes, job.Address(k), s, d) ==>
          Designates(L.ovl, L.sizes, AddressIn(job, k, m), s, d))
  }

  lemma KeepsMeaningIsNewAddress(job: Job, k: nat, m: seq<byte>)
    requires job.Ok() && job.IsRel(k) && |m| == |job.mem|
    requires Separate(job.layout.elf, job.layout.sizes) && Separate(job.layout.ovl, job.layout.sizes)
    ensures KeepsMeaning(job, k, m) <==> AddressIn(job, k, m) == job.NewAddress(k)
  {
    hide AddressIn, Job.Address;
    var L, a, s := job.layout, job.Address(k), job.TargetOf(k);
    forall t: nat, d: nat | t < 4 && Designates(L.elf, L.sizes, a, t, d)
      ensures t == s && Designates(L.ovl, L.sizes, job.NewAddress(k), t, d)
    {
      TargetIsDesignation(L.elf, L.sizes, a, t, d);
      TargetIsDesignation(L.elf, L.sizes, a, s, d);
      DesignationUnique(L.elf, L.sizes, a, t, d, s, a - L.elf[s]);
      MovedDesignates(L, a, t, d);
    }
    if s >= 0 {
      TargetIsDesignation(L.elf, L.sizes, a, s, 0);
      var d: nat := a - L.elf[s];
      assert Designates(L.elf, L.sizes, a, s, d);
    }
  }

  /** Every 32-bit word, jump and HI16/LO16 pair keeps its meaning through a completed real pass
      exactly when it is expressible. */
  lemma ReferencesPreserved(job: Job)
    requires job.Ok() && job.Disjoint() && job.Real(|job.events|).outcome == Running
    requires Separate(job.layout.elf, job.layout.sizes) && Separate(job.layout.ovl, job.layout.sizes)
    ensures forall k: nat :: job.IsRel(k) && job.KindAt(k) != Hi ==>
              (KeepsMeaning(job, k, job.Real(|job.events|).eng.mem) <==> Expressible(job, k))
  {
    forall k: nat | job.IsRel(k) && job.KindAt(k) != Hi
      ensures KeepsMeaning(job, k, job.Real(|job.events|).eng.mem) <==> Expressible(job, k)
    {
      ReferenceExact(job, k);
      KeepsMeaningIsNewAddress(job, k, job.Real(|job.events|).eng.mem);
    }
  }

  /** The LO16s of HI16 `h` are all out of bounds, or all in bounds with one high half. */
  ghost predicate Uniform(job: Job, h: nat)
    requires job.Ok()
  {
    || (forall j: nat :: job.Partner(j, h) ==> job.TargetOf(j) < 0)
    || (forall j: nat, k: nat :: job.Partner(j, h) && job.Partner(k, h) ==>
          job.TargetOf(j) >= 0 && HighHalf(job.NewAddress(j)) == HighHalf(job.NewAddress(k)))
  }

  /** A LO16 of a uniform group is expressible. */
  lemma UniformIsExpressible(job: Job, k: nat)
    requires job.Ok() && job.IsRel(k) && job.KindAt(k) == Lo
    requires job.PairedHi(k) >= 0 ==> Uniform(job, job.PairedHi(k))
    ensures Expressible(job, k)
  {
    hide HighHalf, Job.NewAddress;
    if job.PairedHi(k) >= 0 {
      assert job.Partner(k, job.PairedHi(k));
    }
  }

  /** Opcode and register bits survive, except that a carry can reach an even register field of a
      HI16, and no byte outside the relocated words changes. */
  lemma InstructionsPreserved(job: Job, k: nat)
    requires job.Ok() && job.Disjoint() && job.Real(|job.events|).outcome == Running && job.IsRel(k)
    ensures var n := |job.events|;
            var m := job.Real(n).eng.mem;
            var w := Load(m, job.Off(k));
            && (job.KindAt(k) == Jump ==> w / 0x400_0000 == job.Word0(k) / 0x400_0000)
            && (job.KindAt(k) == Lo ==> w / 0x1_0000 == job.Word0(k) / 0x1_0000)
            && (job.KindAt(k) == Hi ==>
                  (w / 0x1_0000 == job.Word0(k) / 0x1_0000 <==> RegisterSurvives(job, k)))
            && (forall b: nat :: b < |m| && job.Untouched(b) ==> m[b] == job.mem[b])
  {
    var n := |job.events|;
    RealPassState(job, n);
    assert Load(job.Real(n).eng.mem, job.Off(k)) == job.WordAt(k, n);
    match job.KindAt(k)
    case Jump => JumpDecodes(job.Word0(k), job.NewAddress(k));
    case Lo => WithLowHalves(job.Word0(k), job.NewAddress(k));
    case Hi => HiWordUpperHalf(job, k, n);
    case _ =>
  }
}
