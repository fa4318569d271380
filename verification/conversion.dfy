/** What a whole conversion achieves: the file is written exactly when the base is aligned, it
    reads back, and its entries lead to the relocated words. */
module Conversions {
  import opened Words
  import opened Reloc
  import opened Passes
  import opened PassSafety
  import opened Meaning
  import opened Replay
  import opened Overlay
  import opened OverlayReader
  import opened Converter

  /** The overlay's own sections never overlap: .bss starts after the file. */
  lemma OverlaySectionsSeparate(base: u32, sizes: Quad, count: int)
    requires Fits(base, sizes, count)
    ensures Separate(OverlayLayout(base, sizes, count), sizes)
  {
    hide OverlayLayout;
    LayoutSums(base, sizes, count);
  }

  // ---- No entry is zero ------------------------------------------------------------------------------

  lemma PackNonZero(sec: nat, offset: int, ty: nat)
    requires KindOf(ty) != Unhandled
    ensures Pack(sec, offset, ty) != 0
  {
    KindUnpacked(ty);
    assert ty % 0x40 != 0;
  }

  ghost predicate NoZero(list: seq<u32>) { forall i :: 0 <= i < |list| ==> list[i] != 0 }

  /** The emission loop, which stops at a zero word, never stops early. */
  lemma {:induction false} NoEntryIsZero(job: Job, i: nat)
    requires job.Ok() && i <= |job.events|
    ensures NoZero(job.Real(i).list)
  {
    hide Job.RealStep, NoZero;
    if i == 0 {
      EmptyListNoZero();
    } else {
      NoEntryIsZero(job, i - 1);
      NoZeroStep(job, job.Real(i - 1), i - 1);
    }
  }

  lemma EmptyListNoZero()
    ensures NoZero([])
  {
  }

  lemma NoZeroStep(job: Job, s: RealState, k: nat)
    requires job.Ok() && k < |job.events| && s.eng.Ok() && |s.eng.mem| == |job.mem| && NoZero(s.list)
    ensures NoZero(job.RealStep(s, k).list)
  {
    hide Pack, KindOf, Do;
    if job.IsRel(k) {
      var ev := job.events[k];
      SuccessIsHandled(job.layout, s.eng, job.Off(k), ev.ty);
      if KindOf(ev.ty) != Unhandled {
        PackNonZero(s.id + 1, ev.offset - (if s.id < 4 then job.layout.elf[s.id] else 0), ev.ty);
      }
    }
  }

  lemma SuccessIsHandled(L: Layout, e: Engine, o: nat, ty: nat)
    requires e.Ok() && o + 4 <= |e.mem|
    ensures KindOf(ty) == Unhandled ==> Do(L, e, o, ty, false).1 == Error
  {
  }

  // ---- The outcome -----------------------------------------------------------------------------------

  ghost predicate Convertible(job: Job, base: u32) {
    && job.Ok() && job.Disjoint()
    && SectionsInImage(|job.mem|, job.ep, job.layout.elf, job.layout.sizes)
    && Fits(base, job.layout.sizes, job.Dry(|job.events|).count)
    && job.layout.ovl == OverlayLayout(base, job.layout.sizes, job.Dry(|job.events|).count)
  }

  /** The image, the list and the file a conversion ends with. */
  function ListOf(job: Job): seq<u32>
    requires job.Ok()
  {
    job.Real(|job.events|).list
  }

  function FileOf(job: Job): seq<byte>
    requires job.Ok() && SectionsInImage(|job.mem|, job.ep, job.layout.elf, job.layout.sizes)
  {
    var L := job.layout;
    FileBytes(Body(FinalImage(job), job.ep, L.elf, L.sizes), L.sizes, |ListOf(job)|, ListOf(job))
  }

  /** The planned addresses do not disturb the plan. */
  lemma PlannedIsConvertible(job: Job, base: u32)
    requires job.Ok() && job.Disjoint()
    requires SectionsInImage(|job.mem|, job.ep, job.layout.elf, job.layout.sizes)
    requires Fits(base, job.layout.sizes, job.Dry(|job.events|).count)
    ensures Convertible(Planned(job, base), base)
    ensures Planned(job, base).Dry(|job.events|) == job.Dry(|job.events|)
  {
    hide Job.Dry, OverlayLayout, SectionsInImage;
    var ovl := OverlayLayout(base, job.layout.sizes, job.Dry(|job.events|).count);
    DryRunIgnoresOverlay(job, ovl, |job.events|);
    var p := ForBase(job, ovl);
  }

  /** Whatever the relocations: a conversion stops at its dry run, or produces the file if the base
      is a multiple of 16, or fails its size check if it is not. The abort of the real pass, the
      count check and the section checks are never reached. */
  lemma ConversionOutcome(job: Job, base: u32)
    requires Convertible(job, base)
    ensures ResultOf(job, base) ==
              if job.Dry(|job.events|).error then DryRunError
              else if base % 16 == 0 then Output(Written(FileOf(job)))
              else Output(BssMismatch)
  {
    hide Job.Dry, Job.Real, OverlayLayout, FileBytes, Emitted, Fits, Job.Disjoint, UpToZero, SectionsInImage;
    var n := |job.events|;
    var L := job.layout;
    DryRunPredictsRealPass(job);
    if !job.Dry(n).error {
      NoEntryIsZero(job, n);
      EmitsAll(ListOf(job));
      var body := Body(FinalImage(job), job.ep, L.elf, L.sizes);
      SizePrediction(base, L.sizes, body, ListOf(job));
    }
  }

  lemma EmitsAll(list: seq<u32>)
    requires NoZero(list)
    ensures UpToZero(list) == list
  {
  }

  /** The written file reads back: sizes, positions, every entry and the exact relocated bytes of
      .text, .data and .rodata. */
  lemma ConvertedFileReadsBack(job: Job)
    requires job.Ok() && SectionsInImage(|job.mem|, job.ep, job.layout.elf, job.layout.sizes)
    requires forall s :: 0 <= s < 3 ==> job.layout.sizes[s] % 8 == 0
    requires FileLength(Sum(job.layout.sizes, 3), |ListOf(job)|) < 0x8000_0000
    ensures var L := job.layout;
            && ReadOverlay(FileOf(job)) == Loaded(SectionsFrom(L.sizes, 0), ListOf(job))
            && forall s :: 0 <= s < 3 ==>
                 FileOf(job)[Sum(L.sizes, s)..Sum(L.sizes, s + 1)] == SectionBytes(FinalImage(job), job.ep, L.elf, L.sizes, s)
  {
    hide FileBytes, ReadOverlay, SectionsInImage, FinalImage, ListOf, SectionBytes, BodyUpTo;
    var L := job.layout;
    var body := Body(FinalImage(job), job.ep, L.elf, L.sizes);
    forall s | 0 <= s < 3 ensures L.sizes[s] % 4 == 0 {
      MultipleOf4(L.sizes[s]);
    }
    ReaderInvertsWriter(body, L.sizes, ListOf(job));
    forall s | 0 <= s < 3
      ensures FileOf(job)[Sum(L.sizes, s)..Sum(L.sizes, s + 1)] == SectionBytes(FinalImage(job), job.ep, L.elf, L.sizes, s)
    {
      BodySection(FinalImage(job), job.ep, L.elf, L.sizes, s);
      SliceOfPrefix(FileOf(job), |body|, Sum(L.sizes, s), Sum(L.sizes, s + 1));
    }
  }

  lemma SliceOfPrefix(file: seq<byte>, n: nat, i: nat, j: nat)
    requires i <= j <= n <= |file|
    ensures file[..n][i..j] == file[i..j]
  {
  }

  lemma MultipleOf4(x: int)
    ensures x % 8 == 0 ==> x % 4 == 0
  {
  }

  lemma BodySection(image: seq<byte>, ep: u32, elf: Quad, sizes: Quad, s: nat)
    requires s < 3 && SectionsInImage(|image|, ep, elf, sizes)
    ensures Sum(sizes, s) <= Sum(sizes, s + 1) <= Sum(sizes, 3)
    ensures Body(image, ep, elf, sizes)[Sum(sizes, s)..Sum(sizes, s + 1)] == SectionBytes(image, ep, elf, sizes, s)
  {
    hide SectionBytes;
    var a, b, c := SectionBytes(image, ep, elf, sizes, 0), SectionBytes(image, ep, elf, sizes, 1), SectionBytes(image, ep, elf, sizes, 2);
    assert BodyUpTo(image, ep, elf, sizes, 1) == a;
    assert BodyUpTo(image, ep, elf, sizes, 2) == a + b;
    assert Body(image, ep, elf, sizes) == a + b + c;
  }

  // ---- Entries lead to the relocated words --------------------------------------------------------------

  lemma SectionPositions(sizes: Quad, s: nat)
    requires s < 4
    ensures SectionsFrom(sizes, 0)[s] == Section(Wrap(Sum(sizes, s)), sizes[s])
  {
    assert sizes == [sizes[0]] + sizes[1..];
    assert sizes[1..][1..] == sizes[2..] && sizes[2..][1..] == sizes[3..] && sizes[3..][1..] == [];
    assert SectionsFrom(sizes[3..], Sum(sizes, 3))[0] == Section(Wrap(Sum(sizes, 3)), sizes[3]);
    assert SectionsFrom(sizes[2..], Sum(sizes, 2)) == [Section(Wrap(Sum(sizes, 2)), sizes[2])] + SectionsFrom(sizes[3..], Sum(sizes, 3));
    assert SectionsFrom(sizes[1..], Sum(sizes, 1)) == [Section(Wrap(Sum(sizes, 1)), sizes[1])] + SectionsFrom(sizes[2..], Sum(sizes, 2));
  }

  /** OVL_RELOC_GET_ABS_ADDR: the section's position in the loaded overlay plus the entry's offset. */
  function AbsAddr(sections: seq<Section>, r: u32): int
    requires |sections| == 4 && 1 <= r / 0x4000_0000
  {
    sections[GetSec(r)].addr + GetAddr(r)
  }

  /** Relocation `k` lies inside its home section, one of .text, .data and .rodata. */
  predicate AtHome(job: Job, k: nat)
    requires job.IsRel(k)
  {
    var id := SectionAt(job, k);
    && id < 3 && job.layout.sizes[id] <= 0x100_0000
    && 0 <= job.events[k].offset - job.layout.elf[id]
    && job.events[k].offset - job.layout.elf[id] + 4 <= job.layout.sizes[id]
  }

  /** Where the word of relocation `k` is: the same distance into its section in the image and in the file. */
  lemma HomePosition(job: Job, k: nat)
    requires job.Ok() && job.IsRel(k) && AtHome(job, k) && |job.mem| <= MEMORY_SIZE
    requires SectionsInImage(|job.mem|, job.ep, job.layout.elf, job.layout.sizes)
    ensures var L, id := job.layout, SectionAt(job, k);
            var d := job.events[k].offset - L.elf[id];
            job.Off(k) == Minus(L.elf[id], job.ep) as int + d
  {
    var L, id := job.layout, SectionAt(job, k);
    var e: int, d: int := L.elf[id], job.events[k].offset - L.elf[id];
    assert Minus(e, job.ep) as int + L.sizes[id] as int <= |job.mem|;
    WrapPlus(e - job.ep, d);
    WrapSmall(Minus(e, job.ep) as int + d);
  }

  lemma LoadInSlice(m: seq<byte>, i: nat, j: nat, d: nat)
    requires i <= j <= |m| && i + d + 4 <= j
    ensures Load(m[i..j], d) == Load(m, i + d)
  {
  }

  lemma EntryFields(job: Job, k: nat)
    requires job.IsRel(k) && AtHome(job, k)
    ensures var r := EntryOf(job, k);
            && GetSec(r) == SectionAt(job, k) && GetAddr(r) == job.events[k].offset - job.layout.elf[SectionAt(job, k)]
            && GetType(r) == job.events[k].ty % 0x40
  {
    hide Pack;
    var id := SectionAt(job, k);
    PackedFields(id + 1, job.events[k].offset - job.layout.elf[id], job.events[k].ty);
  }

  /** For every entry of the file: its absolute address is the file position of the word that was
      relocated, which holds that word as the real pass left it. */
  lemma EntryFindsWord(job: Job, q: nat, k: nat)
    requires job.Ok() && job.Disjoint() && NoError(job, |job.events|) && |job.mem| <= MEMORY_SIZE
    requires SectionsInImage(|job.mem|, job.ep, job.layout.elf, job.layout.sizes)
    requires EntryIs(job, q, k) && AtHome(job, k)
    ensures q < |ListOf(job)|
    ensures var r := ListOf(job)[q];
            && r / 0x4000_0000 >= 1
            && var p := AbsAddr(SectionsFrom(job.layout.sizes, 0), r);
               && 0 <= p && p + 4 <= |FileOf(job)|
               && Load(FileOf(job), p) == job.WordAt(k, |job.events|)
  {
    hide Job.Real, EntryOf, FinalImage, FileOf, Load, SectionsFrom, Listed, SectionBytes, BodyUpTo, Job.WordAt, Job.CodeAt, Sum, Job.Disjoint, NoError;
    var L, id, n := job.layout, SectionAt(job, k), |job.events|;
    var d: nat := job.events[k].offset - L.elf[id];
    ListedEntries(job, n);
    EntryFields(job, k);
    HomePosition(job, k);
    SectionPositions(L.sizes, id);
    FinalWord(job, k);
    WordOfFile(job, id, d);
    assert ListOf(job)[q] == EntryOf(job, k);
  }

  /** Byte `d` of section `id` in the file is the image's. */
  lemma WordOfFile(job: Job, id: nat, d: nat)
    requires job.Ok() && |job.mem| <= MEMORY_SIZE && id < 3 && d + 4 <= job.layout.sizes[id]
    requires SectionsInImage(|job.mem|, job.ep, job.layout.elf, job.layout.sizes)
    ensures var L := job.layout;
            var o: nat := Minus(L.elf[id], job.ep);
            && Wrap(Sum(L.sizes, id)) == Sum(L.sizes, id)
            && Sum(L.sizes, id) + d + 4 <= |FileOf(job)| && o + d + 4 <= |job.mem|
            && Load(FileOf(job), Sum(L.sizes, id) + d) == Load(FinalImage(job), o + d)
  {
    hide Load, BodyUpTo, FinalImage, Sum, TailBytes, ListOf;
    var L := job.layout;
    var body := Body(FinalImage(job), job.ep, L.elf, L.sizes);
    var s, t := Sum(L.sizes, id), Sum(L.sizes, id + 1);
    var o: nat := Minus(L.elf[id], job.ep);
    BodySection(FinalImage(job), job.ep, L.elf, L.sizes, id);
    SumsSmall(|job.mem|, job.ep, L.elf, L.sizes, id);
    SliceOfPrefix(FileOf(job), |body|, s, t);
    LoadInSlice(FileOf(job), s, t, d);
    LoadInSlice(FinalImage(job), o, o + L.sizes[id], d);
  }

  lemma SumsSmall(n: nat, ep: u32, elf: Quad, sizes: Quad, s: nat)
    requires n <= MEMORY_SIZE && SectionsInImage(n, ep, elf, sizes) && s < 3
    ensures Wrap(Sum(sizes, s)) == Sum(sizes, s) && Sum(sizes, s + 1) == Sum(sizes, s) + sizes[s]
  {
    assert sizes[0] <= n && sizes[1] <= n;
  }

  // ---- References in the written file --------------------------------------------------------------------

  /** Relocation `k`, and the HI16 it is paired with, are at home. */
  predicate Located(job: Job, k: nat)
    requires job.Ok() && job.IsRel(k)
  {
    AtHome(job, k) && (job.KindAt(k) == Lo && job.PairedHi(k) >= 0 ==> AtHome(job, job.PairedHi(k)))
  }

  /** Where the file has the word of relocation `k`. */
  function FilePosition(job: Job, k: nat): int
    requires job.IsRel(k) && AtHome(job, k)
  {
    Sum(job.layout.sizes, SectionAt(job, k)) + job.events[k].offset - job.layout.elf[SectionAt(job, k)]
  }

  lemma HomeWord(job: Job, k: nat)
    requires job.Ok() && job.IsRel(k) && AtHome(job, k) && |job.mem| <= MEMORY_SIZE
    requires SectionsInImage(|job.mem|, job.ep, job.layout.elf, job.layout.sizes)
    ensures 0 <= FilePosition(job, k) && FilePosition(job, k) + 4 <= |FileOf(job)|
    ensures Load(FileOf(job), FilePosition(job, k)) == Load(FinalImage(job), job.Off(k))
  {
    hide FinalImage, FileOf, Load, Sum, SectionBytes, BodyUpTo;
    HomePosition(job, k);
    WordOfFile(job, SectionAt(job, k), job.events[k].offset - job.layout.elf[SectionAt(job, k)]);
  }

  /** The address that reference `k` names when its words are read from the file. */
  function AddressInFile(job: Job, k: nat): u32
    requires job.Ok() && job.IsRel(k) && Located(job, k) && |job.mem| <= MEMORY_SIZE
    requires SectionsInImage(|job.mem|, job.ep, job.layout.elf, job.layout.sizes)
  {
    HomeWord(job, k);
    var w := Load(FileOf(job), FilePosition(job, k));
    if job.KindAt(k) == Jump then JumpAddress(w)
    else if job.KindAt(k) == Lo && job.PairedHi(k) >= 0 then
      HomeWord(job, job.PairedHi(k));
      PairAddress(Load(FileOf(job), FilePosition(job, job.PairedHi(k))), w)
    else w
  }

  /** In the file, reference `k` names in the overlay the section and offset it named in the ELF. */
  ghost predicate MeansTheSame(job: Job, k: nat)
    requires job.Ok() && job.IsRel(k) && Located(job, k) && |job.mem| <= MEMORY_SIZE
    requires SectionsInImage(|job.mem|, job.ep, job.layout.elf, job.layout.sizes)
  {
    var L := job.layout;
    && (job.TargetOf(k) < 0 ==> AddressInFile(job, k) == job.Address(k))
    && (forall s: nat, d: nat :: s < 4 && Designates(L.elf, L.sizes, job.Address(k), s, d) ==>
          Designates(L.ovl, L.sizes, AddressInFile(job, k), s, d))
  }

  lemma SameInFile(job: Job, k: nat)
    requires job.Ok() && job.IsRel(k) && Located(job, k) && |job.mem| <= MEMORY_SIZE
    requires SectionsInImage(|job.mem|, job.ep, job.layout.elf, job.layout.sizes)
    ensures AddressInFile(job, k) == AddressIn(job, k, FinalImage(job))
    ensures MeansTheSame(job, k) <==> KeepsMeaning(job, k, FinalImage(job))
  {
    hide FinalImage, FileOf, Load, Job.Address, AtHome, FilePosition, JumpAddress, PairAddress, SectionsInImage, Designates;
    HomeWord(job, k);
    if job.KindAt(k) == Lo && job.PairedHi(k) >= 0 {
      HomeWord(job, job.PairedHi(k));
    }
  }

  /** The conversion keeps meanings: after an error-free dry run, with a base that is a multiple of
      16, the file is written, and in it every reference means what it did in the ELF if and only if
      it is expressible. */
  lemma ConversionPreserves(job: Job, base: u32)
    requires Convertible(job, base) && |job.mem| <= MEMORY_SIZE && base % 16 == 0 && !job.Dry(|job.events|).error
    requires Separate(job.layout.elf, job.layout.sizes)
    ensures ResultOf(job, base) == Output(Written(FileOf(job)))
    ensures forall k: nat :: job.IsRel(k) && job.KindAt(k) != Hi && Located(job, k) ==> (MeansTheSame(job, k) <==> Expressible(job, k))
  {
    hide FileOf, KeepsMeaning, MeansTheSame, Expressible, SectionsInImage, Fits, OverlayLayout, Located, Job.Disjoint, Job.Dry, Job.Real;
    ConversionOutcome(job, base);
    DryRunPredictsRealPass(job);
    OverlaySectionsSeparate(base, job.layout.sizes, job.Dry(|job.events|).count);
    ReferencesPreserved(job);
    forall k: nat | job.IsRel(k) && job.KindAt(k) != Hi && Located(job, k)
      ensures MeansTheSame(job, k) <==> Expressible(job, k)
    {
      SameInFile(job, k);
    }
  }
}
