/** A small file to which the results about layout, writing and reading apply: a null section and
    a string table. */
module ExampleFile {
  import opened Words
  import opened ElfTypes
  import opened Codec
  import opened Records
  import opened Layout
  import opened Allocation
  import opened Pieces
  import opened WrittenFile
  import opened ReadBack
  import opened DataExact

  const STRINGS: Buf := Buf(T_BYTE, 1, 3, 1, 0, Some([0, 97, 0]), true)

  const TABLE: Section := Section(ZERO_SHDR.(stype := SHT_STRTAB), [STRINGS], true, true)

  const NEW_EHDR: Ehdr :=
    Ehdr([0, 0, 0, 0, 0, 0, 0, 0, 0, 0, 0, 0, 0, 0, 0, 0], 2, 8, 0, 0, 0, 0, 0, 0, 0, 0, 0, 0, 1)

  const SMALL: Desc := Desc(NEW_EHDR, true, [], false, false, false, false, [Section(ZERO_SHDR, [], true, true), TABLE])

  lemma TableLayout()
    ensures Sized(SHT_STRTAB, [STRINGS]) == 1 && MaxAlign([STRINGS]) == 1 && Packed(SHT_STRTAB, [STRINGS]) == 3
  {
    var bufs := [STRINGS];
    assert bufs[..0] == [] && bufs[0] == STRINGS;
    assert Whole(1, 0) == 0 && Whole(1, 1) == 1 && Whole(1, 2) == 2 && Whole(1, 3) == 3;
    assert FileSize(SHT_STRTAB, STRINGS) == Some(3);
    assert Sized(SHT_STRTAB, []) == 0 && Packed(SHT_STRTAB, []) == 0 && MaxAlign([]) == 1;
  }

  /** Its string table is at byte 52, its section headers at byte 56. */
  lemma SmallLayout(host: Encoding)
    ensures AutoLaid(SMALL, host)
    ensures var r := LayoutOf(SMALL, host);
            && r.result.size == 136 && r.desc.ehdr.shoff == 56
            && r.desc.sections[1].shdr.offset == 52 && r.desc.sections[1].shdr.size == 3 && r.desc.sections[1].bufs == [STRINGS]
  {
    hide Sized, MaxAlign, Packed;
    TableLayout();
    var secs := SMALL.sections;
    assert Problem(false, false, secs, 52, 0) == None && Problem(false, false, secs, 52, 1) == None;
    assert Good(false, false, secs, 52, 1) == 1;
    assert Good(false, false, secs, 52, 2) == 2;
    assert Off(false, secs, 52, 1) == 52;
    assert Off(false, secs, 52, 2) == 55;
    assert AlignUp(55, 4) == 56;
    StartsAtZero();
    assert Placed(SHT_STRTAB, [STRINGS], 1) == [STRINGS];
  }

  lemma StartsAtZero()
    ensures Start(SHT_STRTAB, [STRINGS], 0) == 0
  {
    assert [STRINGS][..0] == [];
  }

  lemma SmallIsReady(host: Encoding)
    ensures AutoLaid(SMALL, host) && Ready(SMALL, host, LayoutOf(SMALL, host).desc)
  {
    hide LayoutOf;
    SmallLayout(host);
    IdentLength(SMALL, host);
    var d := LayoutOf(SMALL, host).desc;
    assert |d.sections| == 2 by { EhdrOffsets(SMALL, host); }
    forall l | IsLabel(d, l) ensures LabelOk(d, host, l) {
      if l.Data? && l.k == 1 {
        assert d.sections[1].bufs[l.j] == STRINGS;
      }
    }
  }

  // ---- A buffer that is not read ---------------------------------------------------------------------------------

  const ENTRIES: seq<byte> := [0, 0, 0, 0, 0, 0, 0, 0, 0, 0, 0, 0]

  /** Two relocation entries with addends, in buffers of their own, the second aligned to 8. */
  const RELOCATIONS: seq<Buf> := [Buf(7, 1, 12, 4, 0, Some(ENTRIES), true), Buf(7, 1, 12, 8, 16, Some(ENTRIES), true)]

  const WITH_RELA: Desc := OneSection(NEW_EHDR, SHT_RELA, RELOCATIONS)

  /** The layout of two buffers that know their offsets. */
  lemma TwoBuffers(t: u32, x: Buf, y: Buf)
    requires FileSize(t, x).Some? && FileSize(t, y).Some?
    requires x.off == 0 && y.off == AlignUp(FileSize(t, x).value, y.align)
    ensures Sized(t, [x, y]) == 2 && MaxAlign([x, y]) == Max(Max(1, x.align), y.align)
    ensures Packed(t, [x, y]) == y.off + FileSize(t, y).value && Placed(t, [x, y], 2) == [x, y]
  {
    hide AlignUp, FileSize;
    var bufs := [x, y];
    assert bufs[..0] == [] && bufs[..1] == [x] && bufs[..2] == bufs && [x][..0] == [];
    ZeroAligned(x.align);
    assert Packed(t, []) == 0 && Sized(t, []) == 0 && MaxAlign([]) == 1;
    assert Packed(t, [x]) == FileSize(t, x).value && Sized(t, [x]) == 1 && MaxAlign([x]) == Max(1, x.align);
    assert PlacedBuf(t, bufs, 0) == x && PlacedBuf(t, bufs, 1) == y;
  }

  /** And of one more. */
  lemma NextBuffer(t: u32, bufs: seq<Buf>, y: Buf)
    requires Sized(t, bufs) == |bufs| && Placed(t, bufs, |bufs|) == bufs && FileSize(t, y).Some?
    requires y.off == AlignUp(Packed(t, bufs), y.align)
    ensures var all := bufs + [y];
            && Sized(t, all) == |all| && MaxAlign(all) == Max(MaxAlign(bufs), y.align)
            && Packed(t, all) == y.off + FileSize(t, y).value && Placed(t, all, |all|) == all
  {
    hide AlignUp, FileSize;
    var all := bufs + [y];
    assert all[..|bufs|] == bufs;
    forall j | 0 <= j < |all| ensures PlacedBuf(t, all, j) == all[j] {
      assert j < |bufs| ==> all[..j] == bufs[..j] && PlacedBuf(t, bufs, j) == bufs[j];
    }
  }

  /** A null section and one of type `t`. */
  function OneSection(h: Ehdr, t: u32, bufs: seq<Buf>): Desc {
    Desc(h, true, [], false, false, false, false,
         [Section(ZERO_SHDR, [], true, true), Section(ZERO_SHDR.(stype := t), bufs, true, true)])
  }

  lemma OneSectionGood(h: Ehdr, t: u32, bufs: seq<Buf>, n: nat, o: nat)
    requires t != SHT_NULL && t != SHT_NOBITS && Sized(t, bufs) == |bufs|
    requires Packed(t, bufs) == n && AlignUp(52, MaxAlign(bufs)) == o
    ensures var secs := OneSection(h, t, bufs).sections;
            Good(false, false, secs, 52, 2) == 2 && Off(false, secs, 52, 1) == 52 && Off(false, secs, 52, 2) == o + n
  {
    hide Sized, Packed, AlignUp, MaxAlign;
    var secs := OneSection(h, t, bufs).sections;
    assert Problem(false, false, secs, 52, 0) == None && Problem(false, false, secs, 52, 1) == None;
    assert Good(false, false, secs, 52, 1) == 1;
    assert Off(false, secs, 52, 1) == 52;
  }

  /** Its layout, when its buffers know their offsets. */
  lemma OneSectionFile(h: Ehdr, t: u32, bufs: seq<Buf>, host: Encoding, n: nat, o: nat)
    requires |h.ident| == 16 && EncodingOk(h.ident[5]) && h.version <= 1 && t != SHT_NULL && t != SHT_NOBITS
    requires Sized(t, bufs) == |bufs| && Placed(t, bufs, |bufs|) == bufs
    requires Packed(t, bufs) == n && AlignUp(52, MaxAlign(bufs)) == o && o + n < 0x8000_0000
    ensures AutoLaid(OneSection(h, t, bufs), host)
    ensures var d := LayoutOf(OneSection(h, t, bufs), host).desc;
            && |d.sections| == 2 && d.sections[1].shdr.stype == t && d.sections[1].shdr.size == n && d.sections[1].bufs == bufs
            && |d.ehdr.ident| == 16 && d.ehdr.ident[5] == FileEncoding(OneSection(h, t, bufs), host)
  {
    hide Sized, Packed, AlignUp, MaxAlign, Placed, Good, Off, LayoutOf, FinishedDesc, LaidSections, FileEncoding;
    OneSectionGood(h, t, bufs, n, o);
    AlignedBelow(o + n);
    OneSectionFinished(h, t, bufs, host, n, o);
    OneSectionLaid(h, t, bufs, n, o);
    FinishedFacts(OneSection(h, t, bufs), host, LaidSections(false, OneSection(h, t, bufs).sections, 52), o + n);
  }

  lemma OneSectionFinished(h: Ehdr, t: u32, bufs: seq<Buf>, host: Encoding, n: nat, o: nat)
    requires |h.ident| == 16 && EncodingOk(h.ident[5]) && h.version <= 1
    requires var secs := OneSection(h, t, bufs).sections; Good(false, false, secs, 52, 2) == 2 && Off(false, secs, 52, 2) == o + n
    ensures var d := OneSection(h, t, bufs);
            Layout.Proper(d) && LayoutOf(d, host) == Finished(d, host, LaidSections(false, d.sections, 52), o + n)
  {
    hide Good, Off, Finished, LaidSections, StoppedSections;
  }

  lemma OneSectionLaid(h: Ehdr, t: u32, bufs: seq<Buf>, n: nat, o: nat)
    requires t != SHT_NULL && Packed(t, bufs) == n && AlignUp(52, MaxAlign(bufs)) == o && o + n < 0x8000_0000
    requires Placed(t, bufs, |bufs|) == bufs && Off(false, OneSection(h, t, bufs).sections, 52, 1) == 52
    ensures var s := LaidSections(false, OneSection(h, t, bufs).sections, 52)[1];
            s.shdr.stype == t && s.shdr.size == n && s.bufs == bufs
  {
    hide Packed, AlignUp, MaxAlign, Placed, Off, EntSize;
    SmallWrap(n);
  }

  lemma SmallWrap(n: nat)
    requires n < 0x8000_0000
    ensures Wrap(n) == n
  {
  }

  lemma FinishedFacts(d: Desc, host: Encoding, secs: seq<Section>, off: nat)
    requires |d.ehdr.ident| == 16 && |secs| == 2 && d.sections != [] && !d.manual
    ensures var e := FinishedDesc(d, host, secs, off);
            && e.sections == secs && |e.ehdr.ident| == 16 && e.ehdr.ident[5] == FileEncoding(d, host)
    ensures FinalOff(d, off) == AlignUp(off, 4) + 40 * |d.sections|
  {
    hide AlignUp, FileEncoding, IsDirty;
  }

  lemma AlignedBelow(x: nat)
    ensures x <= AlignUp(x, 4) < x + 4
  {
  }

  lemma RelaLayout()
    ensures Sized(SHT_RELA, RELOCATIONS) == 2 && MaxAlign(RELOCATIONS) == 8 && Packed(SHT_RELA, RELOCATIONS) == 28
    ensures Placed(SHT_RELA, RELOCATIONS, 2) == RELOCATIONS
  {
    hide Sized, MaxAlign, Packed, Placed;
    var x, y := RELOCATIONS[0], RELOCATIONS[1];
    assert Whole(12, 0) == 0 && Whole(12, 12) == 12;
    assert FileSize(SHT_RELA, x) == Some(12) && FileSize(SHT_RELA, y) == Some(12);
    assert AlignUp(12, 8) == 16;
    TwoBuffers(SHT_RELA, x, y);
    assert RELOCATIONS == [x, y];
  }

  lemma RelaFile(host: Encoding)
    ensures AutoLaid(WITH_RELA, host)
    ensures var d := LayoutOf(WITH_RELA, host).desc;
            && |d.sections| == 2 && d.sections[1].shdr.stype == SHT_RELA && d.sections[1].shdr.size == 28
            && d.sections[1].bufs == RELOCATIONS
  {
    hide Sized, MaxAlign, Packed, Placed, AlignUp, LayoutOf, AutoLaid;
    RelaLayout();
    assert AlignUp(52, 8) == 56 by { Aligned52(); }
    OneSectionFile(NEW_EHDR, SHT_RELA, RELOCATIONS, host, 28, 56);
  }

  lemma Aligned52()
    ensures AlignUp(52, 8) == 56 && AlignUp(52, 4) == 52 && AlignUp(52, 3) == 54
  {
  }

  lemma RelaIsReady(host: Encoding)
    ensures AutoLaid(WITH_RELA, host) && Ready(WITH_RELA, host, LayoutOf(WITH_RELA, host).desc)
  {
    hide LayoutOf;
    RelaFile(host);
    IdentLength(WITH_RELA, host);
    var d := LayoutOf(WITH_RELA, host).desc;
    forall l | IsLabel(d, l) ensures LabelOk(d, host, l) {
      if l.Data? && l.k == 1 {
        assert d.sections[1].bufs[l.j] == RELOCATIONS[l.j];
      }
    }
  }

  /** The second entry, at byte 16 of 28, is written to the file but not found when the section is
      read: only 24 bytes are whole elements. */
  lemma SecondEntryLost(host: Encoding, fill: byte, back: seq<byte>)
    requires |back| == 28
    ensures AutoLaid(WITH_RELA, host) && Ready(WITH_RELA, host, LayoutOf(WITH_RELA, host).desc)
    ensures var d := LayoutOf(WITH_RELA, host).desc;
            && |d.sections| == 2 && |d.sections[1].bufs| == 2 && |back| == d.sections[1].shdr.size
            && SectionData(WITH_RELA, host, d, fill, 1, back).Some?
            && !HasBuffer(d.sections[1], 1, SectionData(WITH_RELA, host, d, fill, 1, back).value)
  {
    hide LayoutOf, SectionData, HasBuffer, AutoLaid, Ready;
    RelaIsReady(host);
    RelaFile(host);
    var d := LayoutOf(WITH_RELA, host).desc;
    assert Whole(12, 0) == 0 && Whole(12, 4) == 0 && Whole(12, 12) == 12 && Whole(12, 16) == 12 && Whole(12, 28) == 24;
    assert OwnType(d.sections[1], 1) && !InWhole(d.sections[1], 1);
    DataReadsBack(WITH_RELA, host, d, fill, 1, 1, back);
  }
}
