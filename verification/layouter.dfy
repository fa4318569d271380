/** The descriptor as the library keeps it, and `_elf32_layout` as it updates it in place. */
module Layouter {
  import opened Words
  import opened ElfTypes
  import opened Codec
  import opened Layout

  class Descriptor {
    var ehdr: Ehdr
    var ehdrDirty: bool
    var phdrs: seq<Phdr>
    var phdrDirty: bool
    var elfDirty: bool
    var manual: bool
    var overlapAllowed: bool
    var sections: seq<Section>

    function Value(): Desc
      reads this
    {
      Desc(ehdr, ehdrDirty, phdrs, phdrDirty, elfDirty, manual, overlapAllowed, sections)
    }

    /** `scn_data_layout` on section `i` */
    method LayoutData(i: nat) returns (len: Option<nat>, algn: nat, dirty: bool)
      requires i < |sections|
      modifies this`sections
      ensures var s := old(sections[i]);
              var n := Sized(s.shdr.stype, s.bufs);
              && sections == old(sections)[i := s.(bufs := if manual then s.bufs else Placed(s.shdr.stype, s.bufs, n))]
              && len == (if n < |s.bufs| then None
                         else Some(if manual then Reach(s.shdr.stype, s.bufs) else Packed(s.shdr.stype, s.bufs)))
              && (len.Some? ==> algn == (if manual then 1 else MaxAlign(s.bufs)))
              && (len.Some? ==> (dirty <==> AnyDirty(sections[i].bufs)))
    {
      hide *;
      var bufs;
      bufs, len, algn, dirty := LayoutBufs(manual, sections[i].shdr.stype, sections[i].bufs);
      sections := sections[i := sections[i].(bufs := bufs)];
    }

    /** Stores the header of section `i` and its flag. */
    method SetShdr(i: nat, h: Shdr, flag: bool)
      requires i < |sections|
      modifies this`sections
      ensures sections == old(sections)[i := old(sections[i]).(shdr := h, shdrDirty := flag)]
    {
      sections := sections[i := sections[i].(shdr := h, shdrDirty := flag)];
    }

    /** The first section's header holds nothing of its own. */
    method LayoutNull(ghost secs: seq<Section>, ghost start: nat)
      requires 0 < |sections| == |secs| && sections[0] == secs[0]
      modifies this`sections
      ensures sections == old(sections)[0 := LaidSection(manual, secs, start, 0)]
    {
      var h, flag := sections[0].shdr, sections[0].shdrDirty;
      var (entsize, f) := Rewrite(h.entsize, 0, flag);
      h, flag := h.(entsize := entsize), f;
      if !manual {
        var (offset, f1) := Rewrite(h.offset, 0, flag);
        var (size, f2) := Rewrite(h.size, 0, f1);
        var (addralign, f3) := Rewrite(h.addralign, 0, f2);
        h, flag := h.(offset := offset, size := size, addralign := addralign), f3;
      }
      SetShdr(0, h, flag);
    }

    /** The scan of the sections before section `i` for one that it conflicts with. */
    method Overlaps(i: nat) returns (found: bool)
      requires i < |sections|
      ensures found <==> exists j :: 0 <= j < i && Conflict(sections[i].shdr, sections[j].shdr)
    {
      var h := sections[i].shdr;
      var end1 := h.offset + if h.stype == SHT_NOBITS then 0 else h.size;
      for j := 0 to i
        invariant forall m :: 0 <= m < j ==> !Conflict(h, sections[m].shdr)
      {
        var g := sections[j].shdr;
        var end2 := g.offset + if g.stype == SHT_NOBITS then 0 else g.size;
        if end1 > g.offset && end2 > h.offset {
          return true;
        }
      }
      return false;
    }

    /** "Never override the program's choice" of an entry size. */
    method SetEntSize(i: nat)
      requires i < |sections|
      modifies this`sections
      ensures sections == old(sections)[i := WithEntSize(old(sections[i]))]
    {
      var h, flag := sections[i].shdr, sections[i].shdrDirty;
      if h.entsize == 0 {
        var entsize := EntSize(h.stype);
        if entsize > 1 {
          var (e, f) := Rewrite(h.entsize, entsize, flag);
          h, flag := h.(entsize := e), f;
        }
      }
      SetShdr(i, h, flag);
    }

    /** Automatic layout of section `i`, whose data has been laid out. */
    method Place(i: nat, off: nat, len: nat, algn: nat) returns (next: nat)
      requires i < |sections|
      modifies this`sections
      ensures sections == old(sections)[i := At(old(sections[i]), AlignUp(off, algn), len, algn)]
      ensures next == AlignUp(off, algn) + if old(sections[i]).shdr.stype == SHT_NOBITS then 0 else len
    {
      hide Rewrite, Wrap, AlignUp;
      var h, flag := sections[i].shdr, sections[i].shdrDirty;
      next := AlignUp(off, algn);
      var (offset, f1) := Rewrite(h.offset, next, flag);
      var (size, f2) := Rewrite(h.size, len, f1);
      var (addralign, f3) := Rewrite(h.addralign, algn, f2);
      SetShdr(i, h.(offset := offset, size := size, addralign := addralign), f3);
      if h.stype != SHT_NOBITS {
        next := next + len;
      }
    }

    /** The checks of section `i` when the program has made the layout. */
    method CheckPlace(i: nat, off: nat, len: nat) returns (next: nat, err: Option<Error>)
      requires i < |sections|
      ensures next == Max(off, End(sections[i].shdr))
      ensures err == if len > sections[i].shdr.size then Some(SectionTooSmall)
                     else if !overlapAllowed && sections[i].shdr.offset < off
                             && exists j :: 0 <= j < i && Conflict(sections[i].shdr, sections[j].shdr) then Some(SectionOverlap)
                     else None
    {
      next, err := off, None;
      var h := sections[i].shdr;
      var end1 := h.offset + if h.stype == SHT_NOBITS then 0 else h.size;
      if len > h.size {
        err := Some(SectionTooSmall);
      } else if !overlapAllowed && h.offset < off {
        var found := Overlaps(i);
        if found {
          err := Some(SectionOverlap);
        }
      }
      if off < end1 {
        next := end1;
      }
    }

    /** The loop body of `_elf32_layout` for section `i`. */
    method LayoutSection(i: nat, off: nat, ghost secs: seq<Section>, ghost start: nat)
        returns (next: nat, err: Option<Error>, dirty: bool)
      requires i < |sections| == |secs| && sections[i] == secs[i]
      requires forall j :: 0 <= j < i ==> sections[j] == LaidSection(manual, secs, start, j)
      requires off == Off(manual, secs, start, i)
      modifies this`sections
      ensures err == Problem(manual, overlapAllowed, secs, start, i)
      ensures sections == old(sections)[i := if err == None then LaidSection(manual, secs, start, i) else Partial(manual, secs, i)]
      ensures err == None ==> next == Off(manual, secs, start, i + 1) && (dirty <==> SectionDirty(i, sections[i]))
    {
      hide Sized, Placed, Reach, Packed, AnyDirty, FileSize, MaxAlign, AlignUp, Conflict, EntSize;
      next, err := off, None;
      dirty := sections[i].scnDirty;
      if i == 0 {
        LayoutNull(secs, start);
        return next, err, dirty || sections[i].shdrDirty;
      }
      if sections[i].shdr.stype == SHT_NULL {
        return next, err, dirty || sections[i].shdrDirty;
      }
      var len, algn, dataDirty := LayoutData(i);
      SizedIsShort(secs[i].shdr.stype, secs[i].bufs);
      if len == None {
        return next, Some(BadData), dirty;
      }
      next, err := PlaceSection(i, off, len.value, algn, secs, start);
      dirty := dirty || dataDirty || sections[i].shdrDirty;
    }

    /** The rest of it, once the data of the section has been laid out. */
    method PlaceSection(i: nat, off: nat, len: nat, algn: nat, ghost secs: seq<Section>, ghost start: nat)
        returns (next: nat, err: Option<Error>)
      requires 0 < i < |sections| == |secs| && secs[i].shdr.stype != SHT_NULL
      requires var t, bufs := secs[i].shdr.stype, secs[i].bufs;
               && Sized(t, bufs) == |bufs| && algn == (if manual then 1 else MaxAlign(bufs)) && len == (if manual then Reach(t, bufs) else Packed(t, bufs))
               && sections[i] == if manual then secs[i] else secs[i].(bufs := Placed(t, bufs, |bufs|))
      requires forall j :: 0 <= j < i ==> sections[j] == LaidSection(manual, secs, start, j)
      requires off == Off(manual, secs, start, i)
      modifies this`sections
      ensures err == Problem(manual, overlapAllowed, secs, start, i)
      ensures sections == old(sections)[i := if err == None then LaidSection(manual, secs, start, i) else Partial(manual, secs, i)]
      ensures err == None ==> next == Off(manual, secs, start, i + 1)
    {
      hide Sized, Placed, Reach, Packed, FileSize, MaxAlign, AlignUp, Conflict, EntSize;
      SetEntSize(i);
      if !manual {
        err := None;
        next := Place(i, off, len, algn);
      } else {
        SameConflicts(secs, start, sections, i);
        next, err := CheckPlace(i, off, len);
      }
    }

    method LayoutSections(ghost secs: seq<Section>, start: nat, dirtyBefore: bool)
        returns (next: nat, err: Option<Error>, dirty: bool)
      requires sections == secs
      modifies this`sections
      ensures var n := Good(manual, overlapAllowed, secs, start, |secs|);
              if n < |secs| then
                err == Problem(manual, overlapAllowed, secs, start, n) && sections == StoppedSections(manual, secs, start, n)
              else
                && err == None && sections == LaidSections(manual, secs, start) && next == Off(manual, secs, start, |secs|)
                && (dirty <==> dirtyBefore || exists k :: 0 <= k < |sections| && SectionDirty(k, sections[k]))
    {
      hide LaidSection, Off, Problem, Partial, SectionDirty;
      next, err, dirty := start, None, dirtyBefore;
      OffStart(manual, secs, start);
      var i := 0;
      while i < |sections|
        invariant i <= |sections| == |secs|
        invariant forall j {:trigger sections[j]} :: 0 <= j < i ==> sections[j] == LaidSection(manual, secs, start, j)
        invariant forall j {:trigger sections[j]} :: i <= j < |secs| ==> sections[j] == secs[j]
        invariant next == Off(manual, secs, start, i) && err == None
        invariant forall j :: 0 <= j < i ==> Problem(manual, overlapAllowed, secs, start, j) == None
        invariant dirty <==> dirtyBefore || exists k :: 0 <= k < i && SectionDirty(k, sections[k])
      {
        var flag;
        ghost var before := sections;
        next, err, flag := LayoutSection(i, next, secs, start);
        if err != None {
          GoodIs(manual, overlapAllowed, secs, start, |secs|, i);
          assert sections == StoppedSections(manual, secs, start, i);
          return;
        }
        assert forall j :: 0 <= j < i ==> sections[j] == before[j];
        dirty := dirty || flag;
        i := i + 1;
      }
      GoodIs(manual, overlapAllowed, secs, start, |secs|, |secs|);
      assert sections == LaidSections(manual, secs, start);
    }

    /** Where the program header table goes; returns where it ends. */
    method PlacePhdrs() returns (off: nat)
      requires Proper(Value())
      modifies this`ehdr, this`ehdrDirty
      ensures off == PhdrEnd(old(Value()))
      ensures ehdr == old(ehdr).(phoff := if manual then old(ehdr).phoff else if |phdrs| == 0 then 0 else 52)
      ensures ehdrDirty == (old(ehdrDirty) || ehdr != old(ehdr))
    {
      hide Rewrite, Wrap;
      off := 52;
      if |phdrs| != 0 {
        if !manual {
          off := AlignUp(off, 4);
          var (phoff, f) := Rewrite(ehdr.phoff, off, ehdrDirty);
          ehdr, ehdrDirty := ehdr.(phoff := phoff), f;
          off := off + |phdrs| * 32;
        } else {
          off := Max(off, ehdr.phoff + |phdrs| * 32);
        }
      } else if !manual {
        var (phoff, f) := Rewrite(ehdr.phoff, 0, ehdrDirty);
        ehdr, ehdrDirty := ehdr.(phoff := phoff), f;
      }
    }

    /** The number of program headers, in the first section if it is too large. */
    method CountPhdrs()
      requires Proper(Value())
      modifies this`ehdr, this`ehdrDirty, this`sections
      ensures sections == EarlySections(old(Value()))
      ensures ehdr == old(ehdr).(phnum := if |phdrs| >= PN_XNUM then PN_XNUM else |phdrs|,
                                 phentsize := if |phdrs| == 0 then 0 else 32)
      ensures ehdrDirty == (old(ehdrDirty) || ehdr != old(ehdr))
    {
      hide Rewrite, Wrap;
      var n, entsize := |phdrs|, if |phdrs| == 0 then 0 else 32;
      if n >= PN_XNUM {
        var (info, f) := Rewrite(sections[0].shdr.info, n, sections[0].shdrDirty);
        SetShdr(0, sections[0].shdr.(info := info), f);
        n := PN_XNUM;
      }
      var (phnum, f1) := Rewrite(ehdr.phnum, n, ehdrDirty);
      var (phentsize, f2) := Rewrite(ehdr.phentsize, entsize, f1);
      ehdr, ehdrDirty := ehdr.(phnum := phnum, phentsize := phentsize), f2;
    }

    /** The fields of the ELF header that come before the sections are laid out; returns where
        the program header table ends. */
    method LayoutPhdrs() returns (off: nat)
      requires Proper(Value())
      modifies this`ehdr, this`ehdrDirty, this`sections
      ensures var d := old(Value());
              && Value() == Begun(d)
              && off == PhdrEnd(d)
    {
      hide Rewrite, Wrap;
      var (ehsize, f) := Rewrite(ehdr.ehsize, 52, ehdrDirty);
      ehdr, ehdrDirty := ehdr.(ehsize := ehsize), f;
      off := PlacePhdrs();
      CountPhdrs();
    }

    /** Where the section header table goes; returns the size of the file. */
    method PlaceShdrs(off: nat) returns (size: nat)
      modifies this`ehdr, this`ehdrDirty
      ensures size == FinalOff(old(Value()), off)
      ensures ehdr == PlacedShdrs(old(ehdr), manual, |sections|, off)
      ensures ehdrDirty == (old(ehdrDirty) || ehdr != old(ehdr) || (!manual && sections != [] && AlignUp(off, 4) > 0xffff_ffff))
    {
      hide Rewrite, Wrap, AlignUp;
      size := off;
      if |sections| != 0 {
        if !manual {
          size := AlignUp(size, 4);
          var (shoff, f) := Rewrite(ehdr.shoff, size, ehdrDirty);
          ehdr, ehdrDirty := ehdr.(shoff := shoff), f;
          size := size + |sections| * 40;
        } else {
          size := Max(size, ehdr.shoff + |sections| * 40);
        }
      } else if !manual {
        var (shoff, f) := Rewrite(ehdr.shoff, 0, ehdrDirty);
        ehdr, ehdrDirty := ehdr.(shoff := shoff), f;
      }
    }

    /** The number of sections, in the first one if it is too large, and the identification. */
    method CountShdrs(enc: byte)
      requires Proper(Value())
      modifies this`ehdr, this`ehdrDirty, this`sections
      ensures sections == FinalSections(old(sections))
      ensures ehdr == CountedShdrs(old(ehdr), |sections|, enc)
      ensures ehdrDirty == (old(ehdrDirty) || ehdr != old(ehdr))
    {
      hide Rewrite, Wrap;
      var n, entsize := |sections|, if |sections| == 0 then 0 else 40;
      if n >= SHN_LORESERVE {
        var (size, f) := Rewrite(sections[0].shdr.size, n, sections[0].shdrDirty);
        SetShdr(0, sections[0].shdr.(size := size), f);
        n := 0;
      }
      var (shnum, f1) := Rewrite(ehdr.shnum, n, ehdrDirty);
      var (shentsize, f2) := Rewrite(ehdr.shentsize, entsize, f1);
      var ident := [0x7f, 0x45, 0x4c, 0x46, 1, enc, 1] + ehdr.ident[7..];
      var (version, f3) := Rewrite(ehdr.version, 1, f2 || ident != ehdr.ident);
      ehdr, ehdrDirty := ehdr.(shnum := shnum, shentsize := shentsize, ident := ident, version := version), f3;
    }

    /** The section header table and the rest of the ELF header. */
    method LayoutEhdr(enc: byte, off: nat, ghost host: Encoding, ghost d: Desc) returns (size: nat)
      requires Proper(d) && enc == FileEncoding(d, host) && |sections| == |d.sections|
      requires Value() == Begun(d).(sections := sections)
      modifies this`ehdr, this`ehdrDirty, this`sections
      ensures Value() == FinishedDesc(d, host, old(sections), off) && size == FinalOff(d, off)
    {
      hide AlignUp, Wrap, FileEncoding, FinalSections, EarlySections, EarlyEhdr, FinalEhdr, FinalOff, PlacedShdrs, CountedShdrs;
      SameFinalOff(d, sections, off);
      EhdrSteps(d, host, off);
      size := PlaceShdrs(off);
      CountShdrs(enc);
    }

    method LayoutShdrs(enc: byte, off: nat, flag: bool, ghost host: Encoding, ghost d: Desc) returns (r: Result)
      requires Proper(d) && enc == FileEncoding(d, host) && |sections| == |d.sections|
      requires Value() == Begun(d).(sections := sections)
      requires flag <==> elfDirty || phdrDirty || exists k :: 0 <= k < |sections| && SectionDirty(k, sections[k])
      modifies this`ehdr, this`ehdrDirty, this`sections
      ensures Outcome(Value(), r) == Finished(d, host, old(sections), off)
    {
      hide FileEncoding, IsDirty, FinalSections, SectionDirty, FinalEhdr, FinalOff, AlignUp, EarlyEhdr, EarlySections;
      var size := LayoutEhdr(enc, off, host, d);
      r := Laid(size, flag || ehdrDirty || (sections != [] && sections[0].shdrDirty));
      FinalDirty(old(sections), Value());
    }

    /** `_elf32_layout` */
    method Layout(host: Encoding) returns (r: Result)
      requires Proper(Value())
      modifies this`ehdr, this`ehdrDirty, this`sections
      ensures Outcome(Value(), r) == LayoutOf(old(Value()), host)
    {
      hide EarlyEhdr, EarlySections, Finished, Off, PhdrEnd, Good, Problem, LaidSections, StoppedSections, SectionDirty;
      ghost var d := Value();
      if ehdr.version > 1 {
        return Failed(UnknownVersion);
      }
      if !EncodingOk(ehdr.ident[5]) {
        return Failed(UnknownEncoding);
      }
      var enc := if ehdr.ident[5] == 0 then (if host == Lsb then 1 else 2) else ehdr.ident[5];
      var start := LayoutPhdrs();
      var off, err, flag := LayoutSections(sections, start, elfDirty || phdrDirty);
      if err != None {
        return Failed(err.value);
      }
      r := LayoutShdrs(enc, off, flag, host, d);
    }
  }

  /** The ELF header with the offset of the section header table. */
  function PlacedShdrs(h: Ehdr, manual: bool, n: nat, off: nat): Ehdr {
    h.(shoff := if manual then h.shoff else if n == 0 then 0 else Wrap(AlignUp(off, 4)))
  }

  /** The ELF header with the number of sections and the identification. */
  function CountedShdrs(h: Ehdr, n: nat, enc: byte): Ehdr
    requires |h.ident| == 16 && n < 0x1_0000_0000
  {
    h.(shnum := if n >= SHN_LORESERVE then 0 else n,
       shentsize := if n == 0 then 0 else 40,
       ident := [0x7f, 0x45, 0x4c, 0x46, 1, enc, 1] + h.ident[7..],
       version := 1)
  }

  /** The steps give the final header, and each field is set once: nothing is set back. */
  lemma EhdrSteps(d: Desc, host: Encoding, off: nat)
    requires Proper(d)
    ensures var early := EarlyEhdr(d);
            var placed := PlacedShdrs(early, d.manual, |d.sections|, off);
            && |early.ident| == 16 && |placed.ident| == 16
            && CountedShdrs(placed, |d.sections|, FileEncoding(d, host)) == FinalEhdr(d, host, off)
            && (FinalEhdr(d, host, off) == d.ehdr ==> placed == early == d.ehdr)
  {
    hide AlignUp, Wrap, FileEncoding;
  }

  lemma SameFinalOff(d: Desc, secs: seq<Section>, off: nat)
    requires Proper(d) && |secs| == |d.sections|
    ensures FinalOff(Begun(d).(sections := secs), off) == FinalOff(d, off)
    ensures |EarlyEhdr(d).ident| == 16
  {
  }

  /** The number of sections in the first header adds at most that header's flag. */
  lemma FinalDirty(secs: seq<Section>, d: Desc)
    requires |secs| < 0x1_0000_0000 && d.sections == FinalSections(secs)
    ensures IsDirty(d) <==>
              || d.elfDirty || d.phdrDirty || (exists k :: 0 <= k < |secs| && SectionDirty(k, secs[k]))
              || d.ehdrDirty || (d.sections != [] && d.sections[0].shdrDirty)
  {
    var r := FinalSections(secs);
    forall k | 0 < k < |secs| ensures SectionDirty(k, r[k]) <==> SectionDirty(k, secs[k]) {
    }
    if r != [] {
      assert SectionDirty(0, r[0]) <==> r[0].scnDirty || r[0].shdrDirty;
      assert SectionDirty(0, secs[0]) <==> secs[0].scnDirty || secs[0].shdrDirty;
    }
  }

  lemma OffStart(manual: bool, secs: seq<Section>, start: nat)
    ensures Off(manual, secs, start, 0) == start
  {
  }

  lemma GoodIs(manual: bool, allowed: bool, secs: seq<Section>, start: nat, n: nat, k: nat)
    requires k <= n <= |secs|
    requires forall i :: 0 <= i < k ==> Problem(manual, allowed, secs, start, i) == None
    requires k < n ==> Problem(manual, allowed, secs, start, k) != None
    ensures Good(manual, allowed, secs, start, n) == k
  {
    hide Problem;
    var g := Good(manual, allowed, secs, start, n);
    assert g < n ==> Problem(manual, allowed, secs, start, g) != None;
  }

  lemma SizedIsShort(t: u32, bufs: seq<Buf>)
    ensures Sized(t, bufs) <= |bufs|
  {
  }

  /** The layout of the earlier sections does not change what section `i` conflicts with. */
  lemma SameConflicts(secs: seq<Section>, start: nat, now: seq<Section>, i: nat)
    requires 0 < i < |secs| == |now|
    requires forall j :: 0 <= j < i ==> now[j] == LaidSection(true, secs, start, j)
    requires now[i].shdr == WithEntSize(secs[i]).shdr
    ensures (exists j :: 0 <= j < i && Conflict(now[i].shdr, now[j].shdr))
       <==> (exists j :: 0 <= j < i && Conflict(secs[i].shdr, secs[j].shdr))
  {
    forall j | 0 <= j < i
      ensures Conflict(now[i].shdr, now[j].shdr) <==> Conflict(secs[i].shdr, secs[j].shdr)
    {
      assert now[j] == LaidSection(true, secs, start, j);
    }
  }

  /** The loop over the buffers of a section of type `t`. */
  method LayoutBufs(manual: bool, t: u32, all: seq<Buf>) returns (bufs: seq<Buf>, len: Option<nat>, algn: nat, dirty: bool)
    ensures var n := Sized(t, all);
            && bufs == (if manual then all else Placed(t, all, n))
            && len == (if n < |all| then None else Some(if manual then Reach(t, all) else Packed(t, all)))
            && (len.Some? ==> algn == (if manual then 1 else MaxAlign(all)))
            && (len.Some? ==> (dirty <==> AnyDirty(bufs)))
  {
    hide Sized, Placed, Reach, Packed, AnyDirty, FileSize, MaxAlign, AlignUp, Start, Space, PlacedBuf;
    bufs := all;
    var j, end := 0, 0;
    algn, dirty := 1, false;
    NoBufs(t, bufs);
    while j < |all|
      invariant j <= Sized(t, all) <= |all|
      invariant bufs == if manual then all else Placed(t, all, j)
      invariant |bufs| == |all| && (j < |all| ==> bufs[j] == all[j])
      invariant end == if manual then Reach(t, all[..j]) else Packed(t, all[..j])
      invariant algn == if manual then 1 else MaxAlign(all[..j])
      invariant dirty <==> AnyDirty(bufs[..j])
    {
      NextBuf(t, all, j);
      var size := FileSize(t, bufs[j]);
      if size == None {
        return bufs, None, algn, dirty;
      }
      ghost var before := bufs[..j];
      if !manual {
        end := AlignUp(end, bufs[j].align);
        algn := Max(algn, bufs[j].align);
        if bufs[j].off != end {
          bufs := bufs[j := bufs[j].(off := end, dirty := true)];
        }
        end := end + size.value;
      } else {
        end := Max(end, bufs[j].off + size.value);
      }
      assert bufs[..j] == before;
      NextDirty(bufs, j);
      dirty := dirty || bufs[j].dirty;
      j := j + 1;
    }
    assert all[..j] == all && bufs[..j] == bufs;
    return bufs, Some(end), algn, dirty;
  }

  lemma NoBufs(t: u32, bufs: seq<Buf>)
    ensures Reach(t, bufs[..0]) == 0 && Packed(t, bufs[..0]) == 0 && MaxAlign(bufs[..0]) == 1 && Sized(t, bufs) <= |bufs|
    ensures Placed(t, bufs, 0) == bufs && !AnyDirty(bufs[..0])
  {
  }

  lemma NextBuf(t: u32, bufs: seq<Buf>, j: nat)
    requires j < |bufs| && j <= Sized(t, bufs)
    ensures FileSize(t, bufs[j]) == None ==> j == Sized(t, bufs)
    ensures FileSize(t, bufs[j]) != None ==> j < Sized(t, bufs) && Space(t, bufs[j]) == FileSize(t, bufs[j]).value
    ensures Reach(t, bufs[..j + 1]) == Max(Reach(t, bufs[..j]), bufs[j].off + Space(t, bufs[j]))
    ensures Packed(t, bufs[..j + 1]) == Start(t, bufs, j) + Space(t, bufs[j])
    ensures Start(t, bufs, j) == AlignUp(Packed(t, bufs[..j]), bufs[j].align)
    ensures MaxAlign(bufs[..j + 1]) == Max(MaxAlign(bufs[..j]), bufs[j].align)
    ensures |Placed(t, bufs, j)| == |bufs| && Placed(t, bufs, j)[j] == bufs[j]
    ensures PlacedBuf(t, bufs, j) == bufs[j].(off := Start(t, bufs, j), dirty := bufs[j].dirty || bufs[j].off != Start(t, bufs, j))
    ensures Placed(t, bufs, j + 1) == Placed(t, bufs, j)[j := PlacedBuf(t, bufs, j)]
    ensures |Placed(t, bufs, j + 1)| == |bufs| && (j + 1 < |bufs| ==> Placed(t, bufs, j + 1)[j + 1] == bufs[j + 1])
  {
    assert bufs[..j + 1][..j] == bufs[..j];
  }

  lemma NextDirty(bufs: seq<Buf>, j: nat)
    requires j < |bufs|
    ensures AnyDirty(bufs[..j + 1]) <==> AnyDirty(bufs[..j]) || bufs[j].dirty
  {
    var a, b := bufs[..j], bufs[..j + 1];
    assert forall m :: 0 <= m < j ==> a[m] == b[m];
    assert b[j] == bufs[j];
  }
}
