/** Two buffers of version records of which the first does not end its chain itself: the section is
    written, and cannot be read. */
module ExampleVersions {
  import opened Words
  import opened ElfTypes
  import opened Codec
  import opened Records
  import Versions
  import opened VersionOffsets
  import opened VersionChains
  import opened Layout
  import opened Allocation
  import opened Pieces
  import opened WrittenFile
  import opened ReadBack
  import opened VersionData
  import opened ExampleFile

  /** A record whose item is at byte 22, beyond the end of the first buffer but not of the section. */
  function Records2(host: Encoding): (bufs: seq<Buf>)
    ensures |bufs| == 2
  {
    hide Verdef;
    [Buf(T_VDEF, 1, 20, 4, 0, Some(Verdef(host, 22, 0)), true), Buf(T_VDEF, 1, 12, 4, 20, Some(ENTRIES), true)]
  }

  function WithVersions(host: Encoding): Desc {
    OneSection(NEW_EHDR, SHT_VERDEF, Records2(host))
  }

  lemma VersionsLayout(host: Encoding)
    ensures var bufs := Records2(host);
            && Sized(SHT_VERDEF, bufs) == 2 && MaxAlign(bufs) == 4 && Packed(SHT_VERDEF, bufs) == 32
            && Placed(SHT_VERDEF, bufs, 2) == bufs
  {
    hide Verdef, Sized, MaxAlign, Packed, Placed;
    var x, y := Records2(host)[0], Records2(host)[1];
    assert FileSize(SHT_VERDEF, x) == Some(20) && FileSize(SHT_VERDEF, y) == Some(12);
    assert AlignUp(20, 4) == 20;
    TwoBuffers(SHT_VERDEF, x, y);
    assert Records2(host) == [x, y];
  }

  lemma VersionsFile(host: Encoding)
    ensures AutoLaid(WithVersions(host), host)
    ensures var d := LayoutOf(WithVersions(host), host).desc;
            && |d.sections| == 2 && d.sections[1].shdr.stype == SHT_VERDEF && d.sections[1].shdr.size == 32
            && d.sections[1].bufs == Records2(host)
  {
    hide Sized, MaxAlign, Packed, Placed, Records2, AlignUp, LayoutOf, AutoLaid;
    VersionsLayout(host);
    assert AlignUp(52, 4) == 52 by { Aligned52(); }
    OneSectionFile(NEW_EHDR, SHT_VERDEF, Records2(host), host, 32, 52);
  }

  lemma WalkOf(f: Versions.Shape, enc: Encoding, src: seq<byte>)
    requires OneItem20(f, enc, src, 0, 22, 0)
    ensures |src| == 20 ==> Versions.FullWalk(f, enc, src, 0) == Versions.Walk([Versions.Head(0)], true)
    ensures |src| == 32 ==> !Versions.FullWalk(f, enc, src, 0).ok
  {
    hide Versions.FieldsAt, Versions.Size;
    Versions.SameSize(f, 0, 22);
    assert |src| == 20 ==> Versions.ItemWalk(f, enc, src, 22, 1) == Versions.Walk([], true);
    assert |src| == 32 ==> Versions.ItemWalk(f, enc, src, 22, 1) == Versions.Walk([], false);
  }

  lemma SmallWalk(f: Versions.Shape, enc: Encoding, src: seq<byte>)
    requires f.Ok() && |src| < Versions.Size(f, Versions.Head(0))
    ensures Versions.FullWalk(f, enc, src, 0).ok
  {
    hide Versions.FieldsAt, Versions.Size;
  }

  lemma FirstWalk(host: Encoding)
    ensures OneItem20(Versions.VERDEF, host, Verdef(host, 22, 0), 0, 22, 0)
    ensures Versions.FullWalk(Versions.VERDEF, host, Verdef(host, 22, 0), 0).ok
  {
    hide Verdef, OneItem20, Versions.FullWalk, Total;
    var src := Verdef(host, 22, 0);
    assert src[0..20] == src;
    VerdefIs(host, src, 0, 22, 0);
    WalkOf(Versions.VERDEF, host, src);
  }

  lemma SecondWalk(host: Encoding)
    ensures Versions.VERDEF.Ok() && Versions.FullWalk(Versions.VERDEF, host, ENTRIES, 0).ok
  {
    Versions.RecordSizes();
    hide Versions.FullWalk, Total;
    SmallWalk(Versions.VERDEF, host, ENTRIES);
  }

  lemma BothWritable(host: Encoding)
    ensures BufOk(host, Records2(host)[0]) && BufOk(host, Records2(host)[1])
    ensures VersionsFirst(host, Section(ZERO_SHDR.(stype := SHT_VERDEF), Records2(host), true, true))
    ensures OneItem20(Versions.VERDEF, host, Verdef(host, 22, 0), 0, 22, 0)
  {
    hide Verdef, OneItem20, Versions.FullWalk, Total;
    FirstWalk(host);
    SecondWalk(host);
  }

  lemma VersionsReady(host: Encoding)
    ensures AutoLaid(WithVersions(host), host) && Ready(WithVersions(host), host, LayoutOf(WithVersions(host), host).desc)
  {
    hide LayoutOf, BufOk, Records2, WithVersions;
    VersionsFile(host);
    BothWritable(host);
    IdentLength(WithVersions(host), host);
    var d := LayoutOf(WithVersions(host), host).desc;
    forall l | IsLabel(d, l) ensures LabelOk(d, host, l) {
      if l.Data? && l.k == 1 {
        assert l.j == 0 || l.j == 1;
      }
    }
  }

  /** What is read: nothing. In the file the item lies in the section, where it is misaligned. */
  lemma SectionNotRead(host: Encoding, fill: byte, back: seq<byte>)
    requires |back| == 32
    ensures AutoLaid(WithVersions(host), host) && Ready(WithVersions(host), host, LayoutOf(WithVersions(host), host).desc)
    ensures var d := LayoutOf(WithVersions(host), host).desc;
            && |d.sections| == 2 && |back| == d.sections[1].shdr.size
            && SectionData(WithVersions(host), host, d, fill, 1, back) == None
  {
    hide LayoutOf, Records2, Versions.FullWalk, Versions.Pass, Verdef, OneItem20, FileOf, EncodingOf;
    VersionsReady(host);
    VersionsFile(host);
    BothWritable(host);
    Versions.RecordSizes();
    var d := LayoutOf(WithVersions(host), host).desc;
    VersionImage(WithVersions(host), host, d, fill, 1);
    SectionInside(WithVersions(host), host, d, 1);
    IdentLength(WithVersions(host), host);
    var src, raw, enc := Verdef(host, 22, 0), RawSection(WithVersions(host), host, d, fill, 1), EncodingOf(d.ehdr);
    assert d.sections[1].bufs[0].mem.value == src by { FirstIs(host); }
    FieldsInRaw(Versions.VERDEF, host, enc, src, seq(20, _ => fill), raw);
    WalkOf(Versions.VERDEF, enc, raw);
  }

  lemma FirstIs(host: Encoding)
    ensures Records2(host)[0].mem == Some(Verdef(host, 22, 0))
  {
  }

  /** The record has its fields in the file image. */
  lemma FieldsInRaw(f: Versions.Shape, host: Encoding, enc: Encoding, src: seq<byte>, dst: seq<byte>, raw: seq<byte>)
    requires OneItem20(f, host, src, 0, 22, 0) && |src| == |dst| == 20 <= |raw| && Total(f.head) > 0
    requires raw[..20] == Versions.Pass(f, host, enc, src, dst)
    ensures OneItem20(f, enc, raw, 0, 22, 0)
  {
    WalkOf(f, host, src);
    hide Versions.Pass, Versions.FieldsAt, Versions.Size, Versions.FullWalk;
    Versions.PassStoresFields(f, host, enc, src, dst, 0);
    FieldsExtend(f, enc, Versions.Pass(f, host, enc, src, dst), raw, Versions.Head(0));
  }
}
