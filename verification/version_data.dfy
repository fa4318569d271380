/** Reading back a section of version records. */
module VersionData {
  import opened Words
  import opened Codec
  import Versions
  import opened VersionChains
  import opened Layout
  import opened Allocation
  import opened Pieces
  import opened WrittenFile
  import opened ReadBack

  /** Section `s` begins with a buffer of version records of its own type. */
  predicate VersionsFirst(host: Encoding, s: Section) {
    && s.bufs != [] && s.bufs[0].size > 0 && s.bufs[0].dtype == ScnType(s.shdr.stype) && IsVersion(s.bufs[0].dtype)
    && BufOk(host, s.bufs[0])
  }

  lemma FirstBuffer(t: u32, bufs: seq<Buf>)
    requires bufs != []
    ensures Start(t, bufs, 0) == 0
    ensures |bufs| == 1 ==> Packed(t, bufs) == Space(t, bufs[0])
  {
    assert Packed(t, bufs[..0]) == 0;
    ZeroAligned(bufs[0].align);
  }

  /** Its file image begins with what the translation to file leaves of fill bytes. */
  lemma VersionImage(d0: Desc, host: Encoding, d: Desc, fill: byte, k: nat)
    requires Ready(d0, host, d) && InFile(d, k) && VersionsFirst(host, d.sections[k])
    ensures var src, f := d.sections[k].bufs[0].mem.value, ShapeOf(ScnType(d.sections[k].shdr.stype));
            && |d.ehdr.ident| == 16 && |src| <= |RawSection(d0, host, d, fill, k)|
            && (|d.sections[k].bufs| == 1 ==> |RawSection(d0, host, d, fill, k)| == |src|)
            && RawSection(d0, host, d, fill, k)[..|src|] == Versions.Pass(f, host, EncodingOf(d.ehdr), src, seq(|src|, _ => fill))
  {
    hide LayoutOf, FileOf, EncodingOf, Versions.FullWalk, Versions.Pass, Off, PhdrEnd, EarlySections, MaxAlign, AlignUp, Packed;
    ElfShape(d0, host, d);
    SameKind(d0, host, k);
    PlacedSection(d0, host, k);
    BufferInSection(d0, host, d, fill, k, 0);
    FirstBuffer(d.sections[k].shdr.stype, d0.sections[k].bufs);
    SectionInside(d0, host, d, k);
    var raw, src := RawSection(d0, host, d, fill, k), d.sections[k].bufs[0].mem.value;
    assert raw[..|src|] == raw[0..|src|];
  }

  /** What is read of section `k` has the given records of `src`, and is `back` everywhere else. */
  ghost predicate VersionsRead(d0: Desc, host: Encoding, d: Desc, fill: byte, k: nat, visits: seq<Versions.Visit>, src: seq<byte>, back: seq<byte>)
    requires Ready(d0, host, d) && InFile(d, k) && |back| == d.sections[k].shdr.size
    requires IsVersion(ScnType(d.sections[k].shdr.stype))
  {
    var data := SectionData(d0, host, d, fill, k, back);
    data.Some? && Restored(ShapeOf(ScnType(d.sections[k].shdr.stype)), src, visits, data.value, back)
  }

  /** What is read of a section of version records is a pass over its file image. */
  lemma DataIsPass(d0: Desc, host: Encoding, d: Desc, fill: byte, k: nat, back: seq<byte>)
    requires Ready(d0, host, d) && InFile(d, k) && |back| == d.sections[k].shdr.size
    requires IsVersion(ScnType(d.sections[k].shdr.stype)) && back != []
    ensures |d.ehdr.ident| == 16
    ensures var f, raw, enc := ShapeOf(ScnType(d.sections[k].shdr.stype)), RawSection(d0, host, d, fill, k), EncodingOf(d.ehdr);
            && f.Ok() && Total(f.head) > 0 && Total(f.item) > 0
            && SectionData(d0, host, d, fill, k, back)
               == if Versions.FullWalk(f, enc, raw, 0).ok then Some(Versions.Pass(f, enc, host, raw, back)) else None
  {
    hide LayoutOf, FileOf, EncodingOf, Versions.FullWalk, Versions.Pass, Total;
    Versions.RecordSizes();
    IdentLength(d0, host);
    SectionInside(d0, host, d, k);
  }

  /** A section of version records reads back, whatever the memory held, exactly if the chains of its
      first buffer, wherever they leave it, leave the section too: the same records are visited in the
      same order, every visited byte is restored, and all other bytes, those of later buffers included,
      are what the memory held. */
  lemma VersionsReadBack(d0: Desc, host: Encoding, d: Desc, fill: byte, k: nat)
    requires Ready(d0, host, d) && InFile(d, k) && VersionsFirst(host, d.sections[k])
    requires var src, f := d.sections[k].bufs[0].mem.value, ShapeOf(ScnType(d.sections[k].shdr.stype));
             Versions.Proper(f, Versions.FullWalk(f, host, src, 0).visits)
    ensures |d.ehdr.ident| == 16
    ensures var src, f, n := d.sections[k].bufs[0].mem.value, ShapeOf(ScnType(d.sections[k].shdr.stype)), d.sections[k].shdr.size;
            var walk := Versions.FullWalk(f, host, src, 0);
            && (Versions.FullWalk(f, EncodingOf(d.ehdr), RawSection(d0, host, d, fill, k), 0) == walk <==> RunsOff(f, host, src, n, 0))
            && ((forall back: seq<byte> :: |back| == n ==> VersionsRead(d0, host, d, fill, k, walk.visits, src, back))
                <==> RunsOff(f, host, src, n, 0))
  {
    hide LayoutOf, FileOf, EncodingOf, Versions.FullWalk, Versions.Pass, Versions.Proper, ShapeOf, RunsOff, SectionData, RawSection,
         Total, Restored;
    VersionImage(d0, host, d, fill, k);
    IdentLength(d0, host);
    var t, raw, enc := ScnType(d.sections[k].shdr.stype), RawSection(d0, host, d, fill, k), EncodingOf(d.ehdr);
    var src, f := d.sections[k].bufs[0].mem.value, ShapeOf(t);
    BufferIsWalked(host, d.sections[k]);
    DataIsPass(d0, host, d, fill, k, raw);
    PassesExtend(f, host, enc, src, seq(|src|, _ => fill), raw);
    forall back: seq<byte> | |back| == |raw|
      ensures VersionsRead(d0, host, d, fill, k, Versions.FullWalk(f, host, src, 0).visits, src, back)
              <==> ReadsBack(f, host, enc, src, raw, back)
    {
      DataIsPass(d0, host, d, fill, k, back);
    }
  }

  lemma BufferIsWalked(host: Encoding, s: Section)
    requires VersionsFirst(host, s)
    ensures s.bufs[0].mem.Some? && s.bufs[0].mem.value != []
    ensures Versions.FullWalk(ShapeOf(ScnType(s.shdr.stype)), host, s.bufs[0].mem.value, 0).ok
  {
    hide Versions.FullWalk, Total;
  }

  /** So it does if its first buffer is the only one, or ends its chains by its own links and counts. */
  lemma ClosedSectionsRunOff(d0: Desc, host: Encoding, d: Desc, fill: byte, k: nat)
    requires Ready(d0, host, d) && InFile(d, k) && VersionsFirst(host, d.sections[k])
    requires var src, f := d.sections[k].bufs[0].mem.value, ShapeOf(ScnType(d.sections[k].shdr.stype));
             |d.sections[k].bufs| == 1 || Closed(f, host, src, 0)
    ensures var src, f := d.sections[k].bufs[0].mem.value, ShapeOf(ScnType(d.sections[k].shdr.stype));
            RunsOff(f, host, src, d.sections[k].shdr.size, 0)
  {
    hide LayoutOf, FileOf, EncodingOf, Versions.FullWalk, Versions.Pass, ShapeOf, RunsOff, Closed, RawSection, Total;
    VersionImage(d0, host, d, fill, k);
    BufferIsWalked(host, d.sections[k]);
    var src, f := d.sections[k].bufs[0].mem.value, ShapeOf(ScnType(d.sections[k].shdr.stype));
    if |d.sections[k].bufs| == 1 {
      AloneRunsOff(f, host, src, 0);
    } else {
      ClosedRunsOff(f, host, src, d.sections[k].shdr.size, 0);
    }
  }
}
