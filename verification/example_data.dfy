/** Relocation entries in three buffers, in a file of the other byte order: the second is inside the
    whole elements of the section and yet is not found when the section is read. */
module ExampleData {
  import opened Words
  import opened ElfTypes
  import opened Codec
  import opened Records
  import opened Mirrors
  import opened Layout
  import opened Allocation
  import opened Pieces
  import opened WrittenFile
  import opened ReadBack
  import opened DataExact
  import opened ExampleFile

  /** An entry whose first byte is 1. */
  const ENTRY: seq<byte> := [1, 0, 0, 0, 0, 0, 0, 0]

  function Entry(off: nat): Buf { Buf(8, 1, 8, 3, off, Some(ENTRY), true) }

  function Entries(): (bufs: seq<Buf>)
    ensures |bufs| == 3 && bufs[0] == Entry(0) && bufs[1] == Entry(9) && bufs[2] == Entry(18)
  {
    [Entry(0), Entry(9), Entry(18)]
  }

  /** A header that asks for the byte order that `host` does not have. */
  function OtherOrder(host: Encoding): Ehdr {
    NEW_EHDR.(ident := [0, 0, 0, 0, 0, if host == Lsb then 2 else 1, 0, 0, 0, 0, 0, 0, 0, 0, 0, 0])
  }

  function WithEntries(host: Encoding): Desc {
    OneSection(OtherOrder(host), SHT_REL, Entries())
  }

  lemma Wholes()
    ensures Whole(8, 8) == 8 && Whole(8, 26) == 24 && AlignUp(8, 3) == 9 && AlignUp(17, 3) == 18
  {
    assert Whole(8, 0) == 0 && Whole(8, 2) == 2 - 2;
    assert Whole(8, 10) == 8 && Whole(8, 18) == 16;
  }

  lemma EntriesLayout()
    ensures var bufs := Entries();
            && Sized(SHT_REL, bufs) == 3 && MaxAlign(bufs) == 3 && Packed(SHT_REL, bufs) == 26
            && Placed(SHT_REL, bufs, 3) == bufs
  {
    hide Sized, MaxAlign, Packed, Placed, AlignUp, Whole;
    Wholes();
    var x, y, z := Entry(0), Entry(9), Entry(18);
    assert FileSize(SHT_REL, x) == Some(8) && FileSize(SHT_REL, y) == Some(8) && FileSize(SHT_REL, z) == Some(8);
    TwoBuffers(SHT_REL, x, y);
    NextBuffer(SHT_REL, [x, y], z);
    assert Entries() == [x, y] + [z];
  }

  lemma EntriesFile(host: Encoding)
    ensures AutoLaid(WithEntries(host), host)
    ensures var d := LayoutOf(WithEntries(host), host).desc;
            && |d.sections| == 2 && d.sections[1].shdr.stype == SHT_REL && d.sections[1].shdr.size == 26
            && d.sections[1].bufs == Entries() && |d.ehdr.ident| == 16 && EncodingOf(d.ehdr) != host
  {
    hide Sized, MaxAlign, Packed, Placed, Entries, AlignUp, LayoutOf, AutoLaid;
    EntriesLayout();
    assert AlignUp(52, 3) == 54 by { Aligned52(); }
    OneSectionFile(OtherOrder(host), SHT_REL, Entries(), host, 26, 54);
  }

  lemma EntriesReady(host: Encoding)
    ensures AutoLaid(WithEntries(host), host) && Ready(WithEntries(host), host, LayoutOf(WithEntries(host), host).desc)
  {
    hide LayoutOf;
    EntriesFile(host);
    var d := LayoutOf(WithEntries(host), host).desc;
    forall l | IsLabel(d, l) ensures LabelOk(d, host, l) {
      if l.Data? && l.k == 1 {
        assert l.j == 0 || l.j == 1 || l.j == 2;
      }
    }
  }

  /** Byte 9 of the section is read from byte 10 of the file image, not from byte 12. */
  lemma EntryPlaces()
    ensures Total([4, 4]) == 8
    ensures Place([4, 4], false, 0) == 3 && Place([4, 4], false, 1) == 2 && Place([4, 4], false, 3) == 0
    ensures Place([4, 4], false, 9) == 10
  {
    ElementSizes(8);
    ElementSizes(1);
    var two: seq<nat> := [4, 4];
    assert PlaceIn(two, false, 0) == 3 && PlaceIn(two, false, 1) == 2 && PlaceIn(two, false, 3) == 0;
    assert Place(two, false, 9) == 8 + Place(two, false, 1);
  }

  lemma EntryMismatch(host: Encoding, enc: Encoding, raw: seq<byte>)
    requires host != enc && |raw| == 26 && Total([4, 4]) == 8
    requires raw[9..17] == Xlate([4, 4], host, enc, ENTRY)
    ensures !Matches([4, 4], false, raw, 9, 8)
  {
    hide Total, Xlate, Place, Whole;
    Wholes();
    EntryPlaces();
    XlateAt([4, 4], host, enc, ENTRY, 1);
    XlateAt([4, 4], host, enc, ENTRY, 3);
    assert raw[10] == raw[9..17][1] && raw[12] == raw[9..17][3];
    assert !Match([4, 4], false, raw, 9, 0);
  }

  /** The second entry ends at byte 17 of 26, of which 24 are whole elements. */
  lemma MisalignedEntryLost(host: Encoding, fill: byte, back: seq<byte>)
    requires |back| == 26
    ensures AutoLaid(WithEntries(host), host) && Ready(WithEntries(host), host, LayoutOf(WithEntries(host), host).desc)
    ensures var d := LayoutOf(WithEntries(host), host).desc;
            && |d.sections| == 2 && |d.sections[1].bufs| == 3 && |back| == d.sections[1].shdr.size
            && OwnType(d.sections[1], 1) && InWhole(d.sections[1], 1)
            && SectionData(WithEntries(host), host, d, fill, 1, back).Some?
            && !HasBuffer(d.sections[1], 1, SectionData(WithEntries(host), host, d, fill, 1, back).value)
  {
    hide LayoutOf, SectionData, HasBuffer, AutoLaid, Ready, RawSection, Entries, Matches, Xlate, Total, EncodingOf, Whole;
    EntriesReady(host);
    EntriesFile(host);
    Wholes();
    var d := LayoutOf(WithEntries(host), host).desc;
    assert Space(SHT_REL, Entry(9)) == 8;
    assert OwnType(d.sections[1], 1) && InWhole(d.sections[1], 1);
    DataReadsBack(WithEntries(host), host, d, fill, 1, 1, back);
    BufferImage(WithEntries(host), host, d, fill, 1, 1);
    EntryMismatch(host, EncodingOf(d.ehdr), RawSection(WithEntries(host), host, d, fill, 1));
  }
}
