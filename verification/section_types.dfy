/** What depends on the number of a section type, and on the fixed numbers of the ELF header: the
    tables of `_elf_scn_type` and `scn_entsize`, and the constants of `_elf32_layout`. */
module SectionTypes {
  import opened Words
  import opened ElfTypes
  import opened Codec
  import opened Records
  import Versions
  import opened Layout
  import opened Pieces
  import opened Cook
  import opened ReadBack
  import opened ElementBytes

  // ---- Entry sizes ----------------------------------------------------------------------------------------------

  /** The entry size that a section of this type gets: of a symbol, a relocation entry, a dynamic entry,
      a word, or a version number. */
  function DefaultEntSize(stype: u32): nat {
    match stype
    case 2 => 16 case 11 => 16
    case 4 => 12
    case 5 => 4 case 18 => 4
    case 6 => 8 case 9 => 8
    case 0x6fff_ffff => 2
    case _ => 0
  }

  lemma EntSizeIs(stype: u32)
    ensures EntSize(stype) > 1 <==> DefaultEntSize(stype) != 0
    ensures EntSize(stype) > 1 ==> EntSize(stype) == DefaultEntSize(stype)
  {
  }

  lemma SectionEntSize(manual: bool, secs: seq<Section>, start: nat, k: nat)
    requires k < |secs|
    ensures var h, g := secs[k].shdr, LaidSection(manual, secs, start, k).shdr;
            g.stype == h.stype
            && g.entsize == if k == 0 then 0 else if h.entsize == 0 then DefaultEntSize(h.stype) else h.entsize
  {
    hide EntSize, DefaultEntSize, AlignUp, MaxAlign, Packed, Placed, Off;
    EntSizeIs(secs[k].shdr.stype);
    assert DefaultEntSize(0) == 0 by { NoEntries(); }
  }

  lemma NoEntries()
    ensures DefaultEntSize(0) == 0
  {
  }

  /** After a successful layout every section has the entry size that the program has chosen, or else
      that of its type. */
  lemma LaidEntSizes(d: Desc, host: Encoding)
    requires Layout.Proper(d) && LayoutOf(d, host).result.Laid?
    ensures var e := LayoutOf(d, host).desc;
            && |e.sections| == |d.sections|
            && forall k :: 0 <= k < |d.sections| ==>
                 && e.sections[k].shdr.stype == d.sections[k].shdr.stype
                 && e.sections[k].shdr.entsize
                    == if k == 0 then 0
                       else if d.sections[k].shdr.entsize == 0 then DefaultEntSize(d.sections[k].shdr.stype)
                       else d.sections[k].shdr.entsize
  {
    hide LaidSection, Good, Problem, Off, DefaultEntSize, StoppedSections;
    var secs := EarlySections(d);
    forall k | 0 <= k < |d.sections|
      ensures LaidSection(d.manual, secs, PhdrEnd(d), k).shdr.stype == d.sections[k].shdr.stype
      ensures LaidSection(d.manual, secs, PhdrEnd(d), k).shdr.entsize
              == if k == 0 then 0 else if d.sections[k].shdr.entsize == 0 then DefaultEntSize(d.sections[k].shdr.stype)
                 else d.sections[k].shdr.entsize
    {
      SectionEntSize(d.manual, secs, PhdrEnd(d), k);
    }
  }

  // ---- The ELF header ---------------------------------------------------------------------------------------------

  /** The fixed fields that a successful layout leaves, and the two counts, in the header or in the first
      section. */
  lemma LaidHeader(d: Desc, host: Encoding)
    requires Layout.Proper(d) && LayoutOf(d, host).result.Laid?
    ensures var e := LayoutOf(d, host).desc;
            && |e.sections| == |d.sections| && |e.ehdr.ident| == 16 && e.phdrs == d.phdrs
            && e.ehdr.ident[..5] == [0x7f, 0x45, 0x4c, 0x46, 1] && e.ehdr.ident[6] == 1 && e.ehdr.ident[7..] == d.ehdr.ident[7..]
            && e.ehdr.ident[5] == (if d.ehdr.ident[5] != 0 then d.ehdr.ident[5] else if host == Lsb then 1 else 2)
            && e.ehdr.ident[5] in {1, 2} && e.ehdr.version == 1 && e.ehdr.ehsize == 52
            && e.ehdr.phentsize == (if d.phdrs == [] then 0 else 32)
            && e.ehdr.shentsize == (if d.sections == [] then 0 else 40)
            && e.ehdr.phnum == (if |d.phdrs| < 0xffff then |d.phdrs| else 0xffff)
            && (|d.phdrs| >= 0xffff ==> e.sections[0].shdr.info == |d.phdrs|)
            && e.ehdr.shnum == (if |d.sections| < 0xff00 then |d.sections| else 0)
            && (|d.sections| >= 0xff00 ==> e.sections[0].shdr.size == |d.sections|)
  {
    hide AlignUp, Good, Problem, Off, StoppedSections, Packed, MaxAlign, IsDirty;
    var e := LayoutOf(d, host).desc;
    assert e.ehdr.ident == [0x7f, 0x45, 0x4c, 0x46, 1, FileEncoding(d, host), 1] + d.ehdr.ident[7..];
  }

  // ---- Which sections have data -----------------------------------------------------------------------------------

  /** The first section and null sections are passed over, and sections of type NOBITS have nothing in
      the file; the buffers of all others are written. */
  lemma Written(d: Desc, k: nat)
    requires k < |d.sections|
    ensures Skipped(k, d.sections[k]) <==> k == 0 || d.sections[k].shdr.stype == 0
    ensures DataCount(d, k) == if k == 0 || d.sections[k].shdr.stype in {0, 8} then 0 else |d.sections[k].bufs|
    ensures InFile(d, k) <==> k > 0 && d.sections[k].shdr.stype !in {0, 8}
  {
  }

  // ---- Extents ----------------------------------------------------------------------------------------------------

  /** Sections conflict if each ends behind the beginning of the other; one without data in the file
      ends where it begins. */
  lemma ConflictIs(g: Shdr, h: Shdr)
    ensures Conflict(g, h) <==>
              && h.offset < g.offset + (if g.stype == 8 then 0 else g.size)
              && g.offset < h.offset + (if h.stype == 8 then 0 else h.size)
  {
  }

  /** Sections with data conflict exactly if they have a byte of the file in common. */
  lemma ConflictIsOverlap(g: Shdr, h: Shdr)
    requires g.stype != 8 && h.stype != 8 && g.size > 0 && h.size > 0
    ensures Conflict(g, h) <==> exists p: nat :: In(g, p) && In(h, p)
  {
    if Conflict(g, h) {
      var p := if g.offset < h.offset then h.offset else g.offset;
      assert In(g, p) && In(h, p);
    }
  }

  predicate In(h: Shdr, p: nat) { h.offset <= p < h.offset + h.size }

  /** The length of a section whose buffers the program has placed: the end of the last of them. */
  lemma {:induction false} ReachIs(stype: u32, bufs: seq<Buf>)
    ensures Reach(stype, bufs) == 0 || exists j :: 0 <= j < |bufs| && Reach(stype, bufs) == bufs[j].off + Space(stype, bufs[j])
    ensures forall j :: 0 <= j < |bufs| ==> bufs[j].off + Space(stype, bufs[j]) <= Reach(stype, bufs)
  {
    hide Space;
    if bufs != [] {
      var m := |bufs| - 1;
      ReachIs(stype, bufs[..m]);
      if Reach(stype, bufs) != bufs[m].off + Space(stype, bufs[m]) && Reach(stype, bufs) != 0 {
        var j :| 0 <= j < m && Reach(stype, bufs[..m]) == bufs[..m][j].off + Space(stype, bufs[..m][j]);
        assert bufs[..m][j] == bufs[j];
      }
    }
  }

  // ---- Section data -------------------------------------------------------------------------------------------------

  /** The fields, in bytes, by which a section of this type is translated when it is read. */
  function FieldWidths(stype: u32): seq<nat> {
    match stype
    case 2 => [4, 4, 4, 1, 1, 2] case 11 => [4, 4, 4, 1, 1, 2]
    case 4 => [4, 4, 4]
    case 5 => [4] case 18 => [4]
    case 6 => [4, 4] case 9 => [4, 4]
    case 0x6fff_ffff => [2]
    case _ => [1]
  }

  /** And the number of its element type. */
  function ElementOf(stype: u32): (t: nat)
    ensures t <= 12
  {
    match stype
    case 2 => 11 case 11 => 11
    case 4 => 7
    case 5 => 12 case 18 => 12
    case 6 => 2 case 9 => 8
    case 0x6fff_ffff => 4
    case _ => 0
  }

  lemma TypesAgree(stype: u32)
    requires stype != 0x6fff_fffd && stype != 0x6fff_fffe
    ensures !IsVersion(ScnType(stype)) && ScnType(stype) == ElementOf(stype) && Widths(ElementOf(stype)) == FieldWidths(stype)
  {
  }

  /** What is read of a section that does not hold version records. */
  lemma SectionBytes(file: seq<byte>, enc: Encoding, host: Encoding, h: Shdr, back: seq<byte>)
    requires |back| == h.size && h.stype != 0x6fff_fffd && h.stype != 0x6fff_fffe
    ensures var data, t := DataOf(file, enc, host, h, back), ElementOf(h.stype);
            if h.stype == 0 || h.offset > |file| then data == None
            else if h.stype == 8 || h.size == 0 then data == Some([])
            else if h.offset + h.size > |file| then data == None
            else
              && Total(FieldWidths(h.stype)) > 0
              && data == Some(Xlate(FieldWidths(h.stype), enc, host, file[h.offset..h.offset + h.size]))
              && Len(t) > 0 && |data.value| == h.size - h.size % Len(t)
              && forall i :: 0 <= i < |data.value| ==>
                   && 0 <= From(t, i) < h.size
                   && data.value[i] == file[h.offset + if enc == host then i else From(t, i)]
  {
    hide Total, Xlate, Widths, From, Len, FieldWidths, ElementOf, ScnType;
    TypesAgree(h.stype);
    ElementSizes(ScnType(h.stype));
    if h.offset + h.size <= |file| {
      TranslatedBytes(ElementOf(h.stype), enc, host, file[h.offset..h.offset + h.size]);
    }
  }

  /** The records of a buffer of type VDEF or VNEED are definitions or needed versions. */
  lemma VersionBuffer(host: Encoding, enc: Encoding, b: Buf)
    requires b.dtype in {15, 16} && BufOk(host, b) && b.size > 0
    ensures b.mem.Some?
    ensures BufBody(host, enc, b) == Chained(if b.dtype == 15 then Versions.VERDEF else Versions.VERNEED, b.mem.value)
  {
    hide Versions.FullWalk, Total;
  }

  /** What is read of a section that does. */
  lemma VersionBytes(file: seq<byte>, enc: Encoding, host: Encoding, h: Shdr, back: seq<byte>)
    requires |back| == h.size && h.stype in {0x6fff_fffd, 0x6fff_fffe} && 0 < h.size && h.offset + h.size <= |file|
    ensures var f, raw := if h.stype == 0x6fff_fffd then Versions.VERDEF else Versions.VERNEED, file[h.offset..h.offset + h.size];
            && f.Ok() && Total(f.head) > 0
            && DataOf(file, enc, host, h, back)
               == if Versions.FullWalk(f, enc, raw, 0).ok then Some(Versions.Pass(f, enc, host, raw, back)) else None
  {
    Versions.RecordSizes();
    hide Total, Versions.FullWalk, Versions.Pass;
  }
}
