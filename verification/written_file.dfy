/** The pieces of a descriptor that has been laid out automatically: all inside the file, none over
    another, each in the file after `_elf32_write` of libelf/update.c. */
module WrittenFile {
  import opened Words
  import opened ElfTypes
  import opened Codec
  import opened Records
  import opened Layout
  import opened Allocation
  import opened Pieces

  ghost predicate Writable(d: Desc, host: Encoding) {
    forall l :: IsLabel(d, l) ==> LabelOk(d, host, l)
  }

  /** `d` is the result of an automatic layout, and can be written. */
  ghost predicate Ready(d0: Desc, host: Encoding, d: Desc) {
    AutoLaid(d0, host) && d == LayoutOf(d0, host).desc && Writable(d, host)
  }

  function PartOf(d: Desc, l: Label): nat {
    match l
    case TheEhdr => 0
    case ThePhdrs => 1
    case AShdr(k) => |d.sections| + 2
    case Data(k, j) => k + 2
  }

  lemma BodyLength(host: Encoding, enc: Encoding, stype: u32, b: Buf)
    requires BufOk(host, b) && FileSize(stype, b).Some? && stype != SHT_NOBITS
    ensures Length(BufBody(host, enc, b)) == Space(stype, b)
  {
    hide Total, Xlate;
    ElementSizes(FileType(b.dtype));
    if b.dtype >= T_NUM {
      WholeOfOne(b.size);
    }
  }

  lemma {:induction false} WholeOfOne(n: nat)
    ensures Whole(1, n) == n
  {
    if n > 0 {
      WholeOfOne(n - 1);
    }
  }

  lemma ElfShape(d0: Desc, host: Encoding, d: Desc)
    requires Ready(d0, host, d)
    ensures |d.ehdr.ident| == 16 && |d.sections| == |d0.sections| && d.phdrs == d0.phdrs
    ensures forall k :: 0 <= k < |d.sections| ==> (Skipped(k, d.sections[k]) <==> Skipped(k, d0.sections[k]))
    ensures d.ehdr.ehsize == 52 && (d.phdrs != [] ==> d.ehdr.phentsize == 32) && (d.sections != [] ==> d.ehdr.shentsize == 40)
  {
    hide LayoutOf;
    EhdrOffsets(d0, host);
    IdentLength(d0, host);
    forall k | 0 <= k < |d.sections| ensures Skipped(k, d.sections[k]) <==> Skipped(k, d0.sections[k]) {
      SameKind(d0, host, k);
    }
  }

  lemma IdentLength(d: Desc, host: Encoding)
    requires AutoLaid(d, host)
    ensures |LayoutOf(d, host).desc.ehdr.ident| == 16
  {
    hide EarlySections, Good, Problem, StoppedSections, LaidSections, FinalSections, Off, AlignUp, IsDirty, PhdrEnd;
  }

  /** A piece lies inside the part of the file that it belongs to. */
  lemma PieceInPart(d0: Desc, host: Encoding, d: Desc, l: Label)
    requires Ready(d0, host, d) && IsLabel(d, l)
    ensures PartOf(d, l) < Parts(d) && LabelOk(d, host, l)
    ensures var p, x := PieceOf(d, host, l), Part(d, PartOf(d, l));
            x.pos <= p.pos && p.pos + Length(p.body) <= x.pos + x.len
  {
    hide LayoutOf, BufOk, BufBody, EncodePhdrs, EncodeShdr, EncodeEhdr, Space;
    ElfShape(d0, host, d);
    if l.Data? {
      PlacedData(d0, host, d, l.k, l.j);
    }
  }

  lemma PlacedData(d0: Desc, host: Encoding, d: Desc, k: nat, j: nat)
    requires Ready(d0, host, d) && IsLabel(d, Data(k, j))
    ensures LabelOk(d, host, Data(k, j))
    ensures var s := d.sections[k];
            var n := Length(BufBody(host, EncodingOf(d.ehdr), s.bufs[j]));
            && n == Space(s.shdr.stype, s.bufs[j])
            && s.bufs[j].off + n <= s.shdr.size
            && (forall i :: 0 <= i < j ==> s.bufs[i].off + Space(s.shdr.stype, s.bufs[i]) <= s.bufs[j].off)
  {
    hide LayoutOf, BufOk, BufBody, Space, PowerOfTwo, MaxAlign, Start, Packed, FileSize, Off, EarlySections, PhdrEnd, Begin;
    ElfShape(d0, host, d);
    SameKind(d0, host, k);
    LayoutPlacesBuffers(d0, host, k);
    PlacedSection(d0, host, k);
    assert LabelOk(d, host, Data(k, j));
    var t, bufs := d0.sections[k].shdr.stype, d0.sections[k].bufs;
    PlacedFileSize(t, bufs, j);
    BodyLength(host, EncodingOf(d.ehdr), t, d.sections[k].bufs[j]);
  }

  lemma PlacedFileSize(t: u32, bufs: seq<Buf>, j: nat)
    requires Sized(t, bufs) == |bufs| && j < |bufs|
    ensures FileSize(t, PlacedBuf(t, bufs, j)).Some?
  {
    assert FileSize(t, PlacedBuf(t, bufs, j)) == FileSize(t, bufs[j]);
  }

  lemma PiecesApart(d0: Desc, host: Encoding, d: Desc, l: Label, m: Label)
    requires Ready(d0, host, d) && IsLabel(d, l) && IsLabel(d, m) && l != m
    ensures LabelOk(d, host, l) && LabelOk(d, host, m)
    ensures Apart(ExtentOf(PieceOf(d, host, l)), ExtentOf(PieceOf(d, host, m)))
  {
    hide LayoutOf, BufOk, BufBody, EncodePhdrs, EncodeShdr, EncodeEhdr, Space, Part;
    ElfShape(d0, host, d);
    PieceInPart(d0, host, d, l);
    PieceInPart(d0, host, d, m);
    if PartOf(d, l) < PartOf(d, m) {
      PartsAreApart(d0, host, PartOf(d, l), PartOf(d, m));
    } else if PartOf(d, m) < PartOf(d, l) {
      PartsAreApart(d0, host, PartOf(d, m), PartOf(d, l));
    } else if l.Data? {
      PlacedData(d0, host, d, l.k, l.j);
      PlacedData(d0, host, d, m.k, m.j);
    }
  }

  /** Every piece lies in the file and no two overlap. */
  lemma PiecesFit(d0: Desc, host: Encoding, d: Desc)
    requires Ready(d0, host, d)
    ensures Fitting(d, host, LayoutOf(d0, host).result.size, Labels(d)) && AllApart(d, host, Labels(d))
  {
    hide LayoutOf, BufOk, BufBody, EncodePhdrs, EncodeShdr, EncodeEhdr, Space, Part, PieceOf, Labels;
    ElfShape(d0, host, d);
    LabelsAre(d);
    var labels := Labels(d);
    forall i | 0 <= i < |labels|
      ensures IsLabel(d, labels[i]) && LabelOk(d, host, labels[i])
      ensures PieceOf(d, host, labels[i]).pos + Length(PieceOf(d, host, labels[i]).body) <= LayoutOf(d0, host).result.size
    {
      assert labels[i] in labels;
      PieceInPart(d0, host, d, labels[i]);
      PartBounds(d0, host, PartOf(d, labels[i]));
    }
    forall i, j | 0 <= i < |labels| && 0 <= j < |labels| && i != j
      ensures Apart(ExtentOf(PieceOf(d, host, labels[i])), ExtentOf(PieceOf(d, host, labels[j])))
    {
      assert labels[i] != labels[j];
      PiecesApart(d0, host, d, labels[i], labels[j]);
    }
  }

  /** The file that the writer makes of a buffer of `fill` bytes. */
  ghost function FileOf(d0: Desc, host: Encoding, d: Desc, fill: byte): (file: seq<byte>)
    requires Ready(d0, host, d)
    ensures |file| == LayoutOf(d0, host).result.size
  {
    PiecesFit(d0, host, d);
    WriteAll(d, host, seq(LayoutOf(d0, host).result.size, _ => fill), Labels(d))
  }

  /** Each piece can be read in the file where it belongs. */
  lemma PieceInFile(d0: Desc, host: Encoding, d: Desc, fill: byte, l: Label)
    requires Ready(d0, host, d) && IsLabel(d, l)
    ensures LabelOk(d, host, l)
    ensures var p, file := PieceOf(d, host, l), FileOf(d0, host, d, fill);
            && |d.ehdr.ident| == 16
            && p.pos + Length(p.body) <= |file|
            && file[p.pos..p.pos + Length(p.body)]
               == Image(host, EncodingOf(d.ehdr), p.body, seq(Length(p.body), _ => fill))
  {
    hide LayoutOf, BufOk, BufBody, PieceOf, Labels, WriteAll, Image, LabelOk, AllApart, EncodingOf;
    PiecesFit(d0, host, d);
    LabelsAre(d);
    var i :| 0 <= i < |Labels(d)| && Labels(d)[i] == l;
    var blank := seq(LayoutOf(d0, host).result.size, _ => fill);
    InPlace(d, host, blank, Labels(d), i);
    var p := PieceOf(d, host, l);
    assert blank[p.pos..p.pos + Length(p.body)] == seq(Length(p.body), _ => fill);
  }

  /** Everything else in the file is fill. */
  lemma HolesAreFill(d0: Desc, host: Encoding, d: Desc, fill: byte, i: nat)
    requires Ready(d0, host, d) && i < |FileOf(d0, host, d, fill)|
    requires forall l :: IsLabel(d, l) ==> LabelOk(d, host, l) && Apart(ExtentOf(PieceOf(d, host, l)), Extent(i, 1))
    ensures FileOf(d0, host, d, fill)[i] == fill
  {
    hide LayoutOf, BufOk, BufBody, PieceOf, Labels, WriteAll, Image, LabelOk, AllApart, EncodingOf;
    PiecesFit(d0, host, d);
    LabelsAre(d);
    var blank := seq(LayoutOf(d0, host).result.size, _ => fill);
    var labels := Labels(d);
    forall k | 0 <= k < |labels| ensures Apart(ExtentOf(PieceOf(d, host, labels[k])), Extent(i, 1)) {
      assert labels[k] in labels;
    }
    Untouched(d, host, blank, labels, Extent(i, 1));
    assert FileOf(d0, host, d, fill)[i] == FileOf(d0, host, d, fill)[i..i + 1][0];
    assert blank[i] == blank[i..i + 1][0];
  }
}
