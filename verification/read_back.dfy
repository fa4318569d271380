/** Reading what the library has written: `_elf_cook_file` undoes `_elf32_layout` and `_elf32_write`. */
module ReadBack {
  import opened Words
  import opened ElfTypes
  import opened Codec
  import opened Records
  import opened Layout
  import opened Allocation
  import Relayout
  import opened Pieces
  import opened WrittenFile
  import opened Cook

  // ---- Headers -----------------------------------------------------------------------------------------------

  lemma {:induction false} BytesFirst(enc: Encoding, n: nat, ws: seq<nat>, ident: seq<byte>, vs: seq<nat>)
    requires |ident| == n && |vs| == |ws|
    ensures n <= Total(Repeat(n, 1) + ws)
    ensures StoreFields(enc, Repeat(n, 1) + ws, ident + vs)[..n] == ident
  {
    TotalConcat(Repeat(n, 1), ws);
    TotalRepeat(n, 1);
    if n > 0 {
      var w, v := Repeat(n, 1) + ws, ident + vs;
      assert w[1..] == Repeat(n - 1, 1) + ws && v[1..] == ident[1..] + vs;
      BytesFirst(enc, n - 1, ws, ident[1..], vs);
      OneByte(enc, ident[0]);
      var b := StoreFields(enc, w, v);
      assert b == [ident[0]] + StoreFields(enc, w[1..], v[1..]);
      assert b[..n] == [ident[0]] + StoreFields(enc, w[1..], v[1..])[..n - 1];
    }
  }

  lemma OneByte(enc: Encoding, v: byte)
    ensures StoreInt(enc, 1, v) == [v]
  {
    assert StoreInt(enc, 0, v / 0x100) == [];
  }

  lemma EncodedIdent(enc: Encoding, e: Ehdr)
    requires |e.ident| == 16
    ensures EncodeEhdr(enc, e)[..16] == e.ident
  {
    hide StoreFields;
    var tail := [e.etype, e.machine, e.version, e.entry, e.phoff, e.shoff, e.flags,
                 e.ehsize, e.phentsize, e.phnum, e.shentsize, e.shnum, e.shstrndx];
    BytesFirst(enc, 16, EHDR_TAIL, e.ident, tail);
  }

  lemma FrontSlice<T>(a: seq<T>, b: seq<T>, lo: nat, hi: nat)
    requires lo <= hi <= |a|
    ensures (a + b)[lo..hi] == a[lo..hi]
  {
  }

  lemma {:induction false} EncodedPhdr(enc: Encoding, ps: seq<Phdr>, i: nat)
    requires i < |ps|
    ensures EncodePhdrs(enc, ps)[32 * i..32 * i + 32] == EncodePhdr(enc, ps[i])
  {
    hide EncodePhdr;
    var n := |ps| - 1;
    var init := EncodePhdrs(enc, ps[..n]);
    assert EncodePhdrs(enc, ps) == init + EncodePhdr(enc, ps[n]);
    if i < n {
      EncodedPhdr(enc, ps[..n], i);
      assert ps[..n][i] == ps[i];
      FrontSlice(init, EncodePhdr(enc, ps[n]), 32 * i, 32 * i + 32);
    } else {
      assert (init + EncodePhdr(enc, ps[n]))[32 * n..32 * n + 32] == EncodePhdr(enc, ps[n]);
    }
  }

  /** What the ELF header of a laid out descriptor says, the extended counts included. */
  lemma LaidHeader(d0: Desc, host: Encoding, d: Desc)
    requires Ready(d0, host, d)
    ensures var e := d.ehdr;
            && |e.ident| == 16 && e.ident[..5] == [0x7f, 0x45, 0x4c, 0x46, 1] && e.ident[5] in {1, 2} && e.ident[6] == 1
            && (d.sections == [] ==> e.shoff == 0)
            && (d.sections != [] ==> e.shoff > 0 && e.shentsize == 40
                                     && e.shoff + 40 * |d.sections| == LayoutOf(d0, host).result.size
                                     && (if |d.sections| >= SHN_LORESERVE
                                         then e.shnum == 0 && d.sections[0].shdr.size as int == |d.sections|
                                         else e.shnum as int == |d.sections|))
            && (d.phdrs == [] ==> e.phoff == 0)
            && (d.phdrs != [] ==> e.phoff == 52 && e.phentsize == 32
                                  && (if |d.phdrs| >= PN_XNUM
                                      then e.phnum == PN_XNUM && d.sections != [] && d.sections[0].shdr.info as int == |d.phdrs|
                                      else e.phnum as int == |d.phdrs|))
            && 52 + 32 * |d.phdrs| <= LayoutOf(d0, host).result.size
  {
    hide LayoutOf, Off, AlignUp, PhdrEnd, Problem, EarlySections, FinalOff;
    EhdrOffsets(d0, host);
    ElfShape(d0, host, d);
    assert Relayout.LaidOut(d0, host, d);
    Relayout.LaidFacts(d0, host, d);
    OffGrows(false, EarlySections(d0), PhdrEnd(d0), 0, |d0.sections|);
    OffZero(false, EarlySections(d0), PhdrEnd(d0));
    if d.sections != [] {
      Relayout.FirstHeader(d0, host, d);
    }
  }

  lemma EhdrInFile(d0: Desc, host: Encoding, d: Desc, fill: byte)
    requires Ready(d0, host, d)
    ensures var file := FileOf(d0, host, d, fill);
            && |d.ehdr.ident| == 16 && |file| >= 52
            && file[..52] == EncodeEhdr(EncodingOf(d.ehdr), d.ehdr) && file[..16] == d.ehdr.ident
  {
    hide LayoutOf, FileOf, EncodeEhdr;
    PieceInFile(d0, host, d, fill, TheEhdr);
    EncodedIdent(EncodingOf(d.ehdr), d.ehdr);
    var file := FileOf(d0, host, d, fill);
    assert file[0..52] == file[..52];
    assert file[..52][..16] == file[..16];
  }

  lemma ShdrInFile(d0: Desc, host: Encoding, d: Desc, fill: byte, k: nat)
    requires Ready(d0, host, d) && k < |d.sections|
    ensures var file := FileOf(d0, host, d, fill);
            && |d.ehdr.ident| == 16 && d.ehdr.shoff + 40 * k + 40 <= |file|
            && ShdrAt(file, EncodingOf(d.ehdr), d.ehdr.shoff + 40 * k) == d.sections[k].shdr
  {
    hide LayoutOf, FileOf, EncodeShdr, DecodeShdr;
    PieceInFile(d0, host, d, fill, AShdr(k));
    LaidHeader(d0, host, d);
    ShdrRoundTrip(EncodingOf(d.ehdr), d.sections[k].shdr);
  }

  lemma PhdrInFile(d0: Desc, host: Encoding, d: Desc, fill: byte, i: nat)
    requires Ready(d0, host, d) && i < |d.phdrs|
    ensures var file := FileOf(d0, host, d, fill);
            && |d.ehdr.ident| == 16 && d.ehdr.phoff + 32 * i + 32 <= |file|
            && PhdrAt(file, EncodingOf(d.ehdr), d.ehdr.phoff + 32 * i) == d.phdrs[i]
  {
    hide LayoutOf, FileOf, EncodePhdr, DecodePhdr, EncodePhdrs;
    PieceInFile(d0, host, d, fill, ThePhdrs);
    var enc, file, pos := EncodingOf(d.ehdr), FileOf(d0, host, d, fill), d.ehdr.phoff;
    EncodedPhdr(enc, d.phdrs, i);
    InnerSlice(file, pos, 32 * |d.phdrs|, 32 * i, 32);
    PhdrRoundTrip(enc, d.phdrs[i]);
  }

  function SectionHeaders(d: Desc): (hs: seq<Shdr>)
    ensures |hs| == |d.sections| && forall k :: 0 <= k < |hs| ==> hs[k] == d.sections[k].shdr
  {
    seq(|d.sections|, k requires 0 <= k < |d.sections| => d.sections[k].shdr)
  }

  /** The section headers come back in order, however many there are. */
  lemma ShdrsReadBack(d0: Desc, host: Encoding, d: Desc, fill: byte)
    requires Ready(d0, host, d)
    ensures |d.ehdr.ident| == 16
    ensures ShdrsOf(FileOf(d0, host, d, fill), EncodingOf(d.ehdr), d.ehdr)
         == Ok(SectionHeaders(d))
  {
    hide LayoutOf, FileOf, ShdrAt;
    LaidHeader(d0, host, d);
    var file, enc, n := FileOf(d0, host, d, fill), EncodingOf(d.ehdr), |d.sections|;
    if n > 0 {
      forall k | 0 <= k < n
        ensures d.ehdr.shoff + 40 * k + 40 <= |file| && ShdrAt(file, enc, d.ehdr.shoff + 40 * k) == d.sections[k].shdr
      {
        ShdrInFile(d0, host, d, fill, k);
      }
      assert ShdrAt(file, enc, d.ehdr.shoff + 40 * 0) == d.sections[0].shdr;
      assert n == if d.ehdr.shnum == 0 then Shnum(file, enc, d.ehdr) else d.ehdr.shnum;
      assert |file| - d.ehdr.shoff == 40 * n;
      var r := ShdrsOf(file, enc, d.ehdr);
      assert r.Ok? && |r.value| == n;
      assert r.value == SectionHeaders(d);
    }
  }

  lemma PhdrsReadBack(d0: Desc, host: Encoding, d: Desc, fill: byte)
    requires Ready(d0, host, d)
    ensures |d.ehdr.ident| == 16
    ensures PhdrsOf(FileOf(d0, host, d, fill), EncodingOf(d.ehdr), d.ehdr,
                    SectionHeaders(d))
         == Ok(d.phdrs)
  {
    hide LayoutOf, FileOf, PhdrAt;
    LaidHeader(d0, host, d);
    var file, enc, n := FileOf(d0, host, d, fill), EncodingOf(d.ehdr), |d.phdrs|;
    if n > 0 {
      forall i | 0 <= i < n
        ensures d.ehdr.phoff + 32 * i + 32 <= |file| && PhdrAt(file, enc, d.ehdr.phoff + 32 * i) == d.phdrs[i]
      {
        PhdrInFile(d0, host, d, fill, i);
      }
      assert seq(n, i requires 0 <= i < n => PhdrAt(file, enc, d.ehdr.phoff + 32 * i)) == d.phdrs;
    }
  }

  /** Cooking the written file recovers the ELF header, every program header and every section
      header in order, with the extended encodings of both counts. */
  lemma HeadersReadBack(d0: Desc, host: Encoding, d: Desc, fill: byte)
    requires Ready(d0, host, d)
    ensures CookOf(FileOf(d0, host, d, fill))
         == Ok(Cooked(d.ehdr, SectionHeaders(d), d.phdrs))
  {
    hide LayoutOf, FileOf, ShdrsOf, PhdrsOf, DecodeEhdr, EncodeEhdr;
    LaidHeader(d0, host, d);
    EhdrInFile(d0, host, d, fill);
    EhdrRoundTrip(EncodingOf(d.ehdr), d.ehdr);
    ShdrsReadBack(d0, host, d, fill);
    PhdrsReadBack(d0, host, d, fill);
    var file := FileOf(d0, host, d, fill);
    assert file[..16][..5][..4] == file[..4];
    assert file[..16][4] == file[4] && file[..16][5] == file[5] && file[..16][6] == file[6];
    assert d.ehdr.ident[..5][4] == d.ehdr.ident[4];
  }

  // ---- Contents ------------------------------------------------------------------------------------------------

  /** Section `k` has a file image. */
  predicate InFile(d: Desc, k: nat) {
    k < |d.sections| && !Skipped(k, d.sections[k]) && d.sections[k].shdr.stype != SHT_NOBITS
  }

  /** The bytes that the file holds for section `k`. */
  ghost function RawSection(d0: Desc, host: Encoding, d: Desc, fill: byte, k: nat): (raw: seq<byte>)
    requires Ready(d0, host, d) && InFile(d, k)
    ensures |raw| == d.sections[k].shdr.size
  {
    SectionInside(d0, host, d, k);
    FileOf(d0, host, d, fill)[d.sections[k].shdr.offset..d.sections[k].shdr.offset + d.sections[k].shdr.size]
  }

  lemma SectionInside(d0: Desc, host: Encoding, d: Desc, k: nat)
    requires Ready(d0, host, d) && InFile(d, k)
    ensures d.sections[k].shdr.offset + d.sections[k].shdr.size <= LayoutOf(d0, host).result.size
  {
    hide LayoutOf, Off, PhdrEnd;
    ElfShape(d0, host, d);
    PartBounds(d0, host, k + 2);
  }

  /** Each written buffer is in the image of its section, at its offset. */
  lemma BufferInSection(d0: Desc, host: Encoding, d: Desc, fill: byte, k: nat, j: nat)
    requires Ready(d0, host, d) && InFile(d, k) && j < |d.sections[k].bufs|
    ensures LabelOk(d, host, Data(k, j)) && |d.ehdr.ident| == 16
    ensures var b := d.sections[k].bufs[j];
            var body := BufBody(host, EncodingOf(d.ehdr), b);
            var raw := RawSection(d0, host, d, fill, k);
            && b.off + Length(body) <= |raw|
            && raw[b.off..b.off + Length(body)] == Image(host, EncodingOf(d.ehdr), body, seq(Length(body), _ => fill))
  {
    hide LayoutOf, FileOf, BufOk, BufBody, Image, EncodingOf, Length, PowerOfTwo;
    PieceInFile(d0, host, d, fill, Data(k, j));
    PlacedData(d0, host, d, k, j);
    SectionInside(d0, host, d, k);
    var s, file := d.sections[k], FileOf(d0, host, d, fill);
    var n := Length(BufBody(host, EncodingOf(d.ehdr), s.bufs[j]));
    var lo := s.shdr.offset;
    InnerSlice(file, lo, s.shdr.size, s.bufs[j].off, n);
  }

  lemma InnerSlice<T>(q: seq<T>, lo: nat, len: nat, o: nat, n: nat)
    requires lo + len <= |q| && o + n <= len
    ensures q[lo..lo + len][o..o + n] == q[lo + o..lo + o + n]
  {
    var a, b := q[lo..lo + len][o..o + n], q[lo + o..lo + o + n];
    assert forall i :: 0 <= i < n ==> a[i] == b[i];
  }

  /** What `elf_getdata` finds for section `k` of the written file. */
  ghost function SectionData(d0: Desc, host: Encoding, d: Desc, fill: byte, k: nat, back: seq<byte>): Option<seq<byte>>
    requires Ready(d0, host, d) && k < |d.sections| && |back| == d.sections[k].shdr.size
  {
    IdentLength(d0, host);
    DataOf(FileOf(d0, host, d, fill), EncodingOf(d.ehdr), host, d.sections[k].shdr, back)
  }

  /** The whole elements of buffer `j` are in `data` at the buffer's offset. */
  predicate HasBuffer(s: Section, j: nat, data: seq<byte>)
    requires j < |s.bufs|
  {
    var b, n := s.bufs[j], Space(s.shdr.stype, s.bufs[j]);
    && b.mem.Some? && n <= |b.mem.value| && b.off + n <= |data|
    && data[b.off..b.off + n] == b.mem.value[..n]
  }

  /** A byte of a section's file image that no buffer covers is fill. */
  lemma HolesReadAsFill(d0: Desc, host: Encoding, d: Desc, fill: byte, k: nat, i: nat)
    requires Ready(d0, host, d) && InFile(d, k) && i < d.sections[k].shdr.size
    requires var s := d.sections[k];
             forall j :: 0 <= j < |s.bufs| ==> i < s.bufs[j].off || s.bufs[j].off + Space(s.shdr.stype, s.bufs[j]) <= i
    ensures RawSection(d0, host, d, fill, k)[i] == fill
  {
    hide LayoutOf, FileOf, BufOk, BufBody, EncodingOf, Length, PieceOf, Part, LabelOk, Space, IsLabel;
    SectionInside(d0, host, d, k);
    var s := d.sections[k];
    var pos := s.shdr.offset + i;
    forall l | IsLabel(d, l) ensures LabelOk(d, host, l) && Apart(ExtentOf(PieceOf(d, host, l)), Extent(pos, 1)) {
      OtherPiece(d0, host, d, k, i, l);
    }
    HolesAreFill(d0, host, d, fill, pos);
  }

  lemma OtherPiece(d0: Desc, host: Encoding, d: Desc, k: nat, i: nat, l: Label)
    requires Ready(d0, host, d) && InFile(d, k) && i < d.sections[k].shdr.size && IsLabel(d, l)
    requires var s := d.sections[k];
             forall j :: 0 <= j < |s.bufs| ==> i < s.bufs[j].off || s.bufs[j].off + Space(s.shdr.stype, s.bufs[j]) <= i
    ensures LabelOk(d, host, l)
    ensures Apart(ExtentOf(PieceOf(d, host, l)), Extent(d.sections[k].shdr.offset + i, 1))
  {
    hide LayoutOf, BufOk, BufBody, EncodePhdrs, EncodeShdr, EncodeEhdr, EncodingOf, Length, Space, PowerOfTwo;
    ElfShape(d0, host, d);
    PieceInPart(d0, host, d, l);
    if l.Data? && l.k == k {
      PlacedData(d0, host, d, k, l.j);
    } else if PartOf(d, l) < k + 2 {
      PartsAreApart(d0, host, PartOf(d, l), k + 2);
    } else {
      PartsAreApart(d0, host, k + 2, PartOf(d, l));
    }
  }

  lemma {:induction false} XlateBytes(from: Encoding, to: Encoding, b: seq<byte>)
    ensures Total([1]) == 1 && Xlate([1], from, to, b) == b
    decreases |b|
  {
    TotalRepeat(1, 1);
    assert Repeat(1, 1) == [1];
    if b != [] {
      XlateBytes(from, to, b[1..]);
      OneField(from, to, b[..1]);
      FirstElement([1], from, to, b);
      var x := Xlate([1], from, to, b);
      assert x == x[..1] + x[1..] && b == b[..1] + b[1..];
    }
  }

  lemma OneField(from: Encoding, to: Encoding, b: seq<byte>)
    requires |b| == 1 && Total([1]) == 1
    ensures Swap([1], from, to, b) == b
  {
    var v := b[0];
    assert LoadInt(from, []) == 0;
    assert b[1..] == [] && b[..0] == [];
    assert LoadInt(from, b) == v as nat;
    assert LoadFields(from, [1], b) == [LoadInt(from, b[..1])] + LoadFields(from, [1][1..], b[1..]);
    assert [1][1..] == [] && b[..1] == b;
    var vs := LoadFields(from, [1], b);
    assert vs == [v as nat];
    OneByte(to, v);
    assert StoreFields(to, [1], vs) == StoreInt(to, 1, v) + StoreFields(to, [1][1..], vs[1..]);
  }

  /** A section of bytes, such as a string table, reads back whole: each buffer where the layout has
      placed it and fill in the holes between them. */
  lemma BytesReadBack(d0: Desc, host: Encoding, d: Desc, fill: byte, k: nat, back: seq<byte>)
    requires Ready(d0, host, d) && InFile(d, k)
    requires ScnType(d.sections[k].shdr.stype) == T_BYTE && |back| == d.sections[k].shdr.size
    ensures SectionData(d0, host, d, fill, k, back) == Some(RawSection(d0, host, d, fill, k))
  {
    hide LayoutOf, FileOf, Total, Xlate, EncodingOf;
    SectionInside(d0, host, d, k);
    IdentLength(d0, host);
    XlateBytes(EncodingOf(d.ehdr), host, RawSection(d0, host, d, fill, k));
  }

  lemma ZeroAligned(a: nat)
    ensures AlignUp(0, a) == 0
  {
    if a > 1 {
      SmallMod(AlignUp(0, a), a);
    }
  }
}
