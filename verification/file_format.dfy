/** Where the headers of an ELF file of the 32-bit class are, byte by byte: what `_elf_cook_file`
    accepts, what it finds there, and what `elf_update` puts there. */
module FileFormat {
  import opened Words
  import opened ElfTypes
  import opened Codec
  import opened Records
  import opened Layout
  import opened WrittenFile
  import opened Cook
  import opened ReadBack

  // ---- Numbers in a file ------------------------------------------------------------------------------------

  function U16(little: bool, b: seq<byte>, p: nat): nat
    requires p + 2 <= |b|
  {
    if little then b[p] as nat + 0x100 * b[p + 1] as nat else 0x100 * b[p] as nat + b[p + 1] as nat
  }

  function U32(little: bool, b: seq<byte>, p: nat): nat
    requires p + 4 <= |b|
  {
    if little then b[p] as nat + 0x100 * b[p + 1] as nat + 0x1_0000 * b[p + 2] as nat + 0x100_0000 * b[p + 3] as nat
    else 0x100_0000 * b[p] as nat + 0x1_0000 * b[p + 1] as nat + 0x100 * b[p + 2] as nat + b[p + 3] as nat
  }

  predicate EhdrReads(little: bool, b: seq<byte>, e: Ehdr) {
    && |b| >= 52 && e.ident == b[0..16]
    && e.etype == U16(little, b, 16) && e.machine == U16(little, b, 18) && e.version == U32(little, b, 20)
    && e.entry == U32(little, b, 24) && e.phoff == U32(little, b, 28) && e.shoff == U32(little, b, 32)
    && e.flags == U32(little, b, 36) && e.ehsize == U16(little, b, 40)
    && e.phentsize == U16(little, b, 42) && e.phnum == U16(little, b, 44)
    && e.shentsize == U16(little, b, 46) && e.shnum == U16(little, b, 48) && e.shstrndx == U16(little, b, 50)
  }

  predicate PhdrReads(little: bool, b: seq<byte>, p: nat, h: Phdr) {
    && p + 32 <= |b|
    && h.ptype == U32(little, b, p) && h.offset == U32(little, b, p + 4) && h.vaddr == U32(little, b, p + 8)
    && h.paddr == U32(little, b, p + 12) && h.filesz == U32(little, b, p + 16) && h.memsz == U32(little, b, p + 20)
    && h.flags == U32(little, b, p + 24) && h.align == U32(little, b, p + 28)
  }

  predicate ShdrReads(little: bool, b: seq<byte>, p: nat, h: Shdr) {
    && p + 40 <= |b|
    && h.name == U32(little, b, p) && h.stype == U32(little, b, p + 4) && h.flags == U32(little, b, p + 8)
    && h.addr == U32(little, b, p + 12) && h.offset == U32(little, b, p + 16) && h.size == U32(little, b, p + 20)
    && h.link == U32(little, b, p + 24) && h.info == U32(little, b, p + 28)
    && h.addralign == U32(little, b, p + 32) && h.entsize == U32(little, b, p + 36)
  }

  // ---- Fields of records ----------------------------------------------------------------------------------------

  lemma LoadedIs(enc: Encoding, b: seq<byte>)
    ensures |b| == 1 ==> LoadInt(enc, b) == b[0]
    ensures |b| == 2 ==> LoadInt(enc, b) == U16(enc == Lsb, b, 0)
    ensures |b| == 4 ==> LoadInt(enc, b) == U32(enc == Lsb, b, 0)
  {
    if 1 <= |b| <= 4 {
      LoadNext(enc, b);
      if |b| > 1 {
        var c := if enc == Lsb then b[1..] else b[..|b| - 1];
        LoadNext(enc, c);
        if |b| > 2 {
          var d := if enc == Lsb then c[1..] else c[..|c| - 1];
          LoadNext(enc, d);
          if |b| > 3 {
            LoadNext(enc, if enc == Lsb then d[1..] else d[..|d| - 1]);
          }
        }
      }
    }
  }

  lemma LoadNext(enc: Encoding, b: seq<byte>)
    requires b != []
    ensures LoadInt(enc, b) == if enc == Lsb then b[0] as nat + 0x100 * LoadInt(enc, b[1..])
                               else b[|b| - 1] as nat + 0x100 * LoadInt(enc, b[..|b| - 1])
    ensures LoadInt(enc, []) == 0
  {
  }

  lemma {:induction false} RepeatedField(enc: Encoding, n: nat, w: nat, b: seq<byte>, i: nat)
    requires |b| == n * w == Total(Repeat(n, w)) && i < n
    ensures w * i + w <= |b| && LoadFields(enc, Repeat(n, w), b)[i] == LoadInt(enc, b[w * i..w * i + w])
  {
    hide LoadInt, Total;
    TotalRepeat(n, w);
    TotalRepeat(n - 1, w);
    Below(i, n, w);
    assert Repeat(n, w)[1..] == Repeat(n - 1, w);
    FirstOfFields(enc, Repeat(n, w), b);
    if i > 0 {
      RepeatedField(enc, n - 1, w, b[w..], i - 1);
      Shift(b, w, i);
    }
  }

  lemma Below(i: nat, n: nat, w: nat)
    requires i < n
    ensures w * i + w <= n * w && (n - 1) * w == n * w - w
    ensures i > 0 ==> w * (i - 1) == w * i - w >= 0
  {
    assert n * w == w * i + w + (n - 1 - i) * w;
    if i > 0 { assert w * i == w * (i - 1) + w; }
  }

  lemma Shift<T>(b: seq<T>, w: nat, i: nat)
    requires i > 0 && w * (i - 1) == w * i - w >= 0 && w * i + w <= |b|
    ensures b[w..][w * (i - 1)..w * (i - 1) + w] == b[w * i..w * i + w]
  {
  }

  lemma FirstOfFields(enc: Encoding, ws: seq<nat>, b: seq<byte>)
    requires ws != [] && |b| == Total(ws)
    ensures ws[0] <= |b| && |b[ws[0]..]| == Total(ws[1..])
    ensures LoadFields(enc, ws, b) == [LoadInt(enc, b[..ws[0]])] + LoadFields(enc, ws[1..], b[ws[0]..])
  {
    hide LoadInt;
  }

  lemma {:induction false} FieldsConcat(enc: Encoding, u: seq<nat>, v: seq<nat>, b: seq<byte>)
    requires |b| == Total(u + v)
    ensures Total(u) + Total(v) == |b|
    ensures LoadFields(enc, u + v, b) == LoadFields(enc, u, b[..Total(u)]) + LoadFields(enc, v, b[Total(u)..])
  {
    hide LoadInt, Total, LoadFields;
    TotalConcat(u, v);
    if u == [] {
      NoFields(enc, b);
      assert u + v == v;
    } else {
      var w, t := u[0], Total(u[1..]);
      TotalFirst(u);
      assert (u + v)[1..] == u[1..] + v;
      FirstOfFields(enc, u + v, b);
      FirstOfFields(enc, u, b[..w + t]);
      FieldsConcat(enc, u[1..], v, b[w..]);
      Regrouped(b, w, t);
    }
  }

  lemma NoFields(enc: Encoding, b: seq<byte>)
    ensures Total([]) == 0 && LoadFields(enc, [], b[..0]) == [] && b[0..] == b
  {
  }

  lemma TotalFirst(u: seq<nat>)
    requires u != []
    ensures Total(u) == u[0] + Total(u[1..])
  {
  }

  lemma Regrouped<T>(b: seq<T>, w: nat, t: nat)
    requires w + t <= |b|
    ensures b[..w + t][..w] == b[..w] && b[..w + t][w..] == b[w..][..t] && b[w..][t..] == b[w + t..]
  {
  }

  /** Field `i` of `n` 32-bit fields. */
  lemma WordField(enc: Encoding, n: nat, b: seq<byte>, i: nat)
    requires |b| == 4 * n && i < n
    ensures Total(Repeat(n, 4)) == |b| && LoadFields(enc, Repeat(n, 4), b)[i] == U32(enc == Lsb, b, 4 * i)
  {
    hide LoadInt, Total;
    TotalRepeat(n, 4);
    RepeatedField(enc, n, 4, b, i);
    LoadedIs(enc, b[4 * i..4 * i + 4]);
  }

  lemma HalfField(enc: Encoding, n: nat, b: seq<byte>, i: nat)
    requires |b| == 2 * n && i < n
    ensures Total(Repeat(n, 2)) == |b| && LoadFields(enc, Repeat(n, 2), b)[i] == U16(enc == Lsb, b, 2 * i)
  {
    hide LoadInt, Total;
    TotalRepeat(n, 2);
    RepeatedField(enc, n, 2, b, i);
    LoadedIs(enc, b[2 * i..2 * i + 2]);
  }

  lemma ByteField(enc: Encoding, n: nat, b: seq<byte>, i: nat)
    requires |b| == n && i < n
    ensures Total(Repeat(n, 1)) == |b| && LoadFields(enc, Repeat(n, 1), b)[i] == b[i]
  {
    hide LoadInt, Total;
    TotalRepeat(n, 1);
    RepeatedField(enc, n, 1, b, i);
    LoadedIs(enc, b[i..i + 1]);
  }

  lemma DecodedShdr(enc: Encoding, b: seq<byte>)
    requires |b| == 40
    ensures ShdrReads(enc == Lsb, b, 0, DecodeShdr(enc, b))
  {
    hide LoadFields, U32, Total;
    var h := DecodeShdr(enc, b);
    ElementSizes(T_SHDR);
    var vs := LoadFields(enc, Repeat(10, 4), b);
    forall i | 0 <= i < 10 ensures ShdrFields(h)[i] == U32(enc == Lsb, b, 4 * i) {
      WordField(enc, 10, b, i);
    }
    var fs := ShdrFields(h);
    assert fs[0] == U32(enc == Lsb, b, 4 * 0) && fs[1] == U32(enc == Lsb, b, 4 * 1) && fs[2] == U32(enc == Lsb, b, 4 * 2);
    assert fs[3] == U32(enc == Lsb, b, 4 * 3) && fs[4] == U32(enc == Lsb, b, 4 * 4) && fs[5] == U32(enc == Lsb, b, 4 * 5);
    assert fs[6] == U32(enc == Lsb, b, 4 * 6) && fs[7] == U32(enc == Lsb, b, 4 * 7);
    assert fs[8] == U32(enc == Lsb, b, 4 * 8) && fs[9] == U32(enc == Lsb, b, 4 * 9);
  }

  lemma DecodedPhdr(enc: Encoding, b: seq<byte>)
    requires |b| == 32
    ensures PhdrReads(enc == Lsb, b, 0, DecodePhdr(enc, b))
  {
    hide LoadFields, U32, Total;
    var h := DecodePhdr(enc, b);
    ElementSizes(T_PHDR);
    forall i | 0 <= i < 8 ensures PhdrFields(h)[i] == U32(enc == Lsb, b, 4 * i) {
      WordField(enc, 8, b, i);
    }
    var fs := PhdrFields(h);
    assert fs[0] == U32(enc == Lsb, b, 4 * 0) && fs[1] == U32(enc == Lsb, b, 4 * 1) && fs[2] == U32(enc == Lsb, b, 4 * 2);
    assert fs[3] == U32(enc == Lsb, b, 4 * 3) && fs[4] == U32(enc == Lsb, b, 4 * 4) && fs[5] == U32(enc == Lsb, b, 4 * 5);
    assert fs[6] == U32(enc == Lsb, b, 4 * 6) && fs[7] == U32(enc == Lsb, b, 4 * 7);
  }

  lemma TailParts()
    ensures EHDR_TAIL == Repeat(2, 2) + (Repeat(5, 4) + Repeat(6, 2))
    ensures Total(Repeat(16, 1) + EHDR_TAIL) == 52 && Total(EHDR_TAIL) == 36 && Total(Repeat(5, 4) + Repeat(6, 2)) == 32
    ensures Total(Repeat(16, 1)) == 16 && Total(Repeat(2, 2)) == 4 && Total(Repeat(5, 4)) == 20
  {
    hide Total;
    TotalEhdr();
    TotalRepeat(16, 1);
    TotalRepeat(2, 2);
    TotalRepeat(5, 4);
    TotalConcat(Repeat(16, 1), EHDR_TAIL);
    TotalConcat(Repeat(2, 2), Repeat(5, 4) + Repeat(6, 2));
  }

  /** Fields of the ELF header by groups of one width. */
  lemma EhdrGroups(enc: Encoding, b: seq<byte>)
    requires |b| == 52
    ensures Total(Widths(T_EHDR)) == 52
    ensures var vs := LoadFields(enc, Widths(T_EHDR), b);
            && (forall i :: 0 <= i < 16 ==> vs[i] == b[i])
            && (forall i :: 0 <= i < 2 ==> vs[16 + i] == U16(enc == Lsb, b, 16 + 2 * i))
            && (forall i :: 0 <= i < 5 ==> vs[18 + i] == U32(enc == Lsb, b, 20 + 4 * i))
            && (forall i :: 0 <= i < 6 ==> vs[23 + i] == U16(enc == Lsb, b, 40 + 2 * i))
  {
    hide LoadFields, Total, U16, U32;
    TailParts();
    var c := b[16..];
    var e := c[4..];
    assert c[..4] == b[16..20] && e[..20] == b[20..40] && e[20..] == b[40..52];
    FieldsConcat(enc, Repeat(16, 1), EHDR_TAIL, b);
    FieldsConcat(enc, Repeat(2, 2), Repeat(5, 4) + Repeat(6, 2), c);
    FieldsConcat(enc, Repeat(5, 4), Repeat(6, 2), e);
    forall i | 0 <= i < 16 ensures LoadFields(enc, Repeat(16, 1), b[..16])[i] == b[i] {
      ByteField(enc, 16, b[..16], i);
    }
    forall i | 0 <= i < 2 ensures LoadFields(enc, Repeat(2, 2), c[..4])[i] == U16(enc == Lsb, b, 16 + 2 * i) {
      HalfField(enc, 2, c[..4], i);
      SameNumbers(enc == Lsb, b, 16, 20, 2 * i);
    }
    forall i | 0 <= i < 5 ensures LoadFields(enc, Repeat(5, 4), e[..20])[i] == U32(enc == Lsb, b, 20 + 4 * i) {
      WordField(enc, 5, e[..20], i);
      SameNumbers(enc == Lsb, b, 20, 40, 4 * i);
    }
    forall i | 0 <= i < 6 ensures LoadFields(enc, Repeat(6, 2), e[20..])[i] == U16(enc == Lsb, b, 40 + 2 * i) {
      HalfField(enc, 6, e[20..], i);
      SameNumbers(enc == Lsb, b, 40, 52, 2 * i);
    }
  }

  /** A number in a stretch of the file is the one there. */
  lemma SameNumbers(little: bool, b: seq<byte>, lo: nat, hi: nat, p: nat)
    requires lo <= hi <= |b|
    ensures p + 2 <= hi - lo ==> U16(little, b[lo..hi], p) == U16(little, b, lo + p)
    ensures p + 4 <= hi - lo ==> U32(little, b[lo..hi], p) == U32(little, b, lo + p)
  {
  }

  lemma DecodedEhdr(enc: Encoding, b: seq<byte>)
    requires |b| == 52
    ensures EhdrReads(enc == Lsb, b, DecodeEhdr(enc, b))
  {
    hide LoadFields, Total, U16, U32, Widths, Fit;
    EhdrGroups(enc, b);
    var e := DecodeEhdr(enc, b);
    var fs, l := EhdrFields(e), enc == Lsb;
    assert e.ident == fs[..16];
    assert fs[16] == U16(l, b, 16 + 2 * 0) && fs[17] == U16(l, b, 16 + 2 * 1);
    assert fs[16 + 0] == e.etype && fs[16 + 1] == e.machine;
    assert fs[18 + 0] == U32(l, b, 20 + 4 * 0) && fs[18 + 1] == U32(l, b, 20 + 4 * 1) && fs[18 + 2] == U32(l, b, 20 + 4 * 2);
    assert fs[18 + 3] == U32(l, b, 20 + 4 * 3) && fs[18 + 4] == U32(l, b, 20 + 4 * 4);
    assert fs[23 + 0] == U16(l, b, 40 + 2 * 0) && fs[23 + 1] == U16(l, b, 40 + 2 * 1) && fs[23 + 2] == U16(l, b, 40 + 2 * 2);
    assert fs[23 + 3] == U16(l, b, 40 + 2 * 3) && fs[23 + 4] == U16(l, b, 40 + 2 * 4) && fs[23 + 5] == U16(l, b, 40 + 2 * 5);
  }

  /** What is encoded has each field at its place. */
  lemma EncodedHeaders(enc: Encoding, e: Ehdr, p: Phdr, s: Shdr)
    requires |e.ident| == 16
    ensures EhdrReads(enc == Lsb, EncodeEhdr(enc, e), e)
    ensures PhdrReads(enc == Lsb, EncodePhdr(enc, p), 0, p)
    ensures ShdrReads(enc == Lsb, EncodeShdr(enc, s), 0, s)
  {
    hide EncodeEhdr, EncodePhdr, EncodeShdr, DecodeEhdr, DecodePhdr, DecodeShdr, EhdrReads, PhdrReads, ShdrReads;
    EhdrRoundTrip(enc, e);
    PhdrRoundTrip(enc, p);
    ShdrRoundTrip(enc, s);
    DecodedEhdr(enc, EncodeEhdr(enc, e));
    DecodedPhdr(enc, EncodePhdr(enc, p));
    DecodedShdr(enc, EncodeShdr(enc, s));
  }

  // ---- Files that can be read ------------------------------------------------------------------------------------

  /** The number of sections: in the ELF header, or in the first section header. */
  function SectionCount(little: bool, file: seq<byte>): nat
    requires |file| >= 52
  {
    var shoff, shnum := U32(little, file, 32), U16(little, file, 48);
    if shoff == 0 then 0 else if shnum != 0 then shnum
    else if shoff + 40 <= |file| then U32(little, file, shoff + 20) else 0
  }

  /** The number of program headers: in the ELF header, or in the first section header. */
  function SegmentCount(little: bool, file: seq<byte>): nat
    requires |file| >= 52
  {
    var phoff, phnum, shoff := U32(little, file, 28), U16(little, file, 44), U32(little, file, 32);
    if phoff == 0 then 0 else if phnum != 0xffff then phnum
    else if shoff + 40 <= |file| then U32(little, file, shoff + 28) else 0
  }

  /** A file of the 32-bit class with tables that lie in it. */
  predicate ElfFile(file: seq<byte>) {
    && |file| >= 52
    && file[0] == 0x7f && file[1] == 0x45 && file[2] == 0x4c && file[3] == 0x46
    && file[4] == 1 && (file[5] == 1 || file[5] == 2) && file[6] == 1
    && var little := file[5] == 1;
       var phoff, shoff, shnum := U32(little, file, 28), U32(little, file, 32), U16(little, file, 48);
       && (shoff != 0 ==>
             && U16(little, file, 46) == 40
             && shoff + 40 * (if shnum == 0 then 1 else shnum) <= |file|
             && shoff + 40 * SectionCount(little, file) <= |file|)
       && (phoff != 0 ==>
             && U16(little, file, 42) == 32
             && (U16(little, file, 44) == 0xffff ==> shoff != 0 && SectionCount(little, file) > 0)
             && (SegmentCount(little, file) > 0 ==> phoff + 32 * SegmentCount(little, file) <= |file|))
  }

  /** What the file says. */
  ghost predicate Says(file: seq<byte>, c: Cooked)
    requires ElfFile(file)
  {
    var little := file[5] == 1;
    && EhdrReads(little, file, c.ehdr)
    && |c.shdrs| == SectionCount(little, file) && |c.phdrs| == SegmentCount(little, file)
    && (forall i {:trigger c.shdrs[i]} :: 0 <= i < |c.shdrs| ==> ShdrReads(little, file, U32(little, file, 32) + 40 * i, c.shdrs[i]))
    && (forall i {:trigger c.phdrs[i]} :: 0 <= i < |c.phdrs| ==> PhdrReads(little, file, U32(little, file, 28) + 32 * i, c.phdrs[i]))
  }

  lemma EhdrInFront(file: seq<byte>, enc: Encoding)
    requires |file| >= 52
    ensures EhdrReads(enc == Lsb, file, DecodeEhdr(enc, file[..52]))
  {
    hide DecodeEhdr, U16, U32;
    DecodedEhdr(enc, file[..52]);
    var l := enc == Lsb;
    assert file[..52] == file[0..52] && file[..52][0..16] == file[0..16];
    SameNumbers(l, file, 0, 52, 16);
    SameNumbers(l, file, 0, 52, 18);
    SameNumbers(l, file, 0, 52, 20);
    SameNumbers(l, file, 0, 52, 24);
    SameNumbers(l, file, 0, 52, 28);
    SameNumbers(l, file, 0, 52, 32);
    SameNumbers(l, file, 0, 52, 36);
    SameNumbers(l, file, 0, 52, 40);
    SameNumbers(l, file, 0, 52, 42);
    SameNumbers(l, file, 0, 52, 44);
    SameNumbers(l, file, 0, 52, 46);
    SameNumbers(l, file, 0, 52, 48);
    SameNumbers(l, file, 0, 52, 50);
  }

  lemma ShdrInPlace(file: seq<byte>, enc: Encoding, p: nat)
    requires p + 40 <= |file|
    ensures ShdrReads(enc == Lsb, file, p, ShdrAt(file, enc, p))
  {
    hide DecodeShdr, U32;
    DecodedShdr(enc, file[p..p + 40]);
    var l := enc == Lsb;
    SameNumbers(l, file, p, p + 40, 0);
    SameNumbers(l, file, p, p + 40, 4);
    SameNumbers(l, file, p, p + 40, 8);
    SameNumbers(l, file, p, p + 40, 12);
    SameNumbers(l, file, p, p + 40, 16);
    SameNumbers(l, file, p, p + 40, 20);
    SameNumbers(l, file, p, p + 40, 24);
    SameNumbers(l, file, p, p + 40, 28);
    SameNumbers(l, file, p, p + 40, 32);
    SameNumbers(l, file, p, p + 40, 36);
  }

  lemma PhdrInPlace(file: seq<byte>, enc: Encoding, p: nat)
    requires p + 32 <= |file|
    ensures PhdrReads(enc == Lsb, file, p, PhdrAt(file, enc, p))
  {
    hide DecodePhdr, U32;
    DecodedPhdr(enc, file[p..p + 32]);
    var l := enc == Lsb;
    SameNumbers(l, file, p, p + 32, 0);
    SameNumbers(l, file, p, p + 32, 4);
    SameNumbers(l, file, p, p + 32, 8);
    SameNumbers(l, file, p, p + 32, 12);
    SameNumbers(l, file, p, p + 32, 16);
    SameNumbers(l, file, p, p + 32, 20);
    SameNumbers(l, file, p, p + 32, 24);
    SameNumbers(l, file, p, p + 32, 28);
  }

  /** The section headers, from the bytes. */
  lemma ShdrsInFile(file: seq<byte>, enc: Encoding, e: Ehdr)
    requires EhdrReads(enc == Lsb, file, e)
    ensures var l, r := enc == Lsb, ShdrsOf(file, enc, e);
            var shoff, shnum := U32(l, file, 32), U16(l, file, 48);
            && (r.Ok? <==> (shoff != 0 ==>
                  && U16(l, file, 46) == 40
                  && shoff + 40 * (if shnum == 0 then 1 else shnum) <= |file|
                  && shoff + 40 * SectionCount(l, file) <= |file|))
            && (r.Ok? ==>
                  && |r.value| == SectionCount(l, file)
                  && forall i {:trigger r.value[i]} :: 0 <= i < |r.value| ==> ShdrReads(l, file, shoff + 40 * i, r.value[i]))
  {
    hide U16, U32, ShdrAt, ShdrReads;
    var r := ShdrsOf(file, enc, e);
    if e.shoff + 40 <= |file| {
      ShdrInPlace(file, enc, e.shoff);
      SizeIs(enc == Lsb, file, e.shoff, ShdrAt(file, enc, e.shoff));
    }
    if r.Ok? {
      forall i | 0 <= i < |r.value| ensures ShdrReads(enc == Lsb, file, e.shoff + 40 * i, r.value[i]) {
        ShdrInPlace(file, enc, e.shoff + 40 * i);
      }
    }
  }

  lemma SizeIs(l: bool, file: seq<byte>, p: nat, h: Shdr)
    requires ShdrReads(l, file, p, h)
    ensures p + 40 <= |file| && h.size == U32(l, file, p + 20) && h.info == U32(l, file, p + 28)
  {
  }

  /** The program headers, from the bytes. */
  lemma PhdrsInFile(file: seq<byte>, enc: Encoding, e: Ehdr, shdrs: seq<Shdr>)
    requires EhdrReads(enc == Lsb, file, e) && ShdrsOf(file, enc, e) == Ok(shdrs)
    ensures var l, r := enc == Lsb, PhdrsOf(file, enc, e, shdrs);
            var phoff := U32(l, file, 28);
            && (r.Ok? <==> (phoff != 0 ==>
                  && U16(l, file, 42) == 32
                  && (U16(l, file, 44) == 0xffff ==> U32(l, file, 32) != 0 && SectionCount(l, file) > 0)
                  && (SegmentCount(l, file) > 0 ==> phoff + 32 * SegmentCount(l, file) <= |file|)))
            && (r.Ok? ==>
                  && |r.value| == SegmentCount(l, file)
                  && forall i {:trigger r.value[i]} :: 0 <= i < |r.value| ==> PhdrReads(l, file, phoff + 32 * i, r.value[i]))
  {
    hide U16, U32, ShdrsOf, PhdrAt, PhdrReads, ShdrReads, SectionCount;
    ShdrsInFile(file, enc, e);
    NoTable(enc == Lsb, file);
    if shdrs != [] {
      SizeIs(enc == Lsb, file, e.shoff, shdrs[0]);
    }
    var r := PhdrsOf(file, enc, e, shdrs);
    if r.Ok? {
      forall i | 0 <= i < |r.value| ensures PhdrReads(enc == Lsb, file, e.phoff + 32 * i, r.value[i]) {
        PhdrInPlace(file, enc, e.phoff + 32 * i);
      }
    }
  }

  lemma NoTable(l: bool, file: seq<byte>)
    requires |file| >= 52
    ensures SectionCount(l, file) > 0 ==> U32(l, file, 32) != 0
  {
  }

  /** `_elf_cook_file` accepts exactly these files, and finds what the bytes at their places say. */
  lemma CookedFields(file: seq<byte>)
    ensures CookOf(file).Ok? <==> ElfFile(file)
    ensures ElfFile(file) ==> CookOf(file).Ok? && Says(file, CookOf(file).value)
  {
    hide U16, U32, ShdrsOf, PhdrsOf, DecodeEhdr, EhdrReads, ShdrReads, PhdrReads, SectionCount, SegmentCount;
    if |file| >= 52 {
      var enc := EncodingIn(file);
      var e := DecodeEhdr(enc, file[..52]);
      EhdrInFront(file, enc);
      ShdrsInFile(file, enc, e);
      if ShdrsOf(file, enc, e).Ok? {
        PhdrsInFile(file, enc, e, ShdrsOf(file, enc, e).value);
      }
      Magic(file);
    }
  }

  lemma Magic(file: seq<byte>)
    requires |file| >= 52
    ensures file[..4] == [0x7f, 0x45, 0x4c, 0x46] <==>
              file[0] == 0x7f && file[1] == 0x45 && file[2] == 0x4c && file[3] == 0x46
  {
    var a, b: seq<byte> := file[..4], [0x7f, 0x45, 0x4c, 0x46];
    assert a == b <==> a[0] == b[0] && a[1] == b[1] && a[2] == b[2] && a[3] == b[3];
  }

  /** The file that is written has the headers of the laid out descriptor at these places. */
  lemma WrittenFields(d0: Desc, host: Encoding, d: Desc, fill: byte)
    requires Ready(d0, host, d)
    ensures var file := FileOf(d0, host, d, fill);
            ElfFile(file) && Says(file, Cooked(d.ehdr, SectionHeaders(d), d.phdrs))
  {
    hide FileOf, ElfFile, Says, CookOf, LayoutOf;
    HeadersReadBack(d0, host, d, fill);
    CookedFields(FileOf(d0, host, d, fill));
  }
}
