/** File-space layout of a 32-bit class descriptor: `scn_data_layout` and `_elf32_layout` of
    libelf/update.c. */
module Layout {
  import opened Words
  import opened ElfTypes
  import opened Records
  import opened Codec

  /** A data buffer of a section; `mem` is what it points to, in host byte order. */
  datatype Buf = Buf(dtype: nat, version: nat, size: nat, align: nat, off: nat, mem: Option<seq<byte>>, dirty: bool)

  datatype Section = Section(shdr: Shdr, bufs: seq<Buf>, scnDirty: bool, shdrDirty: bool)

  datatype Desc = Desc(ehdr: Ehdr, ehdrDirty: bool, phdrs: seq<Phdr>, phdrDirty: bool, elfDirty: bool,
                       manual: bool, overlapAllowed: bool, sections: seq<Section>)

  datatype Error = UnknownVersion | UnknownEncoding | BadData | SectionTooSmall | SectionOverlap

  datatype Result = Laid(size: nat, dirty: bool) | Failed(error: Error)

  datatype Outcome = Outcome(desc: Desc, result: Result)

  // ---- Alignment and rewriting -----------------------------------------------------------------------

  function Max(a: nat, b: nat): nat { if a > b then a else b }

  /** `align(var, val)` */
  function AlignUp(x: nat, a: nat): (r: nat)
    ensures x <= r
    ensures a <= 1 ==> r == x
    ensures a > 1 ==> r < x + a && r % a == 0
  {
    if a > 1 then
      var y := x + a - 1;
      assert (y - y % a) % a == 0 by { assert y - y % a == (y / a) * a; MultipleOf(y / a, a); }
      y - y % a
    else x
  }

  lemma MultipleOf(q: nat, a: nat)
    requires a > 0
    ensures (q * a) % a == 0
  {
    var d, r := (q * a) / a, (q * a) % a;
    assert q * a == d * a + r;
    if q > d {
      Product(q, d, a);
    } else if q < d {
      Product(d, q, a);
    }
  }

  /** `rewrite(var, val, flag)`: the new value, cut to the width of the field, and the new flag. */
  function Rewrite(field: u32, val: nat, flag: bool): (r: (u32, bool))
    ensures r.0 == Wrap(val) && r.1 == (flag || field as int != val)
    ensures val < 0x1_0000_0000 ==> r.0 as int == val
  {
    if field as int != val then (Wrap(val), true) else (field, flag)
  }

  // ---- Data buffers -----------------------------------------------------------------------------------

  /** `_elf_scn_type` (libelf/cook.c) */
  function ScnType(stype: u32): nat {
    if stype == SHT_DYNAMIC then 2
    else if stype == SHT_DYNSYM || stype == SHT_SYMTAB then 11
    else if stype == SHT_HASH || stype == SHT_SYMTAB_SHNDX then 12
    else if stype == SHT_REL then 8
    else if stype == SHT_RELA then 7
    else if stype == SHT_VERDEF then T_VDEF
    else if stype == SHT_VERNEED then T_VNEED
    else if stype == SHT_VERSYM then 4
    else T_BYTE
  }

  /** `scn_entsize` */
  function EntSize(stype: u32): nat {
    if ScnType(stype) == T_BYTE then 0 else ElementSize(ScnType(stype))
  }

  function XlateSize(dtype: nat, size: nat): Option<nat> {
    if dtype == T_SXWORD || dtype == T_XWORD then None
    else if dtype == T_VDEF || dtype == T_VNEED || ElementSize(dtype) == 0 then Some(size)
    else Some(Whole(ElementSize(dtype), size))
  }

  /** The space a buffer takes in the file; none if it cannot be translated. */
  function FileSize(stype: u32, b: Buf): Option<nat> {
    if b.version != 1 then None
    else if b.size > 0 && stype != SHT_NOBITS && b.dtype < T_NUM then XlateSize(b.dtype, b.size)
    else Some(b.size)
  }

  function Space(stype: u32, b: Buf): nat {
    var s := FileSize(stype, b);
    if s.Some? then s.value else 0
  }

  /** The number of buffers before the first one without a file size. */
  function Sized(stype: u32, bufs: seq<Buf>): (n: nat)
    ensures n <= |bufs|
    ensures forall j :: 0 <= j < n ==> FileSize(stype, bufs[j]).Some?
    ensures n < |bufs| ==> FileSize(stype, bufs[n]).None?
  {
    if bufs == [] then 0
    else
      var m := |bufs| - 1;
      var n := Sized(stype, bufs[..m]);
      if n == m && FileSize(stype, bufs[m]).Some? then m + 1 else n
  }

  /** The length of a section whose buffers the library places. */
  function Packed(stype: u32, bufs: seq<Buf>): nat {
    if bufs == [] then 0
    else
      var m := |bufs| - 1;
      AlignUp(Packed(stype, bufs[..m]), bufs[m].align) + Space(stype, bufs[m])
  }

  function Start(stype: u32, bufs: seq<Buf>, j: nat): nat
    requires j < |bufs|
  {
    AlignUp(Packed(stype, bufs[..j]), bufs[j].align)
  }

  function MaxAlign(bufs: seq<Buf>): (a: nat)
    ensures a >= 1 && forall j :: 0 <= j < |bufs| ==> bufs[j].align <= a
    ensures a == 1 || exists j :: 0 <= j < |bufs| && bufs[j].align == a
  {
    if bufs == [] then 1 else Max(MaxAlign(bufs[..|bufs| - 1]), bufs[|bufs| - 1].align)
  }

  function PlacedBuf(stype: u32, bufs: seq<Buf>, j: nat): Buf
    requires j < |bufs|
  {
    var off := Start(stype, bufs, j);
    bufs[j].(off := off, dirty := bufs[j].dirty || bufs[j].off != off)
  }

  /** The buffers with the first `n` of them placed. */
  function Placed(stype: u32, bufs: seq<Buf>, n: nat): (r: seq<Buf>)
    requires n <= |bufs|
    ensures |r| == |bufs|
    ensures forall j {:trigger r[j]} :: 0 <= j < |bufs| ==> r[j] == if j < n then PlacedBuf(stype, bufs, j) else bufs[j]
  {
    seq(|bufs|, j requires 0 <= j < |bufs| => if j < n then PlacedBuf(stype, bufs, j) else bufs[j])
  }

  /** The length of a section whose buffers the program placed. */
  function Reach(stype: u32, bufs: seq<Buf>): (r: nat)
    ensures forall j :: 0 <= j < |bufs| ==> bufs[j].off + Space(stype, bufs[j]) <= r
  {
    if bufs == [] then 0
    else
      var m := |bufs| - 1;
      Max(Reach(stype, bufs[..m]), bufs[m].off + Space(stype, bufs[m]))
  }

  predicate AnyDirty(bufs: seq<Buf>) { exists j :: 0 <= j < |bufs| && bufs[j].dirty }

  // ---- Sections ---------------------------------------------------------------------------------------

  /** Sections that the layout passes over: the first one and those of type null. */
  predicate Skipped(k: nat, s: Section) { k == 0 || s.shdr.stype == SHT_NULL }

  /** Where the file image of a section ends, by its header. */
  function End(h: Shdr): nat { h.offset + if h.stype == SHT_NOBITS then 0 else h.size }

  predicate Conflict(g: Shdr, h: Shdr) { End(g) > h.offset && End(h) > g.offset }

  /** The running offset after the first `k` sections. */
  function Off(manual: bool, secs: seq<Section>, start: nat, k: nat): (r: nat)
    requires k <= |secs|
    ensures r >= start
  {
    if k == 0 then start
    else
      var off, s := Off(manual, secs, start, k - 1), secs[k - 1];
      if Skipped(k - 1, s) then off
      else if manual then Max(off, End(s.shdr))
      else AlignUp(off, MaxAlign(s.bufs)) + if s.shdr.stype == SHT_NOBITS then 0 else Packed(s.shdr.stype, s.bufs)
  }

  /** The entry size is set unless the program has chosen one. */
  function WithEntSize(s: Section): Section {
    var h := s.shdr;
    var e := if h.entsize == 0 && EntSize(h.stype) > 1 then EntSize(h.stype) else h.entsize;
    s.(shdr := h.(entsize := e), shdrDirty := s.shdrDirty || e != h.entsize)
  }

  /** The header of a section that is placed at `off`. */
  function At(s: Section, off: nat, len: nat, algn: nat): Section {
    var h := s.shdr;
    s.(shdr := h.(offset := Wrap(off), size := Wrap(len), addralign := Wrap(algn)),
       shdrDirty := s.shdrDirty || off != h.offset || len != h.size || algn != h.addralign)
  }

  /** What the loop does with section `k`. */
  function LaidSection(manual: bool, secs: seq<Section>, start: nat, k: nat): (r: Section)
    requires k < |secs|
  {
    var s := secs[k];
    var h := s.shdr;
    if k == 0 then
      var g := h.(entsize := 0);
      var g := if manual then g else g.(offset := 0, size := 0, addralign := 0);
      s.(shdr := g, shdrDirty := s.shdrDirty || g != h)
    else if h.stype == SHT_NULL then s
    else
      if manual then WithEntSize(s)
      else
        At(WithEntSize(s), AlignUp(Off(manual, secs, start, k), MaxAlign(s.bufs)), Packed(h.stype, s.bufs), MaxAlign(s.bufs))
          .(bufs := Placed(h.stype, s.bufs, |s.bufs|))
  }

  /** What is wrong with section `k`. */
  function Problem(manual: bool, allowed: bool, secs: seq<Section>, start: nat, k: nat): Option<Error>
    requires k < |secs|
  {
    var s := secs[k];
    if Skipped(k, s) then None
    else if Sized(s.shdr.stype, s.bufs) < |s.bufs| then Some(BadData)
    else if !manual then None
    else if Reach(s.shdr.stype, s.bufs) > s.shdr.size then Some(SectionTooSmall)
    else if !allowed && s.shdr.offset < Off(manual, secs, start, k)
            && exists i :: 0 <= i < k && Conflict(s.shdr, secs[i].shdr) then Some(SectionOverlap)
    else None
  }

  /** Section `k` when the loop stops there. */
  function Partial(manual: bool, secs: seq<Section>, k: nat): Section
    requires k < |secs|
  {
    var s := secs[k];
    var t := s.shdr.stype;
    if Sized(t, s.bufs) < |s.bufs| then
      if manual then s else s.(bufs := Placed(t, s.bufs, Sized(t, s.bufs)))
    else WithEntSize(s)
  }

  /** The number of sections before the first one with a problem. */
  function Good(manual: bool, allowed: bool, secs: seq<Section>, start: nat, n: nat): (k: nat)
    requires n <= |secs|
    ensures k <= n
    ensures forall i :: 0 <= i < k ==> Problem(manual, allowed, secs, start, i).None?
    ensures k < n ==> Problem(manual, allowed, secs, start, k).Some?
  {
    if n == 0 then 0
    else
      var k := Good(manual, allowed, secs, start, n - 1);
      if k == n - 1 && Problem(manual, allowed, secs, start, n - 1).None? then n else k
  }

  // ---- The whole layout -------------------------------------------------------------------------------

  function PhdrEnd(d: Desc): nat {
    if |d.phdrs| == 0 then 52
    else if d.manual then Max(52, d.ehdr.phoff + 32 * |d.phdrs|)
    else 52 + 32 * |d.phdrs|
  }

  /** The ELF header before the sections are laid out. */
  function EarlyEhdr(d: Desc): Ehdr {
    d.ehdr.(ehsize := 52,
            phoff := if d.manual then d.ehdr.phoff else if |d.phdrs| == 0 then 0 else 52,
            phnum := if |d.phdrs| >= PN_XNUM then PN_XNUM else |d.phdrs|,
            phentsize := if |d.phdrs| == 0 then 0 else 32)
  }

  /** The sections with the number of program headers in the first one if it does not fit the header. */
  function EarlySections(d: Desc): (secs: seq<Section>)
    requires Proper(d)
    ensures |secs| == |d.sections|
  {
    if |d.phdrs| >= PN_XNUM then
      var s := d.sections[0];
      d.sections[0 := s.(shdr := s.shdr.(info := |d.phdrs|), shdrDirty := s.shdrDirty || s.shdr.info != |d.phdrs|)]
    else d.sections
  }

  /** A descriptor as the library's other operations leave it: counts are 32-bit numbers, and the
      first section is there when it has to hold the number of program headers. */
  predicate Proper(d: Desc) {
    && |d.ehdr.ident| == 16
    && |d.phdrs| < 0x1_0000_0000 && |d.sections| < 0x1_0000_0000
    && (|d.phdrs| >= PN_XNUM ==> d.sections != [])
  }

  predicate EncodingOk(enc: byte) { enc <= 2 }

  function FileEncoding(d: Desc, host: Encoding): byte
    requires |d.ehdr.ident| == 16
  {
    if d.ehdr.ident[5] == 0 then (if host == Lsb then 1 else 2) else d.ehdr.ident[5]
  }

  function FinalOff(d: Desc, off: nat): nat {
    if d.sections == [] then off
    else if d.manual then Max(off, d.ehdr.shoff + 40 * |d.sections|)
    else AlignUp(off, 4) + 40 * |d.sections|
  }

  /** The ELF header after the layout; `off` is where the section header table goes. */
  function FinalEhdr(d: Desc, host: Encoding, off: nat): Ehdr
    requires |d.ehdr.ident| == 16
  {
    EarlyEhdr(d).(shoff := if d.manual then d.ehdr.shoff else if d.sections == [] then 0 else Wrap(AlignUp(off, 4)),
                  shnum := if |d.sections| >= SHN_LORESERVE then 0 else |d.sections|,
                  shentsize := if d.sections == [] then 0 else 40,
                  ident := [0x7f, 0x45, 0x4c, 0x46, 1, FileEncoding(d, host), 1] + d.ehdr.ident[7..],
                  version := 1)
  }

  /** The sections with their number in the first one if it does not fit the header. */
  function FinalSections(secs: seq<Section>): (r: seq<Section>)
    requires |secs| < 0x1_0000_0000
    ensures |r| == |secs|
  {
    if |secs| >= SHN_LORESERVE then
      var s := secs[0];
      secs[0 := s.(shdr := s.shdr.(size := |secs|), shdrDirty := s.shdrDirty || s.shdr.size != |secs|)]
    else secs
  }

  function LaidSections(manual: bool, secs: seq<Section>, start: nat): (r: seq<Section>)
    ensures |r| == |secs|
    ensures forall k {:trigger r[k]} :: 0 <= k < |secs| ==> r[k] == LaidSection(manual, secs, start, k)
  {
    seq(|secs|, k requires 0 <= k < |secs| => LaidSection(manual, secs, start, k))
  }

  /** The sections when the loop stops at section `n`. */
  function StoppedSections(manual: bool, secs: seq<Section>, start: nat, n: nat): (r: seq<Section>)
    requires n < |secs|
    ensures |r| == |secs|
  {
    seq(|secs|, k requires 0 <= k < |secs| =>
      if k < n then LaidSection(manual, secs, start, k) else if k == n then Partial(manual, secs, k) else secs[k])
  }

  predicate SectionDirty(k: nat, s: Section) {
    s.scnDirty || s.shdrDirty || (!Skipped(k, s) && AnyDirty(s.bufs))
  }

  /** Something that the file depends on has changed since it was last written. */
  predicate IsDirty(d: Desc) {
    d.elfDirty || d.phdrDirty || d.ehdrDirty || exists k :: 0 <= k < |d.sections| && SectionDirty(k, d.sections[k])
  }

  /** The descriptor once all sections are laid out, as `secs`, and `off` is where they end. */
  function FinishedDesc(d: Desc, host: Encoding, secs: seq<Section>, off: nat): Desc
    requires |d.ehdr.ident| == 16 && |secs| < 0x1_0000_0000
  {
    var ehdr := FinalEhdr(d, host, off);
    var tall := !d.manual && secs != [] && AlignUp(off, 4) > 0xffff_ffff;
    d.(ehdr := ehdr, ehdrDirty := d.ehdrDirty || ehdr != d.ehdr || tall, sections := FinalSections(secs))
  }

  function Finished(d: Desc, host: Encoding, secs: seq<Section>, off: nat): Outcome
    requires |d.ehdr.ident| == 16 && |secs| < 0x1_0000_0000
  {
    var done := FinishedDesc(d, host, secs, off);
    Outcome(done, Laid(FinalOff(d, off), IsDirty(done)))
  }

  function Begun(d: Desc): Desc
    requires Proper(d)
  {
    d.(ehdr := EarlyEhdr(d), ehdrDirty := d.ehdrDirty || EarlyEhdr(d) != d.ehdr, sections := EarlySections(d))
  }

  /** `_elf32_layout` */
  function LayoutOf(d: Desc, host: Encoding): Outcome
    requires Proper(d)
  {
    if d.ehdr.version > 1 then Outcome(d, Failed(UnknownVersion))
    else if !EncodingOk(d.ehdr.ident[5]) then Outcome(d, Failed(UnknownEncoding))
    else
      var start, secs := PhdrEnd(d), EarlySections(d);
      var n := Good(d.manual, d.overlapAllowed, secs, start, |secs|);
      if n < |secs| then
        Outcome(Begun(d).(sections := StoppedSections(d.manual, secs, start, n)),
                Failed(Problem(d.manual, d.overlapAllowed, secs, start, n).value))
      else Finished(d, host, LaidSections(d.manual, secs, start), Off(d.manual, secs, start, |secs|))
  }
}
