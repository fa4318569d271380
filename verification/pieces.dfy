/** What `_elf32_write` of libelf/update.c puts into the output buffer, and where. */
module Pieces {
  import opened Words
  import opened ElfTypes
  import opened Codec
  import opened Puts
  import opened Records
  import opened Versions
  import opened Layout
  import opened Allocation

  /** The parts that are written: headers, and data buffers by section and position. */
  datatype Label = TheEhdr | ThePhdrs | AShdr(k: nat) | Data(k: nat, j: nat)

  /** Translated bytes, or a chain of version records of which only the visited bytes are written. */
  datatype Body = Plain(bytes: seq<byte>) | Chained(f: Shape, src: seq<byte>)

  datatype Piece = Piece(pos: nat, body: Body)

  function Length(b: Body): nat { if b.Plain? then |b.bytes| else |b.src| }

  predicate BodyOk(b: Body) { b.Chained? ==> b.f.Ok() && Total(b.f.head) > 0 }

  // ---- Contents of the pieces -----------------------------------------------------------------------------

  predicate IsVersion(t: nat) { t == T_VDEF || t == T_VNEED }

  function ShapeOf(t: nat): (f: Shape)
    ensures f.Ok() && Total(f.head) > 0
  {
    RecordSizes();
    if t == T_VDEF then VERDEF else VERNEED
  }

  /** Unknown types are written as bytes. */
  function FileType(t: nat): nat { if t < T_NUM then t else T_BYTE }

  /** A buffer that can be written, in byte order `host`. */
  predicate BufOk(host: Encoding, b: Buf) {
    b.size == 0 ||
    (&& b.mem.Some? && |b.mem.value| == b.size && b.version == 1 && b.dtype != T_SXWORD && b.dtype != T_XWORD
     && (IsVersion(b.dtype) ==> FullWalk(ShapeOf(b.dtype), host, b.mem.value, 0).ok))
  }

  function BufBody(host: Encoding, enc: Encoding, b: Buf): (r: Body)
    requires BufOk(host, b)
    ensures BodyOk(r)
  {
    if b.size == 0 then Plain([])
    else if IsVersion(b.dtype) then Chained(ShapeOf(b.dtype), b.mem.value)
    else
      ElementSizes(FileType(b.dtype));
      Plain(Xlate(Records.Widths(FileType(b.dtype)), host, enc, b.mem.value))
  }

  function EncodePhdrs(enc: Encoding, ps: seq<Phdr>): (b: seq<byte>)
    ensures |b| == 32 * |ps|
  {
    if ps == [] then [] else EncodePhdrs(enc, ps[..|ps| - 1]) + EncodePhdr(enc, ps[|ps| - 1])
  }

  function EncodingOf(e: Ehdr): Encoding
    requires |e.ident| == 16
  {
    if e.ident[5] == 1 then Lsb else Msb
  }

  // ---- The pieces of a descriptor ------------------------------------------------------------------------

  /** How many buffers of section `k` are written. */
  function DataCount(d: Desc, k: nat): nat
    requires k < |d.sections|
  {
    var s := d.sections[k];
    if Skipped(k, s) || s.shdr.stype == SHT_NOBITS then 0 else |s.bufs|
  }

  predicate IsLabel(d: Desc, l: Label) {
    match l
    case TheEhdr => true
    case ThePhdrs => d.phdrs != []
    case AShdr(k) => k < |d.sections|
    case Data(k, j) => k < |d.sections| && j < DataCount(d, k)
  }

  predicate LabelOk(d: Desc, host: Encoding, l: Label) {
    && IsLabel(d, l) && |d.ehdr.ident| == 16
    && (l.Data? ==> BufOk(host, d.sections[l.k].bufs[l.j]))
  }

  function PieceOf(d: Desc, host: Encoding, l: Label): (p: Piece)
    requires LabelOk(d, host, l)
    ensures BodyOk(p.body)
  {
    var enc := EncodingOf(d.ehdr);
    match l
    case TheEhdr => Piece(0, Plain(EncodeEhdr(enc, d.ehdr)))
    case ThePhdrs => Piece(d.ehdr.phoff, Plain(EncodePhdrs(enc, d.phdrs)))
    case AShdr(k) => Piece(d.ehdr.shoff + k * d.ehdr.shentsize, Plain(EncodeShdr(enc, d.sections[k].shdr)))
    case Data(k, j) =>
      var s := d.sections[k];
      Piece(s.shdr.offset + s.bufs[j].off, BufBody(host, enc, s.bufs[j]))
  }

  function ExtentOf(p: Piece): Extent { Extent(p.pos, Length(p.body)) }

  /** The bytes that a piece leaves where `before` was. */
  function Image(host: Encoding, enc: Encoding, b: Body, before: seq<byte>): (r: seq<byte>)
    requires BodyOk(b) && |before| == Length(b)
    ensures |r| == |before|
  {
    if b.Plain? then b.bytes else Pass(b.f, host, enc, b.src, before)
  }

  function WriteOne(host: Encoding, enc: Encoding, buf: seq<byte>, p: Piece): (r: seq<byte>)
    requires BodyOk(p.body) && p.pos + Length(p.body) <= |buf|
    ensures |r| == |buf|
  {
    ApplyOne(buf, Put(p.pos, Image(host, enc, p.body, buf[p.pos..p.pos + Length(p.body)])))
  }

  ghost predicate Fitting(d: Desc, host: Encoding, n: nat, labels: seq<Label>) {
    && |d.ehdr.ident| == 16
    && forall i :: 0 <= i < |labels| ==>
      LabelOk(d, host, labels[i]) && PieceOf(d, host, labels[i]).pos + Length(PieceOf(d, host, labels[i]).body) <= n
  }

  /** The buffer after the given parts have been written. */
  ghost function WriteAll(d: Desc, host: Encoding, buf: seq<byte>, labels: seq<Label>): (r: seq<byte>)
    requires Fitting(d, host, |buf|, labels)
    ensures |r| == |buf|
  {
    if labels == [] then buf
    else
      var n := |labels| - 1;
      WriteOne(host, EncodingOf(d.ehdr), WriteAll(d, host, buf, labels[..n]), PieceOf(d, host, labels[n]))
  }

  /** The order of the writer: ELF header, program headers, and each section's header and buffers. */
  function DataLabels(k: nat, n: nat): (r: seq<Label>)
    ensures |r| == n && forall j :: 0 <= j < n ==> r[j] == Data(k, j)
  {
    seq(n, j requires 0 <= j < n => Data(k, j))
  }

  function SectionLabels(d: Desc, n: nat): seq<Label>
    requires n <= |d.sections|
  {
    if n == 0 then [] else SectionLabels(d, n - 1) + [AShdr(n - 1)] + DataLabels(n - 1, DataCount(d, n - 1))
  }

  function HeadLabels(d: Desc): seq<Label> { [TheEhdr] + if d.phdrs == [] then [] else [ThePhdrs] }

  function Labels(d: Desc): seq<Label> { HeadLabels(d) + SectionLabels(d, |d.sections|) }

  // ---- Every part is written once --------------------------------------------------------------------------

  lemma {:induction false} SectionLabelsAre(d: Desc, n: nat)
    requires n <= |d.sections|
    ensures forall l :: l in SectionLabels(d, n) <==> ((l.AShdr? || l.Data?) && l.k < n && IsLabel(d, l))
    ensures forall i, j :: 0 <= i < j < |SectionLabels(d, n)| ==> SectionLabels(d, n)[i] != SectionLabels(d, n)[j]
  {
    if n > 0 {
      SectionLabelsAre(d, n - 1);
      var a, b := SectionLabels(d, n - 1), [AShdr(n - 1)] + DataLabels(n - 1, DataCount(d, n - 1));
      assert SectionLabels(d, n) == a + b;
      forall l: Label | (l.AShdr? || l.Data?) && l.k == n - 1 && IsLabel(d, l) ensures l in b {
        assert l == b[if l.AShdr? then 0 else l.j + 1];
      }
      forall i, j | 0 <= i < j < |a + b| ensures (a + b)[i] != (a + b)[j] {
        if i < |a| {
          assert a[i] in a;
        }
      }
    }
  }

  lemma LabelsAre(d: Desc)
    ensures forall l :: l in Labels(d) <==> IsLabel(d, l)
    ensures forall i, j :: 0 <= i < j < |Labels(d)| ==> Labels(d)[i] != Labels(d)[j]
  {
    SectionLabelsAre(d, |d.sections|);
    var a, b := HeadLabels(d), SectionLabels(d, |d.sections|);
    forall i, j | 0 <= i < j < |a + b| ensures (a + b)[i] != (a + b)[j] {
      if j >= |a| {
        assert b[j - |a|] in b;
      }
    }
    assert a[0] == TheEhdr && (d.phdrs != [] ==> a[1] == ThePhdrs);
  }

  // ---- What is where after writing -------------------------------------------------------------------------

  lemma OneKeeps(host: Encoding, enc: Encoding, buf: seq<byte>, p: Piece, x: Extent)
    requires BodyOk(p.body) && p.pos + Length(p.body) <= |buf| && x.pos + x.len <= |buf|
    requires Apart(ExtentOf(p), x)
    ensures WriteOne(host, enc, buf, p)[x.pos..x.pos + x.len] == buf[x.pos..x.pos + x.len]
  {
  }

  lemma OneWrites(host: Encoding, enc: Encoding, buf: seq<byte>, p: Piece)
    requires BodyOk(p.body) && p.pos + Length(p.body) <= |buf|
    ensures WriteOne(host, enc, buf, p)[p.pos..p.pos + Length(p.body)]
         == Image(host, enc, p.body, buf[p.pos..p.pos + Length(p.body)])
  {
  }

  /** Bytes that no piece covers keep what was there. */
  lemma {:induction false} Untouched(d: Desc, host: Encoding, buf: seq<byte>, labels: seq<Label>, x: Extent)
    requires Fitting(d, host, |buf|, labels) && x.pos + x.len <= |buf|
    requires forall i :: 0 <= i < |labels| ==> Apart(ExtentOf(PieceOf(d, host, labels[i])), x)
    ensures WriteAll(d, host, buf, labels)[x.pos..x.pos + x.len] == buf[x.pos..x.pos + x.len]
  {
    hide WriteOne, PieceOf, LabelOk, BodyOk;
    if labels != [] {
      var n := |labels| - 1;
      Untouched(d, host, buf, labels[..n], x);
      OneKeeps(host, EncodingOf(d.ehdr), WriteAll(d, host, buf, labels[..n]), PieceOf(d, host, labels[n]), x);
    }
  }

  ghost predicate AllApart(d: Desc, host: Encoding, labels: seq<Label>)
    requires forall i :: 0 <= i < |labels| ==> LabelOk(d, host, labels[i])
  {
    forall i, j :: 0 <= i < |labels| && 0 <= j < |labels| && i != j ==>
      Apart(ExtentOf(PieceOf(d, host, labels[i])), ExtentOf(PieceOf(d, host, labels[j])))
  }

  /** Each piece is in the buffer at the end. */
  lemma {:induction false} InPlace(d: Desc, host: Encoding, buf: seq<byte>, labels: seq<Label>, i: nat)
    requires Fitting(d, host, |buf|, labels) && AllApart(d, host, labels) && i < |labels|
    ensures var p := PieceOf(d, host, labels[i]);
            WriteAll(d, host, buf, labels)[p.pos..p.pos + Length(p.body)]
            == Image(host, EncodingOf(d.ehdr), p.body, buf[p.pos..p.pos + Length(p.body)])
  {
    hide WriteOne, PieceOf, LabelOk, BodyOk, Image, EncodingOf, Length;
    var n := |labels| - 1;
    var init, enc := labels[..n], EncodingOf(d.ehdr);
    var p := PieceOf(d, host, labels[i]);
    if i == n {
      Untouched(d, host, buf, init, ExtentOf(p));
      OneWrites(host, enc, WriteAll(d, host, buf, init), p);
    } else {
      assert init[i] == labels[i];
      InPlace(d, host, buf, init, i);
      OneKeeps(host, enc, WriteAll(d, host, buf, init), PieceOf(d, host, labels[n]), ExtentOf(p));
    }
  }
}
