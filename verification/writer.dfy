/** `_elf32_write` and `elf_update` of libelf/update.c. */
module Writer {
  import opened Words
  import opened ElfTypes
  import opened Codec
  import opened Puts
  import opened Records
  import opened Versions
  import opened VersionOffsets
  import opened Layout
  import opened Pieces
  import opened WrittenFile

  /** The space that a buffer needs in the output. */
  function Room(b: Buf): nat {
    var n := Layout.XlateSize(FileType(b.dtype), b.size);
    if n.Some? then n.value else 0
  }

  lemma RoomIsLength(host: Encoding, enc: Encoding, b: Buf)
    requires BufOk(host, b)
    ensures Length(BufBody(host, enc, b)) == Room(b)
  {
    hide Total, Xlate;
    ElementSizes(FileType(b.dtype));
  }

  /** No object in memory is larger. */
  const MEMORY := 0x8000_0000_0000_0000

  /** Buffers hold as many bytes as they say, and the headers have the sizes that the layout gives them. */
  predicate Sound(d: Desc) {
    && |d.ehdr.ident| == 16
    && (d.sections != [] ==> d.ehdr.shentsize == 40)
    && forall k, j {:trigger d.sections[k].bufs[j]} :: 0 <= k < |d.sections| && 0 <= j < |d.sections[k].bufs| ==>
         d.sections[k].bufs[j].mem.Some? ==> |d.sections[k].bufs[j].mem.value| == d.sections[k].bufs[j].size < MEMORY
  }

  /** The output buffer has room for everything, where the headers say. */
  predicate Roomy(d: Desc, n: nat) {
    && 52 <= n
    && (d.phdrs != [] ==> d.ehdr.phoff + 32 * |d.phdrs| <= n)
    && (d.sections != [] ==> d.ehdr.shoff + 40 * |d.sections| <= n)
    && forall k, j :: 0 <= k < |d.sections| && 0 <= j < DataCount(d, k) ==>
         d.sections[k].shdr.offset + d.sections[k].bufs[j].off + Room(d.sections[k].bufs[j]) <= n
  }

  /** The output that a buffer leaves which cannot be written: records are translated up to the one
      where the format is wrong, and nothing else is. */
  function Left(host: Encoding, enc: Encoding, out: seq<byte>, pos: nat, b: Buf): seq<byte>
    requires pos + Room(b) <= |out| && (b.mem.Some? ==> |b.mem.value| == b.size)
  {
    if b.mem.None? || b.version != 1 || !IsVersion(b.dtype) then out
    else ApplyOne(out, Put(pos, Pass(ShapeOf(b.dtype), host, enc, b.mem.value, out[pos..pos + b.size])))
  }

  /** One buffer. */
  method WriteBuf(out: array<byte>, pos: nat, b: Buf, host: Encoding, enc: Encoding) returns (ok: bool)
    requires pos + Room(b) <= out.Length
    requires b.mem.Some? ==> |b.mem.value| == b.size < MEMORY
    modifies out
    ensures ok <==> BufOk(host, b)
    ensures ok ==> pos + Length(BufBody(host, enc, b)) <= out.Length
                   && out[..] == WriteOne(host, enc, old(out[..]), Piece(pos, BufBody(host, enc, b)))
    ensures !ok ==> out[..] == Left(host, enc, old(out[..]), pos, b)
  {
    hide Total, Xlate, Pass, FullWalk, WalkSteady;
    if b.size == 0 {
      assert ApplyOne(out[..], Put(pos, [])) == out[..];
      return true;
    }
    if b.mem == None || b.version != 1 || b.dtype == T_SXWORD || b.dtype == T_XWORD {
      return false;
    }
    if IsVersion(b.dtype) {
      FormatsAreNarrow();
      WideIsSteady(ShapeOf(b.dtype), host, b.mem.value, 0);
      ok := Translate(true, ShapeOf(b.dtype), out, pos, b.mem.value, host, enc);
    } else {
      ElementSizes(FileType(b.dtype));
      Copy(Records.Widths(FileType(b.dtype)), host, enc, out, pos, b.mem.value);
      ok := true;
    }
  }

  /** The program header table. */
  method WritePhdrs(out: array<byte>, pos: nat, ps: seq<Phdr>, enc: Encoding)
    requires pos + 32 * |ps| <= out.Length
    modifies out
    ensures out[..] == ApplyOne(old(out[..]), Put(pos, EncodePhdrs(enc, ps)))
  {
    hide EncodePhdr;
    ghost var before := out[..];
    ApplyNothing(before, pos);
    for i := 0 to |ps|
      invariant out[..] == ApplyOne(before, Put(pos, EncodePhdrs(enc, ps[..i])))
    {
      assert ps[..i + 1][..i] == ps[..i];
      ApplyNext(before, pos, EncodePhdrs(enc, ps[..i]), EncodePhdr(enc, ps[i]));
      StorePut(out, Put(pos + 32 * i, EncodePhdr(enc, ps[i])));
    }
    assert ps[..|ps|] == ps;
  }

  lemma Fit1(d: Desc, host: Encoding, n: nat, labels: seq<Label>, l: Label)
    requires Fitting(d, host, n, labels) && LabelOk(d, host, l)
    requires PieceOf(d, host, l).pos + Length(PieceOf(d, host, l).body) <= n
    ensures Fitting(d, host, n, labels + [l])
  {
    hide LabelOk, PieceOf, Length;
  }

  lemma Write1(d: Desc, host: Encoding, buf: seq<byte>, labels: seq<Label>, l: Label)
    requires Fitting(d, host, |buf|, labels + [l]) && Fitting(d, host, |buf|, labels) && LabelOk(d, host, l)
    ensures PieceOf(d, host, l).pos + Length(PieceOf(d, host, l).body) <= |buf|
    ensures WriteAll(d, host, buf, labels + [l])
         == WriteOne(host, EncodingOf(d.ehdr), WriteAll(d, host, buf, labels), PieceOf(d, host, l))
  {
    hide LabelOk, PieceOf, Length, WriteOne, EncodingOf;
    var all := labels + [l];
    assert all[..|all| - 1] == labels && all[|all| - 1] == l;
  }

  /** Part `l` is written next. */
  lemma NextPart(d: Desc, host: Encoding, buf: seq<byte>, labels: seq<Label>, l: Label)
    requires Fitting(d, host, |buf|, labels) && LabelOk(d, host, l)
    requires PieceOf(d, host, l).pos + Length(PieceOf(d, host, l).body) <= |buf|
    ensures Fitting(d, host, |buf|, labels + [l])
    ensures WriteAll(d, host, buf, labels + [l])
         == WriteOne(host, EncodingOf(d.ehdr), WriteAll(d, host, buf, labels), PieceOf(d, host, l))
  {
    hide LabelOk, PieceOf, Length, WriteOne, EncodingOf, Fitting, WriteAll;
    Fit1(d, host, |buf|, labels, l);
    Write1(d, host, buf, labels, l);
  }

  /** After the given parts the writer has stopped at buffer `j` of section `k`, which cannot be written. */
  ghost predicate Stopped(d: Desc, host: Encoding, buf: seq<byte>, labels: seq<Label>, k: nat, j: nat, out: seq<byte>)
    requires Sound(d) && Roomy(d, |buf|)
  {
    && Fitting(d, host, |buf|, labels) && k < |d.sections| && j < DataCount(d, k) && !LabelOk(d, host, Data(k, j))
    && var s := d.sections[k];
       out == Left(host, EncodingOf(d.ehdr), WriteAll(d, host, buf, labels), s.shdr.offset + s.bufs[j].off, s.bufs[j])
  }

  /** The buffers of section `k`, after its header. */
  method WriteData(out: array<byte>, d: Desc, k: nat, host: Encoding, ghost buf: seq<byte>, ghost labels: seq<Label>)
    returns (ok: bool, ghost stop: nat)
    requires Sound(d) && Roomy(d, out.Length) && k < |d.sections| && |buf| == out.Length
    requires Fitting(d, host, |buf|, labels) && out[..] == WriteAll(d, host, buf, labels)
    modifies out
    ensures ok <==> forall j :: 0 <= j < DataCount(d, k) ==> LabelOk(d, host, Data(k, j))
    ensures ok ==> Fitting(d, host, |buf|, labels + DataLabels(k, DataCount(d, k)))
                   && out[..] == WriteAll(d, host, buf, labels + DataLabels(k, DataCount(d, k)))
    ensures !ok ==> Stopped(d, host, buf, labels + DataLabels(k, stop), k, stop, out[..])
  {
    hide WriteAll, Fitting, BufOk, Room, BufBody, WriteOne, Length, Left;
    var n := DataCount(d, k);
    stop := 0;
    assert labels + DataLabels(k, 0) == labels;
    for j := 0 to n
      invariant Fitting(d, host, |buf|, labels + DataLabels(k, j))
      invariant out[..] == WriteAll(d, host, buf, labels + DataLabels(k, j))
      invariant forall i :: 0 <= i < j ==> LabelOk(d, host, Data(k, i))
    {
      var s := d.sections[k];
      ok := WriteBuf(out, s.shdr.offset + s.bufs[j].off, s.bufs[j], host, EncodingOf(d.ehdr));
      if !ok {
        assert !LabelOk(d, host, Data(k, j));
        return false, j;
      }
      NextPart(d, host, buf, labels + DataLabels(k, j), Data(k, j));
      assert labels + DataLabels(k, j + 1) == labels + DataLabels(k, j) + [Data(k, j)];
    }
    return true, n;
  }

  /** The parts before the sections. */
  method WriteHeads(out: array<byte>, d: Desc, host: Encoding)
    requires Sound(d) && Roomy(d, out.Length)
    modifies out
    ensures Fitting(d, host, out.Length, HeadLabels(d)) && out[..] == WriteAll(d, host, old(out[..]), HeadLabels(d))
  {
    hide WriteAll, Fitting, BufOk, Room, BufBody, EncodeEhdr;
    ghost var buf := out[..];
    var enc := EncodingOf(d.ehdr);
    NoParts(d, host, buf);
    StorePut(out, Put(0, EncodeEhdr(enc, d.ehdr)));
    NextPart(d, host, buf, [], TheEhdr);
    assert [] + [TheEhdr] == [TheEhdr];
    assert HeadLabels(d) == if d.phdrs == [] then [TheEhdr] else [TheEhdr] + [ThePhdrs];
    if |d.phdrs| != 0 {
      WritePhdrs(out, d.ehdr.phoff, d.phdrs, enc);
      NextPart(d, host, buf, [TheEhdr], ThePhdrs);
    }
  }

  lemma NoParts(d: Desc, host: Encoding, buf: seq<byte>)
    requires |d.ehdr.ident| == 16
    ensures Fitting(d, host, |buf|, []) && WriteAll(d, host, buf, []) == buf
  {
  }

  /** The output up to section `n`. */
  function LabelsTo(d: Desc, n: nat): seq<Label>
    requires n <= |d.sections|
  {
    HeadLabels(d) + SectionLabels(d, n)
  }

  lemma NextLabels(d: Desc, k: nat)
    requires k < |d.sections|
    ensures LabelsTo(d, k + 1) == LabelsTo(d, k) + [AShdr(k)] + DataLabels(k, DataCount(d, k))
  {
  }

  lemma AllParts(d: Desc, host: Encoding, n: nat)
    requires Fitting(d, host, n, Labels(d))
    ensures Writable(d, host)
  {
    hide LabelOk, PieceOf, Length, Labels;
    LabelsAre(d);
    forall l | IsLabel(d, l) ensures LabelOk(d, host, l) {
      assert l in Labels(d);
    }
  }

  lemma HeaderRoom(d: Desc, host: Encoding, n: nat, k: nat)
    requires Sound(d) && Roomy(d, n) && k < |d.sections|
    ensures |d.ehdr.ident| == 16 && d.ehdr.shoff + k * d.ehdr.shentsize + 40 <= n
    ensures LabelOk(d, host, AShdr(k))
    ensures PieceOf(d, host, AShdr(k))
         == Piece(d.ehdr.shoff + k * d.ehdr.shentsize, Body.Plain(EncodeShdr(EncodingOf(d.ehdr), d.sections[k].shdr)))
  {
    hide EncodeShdr, BufOk, BufBody, Room;
    assert k * d.ehdr.shentsize == 40 * k;
  }

  lemma PlainWritten(host: Encoding, enc: Encoding, buf: seq<byte>, pos: nat, b: seq<byte>)
    requires pos + |b| <= |buf|
    ensures WriteOne(host, enc, buf, Piece(pos, Body.Plain(b))) == ApplyOne(buf, Put(pos, b))
  {
    hide ApplyOne;
  }

  /** A section's header and buffers. */
  method WriteSection(out: array<byte>, d: Desc, k: nat, host: Encoding, ghost buf: seq<byte>) returns (ok: bool, ghost stop: nat)
    requires Sound(d) && Roomy(d, out.Length) && k < |d.sections| && |buf| == out.Length
    requires Fitting(d, host, |buf|, LabelsTo(d, k)) && out[..] == WriteAll(d, host, buf, LabelsTo(d, k))
    modifies out
    ensures !ok ==> Stopped(d, host, buf, LabelsTo(d, k) + [AShdr(k)] + DataLabels(k, stop), k, stop, out[..])
    ensures ok ==> Fitting(d, host, |buf|, LabelsTo(d, k + 1)) && out[..] == WriteAll(d, host, buf, LabelsTo(d, k + 1))
  {
    hide WriteAll, Fitting, BufOk, Room, BufBody, LabelsTo, EncodeShdr, Sound, Roomy, Stopped, WriteOne, ApplyOne, PieceOf, EncodingOf;
    HeaderRoom(d, host, out.Length, k);
    PlainWritten(host, EncodingOf(d.ehdr), out[..], d.ehdr.shoff + k * d.ehdr.shentsize,
                 EncodeShdr(EncodingOf(d.ehdr), d.sections[k].shdr));
    StorePut(out, Put(d.ehdr.shoff + k * d.ehdr.shentsize, EncodeShdr(EncodingOf(d.ehdr), d.sections[k].shdr)));
    NextPart(d, host, buf, LabelsTo(d, k), AShdr(k));
    ok, stop := WriteData(out, d, k, host, buf, LabelsTo(d, k) + [AShdr(k)]);
    NextLabels(d, k);
  }

  /** The parts before buffer `j` of section `k`, in the order in which they are written. */
  function LabelsBefore(d: Desc, k: nat, j: nat): seq<Label>
    requires k < |d.sections|
  {
    LabelsTo(d, k) + [AShdr(k)] + DataLabels(k, j)
  }

  lemma {:induction false} SectionsAreFirst(d: Desc, k: nat, n: nat)
    requires k <= n <= |d.sections|
    ensures SectionLabels(d, k) <= SectionLabels(d, n)
  {
    if k < n { SectionsAreFirst(d, k, n - 1); }
  }

  lemma LabelsAreFirst(d: Desc, k: nat)
    requires k <= |d.sections|
    ensures LabelsTo(d, k) <= Labels(d)
  {
    hide SectionLabels, HeadLabels;
    SectionsAreFirst(d, k, |d.sections|);
  }

  lemma PartPrefix<T>(before: seq<T>, rest: seq<T>, all: seq<T>, j: nat)
    requires before + rest <= all && j < |rest|
    ensures before + rest[..j] + [rest[j]] <= all
  {
    assert before + rest[..j] + [rest[j]] == (before + rest)[..|before| + j + 1];
  }

  /** They are the parts up to that buffer. */
  lemma LabelsBeforeAre(d: Desc, k: nat, j: nat)
    requires k < |d.sections| && j < DataCount(d, k)
    ensures LabelsBefore(d, k, j) + [Data(k, j)] <= Labels(d)
  {
    hide LabelsTo, Labels, DataCount;
    var rest := DataLabels(k, DataCount(d, k));
    assert rest[..j] == DataLabels(k, j) && rest[j] == Data(k, j);
    NextLabels(d, k);
    LabelsAreFirst(d, k + 1);
    PartPrefix(LabelsTo(d, k) + [AShdr(k)], rest, Labels(d), j);
  }

  /** Everything is written, in order, or the writer stops at the first buffer that cannot be. */
  method WriteParts(out: array<byte>, d: Desc, host: Encoding) returns (ok: bool)
    requires Sound(d) && Roomy(d, out.Length)
    modifies out
    ensures ok <==> Writable(d, host)
    ensures ok ==> Fitting(d, host, out.Length, Labels(d)) && out[..] == WriteAll(d, host, old(out[..]), Labels(d))
    ensures !ok ==> exists k: nat, j: nat :: k < |d.sections| && j < DataCount(d, k)
                      && LabelsBefore(d, k, j) + [Data(k, j)] <= Labels(d)
                      && Stopped(d, host, old(out[..]), LabelsBefore(d, k, j), k, j, out[..])
  {
    hide WriteAll, Fitting, LabelsTo, Writable, Roomy, Sound, HeadLabels, Labels, Stopped;
    ghost var buf := out[..];
    WriteHeads(out, d, host);
    NoSections(d);
    for k := 0 to |d.sections|
      invariant Fitting(d, host, |buf|, LabelsTo(d, k)) && out[..] == WriteAll(d, host, buf, LabelsTo(d, k))
    {
      ghost var stop: nat;
      ok, stop := WriteSection(out, d, k, host, buf);
      if !ok {
        StoppedEarly(d, host, buf, LabelsBefore(d, k, stop), k, stop, out[..]);
        return;
      }
    }
    AllSections(d);
    AllParts(d, host, out.Length);
    return true;
  }

  lemma StoppedEarly(d: Desc, host: Encoding, buf: seq<byte>, labels: seq<Label>, k: nat, j: nat, out: seq<byte>)
    requires Sound(d) && Roomy(d, |buf|) && Stopped(d, host, buf, labels, k, j, out)
    ensures k < |d.sections| && j < DataCount(d, k) && !Writable(d, host)
    ensures LabelsBefore(d, k, j) + [Data(k, j)] <= Labels(d)
  {
    hide Left, BufOk, Roomy;
    LabelsBeforeAre(d, k, j);
  }

  lemma NoSections(d: Desc)
    ensures LabelsTo(d, 0) == HeadLabels(d)
  {
  }

  lemma AllSections(d: Desc)
    ensures LabelsTo(d, |d.sections|) == Labels(d)
  {
  }

  // ---- The layout leaves room for the writer ---------------------------------------------------------------

  /** Buffers hold as many bytes as they say. */
  predicate BufsSound(d: Desc) {
    forall k, j {:trigger d.sections[k].bufs[j]} :: 0 <= k < |d.sections| && 0 <= j < |d.sections[k].bufs| ==>
      d.sections[k].bufs[j].mem.Some? ==> |d.sections[k].bufs[j].mem.value| == d.sections[k].bufs[j].size < MEMORY
  }

  lemma RoomIsSpace(t: u32, b: Buf)
    requires FileSize(t, b).Some? && t != SHT_NOBITS
    ensures Room(b) == Space(t, b)
  {
    hide Total;
    if b.dtype >= T_NUM {
      WholeOfOne(b.size);
    }
  }

  /** The buffers of section `k` after the layout end before the running offset. */
  lemma SectionRoomy(d: Desc, host: Encoding, k: nat, j: nat)
    requires Layout.Proper(d) && LayoutOf(d, host).result.Laid? && BufsSound(d) && k < |d.sections|
    requires |LayoutOf(d, host).desc.sections| == |d.sections| && j < DataCount(LayoutOf(d, host).desc, k)
    ensures var s := LayoutOf(d, host).desc.sections[k];
            && s.shdr.offset + s.bufs[j].off + Room(s.bufs[j]) <= Off(d.manual, EarlySections(d), PhdrEnd(d), k + 1)
            && (s.bufs[j].mem.Some? ==> |s.bufs[j].mem.value| == s.bufs[j].size < MEMORY)
  {
    hide AlignUp, Packed, MaxAlign, Sized, Room, Space, Reach, FileSize, PhdrEnd, Start, FinalEhdr, FinalOff, IsDirty, StoppedSections;
    var start, secs := PhdrEnd(d), EarlySections(d);
    var s, t := secs[k], secs[k].shdr.stype;
    assert s.bufs == d.sections[k].bufs;
    assert LayoutOf(d, host).desc.sections[k] == LaidSection(d.manual, secs, start, k);
    assert Problem(d.manual, d.overlapAllowed, secs, start, k).None?;
    assert FileSize(t, s.bufs[j]).Some? by { AllSized(t, s.bufs, j); }
    RoomIsSpace(t, s.bufs[j]);
    if d.manual {
      InReach(t, s.bufs, j);
    } else {
      Allocation.BufferInside(t, s.bufs, j);
      assert Room(PlacedBuf(t, s.bufs, j)) == Room(s.bufs[j]) by { SameRoom(s.bufs[j], PlacedBuf(t, s.bufs, j)); }
      WrapBelow(AlignUp(Off(false, secs, start, k), MaxAlign(s.bufs)));
    }
  }

  lemma SameRoom(a: Buf, b: Buf)
    requires a.dtype == b.dtype && a.size == b.size
    ensures Room(a) == Room(b)
  {
  }

  lemma AllSized(t: u32, bufs: seq<Buf>, j: nat)
    requires Sized(t, bufs) == |bufs| && j < |bufs|
    ensures FileSize(t, bufs[j]).Some?
  {
  }

  lemma InReach(t: u32, bufs: seq<Buf>, j: nat)
    requires j < |bufs|
    ensures bufs[j].off + Space(t, bufs[j]) <= Reach(t, bufs)
  {
  }

  lemma WrapBelow(x: nat)
    ensures Wrap(x) <= x
  {
  }

  lemma LaidIsRoomy(d: Desc, host: Encoding)
    requires Layout.Proper(d) && LayoutOf(d, host).result.Laid? && BufsSound(d)
    ensures var r := LayoutOf(d, host);
            Sound(r.desc) && Roomy(r.desc, r.result.size)
  {
    hide AlignUp, Room, Off, LayoutOf, EarlySections, Problem;
    HeadersRoomy(d, host);
    var r := LayoutOf(d, host);
    forall k, j | 0 <= k < |d.sections| && 0 <= j < DataCount(r.desc, k)
      ensures r.desc.sections[k].shdr.offset + r.desc.sections[k].bufs[j].off + Room(r.desc.sections[k].bufs[j]) <= r.result.size
    {
      SectionRoomy(d, host, k, j);
      Allocation.OffGrows(d.manual, EarlySections(d), PhdrEnd(d), k + 1, |d.sections|);
    }
    forall k, j {:trigger r.desc.sections[k].bufs[j]} | 0 <= k < |r.desc.sections| && 0 <= j < |r.desc.sections[k].bufs|
      ensures r.desc.sections[k].bufs[j].mem.Some? ==> |r.desc.sections[k].bufs[j].mem.value| == r.desc.sections[k].bufs[j].size < MEMORY
    {
      SoundBuf(d, host, k, j);
    }
  }

  lemma SoundBuf(d: Desc, host: Encoding, k: nat, j: nat)
    requires Layout.Proper(d) && LayoutOf(d, host).result.Laid? && BufsSound(d) && k < |LayoutOf(d, host).desc.sections|
    requires j < |LayoutOf(d, host).desc.sections[k].bufs|
    ensures var b := LayoutOf(d, host).desc.sections[k].bufs[j];
            b.mem.Some? ==> |b.mem.value| == b.size < MEMORY
  {
    hide AlignUp, Packed, MaxAlign, Sized, PhdrEnd, Start, FinalEhdr, FinalOff, IsDirty, StoppedSections, Off, Problem;
    var start, secs := PhdrEnd(d), EarlySections(d);
    assert LayoutOf(d, host).desc.sections[k].bufs == LaidSection(d.manual, secs, start, k).bufs;
    assert secs[k].bufs == d.sections[k].bufs;
  }

  lemma HeadersRoomy(d: Desc, host: Encoding)
    requires Layout.Proper(d) && LayoutOf(d, host).result.Laid?
    ensures var r := LayoutOf(d, host);
            && |r.desc.sections| == |d.sections| && |r.desc.ehdr.ident| == 16
            && (d.sections != [] ==> r.desc.ehdr.shentsize == 40)
            && r.desc.phdrs == d.phdrs
            && 52 <= r.result.size
            && (d.phdrs != [] ==> r.desc.ehdr.phoff + 32 * |d.phdrs| <= r.result.size)
            && (d.sections != [] ==> r.desc.ehdr.shoff + 40 * |d.sections| <= r.result.size)
            && Off(d.manual, EarlySections(d), PhdrEnd(d), |d.sections|) <= r.result.size
  {
    hide LaidSections, Good, StoppedSections, Problem, FinalSections, AlignUp, MaxAlign, Packed, Off, EarlySections;
    var off := Off(d.manual, EarlySections(d), PhdrEnd(d), |d.sections|);
    OffAtLeastStart(d.manual, EarlySections(d), PhdrEnd(d), |d.sections|);
    Allocation.AtLeast(off, 4);
    WrapBelow(AlignUp(off, 4));
  }

  lemma OffAtLeastStart(manual: bool, secs: seq<Section>, start: nat, k: nat)
    requires k <= |secs|
    ensures start <= Off(manual, secs, start, k)
  {
  }
}
