/** What the layout guarantees: a correct allocation of file space, an exact overlap check, and a
    fixed point. */
module Allocation {
  import opened Words
  import opened ElfTypes
  import opened Codec
  import opened Layout

  datatype Extent = Extent(pos: nat, len: nat)

  predicate Apart(a: Extent, b: Extent) { a.pos + a.len <= b.pos || b.pos + b.len <= a.pos }

  // ---- Automatic layout: where the parts go ------------------------------------------------------------

  predicate AutoLaid(d: Desc, host: Encoding) {
    && Proper(d) && !d.manual
    && LayoutOf(d, host).result.Laid?
    && LayoutOf(d, host).result.size < 0x1_0000_0000
  }

  /** Number of parts of the file: the two headers, the sections, the section header table. */
  function Parts(d: Desc): nat { |d.sections| + 3 }

  /** What part `i` of the file occupies, as the headers say. */
  function Part(d: Desc, i: nat): Extent
    requires i < Parts(d)
  {
    if i == 0 then Extent(0, d.ehdr.ehsize)
    else if i == 1 then Extent(d.ehdr.phoff, d.ehdr.phentsize * |d.phdrs|)
    else if i == |d.sections| + 2 then Extent(d.ehdr.shoff, d.ehdr.shentsize * |d.sections|)
    else
      var s := d.sections[i - 2];
      if Skipped(i - 2, s) || s.shdr.stype == SHT_NOBITS then Extent(0, 0) else Extent(s.shdr.offset, s.shdr.size)
  }

  lemma {:induction false} OffGrows(manual: bool, secs: seq<Section>, start: nat, j: nat, k: nat)
    requires j <= k <= |secs|
    ensures Off(manual, secs, start, j) <= Off(manual, secs, start, k)
    decreases k
  {
    hide AlignUp, Packed, MaxAlign;
    if j < k {
      AtLeast(Off(manual, secs, start, k - 1), MaxAlign(secs[k - 1].bufs));
      OffGrows(manual, secs, start, j, k - 1);
    }
  }

  lemma OffZero(manual: bool, secs: seq<Section>, start: nat)
    ensures Off(manual, secs, start, 0) == start
  {
  }

  lemma AtLeast(x: nat, a: nat)
    ensures x <= AlignUp(x, a)
    ensures x > 0 ==> a <= AlignUp(x, a) || a <= 1
  {
    if a > 1 && x > 0 {
      var y := AlignUp(x, a);
      assert y % a == 0 && y > 0;
      if y < a {
        SmallMod(y, a);
      }
    }
  }

  lemma SmallMod(y: nat, a: nat)
    requires y < a
    ensures y % a == y
  {
  }

  /** Where section `k` starts. */
  function Begin(d: Desc, k: nat): nat
    requires Proper(d) && k < |d.sections|
  {
    AlignUp(Off(false, EarlySections(d), PhdrEnd(d), k), MaxAlign(d.sections[k].bufs))
  }

  /** The header and buffers of a section that has been laid out, without truncation. */
  lemma PlacedSection(d: Desc, host: Encoding, k: nat)
    requires AutoLaid(d, host) && k < |d.sections| && !Skipped(k, d.sections[k])
    ensures var s, t := d.sections[k], LayoutOf(d, host).desc.sections[k];
            var start, secs := PhdrEnd(d), EarlySections(d);
            && Begin(d, k) <= LayoutOf(d, host).result.size
            && |t.bufs| == |s.bufs|
            && t.shdr.stype == s.shdr.stype && t.shdr.offset == Begin(d, k) && t.shdr.addralign == MaxAlign(s.bufs)
            && t.bufs == Placed(s.shdr.stype, s.bufs, |s.bufs|) && Sized(s.shdr.stype, s.bufs) == |s.bufs|
            && Off(false, secs, start, k) <= Begin(d, k)
            && (s.shdr.stype != SHT_NOBITS ==>
                  && t.shdr.size == Packed(s.shdr.stype, s.bufs)
                  && t.shdr.offset + t.shdr.size == Off(false, secs, start, k + 1))
  {
    hide AlignUp, Packed, MaxAlign, Placed, Sized;
    var start, secs := PhdrEnd(d), EarlySections(d);
    var s := secs[k];
    assert s.bufs == d.sections[k].bufs && s.shdr.stype == d.sections[k].shdr.stype;
    var off := Off(false, secs, start, k);
    assert LayoutOf(d, host).desc.sections[k] == LaidSection(false, secs, start, k);
    assert Problem(d.manual, d.overlapAllowed, secs, start, k).None?;
    OffGrows(false, secs, start, k + 1, |secs|);
    AtLeast(off, MaxAlign(s.bufs));
    AtLeast(Off(false, secs, start, |secs|), 4);
    WrapSmall(Begin(d, k));
    WrapSmall(MaxAlign(s.bufs));
    if s.shdr.stype != SHT_NOBITS {
      WrapSmall(Packed(s.shdr.stype, s.bufs));
    }
  }

  lemma WrapSmall(x: nat)
    ensures x < 0x1_0000_0000 ==> Wrap(x) == x
  {
  }

  lemma EhdrOffsets(d: Desc, host: Encoding)
    requires AutoLaid(d, host)
    ensures var r := LayoutOf(d, host);
            var e := r.desc.ehdr;
            && e.ehsize == 52 && r.desc.phdrs == d.phdrs && |r.desc.sections| == |d.sections|
            && (d.phdrs != [] ==> e.phoff == 52 && e.phentsize == 32)
            && (d.phdrs == [] ==> e.phoff == 0)
            && PhdrEnd(d) == 52 + 32 * |d.phdrs|
            && (d.sections != [] ==> e.shoff >= Off(false, EarlySections(d), PhdrEnd(d), |d.sections|)
                                     && e.shentsize == 40 && e.shoff + 40 * |d.sections| == r.result.size)
            && (d.sections == [] ==> e.shoff == 0 && r.result.size == PhdrEnd(d))
  {
    hide LaidSections, Good, StoppedSections, Problem, FinalSections;
    var off := Off(false, EarlySections(d), PhdrEnd(d), |d.sections|);
    AtLeast(off, 4);
    WrapSmall(AlignUp(off, 4));
  }

  /** Parts do not overlap and lie in the file. */
  lemma PartsAreApart(d: Desc, host: Encoding, i: nat, j: nat)
    requires AutoLaid(d, host) && i < j < Parts(d)
    ensures var r := LayoutOf(d, host);
            Parts(r.desc) == Parts(d) && Apart(Part(r.desc, i), Part(r.desc, j))
  {
    hide LayoutOf, PhdrEnd, Begin, Part, Off, EarlySections;
    PartBounds(d, host, i);
    PartBounds(d, host, j);
    if j >= 2 {
      OffGrows(false, EarlySections(d), PhdrEnd(d), if i < 2 then 0 else i - 1, j - 2);
      if i >= 2 {
        OffGrows(false, EarlySections(d), PhdrEnd(d), 0, j - 2);
      }
    }
  }

  /** Part `i` ends before the offset that the loop has reached after it, and starts after the one before it. */
  lemma PartBounds(d: Desc, host: Encoding, i: nat)
    requires AutoLaid(d, host) && i < Parts(d)
    ensures var r := LayoutOf(d, host);
            Parts(r.desc) == Parts(d)
    ensures var p := Part(LayoutOf(d, host).desc, i);
            var secs, start := EarlySections(d), PhdrEnd(d);
            && p.pos + p.len <= LayoutOf(d, host).result.size
            && (i == 1 ==> p.pos + p.len <= Off(false, secs, start, 0))
            && (2 <= i < |d.sections| + 2 ==> p.pos + p.len <= Off(false, secs, start, i - 1))
            && 52 <= Off(false, secs, start, 0)
            && (i >= 2 ==> p.pos >= Off(false, secs, start, i - 2) || (p.pos == 0 && p.len == 0))
            && (i == 0 ==> p.pos == 0 && p.len == 52) && (i == 1 ==> p.pos == 52 || (p.pos == 0 && p.len == 0))
  {
    hide LayoutOf, PhdrEnd, Begin, Off, EarlySections, MaxAlign, Packed, Placed, Sized;
    EhdrOffsets(d, host);
    var secs, start := EarlySections(d), PhdrEnd(d);
    OffGrows(false, secs, start, 0, |secs|);
    OffZero(false, secs, start);
    if 2 <= i < |d.sections| + 2 {
      SameKind(d, host, i - 2);
      if !Skipped(i - 2, d.sections[i - 2]) {
        PlacedSection(d, host, i - 2);
        OffGrows(false, secs, start, i - 1, |secs|);
      }
    }
  }

  lemma SameKind(d: Desc, host: Encoding, k: nat)
    requires Proper(d) && LayoutOf(d, host).result.Laid? && k < |d.sections|
    ensures |LayoutOf(d, host).desc.sections| == |d.sections|
    ensures LayoutOf(d, host).desc.sections[k].shdr.stype == d.sections[k].shdr.stype
  {
    hide AlignUp, Packed, MaxAlign, Placed, Sized, Good, Problem, FinalEhdr, FinalOff, IsDirty, StoppedSections;
    assert LaidSections(d.manual, EarlySections(d), PhdrEnd(d))[k] == LaidSection(d.manual, EarlySections(d), PhdrEnd(d), k);
  }

  /** Automatic layout is a correct allocation: the parts of the file are pairwise disjoint and
      inside it, and every section starts at a multiple of its alignment. */
  lemma LayoutAllocates(d: Desc, host: Encoding)
    requires AutoLaid(d, host)
    ensures var r := LayoutOf(d, host);
            && Parts(r.desc) == Parts(d)
            && (forall i, j :: 0 <= i < j < Parts(d) ==> Apart(Part(r.desc, i), Part(r.desc, j)))
            && (forall i :: 0 <= i < Parts(d) ==> Part(r.desc, i).pos + Part(r.desc, i).len <= r.result.size)
            && (forall k :: 0 <= k < |d.sections| && !Skipped(k, d.sections[k]) ==>
                  && r.desc.sections[k].shdr.addralign > 0
                  && r.desc.sections[k].shdr.offset % r.desc.sections[k].shdr.addralign == 0)
  {
    hide LayoutOf, Part, Apart;
    var r := LayoutOf(d, host);
    PartBounds(d, host, 0);
    forall i, j | 0 <= i < j < Parts(d) ensures Apart(Part(r.desc, i), Part(r.desc, j)) {
      PartsAreApart(d, host, i, j);
    }
    forall i | 0 <= i < Parts(d) ensures Part(r.desc, i).pos + Part(r.desc, i).len <= r.result.size {
      PartBounds(d, host, i);
    }
    forall k | 0 <= k < |d.sections| && !Skipped(k, d.sections[k])
      ensures r.desc.sections[k].shdr.addralign > 0
      ensures r.desc.sections[k].shdr.offset % r.desc.sections[k].shdr.addralign == 0
    {
      PlacedSection(d, host, k);
    }
  }

  // ---- Automatic layout: buffers inside a section ------------------------------------------------------

  lemma {:induction false} PackedGrows(t: u32, bufs: seq<Buf>, j: nat, k: nat)
    requires j <= k <= |bufs|
    ensures Packed(t, bufs[..j]) <= Packed(t, bufs[..k])
    decreases k
  {
    hide AlignUp, Space;
    if j < k {
      PackedGrows(t, bufs, j, k - 1);
      NextPacked(t, bufs, k - 1);
      AtLeast(Packed(t, bufs[..k - 1]), bufs[k - 1].align);
    }
  }

  lemma NextPacked(t: u32, bufs: seq<Buf>, j: nat)
    requires j < |bufs|
    ensures Packed(t, bufs[..j + 1]) == Start(t, bufs, j) + Space(t, bufs[j])
  {
    assert bufs[..j + 1][..j] == bufs[..j];
  }

  lemma StartAtLeast(t: u32, bufs: seq<Buf>, j: nat)
    requires j < |bufs|
    ensures Packed(t, bufs[..j]) <= Start(t, bufs, j)
  {
    AtLeast(Packed(t, bufs[..j]), bufs[j].align);
  }

  /** Buffers lie in their section one after the other. */
  lemma BuffersInOrder(t: u32, bufs: seq<Buf>, i: nat, j: nat)
    requires i < j < |bufs|
    ensures Start(t, bufs, i) + Space(t, bufs[i]) <= Start(t, bufs, j)
  {
    hide Start, Space, Packed;
    NextPacked(t, bufs, i);
    PackedGrows(t, bufs, i + 1, j);
    StartAtLeast(t, bufs, j);
  }

  lemma BufferInside(t: u32, bufs: seq<Buf>, j: nat)
    requires j < |bufs|
    ensures Start(t, bufs, j) + Space(t, bufs[j]) <= Packed(t, bufs)
  {
    hide AlignUp, Space;
    NextPacked(t, bufs, j);
    PackedGrows(t, bufs, j + 1, |bufs|);
    assert bufs[..|bufs|] == bufs;
  }

  predicate PowerOfTwo(a: nat) { a == 1 || (a > 0 && a % 2 == 0 && PowerOfTwo(a / 2)) }

  lemma {:induction false} SmallerPowerDivides(x: nat, y: nat) returns (q: nat)
    requires PowerOfTwo(x) && PowerOfTwo(y) && x <= y
    ensures y == q * x
  {
    if x == 1 {
      q := y;
    } else {
      q := SmallerPowerDivides(x / 2, y / 2);
      assert y == 2 * (y / 2) && x == 2 * (x / 2);
      assert q * x == 2 * (q * (x / 2));
    }
  }

  lemma SumOfMultiples(x: nat, y: nat, a: nat)
    requires a > 0 && x % a == 0 && y % a == 0
    ensures (x + y) % a == 0
  {
    var p, q := x / a, y / a;
    assert x == p * a && y == q * a;
    assert x + y == (p + q) * a;
    MultipleOf(p + q, a);
  }

  lemma MultipleOfMultiple(x: nat, al: nat, q: nat, a: nat)
    requires a > 0 && al > 0 && x % al == 0 && al == q * a
    ensures x % a == 0
  {
    var p := x / al;
    assert x == p * al;
    assert p * al == (p * q) * a;
    MultipleOf(p * q, a);
  }

  /** Every buffer of a section in the file lies inside it, apart from its siblings, and when all
      alignments are powers of two it starts at a file offset that is a multiple of its own. */
  lemma LayoutPlacesBuffers(d: Desc, host: Encoding, k: nat)
    requires AutoLaid(d, host) && k < |d.sections| && !Skipped(k, d.sections[k]) && d.sections[k].shdr.stype != SHT_NOBITS
    ensures var s := LayoutOf(d, host).desc.sections[k];
            var t := s.shdr.stype;
            && |s.bufs| == |d.sections[k].bufs|
            && (forall j :: 0 <= j < |s.bufs| ==> s.bufs[j].off + Space(t, s.bufs[j]) <= s.shdr.size)
            && (forall i, j :: 0 <= i < j < |s.bufs| ==> s.bufs[i].off + Space(t, s.bufs[i]) <= s.bufs[j].off)
            && ((forall j :: 0 <= j < |s.bufs| ==> PowerOfTwo(s.bufs[j].align)) ==>
                  forall j :: 0 <= j < |s.bufs| ==> (s.shdr.offset + s.bufs[j].off) % s.bufs[j].align == 0)
  {
    hide LayoutOf, AlignUp, Off, EarlySections, PhdrEnd, Start, Packed, PowerOfTwo, Space, MaxAlign, Sized, Begin;
    PlacedSection(d, host, k);
    SameKind(d, host, k);
    var s, bufs := LayoutOf(d, host).desc.sections[k], d.sections[k].bufs;
    var t := s.shdr.stype;
    forall j | 0 <= j < |bufs|
      ensures s.bufs[j].off == Start(t, bufs, j) && Space(t, s.bufs[j]) == Space(t, bufs[j]) && s.bufs[j].align == bufs[j].align
      ensures Start(t, bufs, j) + Space(t, bufs[j]) <= Packed(t, bufs)
    {
      PlacedSpace(t, bufs, j);
      BufferInside(t, bufs, j);
    }
    forall i, j | 0 <= i < j < |bufs| ensures Start(t, bufs, i) + Space(t, bufs[i]) <= Start(t, bufs, j) {
      BuffersInOrder(t, bufs, i, j);
    }
    if forall j :: 0 <= j < |s.bufs| ==> PowerOfTwo(s.bufs[j].align) {
      forall j | 0 <= j < |bufs| ensures PowerOfTwo(bufs[j].align) {
        assert s.bufs[j].align == bufs[j].align;
      }
      forall j | 0 <= j < |bufs| ensures bufs[j].align > 0 && (s.shdr.offset + Start(t, bufs, j)) % bufs[j].align == 0 {
        AlignedInFile(d, k, j);
      }
    }
  }

  lemma PlacedSpace(t: u32, bufs: seq<Buf>, j: nat)
    requires j < |bufs|
    ensures Space(t, PlacedBuf(t, bufs, j)) == Space(t, bufs[j])
  {
  }

  lemma AlignedInFile(d: Desc, k: nat, j: nat)
    requires Proper(d) && k < |d.sections| && j < |d.sections[k].bufs|
    requires forall i :: 0 <= i < |d.sections[k].bufs| ==> PowerOfTwo(d.sections[k].bufs[i].align)
    ensures var bufs := d.sections[k].bufs;
            bufs[j].align > 0 && (Begin(d, k) + Start(d.sections[k].shdr.stype, bufs, j)) % bufs[j].align == 0
  {
    hide Off, EarlySections, PhdrEnd, Packed;
    var bufs := d.sections[k].bufs;
    var al, a := MaxAlign(bufs), bufs[j].align;
    assert PowerOfTwo(a) && PowerOfTwo(al);
    hide PowerOfTwo;
    assert a > 0;
    var q := SmallerPowerDivides(a, al);
    if a > 1 {
      assert Begin(d, k) % al == 0;
      MultipleOfMultiple(Begin(d, k), al, q, a);
      SumOfMultiples(Begin(d, k), Start(d.sections[k].shdr.stype, bufs, j), a);
    }
  }
}
