/** Exactly which buffers of fixed-size elements are found again when their section is read. */
module DataExact {
  import opened Words
  import opened ElfTypes
  import opened Codec
  import opened Records
  import opened Mirrors
  import opened Layout
  import opened Allocation
  import opened Pieces
  import opened WrittenFile
  import opened ReadBack

  // ---- Units of translation ---------------------------------------------------------------------------------

  /** The translation of an element may be that of smaller units: a relocation entry with addend is
      three words. */
  function Units(t: nat): seq<nat> { if t == 7 then [4] else Widths(t) }

  function UnitSize(t: nat): nat { if t == 7 then 4 else ElementSize(t) }

  lemma UnitSizes(t: nat)
    ensures Total(Widths(t)) == ElementSize(t) && Total(Units(t)) == UnitSize(t)
    ensures ElementSize(t) > 0 <==> UnitSize(t) > 0
  {
    ElementSizes(t);
    ElementSizes(1);
  }

  /** A byte moves in an element as it does in a unit. */
  lemma {:induction false} UnitPlace(t: nat, same: bool, i: nat)
    requires ElementSize(t) > 0
    ensures Total(Widths(t)) == ElementSize(t) && Total(Units(t)) == UnitSize(t) > 0
    ensures Place(Widths(t), same, i) == Place(Units(t), same, i)
  {
    UnitSizes(t);
    if t == 7 {
      if i < 12 { RelaPlace(same, i); } else { UnitPlace(t, same, i - 12); RelaNext(same, i); }
    }
  }

  lemma RelaPlace(same: bool, i: nat)
    requires i < 12
    ensures Total([4]) == 4 && Total([4, 4, 4]) == 12
    ensures Place([4, 4, 4], same, i) == Place([4], same, i)
  {
    ElementSizes(1);
    ElementSizes(7);
    var three: seq<nat>, two: seq<nat>, one: seq<nat> := [4, 4, 4], [4, 4], [4];
    assert three[1..] == two && two[1..] == one && one[1..] == [];
    assert Total(two) == 8;
    if i >= 8 {
      assert PlaceIn(three, same, i) == 4 + PlaceIn(two, same, i - 4);
      assert Place(one, same, i) == 4 + Place(one, same, i - 4);
      assert Place(one, same, i - 4) == 4 + Place(one, same, i - 8);
    } else if i >= 4 {
      assert Place(one, same, i) == 4 + Place(one, same, i - 4);
    }
  }

  lemma RelaNext(same: bool, i: nat)
    requires i >= 12
    ensures Total([4]) == 4 && Total([4, 4, 4]) == 12
    ensures Place([4, 4, 4], same, i) == 12 + Place([4, 4, 4], same, i - 12)
    ensures Place([4], same, i) == 12 + Place([4], same, i - 12)
  {
    ElementSizes(1);
    ElementSizes(7);
    hide Total, PlaceIn;
    assert Place([4], same, i) == 4 + Place([4], same, i - 4);
    assert Place([4], same, i - 4) == 4 + Place([4], same, i - 8);
    assert Place([4], same, i - 8) == 4 + Place([4], same, i - 12);
  }

  /** At a unit boundary bytes move as they do from the beginning. */
  lemma UnitFits(t: nat, same: bool, off: nat, n: nat)
    requires ElementSize(t) > 0 && Whole(UnitSize(t), off) == off
    ensures Total(Widths(t)) == ElementSize(t) && Fitted(Widths(t), same, off, n)
  {
    hide Total, Place, Whole, Widths, Units, ElementSize, UnitSize;
    UnitPlace(t, same, 0);
    forall m: nat | m < n ensures Moves(Widths(t), same, off, m) {
      UnitPlace(t, same, m);
      UnitPlace(t, same, off + m);
      BoundaryMoves(Units(t), same, off, m);
    }
  }

  /** In one byte order they do anywhere. */
  lemma SameOrderFits(ws: seq<nat>, off: nat, n: nat)
    requires Total(ws) > 0
    ensures Fitted(ws, true, off, n)
  {
    hide Total, Place;
    forall m: nat | m < n ensures Moves(ws, true, off, m) {
      SamePlace(ws, m);
      SamePlace(ws, off + m);
    }
  }

  /** A byte of a stretch of units comes from that stretch. */
  lemma UnitStays(t: nat, same: bool, lo: nat, n: nat, i: nat)
    requires ElementSize(t) > 0 && UnitSize(t) > 0 && Whole(UnitSize(t), lo) == lo && Whole(UnitSize(t), n) == n && lo <= i < lo + n
    ensures Total(Widths(t)) == ElementSize(t) && lo <= Place(Widths(t), same, i) < lo + n
  {
    hide Total, Place, Whole, Widths, Units, ElementSize, UnitSize;
    UnitPlace(t, same, i);
    BoundaryMoves(Units(t), same, lo, i - lo);
    PlaceInside(Units(t), same, i - lo, n);
  }

  /** Whole elements are whole units. */
  lemma {:induction false} ElementsAreUnits(t: nat, n: nat)
    requires ElementSize(t) > 0
    ensures UnitSize(t) > 0 && Whole(UnitSize(t), Whole(ElementSize(t), n)) == Whole(ElementSize(t), n)
  {
    if n >= ElementSize(t) {
      ElementsAreUnits(t, n - ElementSize(t));
      if t == 7 {
        var m := Whole(12, n - 12);
        assert Whole(4, m + 4) == m + 4 && Whole(4, m + 8) == m + 8;
      }
    }
  }

  // ---- Buffers that read back --------------------------------------------------------------------------------

  /** Buffer `j` holds elements of the section's own type. */
  predicate OwnType(s: Section, j: nat)
    requires j < |s.bufs|
  {
    var b, t := s.bufs[j], ScnType(s.shdr.stype);
    b.size > 0 && FileType(b.dtype) == t && !IsVersion(t)
  }

  /** And starts at a unit boundary. */
  predicate AtUnit(s: Section, j: nat)
    requires j < |s.bufs| && OwnType(s, j)
  {
    Whole(UnitSize(ScnType(s.shdr.stype)), s.bufs[j].off) == s.bufs[j].off
  }

  /** It ends no later than the last whole element of the section. */
  predicate InWhole(s: Section, j: nat)
    requires j < |s.bufs| && OwnType(s, j)
  {
    s.bufs[j].off + Space(s.shdr.stype, s.bufs[j]) <= Whole(ElementSize(ScnType(s.shdr.stype)), s.shdr.size)
  }

  /** What is read of a section of fixed-size elements. */
  lemma DataIsXlate(d0: Desc, host: Encoding, d: Desc, fill: byte, k: nat, back: seq<byte>)
    requires Ready(d0, host, d) && InFile(d, k) && |back| == d.sections[k].shdr.size && !IsVersion(ScnType(d.sections[k].shdr.stype))
    ensures |d.ehdr.ident| == 16
    ensures var t := ScnType(d.sections[k].shdr.stype);
            && ElementSize(t) > 0 && Total(Widths(t)) == ElementSize(t)
            && SectionData(d0, host, d, fill, k, back)
               == Some(Xlate(Widths(t), EncodingOf(d.ehdr), host, RawSection(d0, host, d, fill, k)))
  {
    hide LayoutOf, FileOf, Total, Widths, EncodingOf, PowerOfTwo, Xlate;
    IdentLength(d0, host);
    SectionInside(d0, host, d, k);
    var t := ScnType(d.sections[k].shdr.stype);
    ElementSizes(t);
    if d.sections[k].shdr.size == 0 {
      NoElements(Widths(t), EncodingOf(d.ehdr), host, []);
    }
  }

  /** The file image of a buffer of the section's own type. */
  lemma BufferImage(d0: Desc, host: Encoding, d: Desc, fill: byte, k: nat, j: nat)
    requires Ready(d0, host, d) && InFile(d, k) && j < |d.sections[k].bufs| && OwnType(d.sections[k], j)
    ensures |d.ehdr.ident| == 16
    ensures var s, b := d.sections[k], d.sections[k].bufs[j];
            var t, n := ScnType(s.shdr.stype), Space(s.shdr.stype, b);
            && b.mem.Some? && |b.mem.value| == b.size && ElementSize(t) > 0 && Total(Widths(t)) == ElementSize(t)
            && n == Whole(ElementSize(t), b.size) && b.off + n <= s.shdr.size
            && RawSection(d0, host, d, fill, k)[b.off..b.off + n] == Xlate(Widths(t), host, EncodingOf(d.ehdr), b.mem.value)
  {
    hide LayoutOf, FileOf, Total, Xlate, Widths, EncodingOf, PowerOfTwo;
    BufferInSection(d0, host, d, fill, k, j);
    PlacedData(d0, host, d, k, j);
    ElementSizes(ScnType(d.sections[k].shdr.stype));
  }

  lemma NoElements(ws: seq<nat>, from: Encoding, to: Encoding, b: seq<byte>)
    requires |b| < Total(ws)
    ensures Xlate(ws, from, to, b) == []
  {
  }

  /** A section of fixed-size elements reads back: a buffer of the section's own type is found in the
      section's data, at its offset, exactly if it ends by the last whole element of the section and its
      bytes match there, which they always do where file and memory have one byte order and at a unit
      boundary. */
  lemma DataReadsBack(d0: Desc, host: Encoding, d: Desc, fill: byte, k: nat, j: nat, back: seq<byte>)
    requires Ready(d0, host, d) && InFile(d, k) && j < |d.sections[k].bufs|
    requires |back| == d.sections[k].shdr.size && OwnType(d.sections[k], j)
    ensures |d.ehdr.ident| == 16
    ensures var s, b := d.sections[k], d.sections[k].bufs[j];
            var ws, same := Widths(ScnType(s.shdr.stype)), EncodingOf(d.ehdr) == host;
            var data := SectionData(d0, host, d, fill, k, back);
            && data.Some? && Total(ws) > 0
            && (HasBuffer(s, j, data.value)
                <==> InWhole(s, j) && Matches(ws, same, RawSection(d0, host, d, fill, k), b.off, Space(s.shdr.stype, b)))
            && (same || AtUnit(s, j) ==> (HasBuffer(s, j, data.value) <==> InWhole(s, j)))
  {
    hide LayoutOf, FileOf, Total, Xlate, Widths, EncodingOf, PowerOfTwo, Whole, SectionData, RawSection, ElementSize, Space, UnitSize,
         Matches, Fitted;
    DataIsXlate(d0, host, d, fill, k, back);
    BufferImage(d0, host, d, fill, k, j);
    var s, b, enc := d.sections[k], d.sections[k].bufs[j], EncodingOf(d.ehdr);
    var t, raw, same := ScnType(s.shdr.stype), RawSection(d0, host, d, fill, k), EncodingOf(d.ehdr) == host;
    var n := Space(s.shdr.stype, b);
    if InWhole(s, j) {
      FoundExactly(Widths(t), host, enc, same, raw, b.mem.value, b.off, n);
      if same { SameOrderFits(Widths(t), b.off, n); }
      if AtUnit(s, j) { UnitFits(t, same, b.off, n); }
      WholeTwice(ElementSize(t), b.size);
      if Fitted(Widths(t), same, b.off, n) { FittedMatches(Widths(t), same, raw, b.off, n); }
    }
  }

  // ---- Where the layout puts buffers ---------------------------------------------------------------------------

  lemma {:induction false} WholeIsMultiple(s: nat, n: nat)
    requires s > 0
    ensures Whole(s, n) == n <==> n % s == 0
  {
    if n >= s {
      WholeIsMultiple(s, n - s);
      assert n % s == (n - s) % s by { ModNext(n - s, s); }
    } else {
      SmallMod(n, s);
    }
  }

  /** Aligning a multiple of one power of two to another gives a multiple of the first. */
  lemma AlignedPower(x: nat, a: nat, u: nat)
    requires PowerOfTwo(u) && x % u == 0 && (a == 0 || PowerOfTwo(a))
    ensures AlignUp(x, a) % u == 0
  {
    hide PowerOfTwo;
    PowerPositive(u);
    if a > 1 {
      PowerPositive(a);
      var r := AlignUp(x, a);
      if a <= u {
        var q := SmallerPowerDivides(a, u);
        MultipleOfMultiple(x, u, q, a);
        assert r == x by { NoStep(x, r, a); }
      } else {
        var q := SmallerPowerDivides(u, a);
        MultipleOfMultiple(r, a, q, u);
      }
    }
  }

  lemma PowerPositive(a: nat)
    requires PowerOfTwo(a)
    ensures a > 0
  {
  }

  lemma NoStep(x: nat, r: nat, a: nat)
    requires a > 0 && x % a == 0 && r % a == 0 && x <= r < x + a
    ensures r == x
  {
    var p, q := x / a, r / a;
    assert x == p * a && r == q * a;
    if q > p { Product(q, p, a); }
  }

  /** All buffers of the section are of its own type, with alignments that are powers of two. */
  predicate Plain(stype: u32, bufs: seq<Buf>) {
    forall j :: 0 <= j < |bufs| ==>
      && FileType(bufs[j].dtype) == ScnType(stype) && !IsVersion(ScnType(stype)) && bufs[j].version == 1
      && (bufs[j].align == 0 || PowerOfTwo(bufs[j].align))
  }

  lemma UnitIsPower(stype: u32)
    requires !IsVersion(ScnType(stype))
    ensures PowerOfTwo(UnitSize(ScnType(stype))) && ElementSize(ScnType(stype)) > 0
  {
    assert PowerOfTwo(1) && PowerOfTwo(2) && PowerOfTwo(4);
    assert PowerOfTwo(8);
    assert PowerOfTwo(16);
  }

  lemma SpaceIsUnits(stype: u32, b: Buf)
    requires FileType(b.dtype) == ScnType(stype) && !IsVersion(ScnType(stype)) && b.version == 1 && stype != SHT_NOBITS
    ensures UnitSize(ScnType(stype)) > 0 && Space(stype, b) % UnitSize(ScnType(stype)) == 0
  {
    hide Whole;
    var t := ScnType(stype);
    UnitIsPower(stype);
    ElementsAreUnits(t, b.size);
    WholeIsMultiple(UnitSize(t), Whole(ElementSize(t), b.size));
    if b.dtype >= T_NUM {
      WholeOfOne(b.size);
    }
    ZeroMod(UnitSize(t));
  }

  lemma ZeroMod(a: nat)
    requires a > 0
    ensures 0 % a == 0
  {
  }

  lemma {:induction false} PackedInUnits(stype: u32, bufs: seq<Buf>)
    requires Plain(stype, bufs) && !IsVersion(ScnType(stype)) && stype != SHT_NOBITS
    ensures UnitSize(ScnType(stype)) > 0 && Packed(stype, bufs) % UnitSize(ScnType(stype)) == 0
  {
    hide AlignUp, Space, UnitSize, PowerOfTwo, ScnType, FileType, ElementSize;
    var u := UnitSize(ScnType(stype));
    UnitIsPower(stype);
    PowerPositive(u);
    if bufs == [] {
      ZeroMod(u);
    } else {
      var m := |bufs| - 1;
      PackedInUnits(stype, bufs[..m]);
      AlignedPower(Packed(stype, bufs[..m]), bufs[m].align, u);
      SpaceIsUnits(stype, bufs[m]);
      SumOfMultiples(AlignUp(Packed(stype, bufs[..m]), bufs[m].align), Space(stype, bufs[m]), u);
    }
  }

  /** Then every buffer is at a unit boundary, so that `InWhole` decides in either byte order. */
  lemma PlainIsAtUnit(d0: Desc, host: Encoding, d: Desc, k: nat, j: nat)
    requires Ready(d0, host, d) && InFile(d, k) && k < |d0.sections| && j < |d.sections[k].bufs|
    requires Plain(d0.sections[k].shdr.stype, d0.sections[k].bufs) && OwnType(d.sections[k], j)
    ensures AtUnit(d.sections[k], j)
  {
    hide LayoutOf, PowerOfTwo, Whole, Space, UnitSize, ElementSize, AlignUp, Packed, Off, EarlySections, PhdrEnd, MaxAlign, Sized, Begin;
    ElfShape(d0, host, d);
    SameKind(d0, host, k);
    PlacedSection(d0, host, k);
    var t, bufs := d0.sections[k].shdr.stype, d0.sections[k].bufs;
    PackedInUnits(t, bufs[..j]);
    UnitIsPower(t);
    AlignedPower(Packed(t, bufs[..j]), bufs[j].align, UnitSize(ScnType(t)));
    WholeIsMultiple(UnitSize(ScnType(t)), Start(t, bufs, j));
  }

  /** For sections whose own-type buffers have power-of-two alignments, in either byte order: a buffer
      is found exactly if it ends by the last whole element. */
  lemma PlainReadsBack(d0: Desc, host: Encoding, d: Desc, fill: byte, k: nat, j: nat, back: seq<byte>)
    requires Ready(d0, host, d) && InFile(d, k) && k < |d0.sections| && j < |d.sections[k].bufs|
    requires Plain(d0.sections[k].shdr.stype, d0.sections[k].bufs)
    requires |back| == d.sections[k].shdr.size && OwnType(d.sections[k], j)
    ensures var data := SectionData(d0, host, d, fill, k, back);
            data.Some? && (HasBuffer(d.sections[k], j, data.value) <==> InWhole(d.sections[k], j))
  {
    hide LayoutOf, SectionData, InWhole, HasBuffer, AtUnit, Plain;
    PlainIsAtUnit(d0, host, d, k, j);
    DataReadsBack(d0, host, d, fill, k, j, back);
  }

  // ---- Holes ---------------------------------------------------------------------------------------------------

  /** Units that no buffer covers are read as fill, in either byte order. */
  lemma HolesReadBack(d0: Desc, host: Encoding, d: Desc, fill: byte, k: nat, lo: nat, n: nat, back: seq<byte>)
    requires Ready(d0, host, d) && InFile(d, k)
    requires |back| == d.sections[k].shdr.size && !IsVersion(ScnType(d.sections[k].shdr.stype))
    requires var t := ScnType(d.sections[k].shdr.stype);
             UnitSize(t) > 0 && ElementSize(t) > 0 && Whole(UnitSize(t), lo) == lo && Whole(UnitSize(t), n) == n
             && lo + n <= Whole(ElementSize(t), d.sections[k].shdr.size)
    requires var s := d.sections[k];
             forall j :: 0 <= j < |s.bufs| ==> lo + n <= s.bufs[j].off || s.bufs[j].off + Space(s.shdr.stype, s.bufs[j]) <= lo
    ensures var data := SectionData(d0, host, d, fill, k, back);
            data.Some? && lo + n <= |data.value| && forall i :: lo <= i < lo + n ==> data.value[i] == fill
  {
    hide LayoutOf, FileOf, Total, Xlate, Widths, Units, EncodingOf, PowerOfTwo, Whole, SectionData, RawSection, ElementSize, Space,
         UnitSize, Place;
    DataIsXlate(d0, host, d, fill, k, back);
    var enc, raw, t := EncodingOf(d.ehdr), RawSection(d0, host, d, fill, k), ScnType(d.sections[k].shdr.stype);
    forall i | lo <= i < lo + n ensures Xlate(Widths(t), enc, host, raw)[i] == fill {
      XlateAt(Widths(t), enc, host, raw, i);
      UnitStays(t, enc == host, lo, n, i);
      HolesReadAsFill(d0, host, d, fill, k, Place(Widths(t), enc == host, i));
    }
  }
}
