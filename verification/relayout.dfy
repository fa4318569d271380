/** Laying out a descriptor that has been laid out before changes nothing. */
module Relayout {
  import opened Words
  import opened ElfTypes
  import opened Codec
  import opened Layout
  import opened Allocation
  import opened OverlapCheck

  // ---- Equal up to dirty flags ---------------------------------------------------------------------------

  predicate SameBuf(a: Buf, b: Buf) { a.(dirty := false) == b.(dirty := false) }

  predicate SameSection(s: Section, t: Section) {
    && s.shdr == t.shdr && |s.bufs| == |t.bufs|
    && forall j :: 0 <= j < |s.bufs| ==> SameBuf(s.bufs[j], t.bufs[j])
  }

  /** Every header and every buffer offset is the same. */
  predicate SameValues(d: Desc, e: Desc) {
    && d.ehdr == e.ehdr && d.phdrs == e.phdrs && d.manual == e.manual && d.overlapAllowed == e.overlapAllowed
    && |d.sections| == |e.sections|
    && forall k :: 0 <= k < |d.sections| ==> SameSection(d.sections[k], e.sections[k])
  }

  // ---- Buffers -------------------------------------------------------------------------------------------

  /** The buffers agree on everything but flags and, unless the program places them, their offsets. */
  predicate Alike(manual: bool, a: seq<Buf>, b: seq<Buf>) {
    && |a| == |b|
    && forall j :: 0 <= j < |a| ==>
         && a[j].dtype == b[j].dtype && a[j].version == b[j].version && a[j].size == b[j].size && a[j].align == b[j].align
         && (manual ==> a[j].off == b[j].off)
  }

  lemma AlikeSpace(manual: bool, t: u32, a: seq<Buf>, b: seq<Buf>, j: nat)
    requires Alike(manual, a, b) && j < |a|
    ensures FileSize(t, a[j]) == FileSize(t, b[j]) && Space(t, a[j]) == Space(t, b[j])
    ensures a[j].align == b[j].align && (manual ==> a[j].off == b[j].off)
    ensures Alike(manual, a[..j], b[..j])
  {
  }

  lemma {:induction false} AlikePacked(manual: bool, t: u32, a: seq<Buf>, b: seq<Buf>)
    requires Alike(manual, a, b)
    ensures Packed(t, a) == Packed(t, b)
  {
    hide AlignUp, Space, Alike;
    assert |a| == |b| by { AlikeLength(manual, a, b); }
    if a != [] {
      AlikeSpace(manual, t, a, b, |a| - 1);
      AlikePacked(manual, t, a[..|a| - 1], b[..|a| - 1]);
    }
  }

  lemma AlikeLength(manual: bool, a: seq<Buf>, b: seq<Buf>)
    requires Alike(manual, a, b)
    ensures |a| == |b|
  {
  }

  lemma {:induction false} AlikeAlign(manual: bool, a: seq<Buf>, b: seq<Buf>)
    requires Alike(manual, a, b)
    ensures MaxAlign(a) == MaxAlign(b)
  {
    hide Alike;
    AlikeLength(manual, a, b);
    if a != [] {
      AlikeSpace(manual, 0, a, b, |a| - 1);
      AlikeAlign(manual, a[..|a| - 1], b[..|a| - 1]);
    }
  }

  lemma {:induction false} AlikeReach(t: u32, a: seq<Buf>, b: seq<Buf>)
    requires Alike(true, a, b)
    ensures Reach(t, a) == Reach(t, b)
  {
    hide Alike, Space;
    AlikeLength(true, a, b);
    if a != [] {
      AlikeSpace(true, t, a, b, |a| - 1);
      AlikeReach(t, a[..|a| - 1], b[..|a| - 1]);
    }
  }

  lemma AlikeSized(manual: bool, t: u32, a: seq<Buf>, b: seq<Buf>)
    requires Alike(manual, a, b) && Sized(t, a) == |a|
    ensures Sized(t, b) == |b|
  {
    hide FileSize;
    forall j | 0 <= j < |b| ensures FileSize(t, b[j]).Some? {
      AlikeSpace(manual, t, a, b, j);
    }
  }

  lemma AlikeStarts(t: u32, a: seq<Buf>, b: seq<Buf>, j: nat)
    requires Alike(false, a, b) && j < |a|
    ensures Start(t, a, j) == Start(t, b, j)
  {
    hide AlignUp, Packed;
    AlikeSpace(false, t, a, b, j);
    AlikePacked(false, t, a[..j], b[..j]);
  }

  // ---- Sections ------------------------------------------------------------------------------------------

  /** Section `k` of `now` is section `k` of `secs` after the loop, up to flags. */
  predicate Settled(manual: bool, secs: seq<Section>, start: nat, now: seq<Section>, k: nat)
    requires k < |secs| == |now|
  {
    SameSection(now[k], LaidSection(manual, secs, start, k))
  }

  lemma SettledIsAlike(manual: bool, secs: seq<Section>, start: nat, now: seq<Section>, k: nat)
    requires k < |secs| == |now| && Settled(manual, secs, start, now, k)
    ensures now[k].shdr.stype == secs[k].shdr.stype && Alike(manual, secs[k].bufs, now[k].bufs)
    ensures manual ==> now[k].shdr == secs[k].shdr.(entsize := now[k].shdr.entsize)
  {
    hide AlignUp, Packed, MaxAlign, Off, Start;
    var s, t := now[k], LaidSection(manual, secs, start, k);
    forall j | 0 <= j < |s.bufs|
      ensures var a, b := secs[k].bufs[j], s.bufs[j];
              && a.dtype == b.dtype && a.version == b.version && a.size == b.size && a.align == b.align
              && (manual ==> a.off == b.off)
    {
      assert SameBuf(s.bufs[j], t.bufs[j]);
    }
  }

  lemma {:induction false} SettledOff(manual: bool, secs: seq<Section>, start: nat, now: seq<Section>, k: nat)
    requires k <= |secs| == |now|
    requires forall i :: 0 < i < k ==> Settled(manual, secs, start, now, i)
    ensures Off(manual, now, start, k) == Off(manual, secs, start, k)
  {
    hide AlignUp, Packed, MaxAlign, Settled;
    if k > 1 {
      SettledOff(manual, secs, start, now, k - 1);
      SettledIsAlike(manual, secs, start, now, k - 1);
      AlikePacked(manual, secs[k - 1].shdr.stype, secs[k - 1].bufs, now[k - 1].bufs);
      AlikeAlign(manual, secs[k - 1].bufs, now[k - 1].bufs);
    }
  }

  /** A value that does not fit the header field it is written to. */
  predicate Tall(manual: bool, secs: seq<Section>, start: nat, k: nat)
    requires k < |secs|
  {
    var s := secs[k];
    && !Skipped(k, s) && !manual
    && (|| AlignUp(Off(manual, secs, start, k), MaxAlign(s.bufs)) > 0xffff_ffff
        || Packed(s.shdr.stype, s.bufs) > 0xffff_ffff || MaxAlign(s.bufs) > 0xffff_ffff)
  }

  /** The second time the loop stores what is there already. */
  lemma SettledAgain(manual: bool, secs: seq<Section>, start: nat, now: seq<Section>, k: nat)
    requires 0 < k < |secs| == |now|
    requires forall i :: 0 < i <= k ==> Settled(manual, secs, start, now, i)
    ensures var t := LaidSection(manual, now, start, k);
            && SameSection(t, now[k])
            && (if Tall(manual, secs, start, k) then t.shdrDirty else t == now[k])
  {
    hide AlignUp, Packed, MaxAlign, Off, Start;
    SettledOff(manual, secs, start, now, k);
    SettledIsAlike(manual, secs, start, now, k);
    var s, t := now[k], secs[k].shdr.stype;
    AlikePacked(manual, t, secs[k].bufs, s.bufs);
    AlikeAlign(manual, secs[k].bufs, s.bufs);
    if !manual && t != SHT_NULL {
      var a, b := LaidSection(manual, secs, start, k).bufs, Placed(t, s.bufs, |s.bufs|);
      forall j | 0 <= j < |s.bufs| ensures b[j] == s.bufs[j] {
        AlikeStarts(t, secs[k].bufs, s.bufs, j);
        assert SameBuf(s.bufs[j], a[j]);
      }
      assert b == s.bufs;
      WrapSmall(AlignUp(Off(manual, secs, start, k), MaxAlign(s.bufs)));
      WrapSmall(Packed(t, s.bufs));
      WrapSmall(MaxAlign(s.bufs));
    }
  }

  // ---- The second layout -----------------------------------------------------------------------------------

  /** `e` has the values that the layout of `d` leaves, and any flags. */
  predicate LaidOut(d: Desc, host: Encoding, e: Desc) {
    Proper(d) && LayoutOf(d, host).result.Laid? && SameValues(e, LayoutOf(d, host).desc)
  }

  lemma LaidFacts(d: Desc, host: Encoding, e: Desc)
    requires LaidOut(d, host, e)
    ensures var start, secs := PhdrEnd(d), EarlySections(d);
            && e.phdrs == d.phdrs && e.manual == d.manual && e.overlapAllowed == d.overlapAllowed
            && |e.sections| == |secs| == |d.sections| < 0x1_0000_0000 && EncodingOk(d.ehdr.ident[5])
            && (forall k :: 0 < k < |secs| ==> Settled(d.manual, secs, start, e.sections, k))
            && (|secs| > 0 ==> SameSection(e.sections[0], FinalSections(LaidSections(d.manual, secs, start))[0]))
            && e.ehdr == FinalEhdr(d, host, Off(d.manual, secs, start, |secs|))
            && LayoutOf(d, host).result.size == FinalOff(d, Off(d.manual, secs, start, |secs|))
            && forall k :: 0 <= k < |secs| ==> Problem(d.manual, d.overlapAllowed, secs, start, k).None?
  {
    hide LaidSection, Off, PhdrEnd, FinalEhdr, FinalOff, EarlySections, Problem, SameSection, IsDirty, StoppedSections;
    var start, secs := PhdrEnd(d), EarlySections(d);
    var laid := LaidSections(d.manual, secs, start);
    var done := LayoutOf(d, host).desc.sections;
    forall k | 0 < k < |secs| ensures Settled(d.manual, secs, start, e.sections, k) {
      assert done[k] == laid[k];
      assert SameSection(e.sections[k], done[k]);
    }
  }

  /** The header of the first section after the layout. */
  lemma FirstHeader(d: Desc, host: Encoding, e: Desc)
    requires LaidOut(d, host, e) && e.sections != []
    ensures var h := e.sections[0].shdr;
            && h.entsize == 0
            && (|d.phdrs| >= PN_XNUM ==> h.info as int == |d.phdrs|)
            && (!d.manual ==> h.offset == 0 && h.addralign == 0
                              && h.size as int == if |e.sections| >= SHN_LORESERVE then |e.sections| else 0)
            && (|e.sections| >= SHN_LORESERVE ==> h.size as int == |e.sections|)
            && (d.manual ==> h.stype == d.sections[0].shdr.stype && h.offset == d.sections[0].shdr.offset)
            && (d.manual && |e.sections| < SHN_LORESERVE ==> h.size == d.sections[0].shdr.size)
  {
    hide Off, PhdrEnd, FinalEhdr, FinalOff, Problem, LayoutOf, AlignUp, Packed, MaxAlign;
    LaidFacts(d, host, e);
    var secs, start := EarlySections(d), PhdrEnd(d);
    assert LaidSections(d.manual, secs, start)[0] == LaidSection(d.manual, secs, start, 0);
  }

  /** What the second layout starts from is what the first one started from. */
  lemma SameBeginning(d: Desc, host: Encoding, e: Desc)
    requires LaidOut(d, host, e)
    ensures Proper(e) && e.ehdr.version == 1 && EncodingOk(e.ehdr.ident[5])
    ensures EarlySections(e) == e.sections && PhdrEnd(e) == PhdrEnd(d) && EarlyEhdr(e) == e.ehdr
    ensures Off(e.manual, e.sections, PhdrEnd(e), |e.sections|) == Off(d.manual, EarlySections(d), PhdrEnd(d), |d.sections|)
  {
    hide Settled, Problem, LaidSection, SameSection, LayoutOf, AlignUp, Off, FinalSections;
    LaidFacts(d, host, e);
    if e.sections != [] {
      FirstHeader(d, host, e);
    }
    SettledOff(d.manual, EarlySections(d), PhdrEnd(d), e.sections, |e.sections|);
    assert e.ehdr.ident[5] == FileEncoding(d, host);
  }

  /** The cases in which the second layout rewrites something: the number of sections is kept in
      the first header, which automatic layout clears, or a value does not fit its field. */
  ghost predicate Restless(d: Desc)
    requires Proper(d)
  {
    var start, secs := PhdrEnd(d), EarlySections(d);
    && !d.manual
    && (|| |secs| >= SHN_LORESERVE
        || (secs != [] && AlignUp(Off(false, secs, start, |secs|), 4) > 0xffff_ffff)
        || exists k :: 0 <= k < |secs| && Tall(false, secs, start, k))
  }

  /** Section `k` is looked at and meets the extent that the first section has by its header. */
  predicate MeetsFirst(e: Desc, k: nat)
    requires k < |e.sections|
  {
    k > 0 && !Skipped(k, e.sections[k]) && LookedAt(e, k) && Conflict(e.sections[k].shdr, e.sections[0].shdr)
  }

  /** A layout made by the program that is checked for overlaps: once the number of sections is in
      the first header it counts as the extent of that section, which nothing may meet. */
  predicate Recheckable(e: Desc) {
    e.manual && !e.overlapAllowed ==> forall k :: 0 <= k < |e.sections| ==> !MeetsFirst(e, k)
  }

  /** What is wrong with section `k` the second time. */
  lemma SecondProblem(d: Desc, host: Encoding, e: Desc, k: nat)
    requires LaidOut(d, host, e) && k < |e.sections|
    ensures Problem(e.manual, e.overlapAllowed, e.sections, PhdrEnd(d), k)
         == if e.manual && !e.overlapAllowed && MeetsFirst(e, k) then Some(SectionOverlap) else None
  {
    hide LayoutOf, AlignUp, Packed, MaxAlign, Off, PhdrEnd, FinalSections, LaidSection, FinalEhdr, FinalOff, SameSection, Settled;
    LaidFacts(d, host, e);
    SameBeginning(d, host, e);
    var start, secs := PhdrEnd(d), EarlySections(d);
    if k > 0 {
      assert Problem(d.manual, d.overlapAllowed, secs, start, k).None?;
      SettledIsAlike(d.manual, secs, start, e.sections, k);
      var t := secs[k].shdr.stype;
      SettledOff(d.manual, secs, start, e.sections, k);
      if t != SHT_NULL {
        AlikeSized(d.manual, t, secs[k].bufs, e.sections[k].bufs);
        if d.manual {
          AlikeReach(t, secs[k].bufs, e.sections[k].bufs);
          SameExtents(d, host, e, k);
        }
      }
    }
  }

  lemma SameExtents(d: Desc, host: Encoding, e: Desc, k: nat)
    requires LaidOut(d, host, e) && d.manual && 0 < k < |e.sections| == |d.sections|
    ensures forall i :: 0 < i < k || (i == 0 && |e.sections| < SHN_LORESERVE) ==>
              (Conflict(e.sections[k].shdr, e.sections[i].shdr) <==> Conflict(EarlySections(d)[k].shdr, EarlySections(d)[i].shdr))
  {
    hide LayoutOf, AlignUp, Packed, MaxAlign, Off, PhdrEnd, FinalSections, LaidSection, FinalEhdr, FinalOff, SameSection, Settled, Problem;
    LaidFacts(d, host, e);
    FirstHeader(d, host, e);
    var start, secs := PhdrEnd(d), EarlySections(d);
    SettledIsAlike(true, secs, start, e.sections, k);
    forall i | 0 < i < k || (i == 0 && |e.sections| < SHN_LORESERVE)
      ensures Conflict(e.sections[k].shdr, e.sections[i].shdr) <==> Conflict(secs[k].shdr, secs[i].shdr)
    {
      if i > 0 {
        SettledIsAlike(true, secs, start, e.sections, i);
      }
    }
  }

  lemma AllGood(manual: bool, allowed: bool, secs: seq<Section>, start: nat, n: nat)
    requires n <= |secs| && forall k :: 0 <= k < n ==> Problem(manual, allowed, secs, start, k).None?
    ensures Good(manual, allowed, secs, start, n) == n
  {
    hide Problem;
  }

  /** The second layout stores something new in the header of section `k`. */
  predicate Rewritten(d: Desc, e: Desc, k: nat)
    requires Proper(d) && k < |e.sections| == |d.sections|
  {
    !d.manual && if k > 0 then Tall(false, EarlySections(d), PhdrEnd(d), k) else |e.sections| >= SHN_LORESERVE
  }

  /** The sections after the second layout. */
  lemma SectionsAgain(d: Desc, host: Encoding, e: Desc, k: nat)
    requires LaidOut(d, host, e) && k < |e.sections| == |d.sections|
    ensures var t := FinalSections(LaidSections(e.manual, e.sections, PhdrEnd(d)))[k];
            && SameSection(t, e.sections[k])
            && if Rewritten(d, e, k) then t.shdrDirty else t == e.sections[k]
  {
    hide LayoutOf, AlignUp, Packed, MaxAlign, Off, PhdrEnd, FinalEhdr, FinalOff, Settled, Problem, Tall, EarlySections, Placed;
    LaidFacts(d, host, e);
    if k > 0 {
      SettledAgain(d.manual, EarlySections(d), PhdrEnd(d), e.sections, k);
    } else {
      FirstHeader(d, host, e);
    }
  }

  /** The header after the second layout. */
  lemma EhdrAgain(d: Desc, host: Encoding, e: Desc)
    requires LaidOut(d, host, e)
    ensures var off := Off(d.manual, EarlySections(d), PhdrEnd(d), |d.sections|);
            && Proper(e) && FinalEhdr(e, host, off) == e.ehdr && FinalOff(e, off) == FinalOff(d, off)
  {
    hide LayoutOf, AlignUp, Off, PhdrEnd, Settled, Problem, EarlySections, SameSection, LaidSection, FinalSections;
    LaidFacts(d, host, e);
    SameBeginning(d, host, e);
    assert e.ehdr.ident[7..] == d.ehdr.ident[7..];
  }

  /** Laying out a descriptor again gives the same size and leaves every header and every buffer
      offset equal. It leaves the flags equal too unless one of the cases of `Restless` holds; then
      it marks the file as changed. */
  lemma SameAgain(d: Desc, host: Encoding, e: Desc)
    requires LaidOut(d, host, e) && Recheckable(e)
    ensures Proper(e)
    ensures var r := LayoutOf(e, host);
            && r.result.Laid? && r.result.size == LayoutOf(d, host).result.size
            && SameValues(r.desc, e)
            && if Restless(d) then IsDirty(r.desc) else r.desc == e
  {
    hide LayoutOf, AlignUp, Packed, MaxAlign, Off, PhdrEnd, FinalEhdr, FinalOff, Settled, Problem, Tall, EarlySections,
         SameSection, LaidSections, FinalSections;
    LaidFacts(d, host, e);
    SameBeginning(d, host, e);
    EhdrAgain(d, host, e);
    SecondLayout(d, host, e);
    var r, n := LayoutOf(e, host), |e.sections|;
    forall k | 0 <= k < n
      ensures SameSection(r.desc.sections[k], e.sections[k])
      ensures if Rewritten(d, e, k) then r.desc.sections[k].shdrDirty else r.desc.sections[k] == e.sections[k]
    {
      SectionsAgain(d, host, e, k);
    }
    if Restless(d) {
      if exists k :: 0 <= k < n && Rewritten(d, e, k) {
        var k :| 0 <= k < n && Rewritten(d, e, k);
        assert SectionDirty(k, r.desc.sections[k]);
      } else {
        FirstNeverTall(d);
        assert forall k :: 0 <= k < n ==> !Rewritten(d, e, k);
        assert n > 0 ==> !Rewritten(d, e, 0);
        forall k | 0 <= k < n ensures !Tall(false, EarlySections(d), PhdrEnd(d), k) {
          assert !Rewritten(d, e, k);
        }
      }
    } else {
      forall k | 0 <= k < n ensures !Rewritten(d, e, k) {
      }
      assert r.desc.sections == e.sections;
    }
  }

  lemma FirstNeverTall(d: Desc)
    requires Proper(d) && d.sections != []
    ensures !Tall(false, EarlySections(d), PhdrEnd(d), 0)
  {
  }

  lemma SecondLayout(d: Desc, host: Encoding, e: Desc)
    requires LaidOut(d, host, e) && Recheckable(e)
    ensures Proper(e)
    ensures var r := LayoutOf(e, host);
            var off := Off(d.manual, EarlySections(d), PhdrEnd(d), |d.sections|);
            && r.result == Laid(FinalOff(d, off), IsDirty(r.desc))
            && r.desc == e.(ehdrDirty := e.ehdrDirty || (!d.manual && e.sections != [] && AlignUp(off, 4) > 0xffff_ffff),
                            sections := FinalSections(LaidSections(e.manual, e.sections, PhdrEnd(d))))
  {
    hide AlignUp, Off, PhdrEnd, Settled, Problem, EarlySections, LaidSections, FinalSections, IsDirty, FinalEhdr, FinalOff,
         StoppedSections, SameValues, LaidOut;
    SameBeginning(d, host, e);
    EhdrAgain(d, host, e);
    LaidFacts(d, host, e);
    forall k | 0 <= k < |e.sections|
      ensures Problem(e.manual, e.overlapAllowed, e.sections, PhdrEnd(d), k).None?
    {
      SecondProblem(d, host, e, k);
    }
    AllGood(e.manual, e.overlapAllowed, e.sections, PhdrEnd(d), |e.sections|);
  }

  /** The second layout succeeds exactly if nothing meets the first section, and then it changes
      no value; otherwise it reports an overlap. */
  lemma LayoutIsFixedPoint(d: Desc, host: Encoding, e: Desc)
    requires LaidOut(d, host, e)
    ensures Proper(e)
    ensures var r := LayoutOf(e, host);
            if Recheckable(e) then
              && r.result.Laid? && r.result.size == LayoutOf(d, host).result.size
              && SameValues(r.desc, e)
              && if Restless(d) then IsDirty(r.desc) else r.desc == e
            else r.result == Failed(SectionOverlap)
  {
    hide LayoutOf, Recheckable, Restless, SameValues, IsDirty;
    SameBeginning(d, host, e);
    if Recheckable(e) {
      SameAgain(d, host, e);
    } else {
      SecondFails(d, host, e);
    }
  }

  lemma SecondFails(d: Desc, host: Encoding, e: Desc)
    requires LaidOut(d, host, e) && !Recheckable(e)
    ensures Proper(e) && LayoutOf(e, host).result == Failed(SectionOverlap)
  {
    hide AlignUp, Off, PhdrEnd, Settled, Problem, EarlySections, LaidSections, FinalSections, IsDirty, FinalEhdr, FinalOff,
         StoppedSections, SameValues, MeetsFirst, LaidOut;
    SameBeginning(d, host, e);
    var k :| 0 <= k < |e.sections| && MeetsFirst(e, k);
    SecondProblem(d, host, e, k);
    var n := Good(e.manual, e.overlapAllowed, e.sections, PhdrEnd(e), |e.sections|);
    assert n <= k;
    SecondProblem(d, host, e, n);
  }

  /** With fewer sections than that nothing can meet the first one that did not before. */
  lemma FewAreRecheckable(d: Desc, host: Encoding, e: Desc)
    requires LaidOut(d, host, e) && |e.sections| < SHN_LORESERVE
    ensures Recheckable(e)
  {
    hide LayoutOf, Off, PhdrEnd, FinalSections, LaidSection, FinalEhdr, FinalOff, SameSection, Settled, Sized, Reach;
    LaidFacts(d, host, e);
    SameBeginning(d, host, e);
    if e.manual && !e.overlapAllowed {
      forall k | 0 < k < |e.sections| ensures !MeetsFirst(e, k) {
        var start, secs := PhdrEnd(d), EarlySections(d);
        assert Problem(d.manual, d.overlapAllowed, secs, start, k).None?;
        SettledIsAlike(true, secs, start, e.sections, k);
        SettledOff(true, secs, start, e.sections, k);
        SameExtents(d, host, e, k);
      }
    }
  }

  // ---- Dirty flags -------------------------------------------------------------------------------------------

  /** A section that is not marked after the loop has not been changed by it. */
  lemma UnmarkedSection(manual: bool, secs: seq<Section>, start: nat, k: nat)
    requires k < |secs| && !SectionDirty(k, LaidSection(manual, secs, start, k))
    ensures LaidSection(manual, secs, start, k) == secs[k]
  {
    hide AlignUp, Packed, MaxAlign, Off, Start;
    var s, t := secs[k], LaidSection(manual, secs, start, k);
    if k > 0 && s.shdr.stype != SHT_NULL && !manual {
      forall j | 0 <= j < |s.bufs| ensures t.bufs[j] == s.bufs[j] {
        assert t.bufs[j] == PlacedBuf(s.shdr.stype, s.bufs, j) && !t.bufs[j].dirty;
      }
      assert t.bufs == s.bufs;
      WrapSmall(s.shdr.offset);
      WrapSmall(s.shdr.size);
      WrapSmall(s.shdr.addralign);
    }
  }

  /** Every change is marked: when the layout leaves no flag set, which is when an update writes no
      file, it has changed nothing at all. */
  lemma ChangesAreMarked(d: Desc, host: Encoding)
    requires Proper(d) && LayoutOf(d, host).result.Laid?
    ensures !LayoutOf(d, host).result.dirty ==> LayoutOf(d, host).desc == d
  {
    hide AlignUp, Off, PhdrEnd, Problem, LaidSection, StoppedSections, FinalOff, EarlyEhdr, SectionDirty;
    var r := LayoutOf(d, host);
    if !r.result.dirty {
      var start, secs := PhdrEnd(d), EarlySections(d);
      var laid := LaidSections(d.manual, secs, start);
      forall k | 0 <= k < |d.sections| ensures r.desc.sections[k] == d.sections[k] {
        UnmarkedInDesc(d, host, k);
      }
      assert r.desc.sections == d.sections;
    }
  }

  lemma UnmarkedInDesc(d: Desc, host: Encoding, k: nat)
    requires Proper(d) && LayoutOf(d, host).result.Laid? && !LayoutOf(d, host).result.dirty && k < |d.sections|
    ensures |LayoutOf(d, host).desc.sections| == |d.sections|
    ensures LayoutOf(d, host).desc.sections[k] == d.sections[k]
  {
    hide AlignUp, Off, PhdrEnd, Problem, LaidSection, StoppedSections, FinalOff, EarlyEhdr;
    var r, start, secs := LayoutOf(d, host), PhdrEnd(d), EarlySections(d);
    assert !SectionDirty(k, r.desc.sections[k]);
    assert LaidSections(d.manual, secs, start)[k] == LaidSection(d.manual, secs, start, k);
    assert !SectionDirty(k, LaidSection(d.manual, secs, start, k));
    UnmarkedSection(d.manual, secs, start, k);
  }
}
