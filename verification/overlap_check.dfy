/** The overlap check of a caller-supplied layout: which pairs of sections it reports. */
module OverlapCheck {
  import opened Words
  import opened ElfTypes
  import opened Codec
  import opened Layout
  import opened Allocation

  /** A layout made by the program, with headers the library knows and data that fits its sections. */
  predicate Checkable(d: Desc) {
    && Proper(d) && d.manual && !d.overlapAllowed
    && d.ehdr.version <= 1 && EncodingOk(d.ehdr.ident[5])
    && forall k :: 0 <= k < |d.sections| && !Skipped(k, d.sections[k]) ==>
         var s := d.sections[k];
         Sized(s.shdr.stype, s.bufs) == |s.bufs| && Reach(s.shdr.stype, s.bufs) <= s.shdr.size
  }

  predicate Pair(secs: seq<Section>, i: nat, j: nat)
    requires i < j < |secs|
  {
    !Skipped(j, secs[j]) && Conflict(secs[i].shdr, secs[j].shdr)
  }

  /** The loop looks at earlier sections only when this one starts before the running offset. */
  predicate LookedAt(d: Desc, j: nat)
    requires j < |d.sections|
  {
    d.sections[j].shdr.offset < Off(true, d.sections, PhdrEnd(d), j)
  }

  lemma {:induction false} EarlyOff(d: Desc, k: nat)
    requires Proper(d) && k <= |d.sections|
    ensures Off(d.manual, EarlySections(d), PhdrEnd(d), k) == Off(d.manual, d.sections, PhdrEnd(d), k)
  {
    hide AlignUp, MaxAlign, Packed, PhdrEnd;
    if k > 0 {
      EarlyOff(d, k - 1);
    }
  }

  lemma EarlyProblem(d: Desc, j: nat)
    requires Checkable(d) && j < |d.sections|
    ensures Problem(true, false, EarlySections(d), PhdrEnd(d), j) ==
            if LookedAt(d, j) && exists i :: 0 <= i < j && Pair(d.sections, i, j) then Some(SectionOverlap) else None
  {
    hide Sized, Reach, Off, PhdrEnd;
    EarlyOff(d, j);
    var secs, early := d.sections, EarlySections(d);
    assert j > 0 ==> early[j] == secs[j];
    forall i | 0 <= i < j
      ensures !Skipped(j, secs[j]) ==> (Conflict(early[j].shdr, early[i].shdr) <==> Pair(secs, i, j))
    {
    }
  }

  /** Exactly which conflicts are reported. */
  lemma OverlapReported(d: Desc, host: Encoding)
    requires Checkable(d)
    ensures var r := LayoutOf(d, host).result;
            && (r.Laid? || r == Failed(SectionOverlap))
            && (r == Failed(SectionOverlap) <==> exists i, j :: 0 <= i < j < |d.sections| && Pair(d.sections, i, j) && LookedAt(d, j))
  {
    hide Problem, LookedAt, Pair, Checkable, StoppedSections, PhdrEnd;
    assert Proper(d) && d.manual && !d.overlapAllowed && d.ehdr.version <= 1 && EncodingOk(d.ehdr.ident[5]) by {
      Checked(d);
    }
    var n := Good(true, false, EarlySections(d), PhdrEnd(d), |d.sections|);
    if n < |d.sections| {
      EarlyProblem(d, n);
    } else {
      forall i, j | 0 <= i < j < |d.sections| && Pair(d.sections, i, j) ensures !LookedAt(d, j) {
        EarlyProblem(d, j);
      }
    }
  }

  lemma Checked(d: Desc)
    requires Checkable(d)
    ensures Proper(d) && d.manual && !d.overlapAllowed && d.ehdr.version <= 1 && EncodingOk(d.ehdr.ident[5])
  {
  }

  /** Sections that the layout passes over do not reach beyond the ELF and program headers. */
  predicate NullsInHeaders(d: Desc) {
    forall i :: 0 <= i < |d.sections| && Skipped(i, d.sections[i]) ==> End(d.sections[i].shdr) <= PhdrEnd(d)
  }

  lemma EndsBefore(d: Desc, i: nat, j: nat)
    requires d.manual && NullsInHeaders(d) && i < j <= |d.sections|
    ensures End(d.sections[i].shdr) <= Off(true, d.sections, PhdrEnd(d), j)
  {
    hide AlignUp, MaxAlign, Packed, PhdrEnd, End;
    OffGrows(true, d.sections, PhdrEnd(d), i + 1, j);
    OffGrows(true, d.sections, PhdrEnd(d), 0, j);
    OffZero(true, d.sections, PhdrEnd(d));
  }

  /** Looking only at sections that start before the running offset loses nothing: an overlap is
      reported exactly when some two sections conflict. */
  lemma ShortcutIsExact(d: Desc, host: Encoding)
    requires Checkable(d) && NullsInHeaders(d)
    ensures LayoutOf(d, host).result == Failed(SectionOverlap)
       <==> exists i, j :: 0 <= i < j < |d.sections| && Pair(d.sections, i, j)
  {
    hide LayoutOf, Off, NullsInHeaders, Skipped, PhdrEnd;
    OverlapReported(d, host);
    forall i, j | 0 <= i < j < |d.sections| && Pair(d.sections, i, j) ensures LookedAt(d, j) {
      EndsBefore(d, i, j);
    }
  }

  /** With nothing in the null sections that is the test of all pairs, in either order. */
  lemma AllPairsTested(d: Desc, host: Encoding)
    requires Checkable(d)
    requires forall i :: 0 <= i < |d.sections| && Skipped(i, d.sections[i]) ==> End(d.sections[i].shdr) == 0
    ensures LayoutOf(d, host).result == Failed(SectionOverlap)
       <==> exists i, j :: 0 <= i < |d.sections| && 0 <= j < |d.sections| && i != j && Conflict(d.sections[i].shdr, d.sections[j].shdr)
  {
    hide LayoutOf, Skipped, PhdrEnd, Checkable;
    Checked(d);
    ShortcutIsExact(d, host);
    forall i, j | 0 <= i < |d.sections| && 0 <= j < |d.sections| && i != j && Conflict(d.sections[i].shdr, d.sections[j].shdr)
      ensures exists a, b :: 0 <= a < b < |d.sections| && Pair(d.sections, a, b)
    {
      var a, b := if i < j then i else j, if i < j then j else i;
      assert Pair(d.sections, a, b);
    }
  }

  /** A null section with an extent beyond the headers can make the loop miss a conflict: section 2
      starts beyond the running offset and runs into null section 1. */
  lemma MissedConflict(host: Encoding)
    ensures var none := ZERO_SHDR;
            var ehdr := Ehdr([0, 0, 0, 0, 0, 0, 0, 0, 0, 0, 0, 0, 0, 0, 0, 0], 0, 0, 1, 0, 0, 0, 0, 0, 0, 0, 0, 0, 0);
            var secs := [Section(none, [], false, false),
                         Section(none.(offset := 100, size := 8), [], false, false),
                         Section(none.(stype := SHT_STRTAB, offset := 90, size := 20), [], false, false)];
            var d := Desc(ehdr, false, [], false, false, true, false, secs);
            Checkable(d) && Pair(secs, 1, 2) && LayoutOf(d, host).result.Laid?
  {
    var none := ZERO_SHDR;
    var ehdr := Ehdr([0, 0, 0, 0, 0, 0, 0, 0, 0, 0, 0, 0, 0, 0, 0, 0], 0, 0, 1, 0, 0, 0, 0, 0, 0, 0, 0, 0, 0);
    var secs := [Section(none, [], false, false),
                 Section(none.(offset := 100, size := 8), [], false, false),
                 Section(none.(stype := SHT_STRTAB, offset := 90, size := 20), [], false, false)];
    var d := Desc(ehdr, false, [], false, false, true, false, secs);
    assert Sized(SHT_STRTAB, []) == 0 && Reach(SHT_STRTAB, []) == 0;
    assert Checkable(d);
    assert Off(true, secs, 52, 1) == 52;
    assert Off(true, secs, 52, 2) == 52;
    OverlapReported(d, host);
    forall i, j | 0 <= i < j < |secs| && Pair(secs, i, j) ensures !LookedAt(d, j) {
      assert j == 2;
    }
  }

  /** After a successful layout by the program the returned size covers every part of the file. */
  lemma SizeCovers(d: Desc, host: Encoding)
    requires Proper(d) && d.manual && LayoutOf(d, host).result.Laid?
    ensures var size := LayoutOf(d, host).result.size;
            && 52 <= size
            && (d.phdrs != [] ==> d.ehdr.phoff + 32 * |d.phdrs| <= size)
            && (d.sections != [] ==> d.ehdr.shoff + 40 * |d.sections| <= size)
            && forall k :: 0 <= k < |d.sections| && !Skipped(k, d.sections[k]) ==> End(d.sections[k].shdr) <= size
  {
    hide LaidSections, Good, StoppedSections, Problem, FinalSections, AlignUp, MaxAlign, Packed;
    var n := |d.sections|;
    EarlyOff(d, n);
    var off := Off(true, d.sections, PhdrEnd(d), n);
    forall k | 0 <= k < n && !Skipped(k, d.sections[k]) ensures End(d.sections[k].shdr) <= off {
      OffGrows(true, d.sections, PhdrEnd(d), k + 1, n);
    }
  }
}
