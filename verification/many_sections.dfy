/** A layout made by the program that the library accepts once and rejects the second time, because
    it has so many sections that their number goes into the first header. */
module ManySections {
  import opened Words
  import opened ElfTypes
  import opened Codec
  import opened Layout
  import opened OverlapCheck
  import opened Relayout

  const EMPTY := Section(ZERO_SHDR, [], false, false)

  function Strings(offset: u32): Section {
    Section(ZERO_SHDR.(stype := SHT_STRTAB, offset := offset, size := 8), [], false, false)
  }

  /** 0xff00 sections, two of them string tables that are not in file order. */
  function Many(): (secs: seq<Section>)
    ensures |secs| == 0xff00
    ensures secs[1] == Strings(0x100) && secs[2] == Strings(60)
    ensures forall k {:trigger secs[k]} :: 0 <= k < |secs| && k != 1 && k != 2 ==> secs[k] == EMPTY
  {
    seq(0xff00, k => if k == 1 then Strings(0x100) else if k == 2 then Strings(60) else EMPTY)
  }

  function Program(): Desc {
    Desc(Ehdr([0, 0, 0, 0, 0, 0, 0, 0, 0, 0, 0, 0, 0, 0, 0, 0], 0, 0, 1, 0, 0, 0, 0, 0, 0, 0, 0, 0, 0),
         false, [], false, false, true, false, Many())
  }

  lemma ProgramIsCheckable()
    ensures Checkable(Program()) && PhdrEnd(Program()) == 52
  {
    hide Many;
    var d := Program();
    assert Sized(SHT_STRTAB, []) == 0 && Reach(SHT_STRTAB, []) == 0;
    forall k | 0 <= k < |d.sections| && !Skipped(k, d.sections[k])
      ensures d.sections[k].bufs == [] && d.sections[k].shdr.stype == SHT_STRTAB
    {
      assert d.sections[k] == EMPTY || d.sections[k] == Strings(0x100) || d.sections[k] == Strings(60);
    }
  }

  lemma LaidOnce(host: Encoding)
    ensures Layout.Proper(Program()) && LayoutOf(Program(), host).result.Laid?
  {
    hide LayoutOf, Many, Sized, Reach, Off;
    ProgramIsCheckable();
    var d := Program();
    OverlapReported(d, host);
    forall i, j | 0 <= i < j < |d.sections| ensures !Pair(d.sections, i, j) {
      assert j == 1 || j == 2 || d.sections[j] == EMPTY;
      assert i == 1 || i == 2 || d.sections[i] == EMPTY;
    }
  }

  /** The second layout, with the first one's values, fails. */
  lemma RejectedTwice(host: Encoding)
    ensures var d := Program();
            && Layout.Proper(d) && LayoutOf(d, host).result.Laid?
            && var e := LayoutOf(d, host).desc;
               Layout.Proper(e) && LayoutOf(e, host).result == Failed(SectionOverlap)
  {
    hide LayoutOf, Many, Sized, Reach, Problem, FinalSections, FinalEhdr, FinalOff, Recheckable;
    LaidOnce(host);
    var d := Program();
    var e := LayoutOf(d, host).desc;
    LaidFacts(d, host, e);
    FirstHeader(d, host, e);
    SameBeginning(d, host, e);
    SettledIsAlike(true, EarlySections(d), PhdrEnd(d), e.sections, 1);
    SettledIsAlike(true, EarlySections(d), PhdrEnd(d), e.sections, 2);
    assert Off(true, e.sections, 52, 1) == 52;
    assert Off(true, e.sections, 52, 2) == 0x108;
    assert MeetsFirst(e, 2);
    assert !Recheckable(e) by { Blocked(e, 2); }
    LayoutIsFixedPoint(d, host, e);
  }

  lemma Blocked(e: Desc, k: nat)
    requires e.manual && !e.overlapAllowed && k < |e.sections| && MeetsFirst(e, k)
    ensures !Recheckable(e)
  {
  }
}
