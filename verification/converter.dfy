/** `novl_conv` of src/novl-conv.c from the loaded image on: sort the relocations, count them in
    a dry run, lay the overlay out, relocate, and write the file. */
module Converter {
  import opened Words
  import opened Reloc
  import opened Passes
  import opened PassSafety
  import opened Overlay

  /** `r_offset` and relocation type of a REL entry. */
  datatype RelEntry = RelEntry(offset: u32, ty: nat)

  /** A `.rel.<section>` section: the section id and its entries in file order. */
  datatype RelSection = RelSection(id: nat, rels: seq<RelEntry>)

  // ---- Sorting --------------------------------------------------------------------------------------

  /** The insertion step: before the entries at its end whose offsets are not smaller. */
  function Insert(rel: RelEntry, s: seq<RelEntry>): (r: seq<RelEntry>)
    ensures |r| == |s| + 1
  {
    if s == [] || rel.offset > s[|s| - 1].offset then s + [rel]
    else Insert(rel, s[..|s| - 1]) + [s[|s| - 1]]
  }

  function Sort(rels: seq<RelEntry>): (r: seq<RelEntry>)
    ensures |r| == |rels|
  {
    if rels == [] then [] else Insert(rels[|rels| - 1], Sort(rels[..|rels| - 1]))
  }

  ghost predicate Ascending(s: seq<RelEntry>) {
    forall i, j :: 0 <= i < j < |s| ==> s[i].offset <= s[j].offset
  }

  lemma {:induction false} InsertKeeps(rel: RelEntry, s: seq<RelEntry>)
    ensures multiset(Insert(rel, s)) == multiset(s) + multiset{rel}
  {
    if s == [] || rel.offset > s[|s| - 1].offset {
    } else {
      InsertKeeps(rel, s[..|s| - 1]);
      assert s == s[..|s| - 1] + [s[|s| - 1]];
    }
  }

  lemma {:induction false} InsertSorts(rel: RelEntry, s: seq<RelEntry>)
    requires Ascending(s)
    ensures Ascending(Insert(rel, s))
    ensures forall x :: x in Insert(rel, s) ==> x == rel || x in s
  {
    if s == [] || rel.offset > s[|s| - 1].offset {
    } else {
      var init, last := s[..|s| - 1], s[|s| - 1];
      InsertSorts(rel, init);
      forall x | x in Insert(rel, init) ensures x.offset <= last.offset {
        assert x == rel || x in init;
      }
    }
  }

  /** The list is sorted by offset and holds the same entries. */
  lemma {:induction false} SortSorts(rels: seq<RelEntry>)
    ensures Ascending(Sort(rels)) && multiset(Sort(rels)) == multiset(rels)
  {
    if rels == [] {
    } else {
      SortSorts(rels[..|rels| - 1]);
      InsertSorts(rels[|rels| - 1], Sort(rels[..|rels| - 1]));
      InsertKeeps(rels[|rels| - 1], Sort(rels[..|rels| - 1]));
      assert rels == rels[..|rels| - 1] + [rels[|rels| - 1]];
    }
  }

  /** The entries at one offset, in order. */
  function AtOffset(s: seq<RelEntry>, o: u32): seq<RelEntry> {
    if s == [] then []
    else AtOffset(s[..|s| - 1], o) + if s[|s| - 1].offset == o then [s[|s| - 1]] else []
  }

  function Backwards<T>(s: seq<T>): seq<T> { if s == [] then [] else [s[|s| - 1]] + Backwards(s[..|s| - 1]) }

  lemma {:induction false} InsertAtOffset(rel: RelEntry, s: seq<RelEntry>, o: u32)
    requires Ascending(s)
    ensures AtOffset(Insert(rel, s), o) == (if rel.offset == o then [rel] else []) + AtOffset(s, o)
  {
    if s == [] || rel.offset > s[|s| - 1].offset {
      assert (s + [rel])[..|s|] == s;
      if rel.offset == o { NoneAt(s, o); }
    } else {
      var init := s[..|s| - 1];
      InsertAtOffset(rel, init, o);
      var all := Insert(rel, init) + [s[|s| - 1]];
      assert all[..|all| - 1] == Insert(rel, init);
    }
  }

  lemma {:induction false} NoneAt(s: seq<RelEntry>, o: u32)
    requires forall i :: 0 <= i < |s| ==> s[i].offset < o
    ensures AtOffset(s, o) == []
  {
    if s != [] { NoneAt(s[..|s| - 1], o); }
  }

  /** Entries at the same offset end up in reverse order. */
  lemma {:induction false} SortReverses(rels: seq<RelEntry>, o: u32)
    ensures AtOffset(Sort(rels), o) == Backwards(AtOffset(rels, o))
  {
    if rels != [] {
      var init, rel := rels[..|rels| - 1], rels[|rels| - 1];
      SortSorts(init);
      SortReverses(init, o);
      InsertAtOffset(rel, Sort(init), o);
      if rel.offset == o {
        var s := AtOffset(init, o) + [rel];
        assert s[..|s| - 1] == AtOffset(init, o);
      } else {
        assert AtOffset(init, o) + [] == AtOffset(init, o) && [] + AtOffset(Sort(init), o) == AtOffset(Sort(init), o);
      }
    }
  }

  lemma {:induction false} InsertSplit(rel: RelEntry, s: seq<RelEntry>, i: nat)
    requires i <= |s| && forall j :: i <= j < |s| ==> rel.offset <= s[j].offset
    ensures Insert(rel, s) == Insert(rel, s[..i]) + s[i..]
  {
    if i == |s| {
      assert s[..i] == s;
    } else {
      var init := s[..|s| - 1];
      InsertSplit(rel, init, i);
      assert init[..i] == s[..i];
      assert init[i..] + [s[|s| - 1]] == s[i..];
    }
  }

  /** One outer iteration: shift the larger entries up by one and put `rel` in the gap. */
  method InsertEntry(a: array<RelEntry>, n: nat, rel: RelEntry)
    requires n < a.Length
    modifies a
    ensures a[..n + 1] == Insert(rel, old(a[..n]))
  {
    hide Insert;
    ghost var s := a[..n];
    var i := n;
    while i > 0 && rel.offset <= a[i - 1].offset
      invariant 0 <= i <= n
      invariant forall j :: 0 <= j < i ==> a[j] == s[j]
      invariant forall j :: i <= j < n ==> a[j + 1] == s[j] && rel.offset <= s[j].offset
    {
      a[i] := a[i - 1];
      i := i - 1;
    }
    a[i] := rel;
    InsertIs(rel, s, i);
    ghost var t := Insert(rel, s);
    assert forall j :: 0 <= j <= n ==> a[j] == t[j];
  }

  /** The gap found from the right is where the entry belongs. */
  lemma InsertIs(rel: RelEntry, s: seq<RelEntry>, i: nat)
    requires i <= |s| && forall j :: i <= j < |s| ==> rel.offset <= s[j].offset
    requires i > 0 ==> rel.offset > s[i - 1].offset
    ensures var t := Insert(rel, s);
            && t[i] == rel
            && (forall j :: 0 <= j < i ==> t[j] == s[j])
            && (forall j :: i < j <= |s| ==> t[j] == s[j - 1])
  {
    hide Insert;
    InsertSplit(rel, s, i);
    InsertLast(rel, s[..i]);
  }

  lemma InsertLast(rel: RelEntry, s: seq<RelEntry>)
    requires s == [] || rel.offset > s[|s| - 1].offset
    ensures Insert(rel, s) == s + [rel]
  {
  }

  method SortEntries(rels: seq<RelEntry>) returns (a: array<RelEntry>)
    ensures fresh(a) && a[..] == Sort(rels)
  {
    a := new RelEntry[|rels|](_ => RelEntry(0, 0));
    for n := 0 to |rels|
      invariant a[..n] == Sort(rels[..n])
    {
      InsertEntry(a, n, rels[n]);
      assert rels[..n + 1][..n] == rels[..n];
    }
    assert rels[..|rels|] == rels;
  }

  // ---- The events of a run ----------------------------------------------------------------------------

  function RelEvents(rels: seq<RelEntry>): (es: seq<Event>)
    ensures |es| == |rels|
  {
    seq(|rels|, i requires 0 <= i < |rels| => Rel(rels[i].offset, rels[i].ty))
  }

  /** What both passes walk: each relocation section begins, then its sorted entries follow. */
  function Events(sections: seq<RelSection>): seq<Event> {
    if sections == [] then []
    else
      var sec := sections[|sections| - 1];
      Events(sections[..|sections| - 1]) + [Begin(sec.id)] + RelEvents(Sort(sec.rels))
  }

  function Start(sections: seq<RelSection>, t: nat): nat
    requires t <= |sections|
  {
    |Events(sections[..t])|
  }

  /** Section `t` occupies the events from its start to the start of the next one. */
  ghost predicate SectionAtEvents(es: seq<Event>, p: nat, sec: RelSection) {
    && p + 1 + |sec.rels| <= |es|
    && es[p] == Begin(sec.id)
    && es[p + 1..p + 1 + |sec.rels|] == RelEvents(Sort(sec.rels))
  }

  lemma EventsBefore(es: seq<Event>, more: seq<Event>, p: nat, sec: RelSection)
    requires SectionAtEvents(es, p, sec)
    ensures SectionAtEvents(es + more, p, sec)
  {
    hide Sort, RelEvents;
    assert (es + more)[p + 1..p + 1 + |sec.rels|] == es[p + 1..p + 1 + |sec.rels|];
  }

  lemma EventsHere(es: seq<Event>, sec: RelSection)
    ensures SectionAtEvents(es + [Begin(sec.id)] + RelEvents(Sort(sec.rels)), |es|, sec)
  {
    hide Sort, RelEvents;
    var all := es + [Begin(sec.id)] + RelEvents(Sort(sec.rels));
    assert all[|es| + 1..|es| + 1 + |sec.rels|] == RelEvents(Sort(sec.rels));
  }

  lemma LastEvents(sections: seq<RelSection>, n: nat)
    requires |sections| == n + 1
    ensures Events(sections) == Events(sections[..n]) + [Begin(sections[n].id)] + RelEvents(Sort(sections[n].rels))
  {
  }

  lemma {:induction false} EventsOfSection(sections: seq<RelSection>, t: nat)
    requires t < |sections|
    ensures SectionAtEvents(Events(sections), Start(sections, t), sections[t])
    ensures Start(sections, t + 1) == Start(sections, t) + 1 + |sections[t].rels|
  {
    hide Sort, RelEvents, Events, SectionAtEvents;
    var n := |sections| - 1;
    var init, last := sections[..n], [Begin(sections[n].id)] + RelEvents(Sort(sections[n].rels));
    LastEvents(sections, n);
    assert Events(sections) == Events(init) + last;
    if t < n {
      EventsOfSection(init, t);
      EventsBefore(Events(init), last, Start(init, t), sections[t]);
      assert init[..t] == sections[..t] && init[..t + 1] == sections[..t + 1];
    } else {
      EventsHere(Events(init), sections[n]);
      assert sections[..t + 1] == sections;
    }
  }

  // ---- The two passes, section by section -----------------------------------------------------------

  /** The relocator carries out the run `job`. */
  ghost predicate InRun(r: Relocator, job: Job, ep: u32)
    reads r
  {
    job.layout == r.Map() && job.ep == ep && job.Ok()
  }

  /** The event of entry `i`. */
  lemma EntryEvent(job: Job, p: nat, sec: RelSection, i: nat)
    requires SectionAtEvents(job.events, p, sec) && i < |sec.rels|
    ensures var rel := Sort(sec.rels)[i];
            job.IsRel(p + 1 + i) && job.events[p + 1 + i] == Rel(rel.offset, rel.ty)
  {
    assert job.events[p + 1 + i] == job.events[p + 1..p + 1 + |sec.rels|][i];
  }

  lemma RelInImage(job: Job, k: nat)
    requires job.Ok() && job.IsRel(k)
    ensures job.Off(k) + 4 <= |job.mem|
  {
  }

  /** One relocation of the dry run. */
  method DryRunOne(r: Relocator, ghost job: Job, ghost k: nat, rel: RelEntry, ep: u32, count0: int, error0: bool)
    returns (count: int, error: bool)
    requires r.Valid() && InRun(r, job, ep) && job.IsRel(k) && job.events[k] == Rel(rel.offset, rel.ty)
    requires DryState(r.State(), count0, error0) == job.Dry(k)
    modifies r.memory, r.ptrs, r.regs, r.status
    ensures r.Valid() && DryState(r.State(), count, error) == job.Dry(k + 1)
  {
    hide Do, Job.Ok;
    RelInImage(job, k);
    count, error := count0, error0;
    var v := r.RelocDo(Minus(rel.offset, ep), rel.ty, true);
    if v == Error { error := true; }
    if v == Fail || v == FailKeepHi {
      if rel.ty == 6 && v != FailKeepHi { count := count - 1; }
      return;
    }
    count := count + 1;
  }

  lemma BeginDry(job: Job, p: nat)
    requires job.Ok() && p < |job.events| && job.events[p].Begin?
    ensures job.Dry(p + 1) == job.Dry(p).(eng := InitTables(job.Dry(p).eng))
  {
  }

  method DryRunSection(r: Relocator, ghost job: Job, ghost p: nat, sec: RelSection, ep: u32, count0: int, error0: bool)
    returns (count: int, error: bool)
    requires r.Tables() && InRun(r, job, ep) && SectionAtEvents(job.events, p, sec)
    requires var s := job.Dry(p); s.eng.mem == r.memory[..] && s.count == count0 && s.error == error0
    modifies r.memory, r.ptrs, r.regs, r.status
    ensures var s := job.Dry(p + 1 + |sec.rels|); s.eng.mem == r.memory[..] && s.count == count && s.error == error
  {
    hide Engine.Ok, Sort, Job.Ok, RelEvents, Job.Dry;
    BeginDry(job, p);
    count, error := count0, error0;
    var rels := SortEntries(sec.rels);
    r.RelocInit();
    for i := 0 to rels.Length
      invariant r.Valid() && rels[..] == Sort(sec.rels) && InRun(r, job, ep)
      invariant DryState(r.State(), count, error) == job.Dry(p + 1 + i)
    {
      EntryEvent(job, p, sec, i);
      count, error := DryRunOne(r, job, p + 1 + i, rels[i], ep, count, error);
    }
  }

  /** The locals of the real pass hold the state of the run. */
  ghost predicate Carried(s: RealState, e: Engine, id: nat, list: seq<u32>, last: Option<nat>, count: int) {
    s.outcome == Running && s.eng == e && s.id == id && s.list == list && s.last == last && s.count == count
  }

  /** The four ways one relocation of the real pass can end. */
  ghost predicate StepCases(job: Job, s: RealState, k: nat, e: Engine, v: Code, t: RealState)
    requires job.IsRel(k)
  {
    var ev := job.events[k];
    && (v == Error ==> t.outcome == Aborted)
    && (v == Success ==> Carried(t, e, s.id, s.list + [EntryWord(job, s.id, ev)],
                                 if s.last == None then Some(|s.list|) else Some(s.last.value + 1), s.count + 1))
    && (v == FailKeepHi || (v == Fail && ev.ty != 6) ==> Carried(t, e, s.id, s.list, s.last, s.count))
    && (v == Fail && ev.ty == 6 ==>
          && s.last.Some? && s.last.value < |s.list|
          && var n := s.last.value;
             Carried(t, e, s.id, s.list[..n] + s.list[n + 1..], if n == 0 then None else Some(n - 1), s.count - 1))
  }

  /** Which of them it is. */
  lemma RealStepKind(job: Job, s: RealState, k: nat)
    requires job.Ok() && job.IsRel(k) && s.eng.Ok() && |s.eng.mem| == |job.mem| && s.outcome == Running
    ensures var (e, v) := Do(job.layout, s.eng, job.Off(k), job.events[k].ty, false);
            var ev, t := job.events[k], s.(eng := e);
            job.RealStep(s, k) == if v == Error then t.(outcome := Aborted)
                                  else if v == Success then job.Append(t, ev.offset, ev.ty)
                                  else if v == Fail && ev.ty == 6 then job.Retract(t) else t
  {
    hide Do, Job.Append, Job.Retract, Engine.Ok;
  }

  lemma AppendedCase(job: Job, t: RealState, offset: u32, ty: nat)
    requires t.outcome == Running
    ensures Carried(job.Append(t, offset, ty), t.eng, t.id, t.list + [EntryWord(job, t.id, Rel(offset, ty))],
                    if t.last == None then Some(|t.list|) else Some(t.last.value + 1), t.count + 1)
  {
    hide Pack;
  }

  lemma RetractedCase(job: Job, t: RealState)
    requires t.outcome == Running && job.Retract(t).outcome != NullDeref
    ensures t.last.Some? && t.last.value < |t.list|
    ensures var n := t.last.value;
            Carried(job.Retract(t), t.eng, t.id, t.list[..n] + t.list[n + 1..], if n == 0 then None else Some(n - 1), t.count - 1)
  {
  }

  lemma RealStepCases(job: Job, s: RealState, k: nat)
    requires job.Ok() && job.IsRel(k) && s.eng.Ok() && |s.eng.mem| == |job.mem| && s.outcome == Running
    requires job.RealStep(s, k).outcome != NullDeref
    ensures var (e, v) := Do(job.layout, s.eng, job.Off(k), job.events[k].ty, false);
            StepCases(job, s, k, e, v, job.RealStep(s, k))
  {
    hide Do, Job.Append, Job.Retract, EntryWord, Engine.Ok, Job.RealStep;
    RealStepKind(job, s, k);
    var (e, v) := Do(job.layout, s.eng, job.Off(k), job.events[k].ty, false);
    var ev, t := job.events[k], s.(eng := e);
    if v == Success {
      AppendedCase(job, t, ev.offset, ev.ty);
    } else if v == Fail && ev.ty == 6 {
      RetractedCase(job, t);
    }
  }

  /** The pointer that a retraction follows is never NULL. */
  lemma RealCases(job: Job, k: nat)
    requires job.Ok() && job.IsRel(k) && job.Real(k).outcome == Running
    ensures var (e, v) := Do(job.layout, job.Real(k).eng, job.Off(k), job.events[k].ty, false);
            StepCases(job, job.Real(k), k, e, v, job.Real(k + 1))
  {
    hide Do, StepCases, Job.RealStep, ListOk;
    RetractionIsLegal(job, k + 1);
    RealStepCases(job, job.Real(k), k);
  }

  function EntryWord(job: Job, id: nat, ev: Event): u32
    requires ev.Rel?
  {
    Pack(id + 1, ev.offset - (if id < 4 then job.layout.elf[id] else 0), ev.ty)
  }

  lemma BeginStep(job: Job, p: nat)
    requires job.Ok() && p < |job.events| && job.events[p].Begin? && job.Real(p).outcome == Running
    ensures var s := job.Real(p);
            Carried(job.Real(p + 1), InitTables(s.eng), job.events[p].id, s.list, None, s.count)
  {
  }

  /** One relocation of the real pass; `ok` is false where the source exits. */
  method RelocateOne(r: Relocator, ghost job: Job, ghost k: nat, rel: RelEntry, ep: u32, id: nat,
                     list0: seq<u32>, last0: Option<nat>, count0: int)
    returns (ok: bool, list: seq<u32>, last: Option<nat>, count: int)
    requires r.Valid() && InRun(r, job, ep) && job.IsRel(k) && job.events[k] == Rel(rel.offset, rel.ty)
    requires Carried(job.Real(k), r.State(), id, list0, last0, count0)
    modifies r.memory, r.ptrs, r.regs, r.status
    ensures r.Valid() && ok == (job.Real(k + 1).outcome == Running)
    ensures ok ==> Carried(job.Real(k + 1), r.State(), id, list, last, count)
  {
    hide Do, Job.Ok, Engine.Ok, Pack, Minus, Wrap, Job.Real, Job.RealStep;
    RelInImage(job, k);
    RealCases(job, k);
    ok, list, last, count := true, list0, last0, count0;
    var v := r.RelocDo(Minus(rel.offset, ep), rel.ty, false);
    if v == Error { return false, list, last, count; }
    if v == Fail || v == FailKeepHi {
      if rel.ty == 6 && v != FailKeepHi {
        var n := last.value;
        last := if n == 0 then None else Some(n - 1);
        list := list[..n] + list[n + 1..];
        count := count - 1;
      }
      return;
    }
    var nr := Pack(id + 1, rel.offset - (if id < 4 then r.elfStarts[id] else 0), rel.ty);
    list := list + [nr];
    count := count + 1;
    last := if last == None then Some(|list0|) else Some(last.value + 1);
  }

  /** What the real pass keeps from one section to the next. */
  ghost predicate Reached(s: RealState, m: seq<byte>, list: seq<u32>, count: int) {
    s.outcome == Running && s.eng.mem == m && s.list == list && s.count == count
  }

  method RelocateSection(r: Relocator, ghost job: Job, ghost p: nat, sec: RelSection, ep: u32,
                         list0: seq<u32>, count0: int) returns (ok: bool, list: seq<u32>, count: int)
    requires r.Tables() && InRun(r, job, ep) && SectionAtEvents(job.events, p, sec)
    requires Reached(job.Real(p), r.memory[..], list0, count0)
    modifies r.memory, r.ptrs, r.regs, r.status
    ensures ok == (job.Real(p + 1 + |sec.rels|).outcome == Running)
    ensures ok ==> Reached(job.Real(p + 1 + |sec.rels|), r.memory[..], list, count)
  {
    hide Engine.Ok, Sort, Job.Ok, RelEvents, Job.Real, Job.RealStep;
    BeginStep(job, p);
    ok, list, count := true, list0, count0;
    var last: Option<nat> := None;
    var rels := SortEntries(sec.rels);
    r.RelocInit();
    for i := 0 to rels.Length
      invariant r.Valid() && rels[..] == Sort(sec.rels) && InRun(r, job, ep) && ok
      invariant Carried(job.Real(p + 1 + i), r.State(), sec.id, list, last, count)
    {
      EntryEvent(job, p, sec, i);
      ok, list, last, count := RelocateOne(r, job, p + 1 + i, rels[i], ep, sec.id, list, last, count);
      if !ok {
        StaysStopped(job, p + 2 + i, p + 1 + |sec.rels|);
        return;
      }
    }
  }

  /** An aborted run does nothing more. */
  lemma {:induction false} StaysStopped(job: Job, i: nat, j: nat)
    requires job.Ok() && i <= j <= |job.events| && job.Real(i).outcome != Running
    ensures job.Real(j).outcome == job.Real(i).outcome
  {
    hide Do, Pack, InitTables, Job.Retract, Job.Append;
    if i < j {
      StaysStopped(job, i, j - 1);
    }
  }

  // ---- The conversion ---------------------------------------------------------------------------------

  /** How `novl_conv` ends: one of its error exits, or the write. */
  datatype Conversion = DryRunError | RealPassError | CountMismatch | Output(result: WriteResult)

  /** The run with the overlay addresses that follow from its dry run. */
  ghost function Planned(job: Job, base: u32): (planned: Job)
    requires job.Ok()
    ensures planned.Ok()
  {
    var ovl := OverlayLayout(base, job.layout.sizes, job.Dry(|job.events|).count);
    DryRunIgnoresOverlay(job, ovl, 0);
    job.(layout := job.layout.(ovl := ovl))
  }

  /** The result of a run whose overlay addresses are planned. */
  ghost function ResultOf(job: Job, base: u32): Conversion
    requires job.Ok() && SectionsInImage(|job.mem|, job.ep, job.layout.elf, job.layout.sizes)
  {
    var L, d, s := job.layout, job.Dry(|job.events|), job.Real(|job.events|);
    if d.error then DryRunError
    else if s.outcome != Running then RealPassError
    else if d.count != s.count then CountMismatch
    else Output(Emitted(FileFor(s.eng.mem, job.ep, L.elf, L.sizes, s.count, s.list), L.sizes, L.ovl, base))
  }

  method DryRun(r: Relocator, ghost job: Job, sections: seq<RelSection>, ep: u32) returns (count: int, error: bool)
    requires r.Tables() && InRun(r, job, ep) && job.events == Events(sections) && job.mem == r.memory[..]
    modifies r.memory, r.ptrs, r.regs, r.status
    ensures r.memory[..] == job.mem
    ensures count == job.Dry(|job.events|).count && error == job.Dry(|job.events|).error
  {
    hide Events, Job.Dry, Job.Ok, SectionAtEvents;
    StartOfRun(job, sections);
    count, error := 0, false;
    for t := 0 to |sections|
      invariant InRun(r, job, ep) && Start(sections, t) <= |job.events|
      invariant var s := job.Dry(Start(sections, t)); s.eng.mem == r.memory[..] && s.count == count && s.error == error
    {
      EventsOfSection(sections, t);
      SectionFits(job, sections, t);
      count, error := DryRunSection(r, job, Start(sections, t), sections[t], ep, count, error);
    }
    EndOfRun(sections);
    DryRunState(job, |job.events|);
  }

  lemma StartOfRun(job: Job, sections: seq<RelSection>)
    requires job.Ok() && job.events == Events(sections)
    ensures Start(sections, 0) == 0 && job.Dry(0) == DryState(job.Tables0(), 0, false)
    ensures Reached(job.Real(0), job.mem, [], 0)
  {
  }

  lemma SectionFits(job: Job, sections: seq<RelSection>, t: nat)
    requires job.events == Events(sections) && t < |sections|
    ensures Start(sections, t) < |job.events| && Start(sections, t + 1) <= |job.events|
  {
    EventsOfSection(sections, t);
  }

  lemma EndOfRun(sections: seq<RelSection>)
    ensures Start(sections, |sections|) == |Events(sections)|
  {
    assert sections[..|sections|] == sections;
  }

  method Relocate(r: Relocator, ghost job: Job, sections: seq<RelSection>, ep: u32)
    returns (ok: bool, list: seq<u32>, count: int)
    requires r.Tables() && InRun(r, job, ep) && job.events == Events(sections) && job.mem == r.memory[..]
    modifies r.memory, r.ptrs, r.regs, r.status
    ensures ok == (job.Real(|job.events|).outcome == Running)
    ensures ok ==> Reached(job.Real(|job.events|), r.memory[..], list, count)
  {
    hide Events, Job.Real, Job.Ok, SectionAtEvents;
    StartOfRun(job, sections);
    ok, list, count := true, [], 0;
    for t := 0 to |sections|
      invariant InRun(r, job, ep) && Start(sections, t) <= |job.events| && ok
      invariant Reached(job.Real(Start(sections, t)), r.memory[..], list, count)
    {
      EventsOfSection(sections, t);
      SectionFits(job, sections, t);
      ok, list, count := RelocateSection(r, job, Start(sections, t), sections[t], ep, list, count);
      if !ok {
        StaysStopped(job, Start(sections, t + 1), |job.events|);
        return;
      }
    }
    EndOfRun(sections);
  }

  /** `novl_conv`, once the sections are in memory. */
  method Convert(r: Relocator, sections: seq<RelSection>, ep: u32, base: u32) returns (result: Conversion)
    requires r.Tables() && r.memory.Length <= MEMORY_SIZE
    requires SectionsInImage(r.memory.Length, ep, r.elfStarts, r.sizes)
    requires Job(r.Map(), ep, r.memory[..], Events(sections)).Ok()
    modifies r, r.memory, r.ptrs, r.regs, r.status
    ensures result == ResultOf(Planned(Job(old(r.Map()), ep, old(r.memory[..]), Events(sections)), base), base)
  {
    hide Events, Job.Dry, Job.Real, Job.Ok, SectionsInImage, OverlayLayout, FileFor;
    ghost var job := Job(r.Map(), ep, r.memory[..], Events(sections));
    var predicted, error := DryRun(r, job, sections, ep);
    var ovl := OverlayLayout(base, r.sizes, predicted);
    ghost var planned := Planned(job, base);
    DryRunIgnoresOverlay(job, ovl, |job.events|);
    if error { return DryRunError; }
    r.ovlStarts := ovl;
    var ok, list, count := Relocate(r, planned, sections, ep);
    if !ok { return RealPassError; }
    if predicted != count { return CountMismatch; }
    var written := WriteOverlay(r.memory, ep, r.elfStarts, r.sizes, r.ovlStarts, base, count, list);
    return Output(written);
  }
}
