/** The dry run and the real pass of src/novl-conv.c over the sorted relocations, and what
    both compute, stated in terms of the untouched image only. */
module Passes {
  import opened Words
  import opened Reloc

  /** Both passes walk the same list: a relocation section for section `id` begins (the tables
      are cleared), or one of its relocations is processed. */
  datatype Event = Begin(id: nat) | Rel(offset: u32, ty: nat)

  datatype DryState = DryState(eng: Engine, count: int, error: bool)

  /** How the real pass stands: `NullDeref` is the use of `last->prev` when `last` is NULL. */
  datatype Outcome = Running | Aborted | NullDeref

  /** `last` is the position of the node it points to; `base` is the length the list had when
      the current section began (the source does not store it). */
  datatype RealState = RealState(eng: Engine, id: nat, list: seq<u32>, last: Option<nat>, base: nat,
                                 count: int, outcome: Outcome)

  datatype Job = Job(layout: Layout, ep: u32, mem: seq<byte>, events: seq<Event>) {

    predicate IsRel(k: nat) { k < |events| && events[k].Rel? }

    /** Position in the image of the word relocation `k` is about. */
    function Off(k: nat): nat
      requires IsRel(k)
    {
      Minus(events[k].offset, ep)
    }

    /** Every relocation lies in the image. */
    ghost predicate Ok() { forall k: nat :: IsRel(k) ==> Off(k) + 4 <= |mem| }

    predicate Apart(j: nat, k: nat)
      requires IsRel(j) && IsRel(k)
    {
      Off(j) + 4 <= Off(k) || Off(k) + 4 <= Off(j)
    }

    /** No two relocations share a byte. */
    ghost predicate Disjoint() {
      forall j: nat, k: nat :: j != k && IsRel(j) && IsRel(k) ==> Apart(j, k)
    }

    // ---- The two passes -----------------------------------------------------------------

    function Tables0(): (e: Engine)
      ensures e.Ok() && e.mem == mem
    {
      InitTables(Engine(mem, [], [], []))
    }

    function DryStep(s: DryState, k: nat): (r: DryState)
      requires Ok() && k < |events| && s.eng.Ok() && |s.eng.mem| == |mem|
      ensures r.eng.Ok() && |r.eng.mem| == |mem|
    {
      match events[k]
      case Begin(_) => s.(eng := InitTables(s.eng))
      case Rel(_, ty) =>
        assert IsRel(k);
        var (eng, v) := Do(layout, s.eng, Off(k), ty, true);
        var error := s.error || v == Error;
        if v == Fail || v == FailKeepHi then
          DryState(eng, if ty == 6 && v != FailKeepHi then s.count - 1 else s.count, error)
        else
          DryState(eng, s.count + 1, error)
    }

    /** The dry run after the first `i` events. */
    function Dry(i: nat): (s: DryState)
      requires Ok() && i <= |events|
      ensures s.eng.Ok() && |s.eng.mem| == |mem|
    {
      if i == 0 then DryState(Tables0(), 0, false) else DryStep(Dry(i - 1), i - 1)
    }

    function RealStep(s: RealState, k: nat): (r: RealState)
      requires Ok() && k < |events| && s.eng.Ok() && |s.eng.mem| == |mem|
      ensures r.eng.Ok() && |r.eng.mem| == |mem|
    {
      if s.outcome != Running then s else
      match events[k]
      case Begin(id) => s.(eng := InitTables(s.eng), id := id, last := None, base := |s.list|)
      case Rel(offset, ty) =>
        assert IsRel(k);
        var (eng, v) := Do(layout, s.eng, Off(k), ty, false);
        var t := s.(eng := eng);
        if v == Error then t.(outcome := Aborted)
        else if v == Fail || v == FailKeepHi then
          if ty == 6 && v != FailKeepHi then Retract(t) else t
        else Append(t, offset, ty)
    }

    function Retract(s: RealState): RealState {
      if s.last == None || s.last.value >= |s.list| then s.(outcome := NullDeref) else
      var n := s.last.value;
      s.(last := if n == 0 then None else Some(n - 1), list := s.list[..n] + s.list[n + 1..], count := s.count - 1)
    }

    function Append(s: RealState, offset: u32, ty: nat): RealState {
      var nr := Pack(s.id + 1, offset - (if s.id < 4 then layout.elf[s.id] else 0), ty);
      s.(list := s.list + [nr], count := s.count + 1,
         last := if s.last == None then Some(|s.list|) else Some(s.last.value + 1))
    }

    /** The real pass after the first `i` events. */
    function Real(i: nat): (s: RealState)
      requires Ok() && i <= |events|
      ensures s.eng.Ok() && |s.eng.mem| == |mem|
    {
      if i == 0 then RealState(Tables0(), 0, [], None, 0, 0, Running) else RealStep(Real(i - 1), i - 1)
    }

    // ---- Pairing, from the untouched image alone ------------------------------------------

    function KindAt(k: nat): Kind
      requires IsRel(k)
    {
      KindOf(events[k].ty)
    }

    /** The word of relocation `k` before any pass. */
    function Word0(k: nat): u32
      requires Ok() && IsRel(k)
    {
      Load(mem, Off(k))
    }

    function RegAt(k: nat): (r: nat)
      requires Ok() && IsRel(k)
      ensures r < 32
    {
      RegOf(KindAt(k), Word0(k))
    }

    predicate IsHi(k: nat, r: nat)
      requires Ok()
    {
      IsRel(k) && KindAt(k) == Hi && RegAt(k) == r
    }

    /** The latest HI16 on register `r` among the first `i` events, in the current section; -1 if none. */
    function HiOf(i: nat, r: nat): (h: int)
      requires Ok() && i <= |events|
      ensures -1 <= h < i
      ensures h >= 0 ==> IsHi(h, r)
      ensures h >= 0 ==> forall j: nat :: h < j < i ==> events[j].Rel? && !IsHi(j, r)
    {
      if i == 0 || events[i - 1].Begin? then -1
      else if IsHi(i - 1, r) then i - 1
      else HiOf(i - 1, r)
    }

    /** Some LO16 on register `r` has already used the HI16 that `HiOf` names. */
    predicate UsedSince(i: nat, r: nat)
      requires Ok() && i <= |events|
    {
      && i > 0
      && events[i - 1].Rel?
      && !IsHi(i - 1, r)
      && (UsedSince(i - 1, r) || (KindAt(i - 1) == Lo && RegAt(i - 1) == r && HiOf(i - 1, r) >= 0))
    }

    /** The HI16 that relocation `j`, a LO16, is paired with; -1 if none. */
    function PairedHi(j: nat): (h: int)
      requires Ok() && IsRel(j)
      ensures -1 <= h < j
      ensures h >= 0 ==> IsHi(h, RegAt(j))
    {
      HiOf(j, RegAt(j))
    }

    predicate Partner(j: nat, h: nat)
      requires Ok()
    {
      IsRel(j) && KindAt(j) == Lo && PairedHi(j) == h
    }

    /** The address relocation `k` refers to in the untouched image. */
    function Address(k: nat): u32
      requires Ok() && IsRel(k)
    {
      if KindAt(k) == Jump then JumpAddress(Word0(k))
      else if KindAt(k) == Lo && PairedHi(k) >= 0 then PairAddress(Word0(PairedHi(k)), Word0(k))
      else Word0(k)
    }

    /** The section that address lies in, or -1. */
    function TargetOf(k: nat): (s: int)
      requires Ok() && IsRel(k)
      ensures -1 <= s < 4
    {
      Target(layout.elf, layout.sizes, Address(k))
    }

    function NewAddress(k: nat): u32
      requires Ok() && IsRel(k)
    {
      if TargetOf(k) < 0 then Address(k) else Moved(layout, TargetOf(k), Address(k))
    }

    /** The return code the handler gives for relocation `k`. */
    function CodeAt(k: nat): Code
      requires Ok() && IsRel(k)
    {
      match KindAt(k)
      case Word => if TargetOf(k) < 0 then Fail else Success
      case Jump => if TargetOf(k) < 0 then Fail else if TargetOf(k) != 0 then Error else Success
      case Hi => Success
      case Lo =>
        if PairedHi(k) < 0 then Error
        else if TargetOf(k) >= 0 then Success
        else if UsedSince(k, RegAt(k)) then FailKeepHi
        else Fail
      case Unhandled => Error
    }

    // ---- The image after some events --------------------------------------------------------

    /** The word of HI16 `h` after `i` events: every successful partner so far has rewritten it. */
    function HiWordAt(h: nat, i: nat): u32
      requires Ok() && IsRel(h) && i <= |events|
    {
      if i <= h then Word0(h)
      else if Partner(i - 1, h) && TargetOf(i - 1) >= 0 then
        WithHigh(HiWordAt(h, i - 1), HighHalf(NewAddress(i - 1)))
      else HiWordAt(h, i - 1)
    }

    /** The word of relocation `k` after `i` events. */
    function WordAt(k: nat, i: nat): u32
      requires Ok() && IsRel(k) && i <= |events|
    {
      if KindAt(k) == Hi then HiWordAt(k, i)
      else if i <= k || CodeAt(k) != Success then Word0(k)
      else match KindAt(k)
        case Word => NewAddress(k)
        case Jump => WithJump(Word0(k), NewAddress(k))
        case Lo => WithLow(Word0(k), NewAddress(k))
        case _ => Word0(k)
    }

    /** No relocation touches byte `b`. */
    ghost predicate Untouched(b: nat) {
      forall k: nat :: IsRel(k) ==> b < Off(k) || Off(k) + 4 <= b
    }

    ghost predicate MemAt(i: nat, m: seq<byte>)
      requires Ok() && i <= |events|
    {
      && |m| == |mem|
      && (forall k: nat :: IsRel(k) ==> Load(m, Off(k)) == WordAt(k, i))
      && (forall b: nat :: b < |mem| && Untouched(b) ==> m[b] == mem[b])
    }

    predicate RegisterAt(i: nat, r: nat, e: Engine)
      requires Ok() && i <= |events| && e.Ok() && r < 32
    {
      var h := HiOf(i, r);
      if h < 0 then e.status[r] == Invalid
      else
        && e.ptrs[r] == Some(Off(h))
        && e.regs[r] == HighPart(Word0(h))
        && e.status[r] == if UsedSince(i, r) then Used else Valid
    }

    predicate TablesAt(i: nat, e: Engine)
      requires Ok() && i <= |events| && e.Ok()
    {
      forall r: nat :: r < 32 ==> RegisterAt(i, r, e)
    }

    // ---- One handler call ---------------------------------------------------------------------

    /** Whatever the image has become elsewhere, the handler sees the original word of relocation
        `k` and returns `CodeAt(k)`. */
    lemma DoCode(k: nat, e: Engine, dry: bool)
      requires Ok() && IsRel(k) && e.Ok() && |e.mem| == |mem|
      requires TablesAt(k, e) && Load(e.mem, Off(k)) == Word0(k)
      ensures Do(layout, e, Off(k), events[k].ty, dry).1 == CodeAt(k)
    {
      hide Load, Store, PairPatched, HighPart, Wrap, Moved, Sext, TargetFrom;
      assert RegisterAt(k, RegAt(k), e);
    }

    lemma DoTables(k: nat, e: Engine, dry: bool)
      requires Ok() && IsRel(k) && e.Ok() && |e.mem| == |mem|
      requires TablesAt(k, e) && Load(e.mem, Off(k)) == Word0(k)
      ensures var (f, v) := Do(layout, e, Off(k), events[k].ty, dry);
              v == CodeAt(k) && (v != Error ==> TablesAt(k + 1, f))
    {
      hide Load, Do, HighPart, TargetOf;
      DoCode(k, e, dry);
      DoEffect(layout, e, Off(k), events[k].ty, dry);
      assert RegisterAt(k, RegAt(k), e);
      var (f, v) := Do(layout, e, Off(k), events[k].ty, dry);
      if v != Error {
        var n := k + 1;
        forall r: nat | r < 32
          ensures RegisterAt(n, r, f)
        {
          assert RegisterAt(k, r, e);
        }
      }
    }

    /** The image a handler call of the real pass leaves, from the pairing alone. */
    ghost function ImageStep(k: nat, m: seq<byte>): seq<byte>
      requires Ok() && IsRel(k) && |m| == |mem|
    {
      if CodeAt(k) != Success then m
      else match KindAt(k)
        case Word => Store(m, Off(k), NewAddress(k))
        case Jump => Store(m, Off(k), WithJump(Word0(k), NewAddress(k)))
        case Lo => PairPatched(m, Off(PairedHi(k)), Off(k), Word0(k), NewAddress(k))
        case _ => m
    }

    lemma DoImage(k: nat, e: Engine)
      requires Ok() && IsRel(k) && e.Ok() && |e.mem| == |mem|
      requires TablesAt(k, e) && Load(e.mem, Off(k)) == Word0(k)
      ensures Do(layout, e, Off(k), events[k].ty, false).0.mem == ImageStep(k, e.mem)
    {
      hide Load, Store, WithHigh, WithLow, HighHalf, HiOf, UsedSince;
      assert RegisterAt(k, RegAt(k), e);
    }

    lemma ImageStepAt(k: nat, m: seq<byte>)
      requires Ok() && Disjoint() && IsRel(k) && MemAt(k, m)
      ensures MemAt(k + 1, ImageStep(k, m))
    {
      hide Load, Store, WithHigh, WithLow, HighHalf, NewAddress, HiOf, UsedSince;
      var n, m' := k + 1, ImageStep(k, m);
      forall j: nat | IsRel(j)
        ensures Load(m', Off(j)) == WordAt(j, n)
      {
        assert Load(m, Off(j)) == WordAt(j, k);
        assert j != k ==> Apart(j, k);
        if KindAt(k) == Lo && CodeAt(k) == Success {
          var h := PairedHi(k);
          assert Apart(h, k) && (j != h ==> Apart(j, h));
          assert Load(m, Off(h)) == WordAt(h, k);
          PairPatchedAt(m, Off(h), Off(k), Word0(k), NewAddress(k), Off(j));
        }
      }
      forall b: nat | b < |mem| && Untouched(b)
        ensures m'[b] == mem[b]
      {
        assert m[b] == mem[b];
      }
    }
  }

  /** The words a patched pair leaves, when its two words do not overlap. */
  lemma PairPatchedAt(m: seq<byte>, p: nat, o: nat, w: u32, a: u32, q: nat)
    requires p + 4 <= |m| && o + 4 <= |m| && q + 4 <= |m|
    requires p + 4 <= o || o + 4 <= p
    ensures Load(PairPatched(m, p, o, w, a), p) == WithHigh(Load(m, p), HighHalf(a))
    ensures Load(PairPatched(m, p, o, w, a), o) == WithLow(w, a)
    ensures (q + 4 <= o || o + 4 <= q) && (q + 4 <= p || p + 4 <= q) ==>
              Load(PairPatched(m, p, o, w, a), q) == Load(m, q)
  {
  }
}
