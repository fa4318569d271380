/** The relocation engine of src/novl-reloc.c: the relocation handlers, first as functions on
    the engine's state, then as the class whose methods change that state in place. */
module Reloc {
  import opened Words

  /** One word per section, in the order .text, .data, .rodata, .bss. */
  type Quad = s: seq<u32> | |s| == 4 witness [0, 0, 0, 0]

  /** `elf_starts`, `sizes` and `ovl_starts`. */
  datatype Layout = Layout(elf: Quad, sizes: Quad, ovl: Quad)

  /** Return values: FALSE, NOVL_RELOC_FAIL, NOVL_RELOC_SUCCESS, NOVL_RELOC_FAIL_DONTDELETEHI. */
  datatype Code = Error | Fail | Success | FailKeepHi

  /** HILO_STATUS_INVALID, HILO_STATUS_VALID, HILO_STATUS_USED. */
  datatype Status = Invalid | Valid | Used

  /** The handler that the jump table selects for a relocation type. */
  datatype Kind = Word | Jump | Hi | Lo | Unhandled

  function KindOf(ty: nat): Kind {
    match ty % 0x80
    case 2 => Word
    case 4 => Jump
    case 5 => Hi
    case 6 => Lo
    case _ => Unhandled
  }

  // ---- Instruction fields ---------------------------------------------------------------

  function HiReg(w: u32): nat { w / 0x1_0000 % 32 }

  function LoReg(w: u32): nat { w / 0x20_0000 % 32 }

  function RegOf(k: Kind, w: u32): (r: nat)
    ensures r < 32
  {
    if k == Hi then HiReg(w) else LoReg(w)
  }

  /** The partial value a HI16 leaves in `hilopair_regs`. */
  function HighPart(w: u32): u32 { w % 0x1_0000 * 0x1_0000 }

  /** The address a HI16/LO16 pair of instruction words builds. */
  function PairAddress(hi: u32, lo: u32): u32 { Plus(HighPart(hi), Sext(lo % 0x1_0000)) }

  /** The address a jump instruction names, in segment 0x8. */
  function JumpAddress(w: u32): u32 { w % 0x400_0000 * 4 + 0x8000_0000 }

  function WithJump(w: u32, a: u32): u32 { w / 0x400_0000 * 0x400_0000 + a / 4 % 0x400_0000 }

  function WithLow(w: u32, a: u32): u32 { w / 0x1_0000 * 0x1_0000 + a % 0x1_0000 }

  /** The high half that compensates for the sign of the low half; it can be 0x10000. */
  function HighHalf(a: u32): (h: nat)
    ensures h <= 0x1_0000
  {
    a / 0x1_0000 + (if a % 0x1_0000 >= 0x8000 then 1 else 0)
  }

  /** `(w & 0xFFFF0000) | h`: a carry out of the half word is or-ed into the register field. */
  function WithHigh(w: u32, h: nat): u32
    requires h <= 0x1_0000
  {
    if h < 0x1_0000 then w / 0x1_0000 * 0x1_0000 + h
    else if w / 0x1_0000 % 2 == 0 then w / 0x1_0000 * 0x1_0000 + 0x1_0000
    else w / 0x1_0000 * 0x1_0000
  }

  // ---- Sections -------------------------------------------------------------------------

  /** `address` passes the range test of section `i`; the end of the section wraps around. */
  predicate InSection(starts: Quad, sizes: Quad, i: nat, address: u32)
    requires i < 4
  {
    starts[i] <= address < Plus(starts[i], sizes[i])
  }

  function TargetFrom(starts: Quad, sizes: Quad, i: nat, address: u32): (s: int)
    requires i <= 4
    ensures s == -1 || i <= s < 4
    ensures s >= 0 ==> InSection(starts, sizes, s, address)
    ensures forall k: nat :: i <= k < (if s < 0 then 4 else s) ==> !InSection(starts, sizes, k, address)
    decreases 4 - i
  {
    if i == 4 then -1
    else if InSection(starts, sizes, i, address) then i
    else TargetFrom(starts, sizes, i + 1, address)
  }

  /** The first section that holds the address, or -1. */
  function Target(starts: Quad, sizes: Quad, address: u32): int {
    TargetFrom(starts, sizes, 0, address)
  }

  /** Where the overlay puts an address of section `s`. */
  function Moved(L: Layout, s: nat, address: u32): u32
    requires s < 4
  {
    Plus(address, Minus(L.ovl[s], L.elf[s]))
  }

  function Adjust(L: Layout, address: u32, k: Kind, dry: bool): (u32, Code) {
    var s := Target(L.elf, L.sizes, address);
    if s < 0 then (address, Fail)
    else if k == Jump && s != 0 then (address, Error)
    else (if dry then address else Moved(L, s, address), Success)
  }

  // ---- Handlers as functions --------------------------------------------------------------

  /** The image and the three `hilopair_*` tables. */
  datatype Engine = Engine(mem: seq<byte>, ptrs: seq<Option<nat>>, regs: seq<u32>, status: seq<Status>) {
    /** A register that is not INVALID has a pointer into the image. */
    predicate Ok() {
      && |ptrs| == 32 && |regs| == 32 && |status| == 32
      && forall r: nat :: r < 32 && status[r] != Invalid ==> ptrs[r].Some? && ptrs[r].value + 4 <= |mem|
    }
  }

  function InitTables(e: Engine): (r: Engine)
    ensures r.Ok()
  {
    e.(ptrs := seq(32, _ => None), regs := seq(32, _ => 0), status := seq(32, _ => Invalid))
  }

  function DoWord(L: Layout, e: Engine, o: nat, dry: bool): (Engine, Code)
    requires e.Ok() && o + 4 <= |e.mem|
  {
    var (a, c) := Adjust(L, Load(e.mem, o), Word, dry);
    if c != Success || dry then (e, c) else (e.(mem := Store(e.mem, o, a)), Success)
  }

  function DoJump(L: Layout, e: Engine, o: nat, dry: bool): (Engine, Code)
    requires e.Ok() && o + 4 <= |e.mem|
  {
    var w := Load(e.mem, o);
    var (a, c) := Adjust(L, JumpAddress(w), Jump, dry);
    if c != Success || dry then (e, c) else (e.(mem := Store(e.mem, o, WithJump(w, a))), Success)
  }

  function DoHi(e: Engine, o: nat): (Engine, Code)
    requires e.Ok() && o + 4 <= |e.mem|
  {
    var w := Load(e.mem, o);
    var r := HiReg(w);
    (e.(regs := e.regs[r := HighPart(w)], ptrs := e.ptrs[r := Some(o)], status := e.status[r := Valid]), Success)
  }

  /** Both halves of a pair rewritten: the LO16 `w` at `o`, then its HI16 at `p`. */
  function PairPatched(m: seq<byte>, p: nat, o: nat, w: u32, a: u32): (r: seq<byte>)
    requires p + 4 <= |m| && o + 4 <= |m|
    ensures |r| == |m|
  {
    Store(Store(m, o, WithLow(w, a)), p, WithHigh(Load(m, p), HighHalf(a)))
  }

  function DoLo(L: Layout, e: Engine, o: nat, dry: bool): (Engine, Code)
    requires e.Ok() && o + 4 <= |e.mem|
  {
    var w := Load(e.mem, o);
    var r := LoReg(w);
    if e.status[r] == Invalid then (e, Error) else
    var (a, c) := Adjust(L, Plus(e.regs[r], Sext(w % 0x1_0000)), Lo, dry);
    var used := e.(status := e.status[r := Used]);
    if c == Fail && e.status[r] == Used then (used, FailKeepHi)
    else if c != Success || dry then (used, c)
    else
      (used.(mem := PairPatched(e.mem, e.ptrs[r].value, o, w, a)), Success)
  }

  /** `novl_reloc_do` on the word at byte offset `o`. */
  function Do(L: Layout, e: Engine, o: nat, ty: nat, dry: bool): (r: (Engine, Code))
    requires e.Ok() && o + 4 <= |e.mem|
    ensures r.0.Ok() && |r.0.mem| == |e.mem|
  {
    match KindOf(ty)
    case Word => DoWord(L, e, o, dry)
    case Jump => DoJump(L, e, o, dry)
    case Hi => DoHi(e, o)
    case Lo => DoLo(L, e, o, dry)
    case Unhandled => (e, Error)
  }

  /** What a handler does to the tables: a HI16 records its word and makes its register VALID,
      a LO16 makes its register USED, and a LO16 that fails outright found it VALID. */
  lemma DoEffect(L: Layout, e: Engine, o: nat, ty: nat, dry: bool)
    requires e.Ok() && o + 4 <= |e.mem|
    ensures var (f, v) := Do(L, e, o, ty, dry);
            var w := Load(e.mem, o);
            match KindOf(ty)
            case Hi =>
              && v == Success
              && f == e.(regs := e.regs[HiReg(w) := HighPart(w)], ptrs := e.ptrs[HiReg(w) := Some(o)],
                         status := e.status[HiReg(w) := Valid])
            case Lo =>
              && f.ptrs == e.ptrs && f.regs == e.regs
              && f.status == (if v == Error then e.status else e.status[LoReg(w) := Used])
              && (v == Fail ==> e.status[LoReg(w)] == Valid)
            case _ => f.ptrs == e.ptrs && f.regs == e.regs && f.status == e.status
  {
  }

  /** A packed relocation word. */
  function Pack(sec: nat, offset: int, ty: nat): u32 {
    Wrap(sec * 0x4000_0000) + ty % 0x40 * 0x100_0000 + offset % 0x100_0000
  }

  // ---- The engine as the source has it ------------------------------------------------------

  class Relocator {
    const memory: array<byte>
    const ptrs: array<Option<nat>>
    const regs: array<u32>
    const status: array<Status>
    var elfStarts: Quad
    var sizes: Quad
    var ovlStarts: Quad

    constructor (memory: array<byte>, elfStarts: Quad, sizes: Quad)
      ensures this.memory == memory && fresh(ptrs) && fresh(regs) && fresh(status) && Valid()
      ensures Map().elf == elfStarts && Map().sizes == sizes && State() == InitTables(State())
    {
      this.memory := memory;
      this.elfStarts, this.sizes, ovlStarts := elfStarts, sizes, [0, 0, 0, 0];
      ptrs := new Option<nat>[32](_ => None);
      regs := new u32[32](_ => 0);
      status := new Status[32](_ => Invalid);
    }

    ghost function State(): Engine
      reads memory, ptrs, regs, status
    {
      Engine(memory[..], ptrs[..], regs[..], status[..])
    }

    ghost function Map(): Layout
      reads this
    {
      Layout(elfStarts, sizes, ovlStarts)
    }

    predicate Tables() {
      ptrs.Length == regs.Length == status.Length == 32
    }

    ghost predicate Valid()
      reads memory, ptrs, regs, status
    {
      Tables() && State().Ok()
    }

    method GetTargetSection(address: u32) returns (s: int)
      ensures s == Target(elfStarts, sizes, address)
    {
      for i := 0 to 4
        invariant Target(elfStarts, sizes, address) == TargetFrom(elfStarts, sizes, i, address)
      {
        if address < elfStarts[i] || address >= Plus(elfStarts[i], sizes[i]) { continue; }
        return i;
      }
      return -1;
    }

    method AdjustAddress(address: u32, k: Kind, dry: bool) returns (adjusted: u32, ret: Code)
      ensures (adjusted, ret) == Adjust(Map(), address, k, dry)
    {
      adjusted := address;
      var s := GetTargetSection(address);
      if s < 0 { return adjusted, Fail; }
      if k == Jump && s != 0 { return adjusted, Error; }
      if !dry { adjusted := Plus(address, Minus(ovlStarts[s], elfStarts[s])); }
      ret := Success;
    }

    method RelocWord(o: nat, dry: bool) returns (ret: Code)
      requires Valid() && o + 4 <= memory.Length
      modifies memory
      ensures (State(), ret) == DoWord(Map(), old(State()), o, dry)
    {
      var w := ReadWord(memory, o);
      w, ret := AdjustAddress(w, Word, dry);
      if ret != Success { return; }
      if !dry { WriteWord(memory, o, w); }
    }

    method RelocJump(o: nat, dry: bool) returns (ret: Code)
      requires Valid() && o + 4 <= memory.Length
      modifies memory
      ensures (State(), ret) == DoJump(Map(), old(State()), o, dry)
    {
      var w := ReadWord(memory, o);
      var address := JumpAddress(w);
      address, ret := AdjustAddress(address, Jump, dry);
      if ret != Success { return; }
      if !dry { WriteWord(memory, o, WithJump(w, address)); }
    }

    method RelocHi(o: nat) returns (ret: Code)
      requires Valid() && o + 4 <= memory.Length
      modifies ptrs, regs, status
      ensures (State(), ret) == DoHi(old(State()), o)
    {
      var w := ReadWord(memory, o);
      var reg := HiReg(w);
      regs[reg] := HighPart(w);
      ptrs[reg] := Some(o);
      status[reg] := Status.Valid;
      ret := Success;
    }

    method PatchPair(p: nat, o: nat, w: u32, address: u32)
      requires p + 4 <= memory.Length && o + 4 <= memory.Length
      modifies memory
      ensures memory[..] == PairPatched(old(memory[..]), p, o, w, address)
    {
      var old_w := ReadWord(memory, p);
      WriteWord(memory, o, WithLow(w, address));
      WriteWord(memory, p, WithHigh(old_w, HighHalf(address)));
    }

    method RelocLo(o: nat, dry: bool) returns (ret: Code)
      requires Valid() && o + 4 <= memory.Length
      modifies memory, status
      ensures (State(), ret) == DoLo(Map(), old(State()), o, dry)
    {
      var w := ReadWord(memory, o);
      var reg := LoReg(w);
      if status[reg] == Invalid { return Error; }
      var address := Plus(regs[reg], Sext(w % 0x1_0000));
      address, ret := AdjustAddress(address, Lo, dry);
      if ret != Success {
        if ret == Fail && status[reg] == Used { ret := FailKeepHi; }
      } else if !dry {
        PatchPair(ptrs[reg].value, o, w, address);
      }
      status[reg] := Used;
    }

    /** `novl_reloc_do` */
    method RelocDo(o: nat, ty: nat, dry: bool) returns (ret: Code)
      requires Valid() && o + 4 <= memory.Length
      modifies memory, ptrs, regs, status
      ensures Valid() && (State(), ret) == Do(Map(), old(State()), o, ty, dry)
    {
      match KindOf(ty)
      case Word => ret := RelocWord(o, dry);
      case Jump => ret := RelocJump(o, dry);
      case Hi => ret := RelocHi(o);
      case Lo => ret := RelocLo(o, dry);
      case Unhandled => ret := Error;
    }

    /** `novl_reloc_init` */
    method RelocInit()
      requires Tables()
      modifies ptrs, regs, status
      ensures Valid() && State() == InitTables(old(State()))
    {
      for i := 0 to 32
        invariant forall k: nat :: k < i ==> ptrs[k] == None && regs[k] == 0 && status[k] == Invalid
      {
        ptrs[i], regs[i], status[i] := None, 0, Invalid;
      }
      assert ptrs[..] == InitTables(old(State())).ptrs;
      assert regs[..] == InitTables(old(State())).regs;
      assert status[..] == InitTables(old(State())).status;
    }
  }
}
