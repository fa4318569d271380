/** The words that the relocation engine reads and writes, by the fields of MIPS instructions. */
module Instructions {
  import opened Words
  import opened Reloc

  /** An instruction with two registers and an immediate. */
  function Immediate(op: nat, rs: nat, rt: nat, imm: nat): u32
    requires op < 64 && rs < 32 && rt < 32 && imm < 0x1_0000
  {
    0x400_0000 * op + 0x20_0000 * rs + 0x1_0000 * rt + imm
  }

  /** An instruction with a target. */
  function Target26(op: nat, target: nat): u32
    requires op < 64 && target < 0x400_0000
  {
    0x400_0000 * op + target
  }

  lemma Halves(op: nat, rs: nat, rt: nat, imm: nat)
    requires op < 64 && rs < 32 && rt < 32 && imm < 0x1_0000
    ensures var w := Immediate(op, rs, rt, imm);
            && w / 0x1_0000 == 1024 * op + 32 * rs + rt && w % 0x1_0000 == imm
            && w / 0x20_0000 == 32 * op + rs
  {
    var w, upper := Immediate(op, rs, rt, imm), 1024 * op + 32 * rs + rt;
    Quotient(w, 0x1_0000, upper, imm);
    Quotient(w, 0x20_0000, 32 * op + rs, 0x1_0000 * rt + imm);
  }

  /** The handlers take a HI16's register from rt, a LO16's from rs, and the immediate of both; they
      store into the immediate, and a carry out of that of a HI16 into the lowest bit of rt. */
  lemma ImmediateFields(op: nat, rs: nat, rt: nat, imm: nat, a: u32)
    requires op < 64 && rs < 32 && rt < 32 && imm < 0x1_0000
    ensures var w := Immediate(op, rs, rt, imm);
            && HiReg(w) == rt && LoReg(w) == rs && HighPart(w) == 0x1_0000 * imm
            && WithLow(w, a) == Immediate(op, rs, rt, a % 0x1_0000)
            && (forall h: nat :: h < 0x1_0000 ==> WithHigh(w, h) == Immediate(op, rs, rt, h))
            && WithHigh(w, 0x1_0000) == Immediate(op, rs, if rt % 2 == 0 then rt + 1 else rt, 0)
  {
    Halves(op, rs, rt, imm);
    var upper := 1024 * op + 32 * rs + rt;
    Quotient(upper, 32, 32 * op + rs, rt);
    Quotient(32 * op + rs, 32, op, rs);
    Quotient(upper, 2, 512 * op + 16 * rs + rt / 2, rt % 2);
  }

  /** A jump names a word of the segment 0x8, and another target goes into its 26 bits. */
  lemma JumpFields(op: nat, target: nat, a: u32)
    requires op < 64 && target < 0x400_0000
    ensures var w := Target26(op, target);
            && JumpAddress(w) == 0x8000_0000 + 4 * target
            && WithJump(w, a) == Target26(op, a / 4 % 0x400_0000)
  {
    Quotient(Target26(op, target), 0x400_0000, op, target);
  }

  /** A HI16 and a LO16 build the immediate of the first, shifted, plus that of the second, which is
      negative from 0x8000 on. */
  lemma PairBuilds(w: u32, v: u32)
    ensures var hi, lo := w % 0x1_0000, v % 0x1_0000;
            PairAddress(w, v)
            == if lo < 0x8000 then 0x1_0000 * hi + lo
               else if hi > 0 then 0x1_0000 * (hi - 1) + lo
               else 0xffff_0000 + lo
  {
    hide Wrap;
    var hi, lo := w % 0x1_0000, v % 0x1_0000;
    var sum := hi * 0x1_0000 + if lo < 0x8000 then lo else lo - 0x1_0000;
    assert PairAddress(w, v) == Wrap(sum);
    WrappedOnce(sum);
  }

  lemma WrappedOnce(x: int)
    requires -0x1_0000_0000 <= x < 0x1_0000_0000
    ensures Wrap(x) == if x < 0 then x + 0x1_0000_0000 else x
  {
  }

  /** The halves that are stored build the address. */
  lemma HalvesOf(a: u32)
    ensures var lo := a % 0x1_0000;
            0x1_0000 * HighHalf(a) + (if lo < 0x8000 then lo else lo - 0x1_0000) == a
  {
  }

  /** The handler of each relocation type: R_MIPS_32, R_MIPS_26, R_MIPS_HI16 and R_MIPS_LO16. */
  lemma Handlers(L: Layout, e: Engine, o: nat, ty: nat, dry: bool)
    requires e.Ok() && o + 4 <= |e.mem|
    ensures Do(L, e, o, ty, dry) ==
            if ty % 128 == 2 then DoWord(L, e, o, dry)
            else if ty % 128 == 4 then DoJump(L, e, o, dry)
            else if ty % 128 == 5 then DoHi(e, o)
            else if ty % 128 == 6 then DoLo(L, e, o, dry)
            else (e, Error)
  {
    hide DoWord, DoJump, DoHi, DoLo;
  }

  /** A word in memory, most significant byte first. */
  lemma BigEndianBytes(m: seq<byte>, o: nat)
    requires o + 4 <= |m|
    ensures Load(m, o) == 0x100_0000 * m[o] as int + 0x1_0000 * m[o + 1] as int + 0x100 * m[o + 2] as int + m[o + 3]
  {
  }
}
