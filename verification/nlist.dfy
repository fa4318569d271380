/** Symbol lookup by name: the hash function of libelf/hash.c and the hash index of
    libelf/nlist.c. */
module NList {
  import opened Words

  // ---- elf_hash ---------------------------------------------------------------------------------------

  /** Exclusive or of two 4-bit values. */
  function Xor4(a: nat, b: nat): (r: nat)
    ensures r < 16
  {
    (a + b) % 2 + 2 * ((a / 2 + b / 2) % 2) + 4 * ((a / 4 + b / 4) % 2) + 8 * ((a / 8 + b / 8) % 2)
  }

  /** Bits 0 to 27 after the top nibble is folded into bits 4 to 7. */
  function FoldLow(rest: nat, top: nat): (r: nat)
    requires rest < 0x1000_0000
    ensures r < 0x1000_0000
  {
    var q, x, low := rest / 0x100, Xor4(rest / 16 % 16, top), rest % 16;
    q * 0x100 + x * 16 + low
  }

  /** The bits from 32 on. */
  function High(h: nat): nat { h - h % 0x1_0000_0000 }

  /** `hash ^= tmp | (tmp >> 24)`: the top nibble of the low 32 bits is cleared and folded into
      bits 4 to 7; bits above are not touched. */
  function Fold(h: nat): nat { High(h) + FoldLow(h % 0x1000_0000, h / 0x1000_0000 % 16) }

  /** `unsigned long` has 64 or 32 bits. */
  function WrapLong(wide: bool, x: nat): nat {
    if wide then x % 0x1_0000_0000_0000_0000 else x % 0x1_0000_0000
  }

  function HashStep(wide: bool, hash: nat, c: byte): nat {
    var h := WrapLong(wide, hash * 16 + c);
    if h / 0x1000_0000 % 16 == 0 then h else Fold(h)
  }

  function ElfHash(wide: bool, name: seq<byte>): nat {
    if name == [] then 0 else HashStep(wide, ElfHash(wide, name[..|name| - 1]), name[|name| - 1])
  }

  method ComputeHash(wide: bool, name: seq<byte>) returns (hash: nat)
    ensures hash == ElfHash(wide, name)
  {
    hide WrapLong, Fold;
    hash := 0;
    for i := 0 to |name|
      invariant hash == ElfHash(wide, name[..i])
    {
      assert name[..i + 1][..i] == name[..i];
      hash := WrapLong(wide, hash * 16 + name[i]);
      var tmp := hash / 0x1000_0000 % 16;
      if tmp != 0 {
        hash := Fold(hash);
      }
    }
    assert name[..|name|] == name;
  }

  /** With 32-bit longs the value always fits in 28 bits. */
  lemma {:induction false} HashFits28Bits(name: seq<byte>)
    ensures ElfHash(false, name) < 0x1000_0000
  {
    hide HashStep;
    if name != [] {
      HashFits28Bits(name[..|name| - 1]);
      StepFits28Bits(ElfHash(false, name[..|name| - 1]), name[|name| - 1]);
    }
  }

  lemma StepFits28Bits(hash: nat, c: byte)
    ensures HashStep(false, hash, c) < 0x1000_0000
  {
    hide Fold;
    var h := WrapLong(false, hash * 16 + c);
    FoldFits28Bits(h);
    if h / 0x1000_0000 % 16 == 0 {
      assert h / 0x1000_0000 == 0;
    }
  }

  lemma FoldFits28Bits(h: nat)
    requires h < 0x1_0000_0000
    ensures Fold(h) < 0x1000_0000
  {
    hide FoldLow;
  }

  // ---- One round, bit by bit ----------------------------------------------------------------------------

  function Two(i: nat): (p: nat)
    ensures p > 0
  {
    if i == 0 then 1 else 2 * Two(i - 1)
  }

  /** Bit `i` of `x`. */
  function Bit(x: nat, i: nat): nat { x / Two(i) % 2 }

  lemma BitNext(x: nat, i: nat)
    ensures Bit(x, i + 1) == Bit(x / 2, i) && Bit(x, 0) == x % 2
  {
    HalfQuotient(x, Two(i), x / 2, x % 2);
  }

  lemma HalfQuotient(x: nat, p: nat, q: nat, r: nat)
    requires p > 0 && x == 2 * q + r && r < 2
    ensures x / (2 * p) == q / p
  {
    var a, b := q / p, q % p;
    Regroup(a, p, b, r);
    Quotient(x, 2 * p, a, 2 * b + r);
  }

  lemma Regroup(a: nat, p: nat, b: nat, r: nat)
    ensures 2 * (a * p + b) + r == a * (2 * p) + (2 * b + r)
  {
  }

  /** The bits of a number put together from `a` and the `k` bits of `b`. */
  lemma {:induction false} BitOfSum(a: nat, k: nat, b: nat, i: nat)
    requires b < Two(k)
    ensures Bit(a * Two(k) + b, i) == if i < k then Bit(b, i) else Bit(a, i - k)
  {
    hide Bit;
    if k > 0 {
      var x := a * Two(k) + b;
      Halve(a, Two(k - 1), b);
      if i > 0 {
        BitNext(x, i - 1);
        BitNext(b, i - 1);
        BitOfSum(a, k - 1, b / 2, i - 1);
      } else {
        BitNext(x, 0);
        BitNext(b, 0);
      }
    }
  }

  lemma Halve(a: nat, p: nat, b: nat)
    ensures (a * (2 * p) + b) / 2 == a * p + b / 2 && (a * (2 * p) + b) % 2 == b % 2
  {
    var x, q, r := a * (2 * p) + b, b / 2, b % 2;
    assert x == (a * p + q) * 2 + r;
    Quotient(x, 2, a * p + q, r);
  }

  lemma NibbleBits(a: nat, b: nat, c: nat, d: nat, i: nat)
    requires a < 2 && b < 2 && c < 2 && d < 2 && i < 4
    ensures Bit(a + 2 * b + 4 * c + 8 * d, i) == if i == 0 then a else if i == 1 then b else if i == 2 then c else d
  {
    assert Two(0) == 1 && Two(1) == 2 && Two(2) == 4 && Two(3) == 8;
  }

  lemma FourBits(a: nat)
    requires a < 16
    ensures Bit(a, 0) == a % 2 && Bit(a, 1) == a / 2 % 2 && Bit(a, 2) == a / 4 % 2 && Bit(a, 3) == a / 8 % 2
  {
    assert Two(0) == 1 && Two(1) == 2 && Two(2) == 4 && Two(3) == 8;
  }

  lemma ParityOfSum(u: nat, v: nat)
    ensures (u + v) % 2 == if u % 2 != v % 2 then 1 else 0
  {
  }

  function Differ(u: nat, v: nat): nat { if u % 2 != v % 2 then 1 else 0 }

  lemma XorIs(a: nat, b: nat)
    ensures Xor4(a, b) == Differ(a, b) + 2 * Differ(a / 2, b / 2) + 4 * Differ(a / 4, b / 4) + 8 * Differ(a / 8, b / 8)
  {
    ParityOfSum(a, b);
    ParityOfSum(a / 2, b / 2);
    ParityOfSum(a / 4, b / 4);
    ParityOfSum(a / 8, b / 8);
  }

  lemma XorBits(a: nat, b: nat, i: nat)
    requires a < 16 && b < 16 && i < 4
    ensures Bit(Xor4(a, b), i) == if Bit(a, i) != Bit(b, i) then 1 else 0
  {
    hide Bit, Xor4;
    XorIs(a, b);
    NibbleBits(Differ(a, b), Differ(a / 2, b / 2), Differ(a / 4, b / 4), Differ(a / 8, b / 8), i);
    FourBits(a);
    FourBits(b);
  }

  lemma Twos()
    ensures Two(4) == 0x10 && Two(8) == 0x100 && Two(28) == 0x1000_0000
  {
    assert Two(4) == 0x10;
    assert Two(8) == 0x100;
    assert Two(12) == 0x1000;
    assert Two(16) == 0x1_0000;
    assert Two(20) == 0x10_0000;
    assert Two(24) == 0x100_0000;
  }

  /** The parts of `t`: its top nibble, bits 8 to 27, bits 4 to 7, and bits 0 to 3. */
  lemma Parts(t: nat, q: nat, m: nat, low: nat, i: nat)
    requires m < 16 && low < 16 && q < 0x10_0000
    ensures Bit(t * 0x1000_0000 + (q * 0x100 + (m * 16 + low)), i) ==
            if i < 4 then Bit(low, i) else if i < 8 then Bit(m, i - 4) else if i < 28 then Bit(q, i - 8) else Bit(t, i - 28)
  {
    hide Bit, Two;
    Twos();
    BitOfSum(t, 28, q * 0x100 + (m * 16 + low), i);
    BitOfSum(q, 8, m * 16 + low, i);
    BitOfSum(m, 4, low, i);
  }

  lemma Split(t: nat)
    requires t < 0x1_0000_0000
    ensures var top, rest := t / 0x1000_0000, t % 0x1000_0000;
            var q, m, low := rest / 0x100, rest / 16 % 16, rest % 16;
            top < 16 && q < 0x10_0000 && t == top * 0x1000_0000 + (q * 0x100 + (m * 16 + low))
  {
  }

  /** One round with 32-bit longs: of the 32 bits of 16 times the hash plus the character, the low 28
      are kept, but that bits 4 to 7 are exclusive-ored with bits 28 to 31. */
  lemma RoundBits(hash: nat, c: byte, i: nat)
    requires i < 28
    ensures var t := (16 * hash + c) % 0x1_0000_0000;
            var h := HashStep(false, hash, c);
            && h < 0x1000_0000
            && h / Two(i) % 2 == if 4 <= i < 8 then (if t / Two(i) % 2 != t / Two(i + 24) % 2 then 1 else 0) else t / Two(i) % 2
  {
    hide Two, Xor4;
    var t := (16 * hash + c) % 0x1_0000_0000;
    var top, rest := t / 0x1000_0000, t % 0x1000_0000;
    var q, m, low := rest / 0x100, rest / 16 % 16, rest % 16;
    Split(t);
    StepFits28Bits(hash, c);
    FoldedIs(hash, c);
    Parts(top, q, m, low, i);
    Parts(top, q, m, low, i + 24);
    Parts(0, q, Xor4(m, top), low, i);
    if 4 <= i < 8 { XorBits(m, top, i - 4); }
  }

  lemma FoldedIs(hash: nat, c: byte)
    ensures var t := (16 * hash + c) % 0x1_0000_0000;
            var rest := t % 0x1000_0000;
            HashStep(false, hash, c)
            == 0 * 0x1000_0000 + (rest / 0x100 * 0x100 + (Xor4(rest / 16 % 16, t / 0x1000_0000) * 16 + rest % 16))
  {
    hide Xor4, Fold;
    var t := (16 * hash + c) % 0x1_0000_0000;
    var rest := t % 0x1000_0000;
    NoXor(rest / 16 % 16);
    Split(t);
    FoldIs(t);
  }

  lemma FoldIs(t: nat)
    requires t < 0x1_0000_0000
    ensures var rest := t % 0x1000_0000;
            Fold(t) == rest / 0x100 * 0x100 + (Xor4(rest / 16 % 16, t / 0x1000_0000) * 16 + rest % 16)
  {
    hide Xor4;
  }

  lemma NoXor(a: nat)
    requires a < 16
    ensures Xor4(a, 0) == a
  {
  }

  /** `syscall` and `aaaaaaa` */
  lemma KnownHashes()
    ensures ElfHash(false, [115, 121, 115, 99, 97, 108, 108]) == 0xb09985c
    ensures ElfHash(false, [97, 97, 97, 97, 97, 97, 97]) == 0x7777711
  {
    hide ElfHash, HashStep;
    HashOf7(115, 121, 115, 99, 97, 108, 108);
    HashOf7(97, 97, 97, 97, 97, 97, 97);
    StepsOfSyscall();
    StepsOfA();
  }

  lemma KnownFold(hash: nat, c: byte, top: nat, q: nat, m: nat, low: nat)
    requires top < 16 && q < 0x10_0000 && m < 16 && low < 16
    requires 16 * hash + c == top * 0x1000_0000 + (q * 0x100 + (m * 16 + low))
    ensures HashStep(false, hash, c) == q * 0x100 + (Xor4(m, top) * 16 + low)
  {
    hide HashStep, Xor4;
    var t, rest := 16 * hash + c, q * 0x100 + (m * 16 + low);
    FoldedIs(hash, c);
    Quotient(t, 0x1_0000_0000, 0, t);
    Quotient(t, 0x1000_0000, top, rest);
    Quotient(rest, 0x100, q, m * 16 + low);
    Quotient(rest, 16, q * 16 + m, low);
    Quotient(q * 16 + m, 16, q, m);
  }

  lemma KnownXors()
    ensures Xor4(2, 7) == 5 && Xor4(7, 6) == 1
  {
  }

  lemma StepsOfSyscall()
    ensures HashStep(false, 0, 115) == 0x73 && HashStep(false, 0x73, 121) == 0x7a9 && HashStep(false, 0x7a9, 115) == 0x7b03
    ensures HashStep(false, 0x7b03, 99) == 0x7b093 && HashStep(false, 0x7b093, 97) == 0x7b0991
    ensures HashStep(false, 0x7b0991, 108) == 0x7b0997c && HashStep(false, 0x7b0997c, 108) == 0xb09985c
  {
    hide HashStep, Xor4;
    SmallStep(false, 0, 115);
    SmallStep(false, 0x73, 121);
    SmallStep(false, 0x7a9, 115);
    SmallStep(false, 0x7b03, 99);
    SmallStep(false, 0x7b093, 97);
    SmallStep(false, 0x7b0991, 108);
    KnownFold(0x7b0997c, 108, 7, 0xb0998, 2, 12);
    KnownXors();
  }

  lemma StepsOfA()
    ensures HashStep(false, 0, 97) == 0x61 && HashStep(false, 0x61, 97) == 0x671 && HashStep(false, 0x671, 97) == 0x6771
    ensures HashStep(false, 0x6771, 97) == 0x67771 && HashStep(false, 0x67771, 97) == 0x677771
    ensures HashStep(false, 0x677771, 97) == 0x6777771 && HashStep(false, 0x6777771, 97) == 0x7777711
  {
    hide HashStep, Xor4;
    SmallStep(false, 0, 97);
    SmallStep(false, 0x61, 97);
    SmallStep(false, 0x671, 97);
    SmallStep(false, 0x6771, 97);
    SmallStep(false, 0x67771, 97);
    SmallStep(false, 0x677771, 97);
    KnownFold(0x6777771, 97, 6, 0x77777, 7, 1);
    KnownXors();
  }

  lemma HashOf7(a: byte, b: byte, c: byte, d: byte, e: byte, f: byte, g: byte)
    ensures ElfHash(false, [a, b, c, d, e, f, g])
         == HashStep(false, HashStep(false, HashStep(false, HashStep(false, HashStep(false,
              HashStep(false, HashStep(false, 0, a), b), c), d), e), f), g)
  {
    hide HashStep;
    assert ElfHash(false, []) == 0;
    Extend(false, [], a);
    Extend(false, [a], b);
    Extend(false, [a, b], c);
    Extend(false, [a, b, c], d);
    Extend(false, [a, b, c, d], e);
    Extend(false, [a, b, c, d, e], f);
    Extend(false, [a, b, c, d, e, f], g);
    assert [a] + [b] == [a, b] && [a, b] + [c] == [a, b, c] && [a, b, c] + [d] == [a, b, c, d] && [] + [a] == [a];
    assert [a, b, c, d] + [e] == [a, b, c, d, e] && [a, b, c, d, e] + [f] == [a, b, c, d, e, f];
    assert [a, b, c, d, e, f] + [g] == [a, b, c, d, e, f, g];
  }

  // ---- Carries ---------------------------------------------------------------------------------------------

  /** The carry out of 32 bits in the last round. */
  function Carry(name: seq<byte>): (c: nat)
    requires name != []
    ensures c <= 1
  {
    var init := name[..|name| - 1];
    HashFits28Bits(init);
    (ElfHash(false, init) * 16 + name[|name| - 1]) / 0x1_0000_0000
  }

  /** The carries of the last `m` rounds, as base-16 digits. */
  function Carries(name: seq<byte>, m: nat): nat {
    if m == 0 || name == [] then 0 else 16 * Carries(name[..|name| - 1], m - 1) + Carry(name)
  }

  /** No round among the last `m` carries. */
  predicate NoLateCarry(name: seq<byte>, m: nat) {
    m == 0 || name == [] || (Carry(name) == 0 && NoLateCarry(name[..|name| - 1], m - 1))
  }

  lemma {:induction false} NoLateCarryIsZero(name: seq<byte>, m: nat)
    ensures Carries(name, m) == 0 <==> NoLateCarry(name, m)
  {
    hide Carry;
    if m > 0 && name != [] {
      NoLateCarryIsZero(name[..|name| - 1], m - 1);
    }
  }

  function Power16(m: nat): (p: nat)
    ensures p > 0
  {
    if m == 0 then 1 else 16 * Power16(m - 1)
  }

  /** The oldest of `m + 1` digits is 0 or 1. */
  lemma {:induction false} OldestCarry(name: seq<byte>, m: nat)
    ensures Carries(name, m) < Power16(m)
    ensures Carries(name, m + 1) == Carries(name, m) || Carries(name, m + 1) == Carries(name, m) + Power16(m)
  {
    hide Carry;
    if name != [] {
      var init := name[..|name| - 1];
      if m > 0 {
        OldestCarry(init, m - 1);
      } else {
        assert Carries(init, 0) == 0;
      }
    }
  }

  lemma SevenDigits()
    ensures Power16(7) == 0x1000_0000
  {
    assert Power16(4) == 0x1_0000;
  }

  lemma Halves(u: nat, r: nat)
    requires r < 0x1_0000_0000
    ensures var h := u * 0x1_0000_0000 + r;
            h % 0x1_0000_0000 == r && h % 0x1000_0000 == r % 0x1000_0000 && h / 0x1000_0000 % 16 == r / 0x1000_0000 % 16
  {
    var h := u * 0x1_0000_0000 + r;
    assert h % 0x1_0000_0000 == r;
    var a, b := r / 0x1000_0000, r % 0x1000_0000;
    assert h == (16 * u + a) * 0x1000_0000 + b;
    assert h / 0x1000_0000 == 16 * u + a && h % 0x1000_0000 == b;
    assert (16 * u + a) % 16 == a;
  }

  lemma ShiftedOut(x: nat)
    requires x < 0x1_0000_0000_0000_0000
    ensures WrapLong(true, x) == x && WrapLong(true, 0x1_0000_0000_0000_0000 + x) == x
  {
  }

  /** One round on 64 bits: `p` are the seven later digits above bit 32, `q` has the eighth too. */
  lemma WideStep(q: nat, p: nat, l: nat, c: byte)
    requires p < 0x1000_0000 && (q == p || q == p + 0x1000_0000) && l < 0x1000_0000
    ensures HashStep(true, q * 0x1_0000_0000 + l, c)
         == (16 * p + (l * 16 + c) / 0x1_0000_0000) * 0x1_0000_0000 + HashStep(false, l, c)
  {
    hide FoldLow, WrapLong;
    var t: nat := l * 16 + c;
    var carry, r := t / 0x1_0000_0000, t % 0x1_0000_0000;
    var u := 16 * p + carry;
    var h := u * 0x1_0000_0000 + r;
    assert t == carry * 0x1_0000_0000 + r;
    ShiftedOut(h);
    assert (q * 0x1_0000_0000 + l) * 16 + c == if q == p then h else 0x1_0000_0000_0000_0000 + h;
    assert WrapLong(false, t) == r by { LowBits(t); }
    Halves(u, r);
  }

  lemma LowBits(t: nat)
    ensures WrapLong(false, t) == t % 0x1_0000_0000
  {
  }

  /** With 64-bit longs the low 32 bits are the standard's value, for every name; above them are the
      carries of the last eight rounds. */
  lemma {:induction false} WideHash(name: seq<byte>)
    ensures ElfHash(true, name) == Carries(name, 8) * 0x1_0000_0000 + ElfHash(false, name)
    ensures ElfHash(true, name) % 0x1_0000_0000 == ElfHash(false, name)
  {
    hide HashStep, Power16, Carries;
    HashFits28Bits(name);
    if name == [] {
      NoLateCarryIsZero([], 8);
    } else {
      var init := name[..|name| - 1];
      WideHash(init);
      HashFits28Bits(init);
      SevenDigits();
      OldestCarry(init, 7);
      WideStep(Carries(init, 8), Carries(init, 7), ElfHash(false, init), name[|name| - 1]);
      NextCarries(name);
    }
    Halves(Carries(name, 8), ElfHash(false, name));
  }

  lemma NextCarries(name: seq<byte>)
    requires name != []
    ensures Carries(name, 8) == 16 * Carries(name[..|name| - 1], 7) + Carry(name)
  {
    hide Carry;
  }

  /** The two widths give the same value exactly if none of the last eight rounds carries: a carry
      is shifted out of 64 bits eight rounds later. */
  lemma SameHash(name: seq<byte>)
    ensures ElfHash(true, name) == ElfHash(false, name) <==> NoLateCarry(name, 8)
  {
    hide ElfHash, Carries, NoLateCarry;
    WideHash(name);
    NoLateCarryIsZero(name, 8);
  }

  /** A name whose value needs 33 bits where longs have 64; the standard's value is 0. */
  lemma WideHashCarries()
    ensures ElfHash(true, [15, 15, 15, 15, 15, 15, 15, 16]) == 0x1_0000_0000
    ensures ElfHash(false, [15, 15, 15, 15, 15, 15, 15, 16]) == 0
  {
    hide ElfHash, HashStep;
    assert [15, 15, 15, 15, 15, 15, 15, 16] == Fifteens(7) + [16];
    forall wide: bool ensures ElfHash(wide, Fifteens(7) + [16]) == HashStep(wide, 0xfff_ffff, 16) {
      HashOfFifteens(wide, 7);
      Extend(wide, Fifteens(7), 16);
    }
    LastStep();
  }

  function Fifteens(k: nat): (s: seq<byte>)
    ensures |s| == k && forall i :: 0 <= i < k ==> s[i] == 15
  {
    seq(k, _ => 15)
  }

  function Ones(k: nat): nat { if k == 0 then 0 else 16 * Ones(k - 1) + 15 }

  lemma {:induction false} HashOfFifteens(wide: bool, k: nat)
    requires k <= 7
    ensures ElfHash(wide, Fifteens(k)) == Ones(k) && Ones(7) == 0xfff_ffff && Ones(k) <= 0xfff_ffff
  {
    hide HashStep;
    assert Ones(4) == 0xffff;
    if k > 0 {
      HashOfFifteens(wide, k - 1);
      assert Ones(k - 1) <= 0xff_ffff;
      assert Fifteens(k) == Fifteens(k - 1) + [15];
      Extend(wide, Fifteens(k - 1), 15);
      SmallStep(wide, Ones(k - 1), 15);
    }
  }

  lemma SmallStep(wide: bool, h: nat, c: byte)
    requires h * 16 + c < 0x1000_0000
    ensures HashStep(wide, h, c) == h * 16 + c
  {
    hide Fold;
  }

  lemma LastStep()
    ensures HashStep(true, 0xfff_ffff, 16) == 0x1_0000_0000 && HashStep(false, 0xfff_ffff, 16) == 0
  {
    hide Fold;
  }

  lemma Extend(wide: bool, name: seq<byte>, c: byte)
    ensures ElfHash(wide, name + [c]) == HashStep(wide, ElfHash(wide, name), c)
  {
    var all := name + [c];
    assert all[..|all| - 1] == name;
  }

  // ---- The index --------------------------------------------------------------------------------------

  const PRIME := 217

  function Bucket(wide: bool, name: seq<byte>): (b: nat)
    ensures b < PRIME
  {
    ElfHash(wide, name) % PRIME
  }

  /** The string that starts at `off`, up to a NUL or the end of the table. */
  function StringAt(strtab: seq<byte>, off: nat): (s: seq<byte>)
    requires off <= |strtab|
    ensures forall i :: 0 <= i < |s| ==> s[i] != 0
    ensures off + |s| <= |strtab| && s == strtab[off..off + |s|]
    ensures off + |s| < |strtab| ==> strtab[off + |s|] == 0
    decreases |strtab| - off
  {
    if off == |strtab| || strtab[off] == 0 then [] else [strtab[off]] + StringAt(strtab, off + 1)
  }

  /** `symbol_name` finds a name: the offset is inside the string table. */
  predicate Named(strtab: seq<byte>, off: nat) { off < |strtab| }

  /** And the name ends in the table, so that hashing it reads nothing else. */
  predicate Ended(strtab: seq<byte>, off: nat)
    requires Named(strtab, off)
  {
    off + |StringAt(strtab, off)| < |strtab|
  }

  datatype Entry = Entry(name: Option<seq<byte>>, hash: nat, next: nat)

  /** Symbol `j` has a name and belongs to bucket `b`. */
  predicate InBucket(wide: bool, names: seq<seq<byte>>, j: nat, b: nat) {
    0 < j < |names| && names[j] != [] && Bucket(wide, names[j]) == b
  }

  /** The greatest symbol below `i` in bucket `b`, or 0. */
  function LastIn(wide: bool, names: seq<seq<byte>>, i: nat, b: nat): (j: nat)
    requires i <= |names|
    ensures j == 0 || (j < i && InBucket(wide, names, j, b))
    ensures forall k :: j < k < i ==> !InBucket(wide, names, k, b)
  {
    if i == 0 then 0
    else if InBucket(wide, names, i - 1, b) then i - 1
    else LastIn(wide, names, i - 1, b)
  }

  lemma LastInStep(wide: bool, names: seq<seq<byte>>, i: nat, b: nat)
    requires i < |names|
    ensures LastIn(wide, names, i + 1, b) == if InBucket(wide, names, i, b) then i else LastIn(wide, names, i, b)
  {
  }

  /** The greatest symbol number from 1 on with the given name, or 0. */
  function LastNamed(names: seq<seq<byte>>, i: nat, name: seq<byte>): (j: nat)
    requires i <= |names|
    ensures j == 0 || (0 < j < i && names[j] == name)
    ensures forall k :: j < k < i ==> names[k] != name
  {
    if i <= 1 then 0 else if names[i - 1] == name then i - 1 else LastNamed(names, i - 1, name)
  }

  class Index {
    const wide: bool
    const first: array<nat>
    const table: array<Entry>
    ghost const names: seq<seq<byte>>

    /** The first `n` symbols are chained: bucket heads and `next` fields lead down the bucket. */
    ghost predicate Chained(n: nat)
      reads first, table
    {
      && first.Length == PRIME && table.Length == |names| && n <= |names|
      && (forall b {:trigger first[b]} :: 0 <= b < PRIME ==> first[b] == LastIn(wide, names, n, b))
      && (forall j {:trigger table[j]} :: 0 < j < n && names[j] != [] ==>
            && table[j].name == Some(names[j]) && table[j].hash == ElfHash(wide, names[j])
            && table[j].next == LastIn(wide, names, j, Bucket(wide, names[j])))
    }

    constructor (wide: bool, ghost names: seq<seq<byte>>, n: nat)
      requires n == |names| && n > 0
      ensures this.wide == wide && this.names == names && Chained(1) && fresh(first) && fresh(table)
    {
      this.wide, this.names := wide, names;
      first := new nat[PRIME](_ => 0);
      table := new Entry[n](_ => Entry(None, 0, 0));
    }

    method HashAndBucket(name: seq<byte>) returns (hash: nat, b: nat)
      ensures hash == ElfHash(wide, name) && b == Bucket(wide, name)
    {
      hash := ComputeHash(wide, name);
      b := hash % PRIME;
    }

    /** One round of the build loop. */
    method Add(i: nat, name: seq<byte>)
      requires 0 < i < |names| && names[i] == name && Chained(i)
      modifies first, table
      ensures Chained(i + 1)
    {
      hide ElfHash, Bucket, LastIn;
      forall b: nat | b < PRIME ensures LastIn(wide, names, i + 1, b) == if InBucket(wide, names, i, b) then i else LastIn(wide, names, i, b) {
        LastInStep(wide, names, i, b);
      }
      if name != [] {
        var hash, b := HashAndBucket(name);
        table[i] := Entry(Some(name), hash, first[b]);
        first[b] := i;
      }
    }

    /** The lookup loop: equal, for every non-empty name, to a linear search for the last symbol
        with that name. */
    method Lookup(name: seq<byte>) returns (i: nat)
      requires Chained(|names|) && name != [] && names != []
      ensures i == LastNamed(names, |names|, name)
    {
      hide ElfHash, Bucket, LastIn, LastNamed;
      var hash, b := HashAndBucket(name);
      i := first[b];
      NoneAbove(|names|, b, name);
      while i != 0 && !(table[i].hash == hash && table[i].name == Some(name))
        invariant i == 0 || (i < |names| && InBucket(wide, names, i, b))
        invariant forall k :: i < k < |names| ==> names[k] != name
        decreases i
      {
        NoneAbove(i, b, name);
        i := table[i].next;
      }
      UniqueLast(i, name);
    }

    /** Between a symbol and the previous one of its bucket nothing has a name of that bucket. */
    lemma NoneAbove(i: nat, b: nat, name: seq<byte>)
      requires i <= |names| && name != [] && Bucket(wide, name) == b
      ensures forall k :: LastIn(wide, names, i, b) < k < i ==> names[k] != name
    {
      hide Bucket, LastIn;
      forall k | LastIn(wide, names, i, b) < k < i ensures names[k] != name {
        assert !InBucket(wide, names, k, b);
      }
    }

    lemma UniqueLast(i: nat, name: seq<byte>)
      requires i == 0 || (i < |names| && names[i] == name)
      requires forall k :: i < k < |names| ==> names[k] != name
      ensures i == LastNamed(names, |names|, name)
    {
    }
  }

  /** What `_elf_nlist` comes to: a symbol without a name makes it fail, a name without an end makes
      it read beyond the string table, and otherwise each wanted name has an answer. */
  datatype Answer = NoName | Overread | Found(indices: seq<nat>)

  /** The first symbol from number `i` on whose name cannot be hashed. */
  function FirstBad(offsets: seq<nat>, strtab: seq<byte>, i: nat): (k: nat)
    requires i <= |offsets|
    ensures i <= k <= |offsets|
    ensures forall j :: i <= j < k ==> Named(strtab, offsets[j]) && Ended(strtab, offsets[j])
    ensures k < |offsets| ==> !(Named(strtab, offsets[k]) && Ended(strtab, offsets[k]))
    decreases |offsets| - i
  {
    if i < |offsets| && Named(strtab, offsets[i]) && Ended(strtab, offsets[i]) then FirstBad(offsets, strtab, i + 1) else i
  }

  /** `_elf_nlist`, once the tables are found. */
  method FindSymbols(wide: bool, offsets: seq<nat>, strtab: seq<byte>, wanted: seq<seq<byte>>)
    returns (r: Answer)
    requires offsets != [] && forall k :: 0 <= k < |wanted| ==> wanted[k] != []
    ensures var bad := FirstBad(offsets, strtab, 1);
            match r
            case NoName => bad < |offsets| && !Named(strtab, offsets[bad])
            case Overread => bad < |offsets| && Named(strtab, offsets[bad])
            case Found(found) =>
              && bad == |offsets| && |found| == |wanted|
              && forall k :: 0 <= k < |wanted| ==> found[k] == LastNamed(Names(offsets, strtab), |offsets|, wanted[k])
  {
    hide Names, StringAt, LastNamed, Index.Chained, ElfHash;
    var index := new Index(wide, Names(offsets, strtab), |offsets|);
    for i := 1 to |offsets|
      invariant index.Chained(i) && FirstBad(offsets, strtab, 1) == FirstBad(offsets, strtab, i)
    {
      if offsets[i] >= |strtab| { return NoName; }
      var name := StringAt(strtab, offsets[i]);
      if offsets[i] + |name| == |strtab| { return Overread; }
      NameOf(offsets, strtab, i);
      index.Add(i, name);
    }
    var results := [];
    for k := 0 to |wanted|
      invariant |results| == k && index.Chained(|offsets|)
      invariant forall j :: 0 <= j < k ==> results[j] == LastNamed(Names(offsets, strtab), |offsets|, wanted[j])
    {
      var i := index.Lookup(wanted[k]);
      results := results + [i];
    }
    return Found(results);
  }

  lemma NameOf(offsets: seq<nat>, strtab: seq<byte>, i: nat)
    requires i < |offsets| && offsets[i] < |strtab|
    ensures Names(offsets, strtab)[i] == StringAt(strtab, offsets[i])
  {
  }

  /** The names of all the symbols; a symbol whose offset is outside the table has none. */
  function Names(offsets: seq<nat>, strtab: seq<byte>): (names: seq<seq<byte>>)
    ensures |names| == |offsets|
  {
    seq(|offsets|, i requires 0 <= i < |offsets| =>
      if offsets[i] < |strtab| then StringAt(strtab, offsets[i]) else [])
  }
}
