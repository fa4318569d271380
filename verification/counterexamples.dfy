/** Relocation lists for which the converter does not do what one might expect. */
module Counterexamples {
  import opened Words
  import opened Reloc
  import opened Passes
  import opened PassSafety
  import opened Meaning
  import opened Replay
  import opened Retraction
  import opened ReplayExact

  /** A .text section of 12 bytes at 0x1000 that goes to 0x12340000. */
  const TEXT_ONLY: Layout :=
    Layout([0x1000, 0x2000, 0x2000, 0x2000], [12, 0, 0, 0], [0x1234_0000, 0x1235_0000, 0x1235_0000, 0x1235_0000])

  /** Three words of .text, the first a HI16 on register 1 and the last a LO16 on it. */
  function Example(words: seq<byte>, middle: nat): Job {
    Job(TEXT_ONLY, 0x1000, words, [Begin(0), Rel(0x1000, 5), Rel(0x1004, middle), Rel(0x1008, 6)])
  }

  /** `lui $1, 0`; `addiu $1, $1, 0x1000`; `addiu $1, $1, 0` */
  const SHARED: seq<byte> := [0x3c, 1, 0, 0, 0x24, 0x21, 0x10, 0, 0x24, 0x21, 0, 0]

  /** `lui $1, 0`; a data word that names 0x1004; `addiu $1, $1, 0` */
  const BETWEEN: seq<byte> := [0x3c, 1, 0, 0, 0, 0, 0x10, 4, 0x24, 0x21, 0, 0]

  lemma Places(words: seq<byte>, middle: nat)
    requires |words| == 12
    ensures var job := Example(words, middle);
            && job.Ok() && job.Disjoint()
            && forall k: nat :: job.IsRel(k) <==> k in {1, 2, 3}
    ensures var job := Example(words, middle);
            job.Off(1) == 0 && job.Off(2) == 4 && job.Off(3) == 8
  {
    var job := Example(words, middle);
    assert job.Off(1) == 0 && job.Off(2) == 4 && job.Off(3) == 8;
  }

  lemma Targets(a: u32)
    ensures Target(TEXT_ONLY.elf, TEXT_ONLY.sizes, a) == if 0x1000 <= a < 0x100c then 0 else -1
  {
    assert Plus(0x1000, 12) == 0x100c && Plus(0x2000, 0) == 0x2000;
    assert InSection(TEXT_ONLY.elf, TEXT_ONLY.sizes, 0, a) <==> 0x1000 <= a < 0x100c;
    assert forall i :: 1 <= i < 4 ==> !InSection(TEXT_ONLY.elf, TEXT_ONLY.sizes, i, a);
  }

  lemma Fields()
    ensures HiReg(0x3c01_0000) == 1 && LoReg(0x2421_0000) == 1 && LoReg(0x2421_1000) == 1
    ensures PairAddress(0x3c01_0000, 0x2421_0000) == 0 && PairAddress(0x3c01_0000, 0x2421_1000) == 0x1000
    ensures HighPart(0x3c01_0000) == 0
  {
  }

  lemma Loads(words: seq<byte>)
    requires words in {SHARED, BETWEEN}
    ensures Load(words, 0) == 0x3c01_0000 && Load(words, 8) == 0x2421_0000
    ensures Load(words, 4) == if words == SHARED then 0x2421_1000 else 0x1004
  {
    assert SHARED[7] != BETWEEN[7];
  }

  lemma Kinds(words: seq<byte>)
    requires words in {SHARED, BETWEEN}
    ensures var job := Example(words, if words == SHARED then 6 else 2);
            && job.Ok() && job.IsRel(1) && job.IsRel(2) && job.IsRel(3)
            && job.KindAt(1) == Hi && job.KindAt(2) == (if words == SHARED then Lo else Word) && job.KindAt(3) == Lo
            && job.RegAt(1) == 1 && job.RegAt(3) == 1 && (words == SHARED ==> job.RegAt(2) == 1)
            && job.Word0(1) == 0x3c01_0000 && job.Word0(3) == 0x2421_0000
            && job.Word0(2) == if words == SHARED then 0x2421_1000 else 0x1004
  {
    hide Job.Disjoint, Load, HiReg, LoReg, PairAddress, HighPart;
    Places(words, if words == SHARED then 6 else 2);
    Loads(words);
    Fields();
  }

  lemma FirstIsPaired(job: Job)
    requires job.Ok() && job.IsRel(1) && job.IsRel(2) && job.events[0].Begin?
    requires job.KindAt(1) == Hi && job.RegAt(1) == 1 && job.KindAt(2) != Hi
    ensures job.HiOf(2, 1) == 1 && job.HiOf(3, 1) == 1
  {
    hide Job.KindAt, Job.RegAt;
    assert job.IsHi(1, 1) && !job.IsHi(2, 1);
    assert job.HiOf(2, 1) == 1;
  }

  lemma TargetIs(job: Job, k: nat)
    requires job.Ok() && job.IsRel(k)
    ensures job.TargetOf(k) == Target(job.layout.elf, job.layout.sizes, job.Address(k))
  {
  }

  /** The last relocation is paired with the first, and its address is 0. */
  lemma LastIsOut(words: seq<byte>)
    requires words in {SHARED, BETWEEN}
    ensures var job := Example(words, if words == SHARED then 6 else 2);
            && job.Ok() && job.IsRel(3) && job.PairedHi(3) == 1 && job.Address(3) == 0 && job.TargetOf(3) == -1
  {
    hide Job.Disjoint, Load, HiReg, LoReg, PairAddress, HighPart, Job.KindAt, Job.RegAt, Job.Word0, Target, Job.TargetOf, Job.HiOf;
    var job := Example(words, if words == SHARED then 6 else 2);
    Kinds(words);
    Fields();
    FirstIsPaired(job);
    Targets(0);
    TargetIs(job, 3);
  }

  /** The middle relocation of the first example is in bounds. */
  lemma MiddleIsIn()
    ensures var job := Example(SHARED, 6);
            && job.Ok() && job.IsRel(2) && job.Partner(2, 1) && job.TargetOf(2) == 0 && job.NewAddress(2) == 0x1234_0000
  {
    hide Job.Disjoint, Load, HiReg, LoReg, PairAddress, HighPart, Job.KindAt, Job.RegAt, Job.Word0, Target, Job.TargetOf, Job.HiOf;
    var job := Example(SHARED, 6);
    Kinds(SHARED);
    Fields();
    FirstIsPaired(job);
    Targets(0x1000);
    TargetIs(job, 2);
    assert Moved(TEXT_ONLY, 0, 0x1000) == 0x1234_0000;
  }

  lemma NoErrors()
    ensures var job := Example(SHARED, 6);
            job.Ok() && job.Disjoint() && job.Real(4).outcome == Running
  {
    hide Load, HiReg, LoReg, PairAddress, HighPart, Job.RegAt, Job.Word0, Target, Job.TargetOf, Job.HiOf,
         Job.Real, Job.Dry, Job.Address;
    var job := Example(SHARED, 6);
    Places(SHARED, 6);
    LastIsOut(SHARED);
    MiddleIsIn();
    Kinds(SHARED);
    DryRunState(job, 4);
    DryRunPredictsRealPass(job);
  }

  lemma HalfIs(job: Job, h: nat, l: nat, n: nat)
    requires job.Ok() && job.IsRel(h) && n <= |job.events| && l + 2 == n && job.Partner(l, h) && job.TargetOf(l) >= 0
    requires job.IsRel(l + 1) && job.TargetOf(l + 1) < 0
    ensures HalfAfter(job, h, n) == HighHalf(job.NewAddress(l)) % 0x1_0000
  {
    assert LastPartner(job, h, l + 1) == l;
    assert LastPartner(job, h, l + 2) == l;
  }

  /** Two LO16s share a HI16, one in bounds and one not: the one that is out of bounds does not
      keep its value, because the other one rewrites the HI16. */
  lemma SharedHiBreaksReference()
    ensures var job := Example(SHARED, 6);
            && job.Ok() && job.Disjoint() && job.Real(4).outcome == Running
            && job.IsRel(3) && job.TargetOf(3) < 0
            && AddressIn(job, 3, job.Real(4).eng.mem) != job.Address(3)
  {
    hide Job.Disjoint, Load, HiReg, LoReg, PairAddress, HighPart, Job.KindAt, Job.RegAt, Job.Word0, Target, Job.TargetOf,
         Job.HiOf, Job.Real, Job.Dry, Job.Address, AddressIn, Example;
    var job := Example(SHARED, 6);
    Places(SHARED, 6);
    LastIsOut(SHARED);
    MiddleIsIn();
    NoErrors();
    Kinds(SHARED);
    HalfIs(job, 1, 2, 4);
    assert HighHalf(0x1234_0000) == 0x1234;
    SharedShape();
    OutKeepsNew(job, 3);
    ReferenceExact(job, 3);
  }

  lemma SharedShape()
    ensures |Example(SHARED, 6).events| == 4
  {
  }

  lemma OutKeepsNew(job: Job, k: nat)
    requires job.Ok() && job.IsRel(k) && job.TargetOf(k) < 0
    ensures job.NewAddress(k) == job.Address(k)
  {
  }

  /** A relocation between a HI16 and its failing LO16: the entry that is taken back is the one of
      that relocation, and the HI16 stays listed. */
  lemma WrongEntryRetracted()
    ensures var job := Example(BETWEEN, 2);
            job.Ok() && job.IsRel(3) && Retracts(job, 3) && job.PairedHi(3) == 1 && Listed(job, 4) == [1]
  {
    hide Job.Disjoint, Load, HiReg, LoReg, PairAddress, HighPart, Job.RegAt, Job.Word0, Target, Job.TargetOf, Job.HiOf;
    var job := Example(BETWEEN, 2);
    assert BETWEEN[4] != SHARED[4];
    LastIsOut(BETWEEN);
    Kinds(BETWEEN);
    Targets(0x1004);
    TargetIs(job, 2);
    FirstIsPaired(job);
    NotUsed(job);
    assert Listed(job, 1) == [];
    assert Listed(job, 2) == [1];
    assert Listed(job, 3) == [1, 2];
  }

  lemma NotUsed(job: Job)
    requires job.Ok() && job.IsRel(1) && job.IsRel(2) && job.KindAt(1) == Hi && job.RegAt(1) == 1 && job.KindAt(2) == Word
    ensures !job.UsedSince(3, 1)
  {
    hide Job.RegAt, Job.KindAt;
    assert job.IsHi(1, 1);
    assert !job.UsedSince(2, 1);
  }

  lemma BetweenCodes()
    ensures var job := Example(BETWEEN, 2);
            && job.Ok() && job.Disjoint() && NoError(job, 4)
            && job.IsRel(2) && job.KindAt(2) == Word && job.CodeAt(2) == Success
  {
    hide Job.Disjoint, Load, HiReg, LoReg, PairAddress, HighPart, Job.RegAt, Job.Word0, Target, Job.TargetOf, Job.HiOf;
    var job := Example(BETWEEN, 2);
    assert BETWEEN[4] != SHARED[4];
    Places(BETWEEN, 2);
    LastIsOut(BETWEEN);
    Kinds(BETWEEN);
    Targets(0x1004);
    TargetIs(job, 2);
  }

  lemma {:induction false} NoPartner(job: Job, h: nat, i: nat)
    requires job.Ok() && i <= |job.events|
    requires forall j: nat :: j < i && job.Partner(j, h) ==> job.TargetOf(j) < 0
    ensures LastPartner(job, h, i) == -1 && !Carries(job, h, i)
  {
    hide Job.PairedHi, Job.TargetOf;
    if i > 0 {
      NoPartner(job, h, i - 1);
    }
  }

  lemma BetweenIsExpressible()
    ensures var job := Example(BETWEEN, 2);
            && job.Ok() && job.IsRel(1) && job.IsRel(2) && job.IsRel(3)
            && Expressible(job, 2) && Expressible(job, 3) && !Carries(job, 1, 4) && LastPartner(job, 1, 4) == -1
  {
    hide Job.Disjoint, Load, HiReg, LoReg, PairAddress, HighPart, Job.RegAt, Job.Word0, Target, Job.TargetOf, Job.HiOf, Job.CodeAt, Carries;
    var job := Example(BETWEEN, 2);
    assert BETWEEN[4] != SHARED[4];
    LastIsOut(BETWEEN);
    Kinds(BETWEEN);
    forall j: nat | j < 4 && job.Partner(j, 1) ensures job.TargetOf(j) < 0 {
      assert j == 3;
    }
    NoPartner(job, 1, 4);
  }

  lemma BetweenLayout()
    ensures Separate(TEXT_ONLY.elf, TEXT_ONLY.sizes) && Separate(TEXT_ONLY.ovl, TEXT_ONLY.sizes)
  {
  }

  lemma ThreePrepared(job: Job)
    requires job.Ok() && job.Disjoint() && Packable(job) && NoError(job, |job.events|)
    requires Separate(job.layout.elf, job.layout.sizes) && Separate(job.layout.ovl, job.layout.sizes)
    requires forall k: nat :: job.IsRel(k) <==> k in {1, 2, 3}
    requires job.KindAt(1) == Hi && job.KindAt(2) != Hi && job.KindAt(3) != Hi && Expressible(job, 2) && Expressible(job, 3)
    requires !Carries(job, 1, |job.events|)
    ensures Prepared(job)
  {
    hide Job.Disjoint, Job.Ok, Job.KindAt, Packable, NoError, Separate, Expressible, Carries;
    forall k: nat | job.IsRel(k) && job.KindAt(k) != Hi ensures Expressible(job, k) {
      assert k == 2 || k == 3 || k == 1;
    }
    forall k: nat | job.IsRel(k) && job.KindAt(k) == Hi ensures !Carries(job, k, |job.events|) {
      assert k == 1;
    }
  }

  /** But for the entry that is gone it is a clean conversion. */
  lemma BetweenIsPrepared()
    ensures Prepared(Example(BETWEEN, 2))
  {
    hide Job.Disjoint, Job.Ok, Job.IsRel, Packable, NoError, Separate, Expressible, Carries, Job.CodeAt, Job.KindAt, Prepared;
    assert BETWEEN[4] != SHARED[4];
    BetweenCodes();
    Kinds(BETWEEN);
    BetweenIsExpressible();
    InText(BETWEEN, 2);
    BetweenLayout();
    Places(BETWEEN, 2);
    ThreePrepared(Example(BETWEEN, 2));
  }

  lemma InText(words: seq<byte>, middle: nat)
    requires |words| == 12
    ensures Packable(Example(words, middle))
  {
    var job := Example(words, middle);
    assert SectionAt(job, 1) == 0;
    assert SectionAt(job, 2) == 0;
    assert SectionAt(job, 3) == 0;
  }

  /** The replay has one relocation, the HI16, which cannot fail. */
  lemma OneHiCompletes(job: Job)
    requires job.Ok() && job.Disjoint() && |job.events| == 2 && job.IsRel(1) && !job.IsRel(0) && job.KindAt(1) == Hi
    ensures job.Real(2).outcome == Running
  {
    hide Job.Disjoint, Job.KindAt, Job.Real;
    forall k: nat | k < 2 && job.IsRel(k) ensures job.CodeAt(k) != Error {
      assert k == 1;
    }
    CompletedRun(job);
  }

  lemma BetweenReplays(ovl: Quad)
    ensures var job := Example(BETWEEN, 2);
            && job.Ok() && ReplayOf(job, ovl).Ok()
            && ReplayOf(job, ovl).Real(|ReplayOf(job, ovl).events|).outcome == Running
  {
    hide Prepared, ReplayOf, FinalImage, Listed, Job.CodeAt, Example, Job.Real, Job.KindAt, Retracts;
    BetweenIsPrepared();
    WrongEntryRetracted();
    BetweenShape();
    Kinds(BETWEEN);
    assert BETWEEN[4] != SHARED[4];
    var job := Example(BETWEEN, 2);
    ReplayOk(job, ovl);
    ReplayShape(job, ovl);
    ReplayedEvent(job, ovl, 0, 1);
    OneHiCompletes(ReplayOf(job, ovl));
  }

  /** So the emitted entries do not relocate the image to every other base: the replay completes, but
      the data word is missed. */
  lemma ReplayMissesWord()
    ensures var job := Example(BETWEEN, 2);
            var ovl := Shifted(job.layout.ovl);
            && job.Ok() && ReplayOf(job, ovl).Ok()
            && ReplayOf(job, ovl).Real(|ReplayOf(job, ovl).events|).outcome == Running
            && FinalImage(ReplayOf(job, ovl)) != FinalImage(ForBase(job, ovl))
  {
    hide Prepared, ReplayOf, FinalImage, Listed, Job.CodeAt, Job.Real, Example;
    BetweenIsPrepared();
    BetweenCodes();
    WrongEntryRetracted();
    BetweenReplays(Shifted(Example(BETWEEN, 2).layout.ovl));
    assert |Example(BETWEEN, 2).events| == 4 by { BetweenShape(); }
    UnlistedIsMissed(Example(BETWEEN, 2), 2);
  }

  lemma BetweenShape()
    ensures |Example(BETWEEN, 2).events| == 4
  {
  }

  // ---- A carry into a register field ------------------------------------------------------------------------

  /** `lui $2, 0`; `addiu $2, $2, 0x1000`, going to the top of the address space. */
  const TOP: Job :=
    Job(Layout([0x1000, 0x2000, 0x2000, 0x2000], [8, 0, 0, 0], [0xffff_8000, 0, 0, 0]), 0x1000,
        [0x3c, 2, 0, 0, 0x24, 0x42, 0x10, 0], [Begin(0), Rel(0x1000, 5), Rel(0x1004, 6)])

  lemma TopFacts()
    ensures TOP.Ok() && TOP.Disjoint() && TOP.IsRel(1) && TOP.IsRel(2)
    ensures TOP.Off(1) == 0 && TOP.Off(2) == 4 && TOP.KindAt(1) == Hi && TOP.KindAt(2) == Lo
    ensures TOP.Word0(1) == 0x3c02_0000 && TOP.Word0(2) == 0x2442_1000 && TOP.RegAt(1) == 2 && TOP.RegAt(2) == 2
  {
    assert TOP.Off(1) == 0 && TOP.Off(2) == 4;
    assert Load(TOP.mem, 0) == 0x3c02_0000 && Load(TOP.mem, 4) == 0x2442_1000;
    assert HiReg(0x3c02_0000) == 2 && LoReg(0x2442_1000) == 2;
  }

  lemma TopPair()
    ensures TOP.Ok() && TOP.IsRel(2) && TOP.HiOf(2, 2) == 1 && TOP.Partner(2, 1)
    ensures TOP.TargetOf(2) == 0 && TOP.NewAddress(2) == 0xffff_8000 && TOP.CodeAt(2) == Success && TOP.CodeAt(1) == Success
  {
    hide Load, HiReg, LoReg, Job.Word0, Job.RegAt, Job.KindAt, Job.Disjoint, PairAddress;
    TopFacts();
    assert TOP.IsHi(1, 2);
    assert TOP.HiOf(2, 2) == 1;
    assert PairAddress(0x3c02_0000, 0x2442_1000) == 0x1000 by { TopAddress(); }
    assert TOP.Address(2) == 0x1000;
    assert Plus(0x1000, 8) == 0x1008;
    assert InSection(TOP.layout.elf, TOP.layout.sizes, 0, 0x1000);
    assert TOP.TargetOf(2) == 0;
    assert Moved(TOP.layout, 0, 0x1000) == 0xffff_8000;
  }

  lemma TopAddress()
    ensures PairAddress(0x3c02_0000, 0x2442_1000) == 0x1000
  {
  }

  /** The pair is relocated to 0xffff8000, and `lui $2` becomes `lui $3`. */
  lemma CarryChangesRegister()
    ensures TOP.Ok() && TOP.Disjoint() && TOP.Real(3).outcome == Running && TOP.NewAddress(2) == 0xffff_8000
    ensures HiReg(TOP.Word0(1)) == 2 && HiReg(Load(TOP.Real(3).eng.mem, 0)) == 3
  {
    hide Load, LoReg, Job.RegAt, Job.HiOf, Job.Real, Job.TargetOf, Job.NewAddress, Job.CodeAt, Job.PairedHi, WithHigh, Job.Disjoint;
    TopFacts();
    TopPair();
    forall k: nat | k < 3 && TOP.IsRel(k) ensures TOP.CodeAt(k) != Error {
      assert k == 1 || k == 2;
    }
    assert NoError(TOP, 3);
    CompletedRun(TOP);
    FinalWord(TOP, 1);
    assert Carries(TOP, 1, 3);
    HiWordUpperHalf(TOP, 1, 3);
  }

  // ---- A jump that cannot reach ---------------------------------------------------------------------------------

  /** `jal 0x80001000`, in a .text section that is one word at that address and goes to `to`. */
  function Jumping(to: u32): Job {
    Job(Layout([0x8000_1000, 0x8000_2000, 0x8000_2000, 0x8000_2000], [4, 0, 0, 0], [to, 0, 0, 0]), 0x8000_1000,
        [0x0c, 0, 4, 0], [Begin(0), Rel(0x8000_1000, 4)])
  }

  lemma JumpFacts(to: u32)
    ensures var job := Jumping(to);
            && job.Ok() && job.Disjoint() && job.IsRel(1) && job.KindAt(1) == Jump && job.Off(1) == 0
            && job.Address(1) == 0x8000_1000
  {
    hide Load, JumpAddress;
    JumpWord();
    var job := Jumping(to);
    assert job.Off(1) == 0;
  }

  lemma JumpWord()
    ensures Load([0x0c, 0, 4, 0], 0) == 0x0c00_0400 && JumpAddress(0x0c00_0400) == 0x8000_1000
  {
  }

  lemma JumpTarget(to: u32)
    ensures var job := Jumping(to);
            job.Ok() && job.IsRel(1) && job.TargetOf(1) == 0 && job.NewAddress(1) == to && job.CodeAt(1) == Success
  {
    hide Load, JumpAddress, Job.Disjoint, Job.Address;
    var job := Jumping(to);
    JumpFacts(to);
    assert Plus(0x8000_1000, 4) == 0x8000_1004;
    assert InSection(job.layout.elf, job.layout.sizes, 0, 0x8000_1000);
    assert Moved(job.layout, 0, 0x8000_1000) == to by { MovesOnto(0x8000_1000, to); }
  }

  lemma MovesOnto(e: u32, x: u32)
    ensures Plus(e, Minus(x, e)) == x
  {
  }

  /** The pass completes, but the jump does not name where its target goes, if that is not word-aligned
      or lies outside of segment 0x8. */
  lemma JumpCannotReach(to: u32)
    requires to % 4 != 0 || to / 0x1000_0000 != 8
    ensures var job := Jumping(to);
            && job.Ok() && job.Disjoint() && job.IsRel(1) && job.Real(2).outcome == Running && job.NewAddress(1) == to
            && !Expressible(job, 1) && AddressIn(job, 1, job.Real(2).eng.mem) != to
  {
    hide Load, JumpAddress, Job.Disjoint, Job.Address, Job.TargetOf, Job.NewAddress, Job.CodeAt, Job.Real, AddressIn;
    var job := Jumping(to);
    JumpFacts(to);
    JumpTarget(to);
    forall k: nat | k < 2 && job.IsRel(k) ensures job.CodeAt(k) != Error {
      assert k == 1;
    }
    CompletedRun(job);
    ReferenceExact(job, 1);
  }
}
