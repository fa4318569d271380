/** A small conversion, word by word: a jump, a HI16/LO16 pair with different registers, and a pointer
    in .data. */
module ExampleOverlay {
  import opened Words
  import opened Reloc
  import opened Passes
  import opened PassSafety
  import opened Replay
  import opened Overlay
  import opened OverlayReader
  import opened Converter
  import opened Conversions

  const BASE: u32 := 0x8040_9000

  /** .text of 24 bytes at 0x80001000, and .data of 8 behind it. */
  const MAP: Layout :=
    Layout([0x8000_1000, 0x8000_1018, 0x8000_1020, 0x8000_1020], [24, 8, 0, 0],
           [0x8040_9000, 0x8040_9018, 0x8040_9020, 0x8040_9050])

  /** `jal 0x80001008`; `lui $1, 0x8000`; `lw $2, 0x101c($1)`; three times `nop`; a pointer to
      0x80001004; zero. */
  function Image(): (m: seq<byte>)
    ensures |m| == 32
  {
    [0x0c, 0, 4, 2, 0x3c, 1, 0x80, 0, 0x8c, 0x22, 0x10, 0x1c, 0, 0, 0, 0, 0, 0, 0, 0, 0, 0, 0, 0,
     0x80, 0, 0x10, 4, 0, 0, 0, 0]
  }

  const JOB: Job :=
    Job(MAP, 0x8000_1000, Image(),
        [Begin(0), Rel(0x8000_1000, 4), Rel(0x8000_1004, 5), Rel(0x8000_1008, 6), Begin(1), Rel(0x8000_1018, 2)])

  /** The file: both sections, the header, four entries, padding, and the distance to the header. */
  function Expected(): (ws: seq<u32>)
    ensures |ws| == 20
  {
    [0x0c10_2402, 0x3c01_8041, 0x8c22_901c, 0, 0, 0, 0x8040_9004, 0,
     24, 8, 0, 0, 4,
     0x4400_0000, 0x4500_0004, 0x4600_0008, 0x8200_0000,
     0, 0, 48]
  }

  // ---- The relocations ------------------------------------------------------------------------------------------

  lemma Places()
    ensures JOB.Ok() && JOB.Disjoint() && forall k: nat :: JOB.IsRel(k) <==> k in {1, 2, 3, 5}
    ensures JOB.Off(1) == 0 && JOB.Off(2) == 4 && JOB.Off(3) == 8 && JOB.Off(5) == 24
  {
    assert JOB.Off(1) == 0 && JOB.Off(2) == 4 && JOB.Off(3) == 8 && JOB.Off(5) == 24;
  }

  lemma ImageWords()
    ensures Load(Image(), 0) == 0x0c00_0402 && Load(Image(), 4) == 0x3c01_8000 && Load(Image(), 8) == 0x8c22_101c
    ensures Load(Image(), 24) == 0x8000_1004
  {
  }

  lemma RestOfImage()
    ensures forall b :: 12 <= b < 24 || 28 <= b < 32 ==> Image()[b] == 0
  {
  }

  lemma Fields()
    ensures HiReg(0x3c01_8000) == 1 && LoReg(0x8c22_101c) == 1 && HighPart(0x3c01_8000) == 0x8000_0000
    ensures JumpAddress(0x0c00_0402) == 0x8000_1008 && PairAddress(0x3c01_8000, 0x8c22_101c) == 0x8000_101c
  {
  }

  lemma Kinds()
    ensures JOB.Ok() && JOB.IsRel(1) && JOB.IsRel(2) && JOB.IsRel(3) && JOB.IsRel(5)
    ensures JOB.KindAt(1) == Jump && JOB.KindAt(2) == Hi && JOB.KindAt(3) == Lo && JOB.KindAt(5) == Kind.Word
    ensures JOB.RegAt(2) == 1 && JOB.RegAt(3) == 1 && JOB.PairedHi(3) == 2
    ensures JOB.Address(1) == 0x8000_1008 && JOB.Address(3) == 0x8000_101c && JOB.Address(5) == 0x8000_1004
  {
    hide Load, JumpAddress, PairAddress, HiReg, LoReg, Job.Disjoint, Image;
    Places();
    ImageWords();
    Fields();
    assert JOB.IsHi(2, 1);
    assert JOB.HiOf(3, 1) == 2;
  }

  lemma Targets(a: u32)
    ensures 0x8000_1000 <= a < 0x8000_1018 ==> Target(MAP.elf, MAP.sizes, a) == 0
    ensures 0x8000_1018 <= a < 0x8000_1020 ==> Target(MAP.elf, MAP.sizes, a) == 1
  {
    assert Plus(0x8000_1000, 24) == 0x8000_1018 && Plus(0x8000_1018, 8) == 0x8000_1020;
    assert InSection(MAP.elf, MAP.sizes, 0, a) <==> 0x8000_1000 <= a < 0x8000_1018;
    assert InSection(MAP.elf, MAP.sizes, 1, a) <==> 0x8000_1018 <= a < 0x8000_1020;
  }

  lemma NewPlaces()
    ensures Moved(MAP, 0, 0x8000_1008) == 0x8040_9008 && Moved(MAP, 1, 0x8000_101c) == 0x8040_901c
    ensures Moved(MAP, 0, 0x8000_1004) == 0x8040_9004
  {
  }

  lemma Outcomes()
    ensures JOB.Ok() && JOB.IsRel(1) && JOB.IsRel(2) && JOB.IsRel(3) && JOB.IsRel(5)
    ensures JOB.TargetOf(1) == 0 && JOB.TargetOf(3) == 1 && JOB.TargetOf(5) == 0
    ensures JOB.NewAddress(1) == 0x8040_9008 && JOB.NewAddress(3) == 0x8040_901c && JOB.NewAddress(5) == 0x8040_9004
    ensures JOB.CodeAt(1) == Success && JOB.CodeAt(2) == Success && JOB.CodeAt(3) == Success && JOB.CodeAt(5) == Success
  {
    hide Job.Address, Job.KindAt, Job.PairedHi, Target, Moved, Job.Disjoint, Image;
    Kinds();
    Targets(0x8000_1008);
    Targets(0x8000_101c);
    Targets(0x8000_1004);
    NewPlaces();
  }

  lemma StoredWords()
    ensures WithJump(0x0c00_0402, 0x8040_9008) == 0x0c10_2402
    ensures HighHalf(0x8040_901c) == 0x8041 && WithHigh(0x3c01_8000, 0x8041) == 0x3c01_8041
    ensures WithLow(0x8c22_101c, 0x8040_901c) == 0x8c22_901c
  {
  }

  lemma FinalWords()
    ensures JOB.Ok() && JOB.IsRel(1) && JOB.IsRel(2) && JOB.IsRel(3) && JOB.IsRel(5)
    ensures JOB.WordAt(1, 6) == 0x0c10_2402 && JOB.WordAt(2, 6) == 0x3c01_8041 && JOB.WordAt(3, 6) == 0x8c22_901c
    ensures JOB.WordAt(5, 6) == 0x8040_9004
  {
    hide Load, JumpAddress, PairAddress, WithJump, WithLow, WithHigh, HighHalf, Job.Address, Job.KindAt, Job.PairedHi, Job.TargetOf,
         Job.NewAddress, Job.CodeAt, Job.Disjoint, Image;
    Places();
    Kinds();
    Outcomes();
    ImageWords();
    StoredWords();
    assert JOB.Word0(1) == 0x0c00_0402 && JOB.Word0(2) == 0x3c01_8000 && JOB.Word0(3) == 0x8c22_101c;
    assert JOB.Partner(3, 2);
    assert JOB.HiWordAt(2, 3) == 0x3c01_8000;
    assert JOB.HiWordAt(2, 4) == 0x3c01_8041;
    assert JOB.HiWordAt(2, 5) == 0x3c01_8041;
    assert JOB.HiWordAt(2, 6) == 0x3c01_8041;
  }

  lemma NoErrors()
    ensures JOB.Ok() && JOB.Disjoint() && |JOB.events| == 6 && NoError(JOB, 6)
    ensures Listed(JOB, 6) == [1, 2, 3, 5] && Surviving(JOB, 6) == 4
  {
    hide Job.CodeAt, Job.Disjoint, Image;
    Places();
    Outcomes();
    assert Listed(JOB, 1) == [];
    assert Listed(JOB, 2) == [1];
    assert Listed(JOB, 3) == [1, 2];
    assert Listed(JOB, 4) == [1, 2, 3];
    assert Listed(JOB, 5) == [1, 2, 3];
    assert Surviving(JOB, 4) == 3;
  }

  // ---- The image and the list -------------------------------------------------------------------------------------

  lemma ImageAfter()
    ensures JOB.Ok() && |FinalImage(JOB)| == 32
    ensures var m := FinalImage(JOB);
            && Load(m, 0) == 0x0c10_2402 && Load(m, 4) == 0x3c01_8041 && Load(m, 8) == 0x8c22_901c && Load(m, 24) == 0x8040_9004
            && Load(m, 12) == 0 && Load(m, 16) == 0 && Load(m, 20) == 0 && Load(m, 28) == 0
  {
    hide Load, Job.WordAt, FinalImage, NoError, Job.Disjoint, Image;
    NoErrors();
    FinalWords();
    Places();
    FinalWord(JOB, 1);
    FinalWord(JOB, 2);
    FinalWord(JOB, 3);
    FinalWord(JOB, 5);
    ZeroRest(FinalImage(JOB));
  }

  lemma LoadZero(m: seq<byte>, o: nat)
    requires o + 4 <= |m| && forall b :: o <= b < o + 4 ==> m[b] == 0
    ensures Load(m, o) == 0
  {
  }

  lemma ZeroRest(m: seq<byte>)
    requires JOB.Ok() && m == FinalImage(JOB)
    ensures |m| == 32 && Load(m, 12) == 0 && Load(m, 16) == 0 && Load(m, 20) == 0 && Load(m, 28) == 0
  {
    hide FinalImage, NoError, Job.Disjoint, Load, Job.Ok, Image;
    assert |JOB.mem| == 32;
    forall b | 12 <= b < 24 || 28 <= b < 32 ensures m[b] == 0 {
      UntouchedByte(b);
    }
    LoadZero(m, 12);
    LoadZero(m, 16);
    LoadZero(m, 20);
    LoadZero(m, 28);
  }

  lemma UntouchedByte(b: nat)
    requires 12 <= b < 24 || 28 <= b < 32
    ensures JOB.Ok() && FinalImage(JOB)[b] == 0
  {
    hide NoError, Job.Disjoint, Job.Real, Image;
    NoErrors();
    Places();
    RestOfImage();
    RealPassState(JOB, 6);
    assert JOB.Untouched(b);
  }

  lemma Entries()
    ensures JOB.Ok() && ListOf(JOB) == Expected()[13..17]
  {
    hide NoError, Job.Disjoint, Job.Real, Job.CodeAt, Listed, Pack, Image;
    NoErrors();
    Places();
    ListedEntries(JOB, 6);
    Packed();
    var list := ListOf(JOB);
    assert SectionAt(JOB, 1) == 0 && SectionAt(JOB, 2) == 0 && SectionAt(JOB, 3) == 0 && SectionAt(JOB, 5) == 1;
    assert list[0] == EntryOf(JOB, 1) && list[1] == EntryOf(JOB, 2) && list[2] == EntryOf(JOB, 3) && list[3] == EntryOf(JOB, 5);
  }

  lemma Packed()
    ensures Pack(1, 0, 4) == 0x4400_0000 && Pack(1, 4, 5) == 0x4500_0004 && Pack(1, 8, 6) == 0x4600_0008 && Pack(2, 0, 2) == 0x8200_0000
  {
  }

  // ---- The file ---------------------------------------------------------------------------------------------------

  lemma Planning()
    ensures OverlayLayout(BASE, MAP.sizes, 4) == MAP.ovl && Fits(BASE, MAP.sizes, 4)
    ensures SectionsInImage(32, 0x8000_1000, MAP.elf, MAP.sizes)
  {
    hide Wrap;
    SmallSums(BASE, 24);
    SmallSums(0x8040_9018, 8);
    SmallSums(0x8040_9020, 0);
    SmallSums(0x8040_9020, 20);
    SmallSums(0x8040_9034, 16);
    SmallSums(0x8040_9044, 4);
    SmallSums(0x8040_9048, 15);
    assert RoundUp16(0x8040_9048) == 0x8040_9050;
    SmallSums(0, 0);
    SmallSums(0, 0x18);
  }

  lemma SmallSums(x: nat, y: nat)
    requires x + y < 0x1_0000_0000
    ensures Plus(x, y) == x + y && Wrap(y) == y
  {
  }

  lemma WritesFile(job: Job, base: u32, n: nat, count: nat)
    requires job.Ok() && job.Disjoint() && n == |job.events| && NoError(job, n) && Surviving(job, n) == count && base % 16 == 0
    requires SectionsInImage(|job.mem|, job.ep, job.layout.elf, job.layout.sizes)
    requires Fits(base, job.layout.sizes, count) && job.layout.ovl == OverlayLayout(base, job.layout.sizes, count)
    ensures ResultOf(job, base) == Output(Written(FileOf(job)))
  {
    hide NoError, Job.Disjoint, Job.Real, Job.Dry, FileOf, OverlayLayout, Fits, SectionsInImage, ResultOf, Surviving, Job.Ok;
    DryRunState(job, n);
    ConversionOutcome(job, base);
  }

  /** The conversion writes exactly this file. */
  lemma FileIs()
    ensures JOB.Ok() && SectionsInImage(|JOB.mem|, JOB.ep, JOB.layout.elf, JOB.layout.sizes)
    ensures ResultOf(JOB, BASE) == Output(Written(FileOf(JOB)))
    ensures |FileOf(JOB)| == 80 && forall i :: 0 <= i < 20 ==> Load(FileOf(JOB), 4 * i) == Expected()[i]
  {
    hide NoError, Job.Disjoint, FileOf, Load, OverlayLayout, Fits, SectionsInImage, ResultOf, Image, Expected, Job.Ok, Surviving, Listed;
    NoErrors();
    Planning();
    WritesFile(JOB, BASE, 6, 4);
    FileWords();
  }

  lemma FileWords()
    ensures JOB.Ok() && SectionsInImage(|JOB.mem|, JOB.ep, JOB.layout.elf, JOB.layout.sizes)
    ensures |FileOf(JOB)| == 80 && forall i :: 0 <= i < 20 ==> Load(FileOf(JOB), 4 * i) == Expected()[i]
  {
    hide NoError, Job.Disjoint, Job.Real, Load, OverlayLayout, Fits, SectionsInImage, FinalImage, Body, FileOf, Image, Expected;
    NoErrors();
    Planning();
    BodyWords();
    TailWords();
    forall i | 0 <= i < 20 ensures Load(FileOf(JOB), 4 * i) == Expected()[i] {
      if i >= 8 { assert Load(FileOf(JOB), 32 + 4 * (i - 8)) == Expected()[8 + (i - 8)]; }
    }
  }

  lemma Sums()
    ensures Sum(MAP.sizes, 0) == 0 && Sum(MAP.sizes, 1) == 24 && Sum(MAP.sizes, 3) == 32
    ensures Minus(MAP.elf[0], 0x8000_1000) == 0 && Minus(MAP.elf[1], 0x8000_1000) == 24
    ensures FileLength(32, 4) == 80
  {
  }

  /** Word `d` of section `id` comes from the same place of the image. */
  lemma BodyWord(id: nat, d: nat)
    requires id < 2 && d + 4 <= if id == 0 then 24 else 8
    ensures JOB.Ok() && SectionsInImage(|JOB.mem|, JOB.ep, JOB.layout.elf, JOB.layout.sizes)
    ensures var o := if id == 0 then d else 24 + d;
            o + 4 <= |FileOf(JOB)| && o + 4 <= |FinalImage(JOB)| && Load(FileOf(JOB), o) == Load(FinalImage(JOB), o)
  {
    hide Job.Disjoint, Load, SectionsInImage, FinalImage, Sum, NoError, Minus, FileOf, Wrap, Job.Ok, Image;
    NoErrors();
    Planning();
    Sums();
    WordOfFile(JOB, id, d);
  }

  lemma FirstWords()
    ensures var ws := Expected();
            && ws[0] == 0x0c10_2402 && ws[1] == 0x3c01_8041 && ws[2] == 0x8c22_901c && ws[3] == 0 && ws[4] == 0 && ws[5] == 0
            && ws[6] == 0x8040_9004 && ws[7] == 0
  {
  }

  lemma BodyWords()
    ensures JOB.Ok() && SectionsInImage(|JOB.mem|, JOB.ep, JOB.layout.elf, JOB.layout.sizes)
    ensures forall i :: 0 <= i < 8 ==> 4 * i + 4 <= |FileOf(JOB)| && Load(FileOf(JOB), 4 * i) == Expected()[i]
  {
    hide Job.Disjoint, Load, SectionsInImage, FinalImage, NoError, FileOf, Job.Ok, Image, Expected;
    NoErrors();
    Planning();
    ImageAfter();
    FirstWords();
    forall i | 0 <= i < 8 ensures 4 * i + 4 <= |FileOf(JOB)| && Load(FileOf(JOB), 4 * i) == Expected()[i] {
      if i < 6 { BodyWord(0, 4 * i); } else { BodyWord(1, 4 * i - 24); }
      assert i == 0 || i == 1 || i == 2 || i == 3 || i == 4 || i == 5 || i == 6 || i == 7;
    }
  }

  lemma TailWords()
    ensures JOB.Ok() && SectionsInImage(|JOB.mem|, JOB.ep, JOB.layout.elf, JOB.layout.sizes)
    ensures |FileOf(JOB)| == 80 && forall i :: 0 <= i < 12 ==> Load(FileOf(JOB), 32 + 4 * i) == Expected()[8 + i]
  {
    hide Job.Disjoint, Load, SectionsInImage, FinalImage, Sum, NoError, FileBytes, HeaderWords, FileLength, Image, Expected;
    NoErrors();
    Planning();
    Sums();
    Entries();
    var body := Body(FinalImage(JOB), JOB.ep, MAP.elf, MAP.sizes);
    assert FileOf(JOB) == FileBytes(body, MAP.sizes, 4, Expected()[13..17]);
    TailOf(body);
  }

  lemma TailOf(body: seq<byte>)
    requires |body| == 32
    ensures var file := FileBytes(body, MAP.sizes, 4, Expected()[13..17]);
            |file| == 80 && forall i :: 0 <= i < 12 ==> Load(file, 32 + 4 * i) == Expected()[8 + i]
  {
    hide Load, FileBytes;
    Sums();
    var list := Expected()[13..17];
    var file := FileBytes(body, MAP.sizes, 4, list);
    assert HeaderWords(MAP.sizes, 4) == Expected()[8..13];
    FooterWord(body, MAP.sizes, 4, list);
    Padding(body, list);
    forall i | 0 <= i < 12 ensures Load(file, 32 + 4 * i) == Expected()[8 + i] {
      if i < 5 {
        HeaderWordsAt(body, MAP.sizes, 4, list, i);
      } else if i < 9 {
        EntriesAt(body, MAP.sizes, 4, list, i - 5);
      }
    }
  }

  lemma Padding(body: seq<byte>, list: seq<u32>)
    requires |body| == 32 && |list| == 4
    ensures var file := FileBytes(body, MAP.sizes, 4, list);
            |file| == 80 && Load(file, 68) == 0 && Load(file, 72) == 0
  {
    hide WordBytes, BigEndian;
    Sums();
    var file := FileBytes(body, MAP.sizes, 4, list);
    var before := body + WordBytes(HeaderWords(MAP.sizes, 4)) + WordBytes(list);
    assert FooterAt(68) == 76;
    assert file == before + Zeros(8) + BigEndian(Wrap(48));
    assert forall i :: 68 <= i < 76 ==> file[i] == 0;
  }
}
