/** The overlay file: what src/novl-conv.c writes and src/overlay.c reads back. */
module Overlay {
  import opened Words
  import opened Reloc

  // ---- The output stream --------------------------------------------------------------------------

  function Zeros(n: nat): (z: seq<byte>)
    ensures |z| == n && forall i :: 0 <= i < n ==> z[i] == 0
  {
    seq(n, _ => 0)
  }

  /** The file after `data` is written at position `p`; a gap reads as zeros. */
  function WriteAt(file: seq<byte>, p: nat, data: seq<byte>): (r: seq<byte>)
    ensures |r| == if p + |data| > |file| && data != [] then p + |data| else |file|
  {
    if data == [] then file
    else
      var padded := if p <= |file| then file else file + Zeros(p - |file|);
      padded[..p] + data + (if p + |data| <= |padded| then padded[p + |data|..] else [])
  }

  /** Every byte of it: the data, what was there, or zero. */
  lemma WrittenBytes(file: seq<byte>, p: nat, data: seq<byte>, i: nat)
    requires i < |WriteAt(file, p, data)|
    ensures WriteAt(file, p, data)[i] == if p <= i < p + |data| then data[i - p] else if i < |file| then file[i] else 0
  {
  }

  class OutFile {
    var bytes: seq<byte>
    var pos: nat

    constructor ()
      ensures bytes == [] && pos == 0
    {
      bytes, pos := [], 0;
    }

    method Seek(p: nat)
      modifies this
      ensures bytes == old(bytes) && pos == p
    {
      pos := p;
    }

    method Write(data: seq<byte>)
      modifies this
      ensures bytes == WriteAt(old(bytes), old(pos), data) && pos == old(pos) + |data|
    {
      bytes := WriteAt(bytes, pos, data);
      pos := pos + |data|;
    }
  }

  // ---- The overlay addresses ------------------------------------------------------------------------

  function RoundUp16(x: u32): u32 { Plus(x, 15) / 16 * 16 }

  /** Where the sections go for a base address and a predicted number of entries; the header
      follows .rodata, and .bss follows the file. */
  function OverlayLayout(base: u32, sizes: Quad, count: int): Quad {
    var data := Plus(base, sizes[0]);
    var rodata := Plus(data, sizes[1]);
    var header := Plus(rodata, sizes[2]);
    [base, data, rodata, RoundUp16(Plus(Plus(Plus(header, 20), 4 * count), 4))]
  }

  function HeaderOffset(base: u32, sizes: Quad): u32 {
    Minus(Plus(Plus(Plus(base, sizes[0]), sizes[1]), sizes[2]), base)
  }

  // ---- The emitted bytes ------------------------------------------------------------------------------

  function WordBytes(ws: seq<u32>): (b: seq<byte>)
    ensures |b| == 4 * |ws|
  {
    if ws == [] then [] else WordBytes(ws[..|ws| - 1]) + BigEndian(ws[|ws| - 1])
  }

  lemma {:induction false} WordBytesAt(ws: seq<u32>, i: nat)
    requires i < |ws|
    ensures Load(WordBytes(ws), 4 * i) == ws[i]
  {
    var init, last := ws[..|ws| - 1], ws[|ws| - 1];
    if i < |ws| - 1 {
      WordBytesAt(init, i);
      assert Load(WordBytes(ws), 4 * i) == Load(WordBytes(init), 4 * i);
    } else {
      assert Load(WordBytes(ws), 4 * i) == Load(BigEndian(last), 0);
    }
  }

  function FirstZero(list: seq<u32>, i: nat): (z: nat)
    requires i <= |list|
    ensures i <= z <= |list|
    ensures (forall k :: i <= k < |list| ==> list[k] != 0) ==> z == |list|
    decreases |list| - i
  {
    if i == |list| || list[i] == 0 then i else FirstZero(list, i + 1)
  }

  /** The emission loop stops at the first zero word. */
  function UpToZero(list: seq<u32>): seq<u32> { list[..FirstZero(list, 0)] }

  /** The file position of the footer when the entries end at position `p`. */
  function FooterAt(p: nat): (f: nat)
    ensures p <= f < p + 16
  {
    if (p + 4) % 16 != 0 then p + 16 - (p + 4) % 16 else p
  }

  lemma FooterAligned(p: nat)
    ensures (FooterAt(p) + 4) % 16 == 0
  {
  }

  function HeaderWords(sizes: Quad, count: int): seq<u32> {
    sizes + [Wrap(count)]
  }

  /** Header; entries; zeros; distance from the end of the file to the header. */
  function TailBytes(header: nat, sizes: Quad, count: int, list: seq<u32>): (tail: seq<byte>)
    ensures |tail| == FooterAt(header + 20 + 4 * |list|) + 4 - header
  {
    WordBytes(HeaderWords(sizes, count)) + WordBytes(list) + FooterBytes(header, header + 20 + 4 * |list|)
  }

  function FooterBytes(header: nat, p: nat): (b: seq<byte>)
    ensures |b| == FooterAt(p) + 4 - p
  {
    Zeros(FooterAt(p) - p) + BigEndian(Wrap(FooterAt(p) + 4 - header))
  }

  /** The length of a file with so many bytes of sections and so many entries. */
  function FileLength(body: nat, entries: nat): nat { FooterAt(body + 20 + 4 * entries) + 4 }

  /** Contents of .text, .data and .rodata, then the tail. */
  function FileBytes(body: seq<byte>, sizes: Quad, count: int, list: seq<u32>): (file: seq<byte>)
    ensures |file| == FileLength(|body|, |list|)
  {
    body + TailBytes(|body|, sizes, count, list)
  }

  datatype WriteResult = Written(file: seq<byte>) | BssMismatch | SectionMismatch

  /** The sizes of the first `s` sections together. */
  function Sum(sizes: Quad, s: nat): nat
    requires s <= 4
  {
    (if s > 0 then sizes[0] as int else 0) + (if s > 1 then sizes[1] as int else 0)
    + (if s > 2 then sizes[2] as int else 0) + (if s > 3 then sizes[3] as int else 0)
  }

  predicate SectionsInImage(n: nat, ep: u32, elf: Quad, sizes: Quad) {
    forall s :: 0 <= s < 3 ==> sizes[s] > 0 ==> Minus(elf[s], ep) as int + sizes[s] as int <= n
  }

  function SectionBytes(image: seq<byte>, ep: u32, elf: Quad, sizes: Quad, s: nat): (b: seq<byte>)
    requires s < 3 && SectionsInImage(|image|, ep, elf, sizes)
    ensures |b| == sizes[s]
  {
    if sizes[s] == 0 then [] else
    var o: int := Minus(elf[s], ep);
    image[o..o + sizes[s] as int]
  }

  function BodyUpTo(image: seq<byte>, ep: u32, elf: Quad, sizes: Quad, s: nat): (b: seq<byte>)
    requires s <= 3 && SectionsInImage(|image|, ep, elf, sizes)
    ensures |b| == Sum(sizes, s)
  {
    if s == 0 then [] else BodyUpTo(image, ep, elf, sizes, s - 1) + SectionBytes(image, ep, elf, sizes, s - 1)
  }

  /** The three loadable sections, cut from the image. */
  function Body(image: seq<byte>, ep: u32, elf: Quad, sizes: Quad): (b: seq<byte>)
    requires SectionsInImage(|image|, ep, elf, sizes)
    ensures |b| == Sum(sizes, 3)
  {
    BodyUpTo(image, ep, elf, sizes, 3)
  }

  /** The file for an image, if the addresses agree with the predicted ones. */
  function FileFor(image: seq<byte>, ep: u32, elf: Quad, sizes: Quad, count: int, list: seq<u32>): seq<byte>
    requires SectionsInImage(|image|, ep, elf, sizes)
  {
    FileBytes(Body(image, ep, elf, sizes), sizes, count, UpToZero(list))
  }

  lemma WriteAtEnd(file: seq<byte>, p: nat, data: seq<byte>)
    requires |file| <= p && data != []
    ensures WriteAt(file, p, data) == file + Zeros(p - |file|) + data
  {
  }

  lemma WriteInside(file: seq<byte>, p: nat, data: seq<byte>)
    requires p + |data| <= |file|
    ensures WriteAt(file, p, data) == file[..p] + data + file[p + |data|..]
  {
  }

  /** The loop that writes the entries, up to a zero word. */
  method WriteEntries(f: OutFile, list: seq<u32>)
    requires f.pos == |f.bytes|
    modifies f
    ensures f.bytes == old(f.bytes) + WordBytes(UpToZero(list)) && f.pos == |f.bytes|
  {
    hide WriteAt, Zeros, WordBytes;
    var seek := 0;
    NoWords();
    while seek < |list| && list[seek] != 0
      invariant 0 <= seek <= |list| && FirstZero(list, 0) == FirstZero(list, seek)
      invariant f.bytes == old(f.bytes) + WordBytes(list[..seek]) && f.pos == |f.bytes|
    {
      WriteAtEnd(f.bytes, f.pos, BigEndian(list[seek]));
      f.Write(BigEndian(list[seek]));
      OneMoreWord(list, seek);
      seek := seek + 1;
    }
  }

  lemma NoWords()
    ensures WordBytes([]) == []
  {
  }

  lemma OneMoreWord(list: seq<u32>, k: nat)
    requires k < |list|
    ensures WordBytes(list[..k + 1]) == WordBytes(list[..k]) + BigEndian(list[k])
  {
    assert list[..k + 1][..k] == list[..k];
  }

  /** Padding to a footer that ends on a 16-byte boundary. */
  method WriteFooter(f: OutFile, header: nat)
    requires f.pos == |f.bytes|
    modifies f
    ensures f.bytes == old(f.bytes) + FooterBytes(header, |old(f.bytes)|) && f.pos == |f.bytes|
  {
    hide WriteAt, Zeros, BigEndian, FooterAt, Wrap;
    var backwards := f.pos - header + 4;
    var i := f.pos;
    var position := NextFooter(i);
    backwards := backwards + (position - i);
    f.Seek(position);
    WriteAtEnd(f.bytes, f.pos, BigEndian(Wrap(backwards)));
    f.Write(BigEndian(Wrap(backwards)));
  }

  method NextFooter(i: nat) returns (position: nat)
    ensures position == FooterAt(i)
  {
    position := i;
    if (i + 4) % 16 != 0 {
      position := i + 16 - (i + 4) % 16;
    }
  }

  /** Header, entries, padding and footer, written before the sections. */
  method WriteTail(f: OutFile, header: nat, sizes: Quad, count: int, list: seq<u32>)
    requires f.bytes == [] && f.pos == 0
    modifies f
    ensures f.bytes == Zeros(header) + TailBytes(header, sizes, count, UpToZero(list)) && f.pos == |f.bytes|
  {
    hide WriteAt, Zeros, UpToZero, WordBytes, BigEndian, FooterBytes, FooterAt;
    var words := HeaderWords(sizes, count);
    f.Seek(header);
    WriteAtEnd([], header, WordBytes(words));
    f.Write(WordBytes(words));
    assert f.bytes == Zeros(header) + WordBytes(words);
    WriteEntries(f, list);
    WriteFooter(f, header);
  }

  /** The sections, written over the gap before the header. */
  method WriteSections(f: OutFile, memory: array<byte>, ep: u32, elf: Quad, sizes: Quad)
    requires SectionsInImage(memory.Length, ep, elf, sizes)
    requires Sum(sizes, 3) <= |f.bytes|
    modifies f
    ensures var body := Body(memory[..], ep, elf, sizes);
            f.bytes == body + old(f.bytes)[|body|..] && f.pos == |body|
  {
    hide WriteAt, SectionBytes, BodyUpTo, Sum;
    NoSectionsYet(memory[..], ep, elf, sizes);
    f.Seek(0);
    for s := 0 to 3
      invariant f.pos == Sum(sizes, s) <= |old(f.bytes)|
      invariant f.bytes == BodyUpTo(memory[..], ep, elf, sizes, s) + old(f.bytes)[Sum(sizes, s)..]
    {
      var data := [];
      if sizes[s] > 0 {
        var o := Minus(elf[s], ep);
        data := memory[o..o as int + sizes[s] as int];
      }
      SectionSlice(memory[..], ep, elf, sizes, s, data);
      NextSection(memory[..], ep, elf, sizes, s);
      WriteInside(f.bytes, f.pos, data);
      OverGap(BodyUpTo(memory[..], ep, elf, sizes, s), old(f.bytes), data);
      f.Write(data);
    }
  }

  lemma NoSectionsYet(image: seq<byte>, ep: u32, elf: Quad, sizes: Quad)
    requires SectionsInImage(|image|, ep, elf, sizes)
    ensures BodyUpTo(image, ep, elf, sizes, 0) == [] && Sum(sizes, 0) == 0
  {
  }

  lemma NextSection(image: seq<byte>, ep: u32, elf: Quad, sizes: Quad, s: nat)
    requires s < 3 && SectionsInImage(|image|, ep, elf, sizes)
    ensures BodyUpTo(image, ep, elf, sizes, s + 1) == BodyUpTo(image, ep, elf, sizes, s) + SectionBytes(image, ep, elf, sizes, s)
    ensures Sum(sizes, s + 1) == Sum(sizes, s) + sizes[s] <= Sum(sizes, 3)
  {
    hide SectionBytes;
  }

  /** Data written behind what has been written over the beginning of `file`. */
  lemma OverGap(done: seq<byte>, file: seq<byte>, data: seq<byte>)
    requires |done| + |data| <= |file|
    ensures var now := done + file[|done|..];
            now[..|done|] + data + now[|done| + |data|..] == done + data + file[|done + data|..]
  {
  }

  lemma SectionSlice(image: seq<byte>, ep: u32, elf: Quad, sizes: Quad, s: nat, data: seq<byte>)
    requires s < 3 && SectionsInImage(|image|, ep, elf, sizes)
    requires sizes[s] == 0 ==> data == []
    requires sizes[s] > 0 ==> data == image[Minus(elf[s], ep)..Minus(elf[s], ep) as int + sizes[s] as int]
    ensures data == SectionBytes(image, ep, elf, sizes, s)
  {
  }

  const MEMORY_SIZE := 4 * 1024 * 1024

  /** The file is kept only if it ends where .bss was predicted to start and the sections are
      where they were predicted to be. */
  function Emitted(file: seq<byte>, sizes: Quad, ovl: Quad, base: u32): WriteResult {
    if ovl[3] != base as int + |file| then BssMismatch
    else if !Arranged(sizes, ovl, base) then SectionMismatch
    else Written(file)
  }

  /** The last part of `novl_conv`: tail, size check, sections with their position checks. */
  method WriteOverlay(memory: array<byte>, ep: u32, elf: Quad, sizes: Quad, ovl: Quad, base: u32,
                      count: int, list: seq<u32>) returns (r: WriteResult)
    requires memory.Length <= MEMORY_SIZE && SectionsInImage(memory.Length, ep, elf, sizes)
    ensures r == Emitted(FileFor(memory[..], ep, elf, sizes, count, list), sizes, ovl, base)
  {
    hide WriteAt, UpToZero, Zeros, WordBytes, BigEndian, BodyUpTo, HeaderOffset, Arranged, TailBytes;
    HeaderOffsetIsSum(memory.Length, ep, elf, sizes, base);
    var header := HeaderOffset(base, sizes);
    var f := new OutFile();
    WriteTail(f, header, sizes, count, list);
    if ovl[3] != f.pos + base { return BssMismatch; }
    var arranged := CheckPositions(sizes, ovl, base);
    if !arranged { return SectionMismatch; }
    WriteSections(f, memory, ep, elf, sizes);
    BodyOverGap(Body(memory[..], ep, elf, sizes), TailBytes(header, sizes, count, UpToZero(list)));
    return Written(f.bytes);
  }

  /** The sections start where the addresses say; checked before each one is written. */
  predicate Arranged(sizes: Quad, ovl: Quad, base: u32) {
    forall s :: 0 <= s < 3 ==> ovl[s] == base as int + Sum(sizes, s)
  }

  method CheckPositions(sizes: Quad, ovl: Quad, base: u32) returns (ok: bool)
    ensures ok == Arranged(sizes, ovl, base)
  {
    var position: int := base;
    for s := 0 to 3
      invariant position == base as int + Sum(sizes, s)
      invariant forall t :: 0 <= t < s ==> ovl[t] == base as int + Sum(sizes, t)
    {
      if ovl[s] != position { return false; }
      position := position + sizes[s];
    }
    return true;
  }

  lemma WrapSmall(x: int)
    requires 0 <= x < 0x1_0000_0000
    ensures Wrap(x) == x
  {
  }

  lemma HeaderOffsetIsSum(n: nat, ep: u32, elf: Quad, sizes: Quad, base: u32)
    requires n <= MEMORY_SIZE && SectionsInImage(n, ep, elf, sizes)
    ensures HeaderOffset(base, sizes) == Sum(sizes, 3)
  {
    hide Wrap;
    var b: int, x: int, y: int, z: int := base, sizes[0], sizes[1], sizes[2];
    assert 0 <= x <= n && 0 <= y <= n && 0 <= z <= n by {
      assert sizes[0] <= n && sizes[1] <= n && sizes[2] <= n;
    }
    WrapPlus(b + x, y);
    WrapPlus(b + x + y, z);
    WrapPlus(b + x + y + z, -b);
    assert b + x + y + z - b == x + y + z;
    WrapSmall(x + y + z);
  }

  lemma BodyOverGap(body: seq<byte>, tail: seq<byte>)
    ensures (Zeros(|body|) + tail)[|body|..] == tail
  {
  }

  // ---- Size prediction ------------------------------------------------------------------------------

  /** No address of the overlay reaches 2^32. */
  predicate Fits(base: u32, sizes: Quad, count: int) {
    0 <= count && base as int + Sum(sizes, 3) + 24 + 4 * count + 15 + sizes[3] < 0x1_0000_0000
  }

  lemma LayoutSums(base: u32, sizes: Quad, count: int)
    requires Fits(base, sizes, count)
    ensures var o := OverlayLayout(base, sizes, count);
            && o[0] == base && o[1] == base as int + Sum(sizes, 1) && o[2] == base as int + Sum(sizes, 2)
            && o[3] == (base as int + Sum(sizes, 3) + 24 + 4 * count + 15) / 16 * 16
  {
    hide Wrap;
    var b: int, x: int, y: int, z: int := base, sizes[0], sizes[1], sizes[2];
    WrapSmall(b + x);
    WrapSmall(b + x + y);
    WrapSmall(b + x + y + z);
    WrapSmall(b + x + y + z + 20);
    WrapSmall(b + x + y + z + 20 + 4 * count);
    WrapSmall(b + x + y + z + 20 + 4 * count + 4);
    WrapSmall(b + x + y + z + 20 + 4 * count + 4 + 15);
  }

  lemma RoundUpBase(base: nat, x: nat)
    ensures (base + x + 15) / 16 * 16 == base + (x + 15) / 16 * 16 <==> base % 16 == 0
  {
    var q, r := base / 16, base % 16;
    assert base == 16 * q + r;
    var u, v := (x + 15) / 16, (x + 15) % 16;
    assert x + 15 == 16 * u + v;
    if r == 0 {
      assert base + x + 15 == 16 * (q + u) + v;
    } else {
      assert (base + (x + 15) / 16 * 16) % 16 == r by {
        assert base + (x + 15) / 16 * 16 == 16 * (q + u) + r;
      }
    }
  }

  lemma FooterIsRoundUp(p: nat)
    ensures FooterAt(p) + 4 == (p + 4 + 15) / 16 * 16
  {
    var q, r := (p + 4) / 16, (p + 4) % 16;
    assert p + 4 == 16 * q + r;
    if r == 0 {
      assert p + 4 + 15 == 16 * q + 15;
    } else {
      assert p + 4 + 15 == 16 * (q + 1) + (r - 1);
    }
  }

  /** The predicted start of .bss is the end of the file exactly when the base is a multiple of 16;
      the sections are then where they were predicted to be. */
  lemma SizePrediction(base: u32, sizes: Quad, body: seq<byte>, list: seq<u32>)
    requires |body| == Sum(sizes, 3) && Fits(base, sizes, |list|)
    ensures var o := OverlayLayout(base, sizes, |list|);
            var file := FileBytes(body, sizes, |list|, list);
            && (o[3] == base as int + |file| <==> base % 16 == 0)
            && Emitted(file, sizes, o, base) == (if base % 16 == 0 then Written(file) else BssMismatch)
  {
    hide OverlayLayout, TailBytes, FooterAt;
    LayoutSums(base, sizes, |list|);
    RoundUpBase(base, |body| + 24 + 4 * |list|);
    FooterIsRoundUp(|body| + 20 + 4 * |list|);
  }
}
