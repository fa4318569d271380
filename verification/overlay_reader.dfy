/** Reading an overlay file (src/overlay.c), and that reading undoes writing. */
module OverlayReader {
  import opened Words
  import opened Reloc
  import opened Overlay

  /** `OutOfFile`: the source would read outside its buffer. */
  datatype HeaderResult = NotOverlay | OutOfFile | Header(offset: nat, words: seq<u32>)

  /** A section with its position; .bss has no data. */
  datatype Section = Section(addr: u32, size: u32)

  datatype LoadResult = LoadFailed | LoadOutOfFile | Loaded(sections: seq<Section>, relocations: seq<u32>)

  /** A word stored in an `int`. */
  function Signed(w: u32): int { if w < 0x8000_0000 then w else w - 0x1_0000_0000 }

  function WordsAt(d: seq<byte>, p: nat, n: nat): (ws: seq<u32>)
    requires p + 4 * n <= |d|
    ensures |ws| == n && forall i :: 0 <= i < n ==> ws[i] == Load(d, p + 4 * i)
  {
    if n == 0 then [] else WordsAt(d, p, n - 1) + [Load(d, p + 4 * (n - 1))]
  }

  lemma NextWord(d: seq<byte>, p: nat, n: nat)
    requires p + 4 * (n + 1) <= |d|
    ensures WordsAt(d, p, n + 1) == WordsAt(d, p, n) + [Load(d, p + 4 * n)]
  {
    hide Load;
  }

  /** Where the footer points and whether it can be a header. */
  function ReadHeader(d: seq<byte>): HeaderResult {
    if |d| < 4 then OutOfFile else
    var offset := Signed(Load(d, |d| - 4));
    if offset > |d| || offset % 4 != 0 then NotOverlay
    else if offset < 20 then OutOfFile
    else Header(|d| - offset, WordsAt(d, |d| - offset, 5))
  }

  function SectionsFrom(sizes: seq<u32>, total: nat): (r: seq<Section>)
    ensures |r| == |sizes|
  {
    if sizes == [] then [] else [Section(Wrap(total), sizes[0])] + SectionsFrom(sizes[1..], total + sizes[0])
  }

  function ReadOverlay(d: seq<byte>): LoadResult {
    match ReadHeader(d)
    case NotOverlay => LoadFailed
    case OutOfFile => LoadOutOfFile
    case Header(p, words) =>
      var count := Signed(words[4]);
      if count > 0 && p + 20 + 4 * count > |d| then LoadOutOfFile
      else Loaded(SectionsFrom(words[..4], 0), WordsAt(d, p + 20, if count < 0 then 0 else count))
  }

  /** What the last word of a file leads to; it is a signed number. */
  lemma FooterLeads(d: seq<byte>)
    ensures |d| < 4 ==> ReadHeader(d) == OutOfFile
    ensures |d| >= 4 ==>
              var w: int := Load(d, |d| - 4);
              if w % 4 != 0 || |d| < w < 0x8000_0000 then ReadHeader(d) == NotOverlay
              else if w < 20 || w >= 0x8000_0000 then ReadHeader(d) == OutOfFile
              else ReadHeader(d) == Header(|d| - w, WordsAt(d, |d| - w, 5))
  {
    hide Load, WordsAt;
    if |d| >= 4 {
      var w: int := Load(d, |d| - 4);
      assert (w - 0x1_0000_0000) % 4 == w % 4 by { SameRest(w); }
    }
  }

  lemma SameRest(w: nat)
    ensures (w - 0x1_0000_0000) % 4 == w % 4
  {
  }

  /** What is loaded behind a header: the four sizes, and as many entries as the fifth word says, which
      is a signed number too. */
  lemma HeaderLeads(d: seq<byte>, p: nat, words: seq<u32>)
    requires ReadHeader(d) == Header(p, words)
    ensures p + 20 <= |d| && |words| == 5 && words == WordsAt(d, p, 5)
    ensures var n: int := if words[4] < 0x8000_0000 then words[4] else 0;
            if p + 20 + 4 * n > |d| then ReadOverlay(d) == LoadOutOfFile
            else ReadOverlay(d) == Loaded(SectionsFrom(words[..4], 0), WordsAt(d, p + 20, n))
  {
    hide Load, WordsAt, SectionsFrom;
  }

  lemma HeaderFits(d: seq<byte>)
    ensures var h := ReadHeader(d);
            h.Header? ==> h.offset + 20 <= |d| && |h.words| == 5
  {
  }

  /** `ovl_get_header` */
  method GetHeader(data: array<byte>) returns (r: HeaderResult)
    ensures r == ReadHeader(data[..])
  {
    hide Load, WordsAt;
    if data.Length < 4 { return OutOfFile; }
    var w := ReadWord(data, data.Length - 4);
    var offset := Signed(w);
    if offset > data.Length || offset % 4 != 0 { return NotOverlay; }
    if offset < 20 { return OutOfFile; }
    var ptr := data.Length - offset;
    var dest := [];
    for i := 0 to 5
      invariant dest == WordsAt(data[..], ptr, i)
    {
      w := ReadWord(data, ptr + 4 * i);
      NextWord(data[..], ptr, i);
      dest := dest + [w];
    }
    r := Header(ptr, dest);
  }

  /** `ovl_load`, once the file is in memory. */
  method LoadOverlay(data: array<byte>) returns (r: LoadResult)
    ensures r == ReadOverlay(data[..])
  {
    hide WordsAt, SectionsFrom, Load, ReadHeader;
    HeaderFits(data[..]);
    var head := GetHeader(data);
    if head == NotOverlay { return LoadFailed; }
    if head == OutOfFile { return LoadOutOfFile; }
    var count := Signed(head.words[4]);
    var raw := head.offset + 20;
    if count > 0 && raw + 4 * count > data.Length { return LoadOutOfFile; }
    var relocations := CopyRelocations(data, raw, if count < 0 then 0 else count);
    var sections := PlaceSections(head.words[..4]);
    r := Loaded(sections, relocations);
  }

  method CopyRelocations(data: array<byte>, raw: nat, n: nat) returns (relocations: seq<u32>)
    requires raw + 4 * n <= data.Length
    ensures relocations == WordsAt(data[..], raw, n)
  {
    hide Load, WordsAt;
    relocations := [];
    for i := 0 to n
      invariant relocations == WordsAt(data[..], raw, i)
    {
      var w := ReadWord(data, raw + 4 * i);
      NextWord(data[..], raw, i);
      relocations := relocations + [w];
    }
  }

  method PlaceSections(sizes: seq<u32>) returns (sections: seq<Section>)
    ensures sections == SectionsFrom(sizes, 0)
  {
    sections := [];
    var total: nat := 0;
    assert sizes[0..] == sizes;
    for i := 0 to |sizes|
      invariant sections + SectionsFrom(sizes[i..], total) == SectionsFrom(sizes, 0)
    {
      assert sizes[i..][1..] == sizes[i + 1..];
      sections := sections + [Section(Wrap(total), sizes[i])];
      total := total + sizes[i];
    }
  }

  // ---- Reading undoes writing -----------------------------------------------------------------------

  /** OVL_RELOC_GET_SEC, OVL_RELOC_GET_ADDR, OVL_RELOC_GET_TYPE */
  function GetSec(r: u32): int { r / 0x4000_0000 - 1 }

  function GetAddr(r: u32): nat { r % 0x100_0000 }

  function GetType(r: u32): nat { r / 0x100_0000 % 0x40 }

  lemma LoadShift(a: seq<byte>, b: seq<byte>, c: seq<byte>, o: nat)
    requires o + 4 <= |b|
    ensures Load(a + b + c, |a| + o) == Load(b, o)
  {
  }

  /** The footer word is the distance from the end of the file to the header. */
  lemma FooterWord(body: seq<byte>, sizes: Quad, count: int, list: seq<u32>)
    requires FileLength(|body|, |list|) < 0x1_0000_0000
    ensures var file := FileBytes(body, sizes, count, list);
            Load(file, |file| - 4) == |file| - |body|
  {
    hide WordBytes, Zeros, BigEndian, FooterAt, Load;
    var file := FileBytes(body, sizes, count, list);
    var p := |body| + 20 + 4 * |list|;
    var before := body + WordBytes(HeaderWords(sizes, count)) + WordBytes(list) + Zeros(FooterAt(p) - p);
    var footer := BigEndian(Wrap(FooterAt(p) + 4 - |body|));
    assert file == before + footer + [];
    LoadShift(before, footer, [], 0);
  }

  lemma HeaderWordsAt(body: seq<byte>, sizes: Quad, count: int, list: seq<u32>, i: nat)
    requires i < 5
    ensures Load(FileBytes(body, sizes, count, list), |body| + 4 * i) == HeaderWords(sizes, count)[i]
  {
    hide WordBytes, FooterBytes, FooterAt, Load;
    var words, rest := HeaderWords(sizes, count), WordBytes(list) + FooterBytes(|body|, |body| + 20 + 4 * |list|);
    assert FileBytes(body, sizes, count, list) == body + WordBytes(words) + rest;
    LoadShift(body, WordBytes(words), rest, 4 * i);
    WordBytesAt(words, i);
  }

  lemma EntriesAt(body: seq<byte>, sizes: Quad, count: int, list: seq<u32>, i: nat)
    requires i < |list|
    ensures Load(FileBytes(body, sizes, count, list), |body| + 20 + 4 * i) == list[i]
  {
    hide WordBytes, FooterBytes, FooterAt, Load;
    var before, rest := body + WordBytes(HeaderWords(sizes, count)), FooterBytes(|body|, |body| + 20 + 4 * |list|);
    assert FileBytes(body, sizes, count, list) == before + WordBytes(list) + rest;
    LoadShift(before, WordBytes(list), rest, 4 * i);
    WordBytesAt(list, i);
  }

  /** For every body, word-multiple section sizes and entry list: the reader finds the header, and
      recovers the sizes, the running positions, and every entry. */
  lemma ReaderInvertsWriter(body: seq<byte>, sizes: Quad, list: seq<u32>)
    requires |body| == Sum(sizes, 3) && forall s :: 0 <= s < 3 ==> sizes[s] % 4 == 0
    requires FileLength(|body|, |list|) < 0x8000_0000
    ensures var file := FileBytes(body, sizes, |list|, list);
            && ReadHeader(file) == Header(|body|, HeaderWords(sizes, |list|))
            && ReadOverlay(file) == Loaded(SectionsFrom(sizes, 0), list)
            && file[..|body|] == body
  {
    hide ReadHeader, ReadOverlay, FileBytes, SectionsFrom, Sum, HeaderWords, WordsAt, Load, FileLength;
    var file := FileBytes(body, sizes, |list|, list);
    FileShape(body, sizes, list);
    FooterFits(body, sizes, list);
    ReadsHeaderWords(body, sizes, list);
    ReadsEntries(body, sizes, list);
    FromWritten(file, body, sizes, list);
  }

  lemma FromWritten(file: seq<byte>, body: seq<byte>, sizes: Quad, list: seq<u32>)
    requires |body| + 20 + 4 * |list| <= |file| && |body| % 4 == 0 && |file| % 16 == 0 && |list| < 0x8000_0000
    requires Load(file, |file| - 4) == |file| - |body| < 0x8000_0000
    requires WordsAt(file, |body|, 5) == HeaderWords(sizes, |list|)
    requires HeaderWords(sizes, |list|)[..4] == sizes && HeaderWords(sizes, |list|)[4] == |list|
    requires WordsAt(file, |body| + 20, |list|) == list
    ensures ReadHeader(file) == Header(|body|, HeaderWords(sizes, |list|))
    ensures ReadOverlay(file) == Loaded(SectionsFrom(sizes, 0), list)
  {
    hide ReadHeader, ReadOverlay, SectionsFrom, HeaderWords, WordsAt, Load;
    Quarters(|file|);
    HeaderIs(file, |body|);
    OverlayIs(file, |body|, |list|, sizes);
  }

  lemma Quarters(n: nat)
    ensures n % 16 == 0 ==> n % 4 == 0
  {
    if n % 16 == 0 {
      var q := n / 16;
      FourTimes(n, 4 * q);
    }
  }

  lemma FourTimes(n: nat, q: nat)
    requires n == 4 * q
    ensures n % 4 == 0
  {
  }

  lemma FooterFits(body: seq<byte>, sizes: Quad, list: seq<u32>)
    requires FileLength(|body|, |list|) < 0x8000_0000
    ensures var file := FileBytes(body, sizes, |list|, list);
            Load(file, |file| - 4) == |file| - |body| < 0x8000_0000 && |list| < 0x8000_0000
  {
    hide Load, WordBytes, FooterBytes, FooterAt, HeaderWords;
    FooterWord(body, sizes, |list|, list);
  }

  /** A footer that is the distance to position `p`. */
  lemma HeaderIs(file: seq<byte>, p: nat)
    requires p + 20 <= |file| && |file| % 4 == 0 && p % 4 == 0
    requires Load(file, |file| - 4) == |file| - p < 0x8000_0000
    ensures ReadHeader(file) == Header(p, WordsAt(file, p, 5))
  {
    hide Load, WordsAt;
    assert (|file| - p) % 4 == 0 by { Distance(|file|, p); }
  }

  lemma Distance(n: nat, p: nat)
    requires p <= n && n % 4 == 0 && p % 4 == 0
    ensures (n - p) % 4 == 0
  {
    FourTimes(n - p, n / 4 - p / 4);
  }

  /** A header with `count` entries behind it. */
  lemma OverlayIs(file: seq<byte>, p: nat, count: nat, sizes: Quad)
    requires p + 20 + 4 * count <= |file| && count < 0x8000_0000
    requires ReadHeader(file) == Header(p, WordsAt(file, p, 5))
    requires WordsAt(file, p, 5)[..4] == sizes && WordsAt(file, p, 5)[4] == count
    ensures ReadOverlay(file) == Loaded(SectionsFrom(sizes, 0), WordsAt(file, p + 20, count))
  {
    hide ReadHeader, WordsAt, SectionsFrom, Load;
  }

  lemma ReadsHeaderWords(body: seq<byte>, sizes: Quad, list: seq<u32>)
    requires |list| < 0x8000_0000
    ensures var file := FileBytes(body, sizes, |list|, list);
            && |body| + 20 <= |file|
            && WordsAt(file, |body|, 5) == HeaderWords(sizes, |list|)
            && HeaderWords(sizes, |list|)[..4] == sizes && HeaderWords(sizes, |list|)[4] == |list|
  {
    hide Load, WordBytes, TailBytes, FooterAt;
    var file := FileBytes(body, sizes, |list|, list);
    forall i | 0 <= i < 5
      ensures WordsAt(file, |body|, 5)[i] == HeaderWords(sizes, |list|)[i]
    {
      HeaderWordsAt(body, sizes, |list|, list, i);
    }
  }

  lemma ReadsEntries(body: seq<byte>, sizes: Quad, list: seq<u32>)
    ensures var file := FileBytes(body, sizes, |list|, list);
            |body| + 20 + 4 * |list| <= |file| && WordsAt(file, |body| + 20, |list|) == list
  {
    hide Load, WordBytes, TailBytes, FooterAt;
    var file := FileBytes(body, sizes, |list|, list);
    forall i | 0 <= i < |list|
      ensures WordsAt(file, |body| + 20, |list|)[i] == list[i]
    {
      EntriesAt(body, sizes, |list|, list, i);
    }
  }

  lemma FileShape(body: seq<byte>, sizes: Quad, list: seq<u32>)
    requires |body| == Sum(sizes, 3) && forall s :: 0 <= s < 3 ==> sizes[s] % 4 == 0
    ensures var file := FileBytes(body, sizes, |list|, list);
            && |file| >= |body| + 24 + 4 * |list| && |body| % 4 == 0 && |file| % 16 == 0 && file[..|body|] == body
  {
    hide FooterAt, TailBytes;
    FooterAligned(|body| + 20 + 4 * |list|);
    assert sizes[0] % 4 == 0 && sizes[1] % 4 == 0 && sizes[2] % 4 == 0;
    var a: int, b: int, c: int := sizes[0] / 4, sizes[1] / 4, sizes[2] / 4;
    assert |body| == 4 * (a + b + c);
  }
}
