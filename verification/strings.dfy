/** Looking up a string by its offset in a string table: libelf/strptr.c. */
module Strings {
  import opened Words
  import opened ElfTypes
  import opened Codec
  import opened Records
  import opened Layout
  import opened Layouter
  import opened Allocation
  import opened Pieces
  import opened WrittenFile
  import opened ReadBack

  /** A position in buffer `j`, or what is wrong. */
  datatype Lookup = Found(j: nat, at: nat) | NoSection | NotStrtab | BadOffset | NullBuf | Unterminated

  // ---- Finding the buffer ------------------------------------------------------------------------------------

  /** Where the search has come to after the given buffers, by their alignments and memory sizes. */
  function Passed(bufs: seq<Buf>): nat {
    if bufs == [] then 0
    else
      var m := |bufs| - 1;
      AlignUp(Passed(bufs[..m]), bufs[m].align) + bufs[m].size
  }

  /** Where the search takes buffer `j` to start. */
  function StartOf(manual: bool, bufs: seq<Buf>, j: nat): nat
    requires j < |bufs|
  {
    if manual then bufs[j].off else AlignUp(Passed(bufs[..j]), bufs[j].align)
  }

  predicate Holds(manual: bool, bufs: seq<Buf>, j: nat, offset: nat)
    requires j < |bufs|
  {
    StartOf(manual, bufs, j) <= offset < StartOf(manual, bufs, j) + bufs[j].size
  }

  /** Buffer `j` is the first one that holds the offset. */
  predicate First(manual: bool, bufs: seq<Buf>, j: nat, offset: nat) {
    && j < |bufs| && Holds(manual, bufs, j, offset)
    && forall i :: 0 <= i < j ==> !Holds(manual, bufs, i, offset)
  }

  lemma {:induction false} PassedGrows(bufs: seq<Buf>, i: nat, j: nat)
    requires i < j <= |bufs|
    ensures StartOf(false, bufs, i) + bufs[i].size <= Passed(bufs[..j])
    decreases j
  {
    hide AlignUp;
    var m := j - 1;
    assert bufs[..j][..m] == bufs[..m];
    AtLeast(Passed(bufs[..m]), bufs[m].align);
    if i < m {
      PassedGrows(bufs, i, m);
    }
  }

  lemma StartsInOrder(bufs: seq<Buf>, i: nat, j: nat)
    requires i < j < |bufs|
    ensures StartOf(false, bufs, i) + bufs[i].size <= StartOf(false, bufs, j)
  {
    hide AlignUp;
    PassedGrows(bufs, i, j);
    AtLeast(Passed(bufs[..j]), bufs[j].align);
  }

  /** The first buffer that holds the offset, if there is one. With automatic layout the search
      gives up in a hole; no later buffer could hold the offset. */
  method FindBuf(manual: bool, bufs: seq<Buf>, offset: nat) returns (found: Option<(nat, nat)>)
    ensures found.Some? ==> var (j, at) := found.value;
              First(manual, bufs, j, offset) && at == offset - StartOf(manual, bufs, j)
    ensures found == None ==> forall i :: 0 <= i < |bufs| ==> !Holds(manual, bufs, i, offset)
  {
    hide AlignUp;
    var n, j := 0, 0;
    while j < |bufs|
      invariant j <= |bufs|
      invariant !manual ==> n == Passed(bufs[..j])
      invariant forall i :: 0 <= i < j ==> !Holds(manual, bufs, i, offset)
    {
      assert bufs[..j + 1][..j] == bufs[..j];
      if manual {
        n := bufs[j].off;
        if offset >= n && offset - n < bufs[j].size {
          return Some((j, offset - n));
        }
      } else {
        n := AlignUp(n, bufs[j].align);
        if offset < n {
          forall i | j < i < |bufs| ensures !Holds(manual, bufs, i, offset) {
            StartsInOrder(bufs, j, i);
          }
          return None;
        }
        if offset - n < bufs[j].size {
          return Some((j, offset - n));
        }
        n := n + bufs[j].size;
      }
      j := j + 1;
    }
    return None;
  }

  // ---- The lookup ----------------------------------------------------------------------------------------------

  /** The string at position `at` ends inside the buffer. */
  predicate Terminated(mem: seq<byte>, at: nat) { exists n :: at <= n < |mem| && mem[n] == 0 }

  /** `elf_strptr` */
  method StrPtr(e: Descriptor, section: nat, offset: nat, sanity: bool) returns (r: Lookup)
    requires forall k, j {:trigger e.sections[k].bufs[j]} :: 0 <= k < |e.sections| && 0 <= j < |e.sections[k].bufs| ==>
               e.sections[k].bufs[j].mem.Some? ==> |e.sections[k].bufs[j].mem.value| == e.sections[k].bufs[j].size
    ensures r == NoSection <==> section >= |e.sections|
    ensures r == NotStrtab <==> section < |e.sections| && (section == 0 || e.sections[section].shdr.stype != 3)
    ensures r.Found? || r == BadOffset || r == NullBuf || r == Unterminated ==> section < |e.sections|
    ensures section < |e.sections| && section > 0 && e.sections[section].shdr.stype == 3 ==>
              Answers(e.manual, e.sections[section].bufs, offset, sanity, r)
  {
    hide StartOf;
    if section >= |e.sections| {
      return NoSection;
    }
    if section == 0 || e.sections[section].shdr.stype != SHT_STRTAB {
      return NotStrtab;
    }
    var bufs := e.sections[section].bufs;
    var found := FindBuf(e.manual, bufs, offset);
    if found == None {
      return BadOffset;
    }
    var (j, at) := found.value;
    if bufs[j].mem == None {
      return NullBuf;
    }
    var s := bufs[j].mem.value;
    assert |s| == e.sections[section].bufs[j].size;
    if !sanity {
      return Found(j, at);
    }
    for n := at to bufs[j].size
      invariant forall m :: at <= m < n ==> s[m] != 0
    {
      if s[n] == 0 {
        return Found(j, at);
      }
    }
    return Unterminated;
  }

  /** What the lookup of an offset in a string table must answer: a position in the first buffer that
      holds it, an error when no buffer does, and with the check only a string that ends in its buffer.
      For given arguments one answer is right. */
  predicate Answers(manual: bool, bufs: seq<Buf>, offset: nat, sanity: bool, r: Lookup) {
    match r
    case Found(j, at) =>
      && First(manual, bufs, j, offset) && at == offset - StartOf(manual, bufs, j)
      && bufs[j].mem.Some? && (sanity ==> Terminated(bufs[j].mem.value, at))
    case NullBuf =>
      exists j :: 0 <= j < |bufs| && First(manual, bufs, j, offset) && bufs[j].mem == None
    case Unterminated =>
      sanity && exists j :: 0 <= j < |bufs| && First(manual, bufs, j, offset) && bufs[j].mem.Some?
                            && !Terminated(bufs[j].mem.value, offset - StartOf(manual, bufs, j))
    case BadOffset => forall i :: 0 <= i < |bufs| ==> !Holds(manual, bufs, i, offset)
    case _ => false
  }

  lemma OneAnswer(manual: bool, bufs: seq<Buf>, offset: nat, sanity: bool, r: Lookup, q: Lookup)
    requires Answers(manual, bufs, offset, sanity, r) && Answers(manual, bufs, offset, sanity, q)
    ensures r == q
  {
    hide StartOf, Terminated;
    forall i, j | 0 <= i < |bufs| && 0 <= j < |bufs| && First(manual, bufs, i, offset) && First(manual, bufs, j, offset)
      ensures i == j
    {
    }
  }

  // ---- Agreement with the layout -------------------------------------------------------------------------------

  /** The file size of every buffer is its memory size, as for bytes. */
  predicate ByteLike(t: u32, bufs: seq<Buf>) { forall j :: 0 <= j < |bufs| ==> Space(t, bufs[j]) == bufs[j].size }

  lemma {:induction false} PassedIsPacked(t: u32, bufs: seq<Buf>)
    requires ByteLike(t, bufs)
    ensures Passed(bufs) == Packed(t, bufs)
  {
    hide AlignUp, Space;
    if bufs != [] {
      PassedIsPacked(t, bufs[..|bufs| - 1]);
    }
  }

  /** With automatic layout a section's buffers start where the search expects them. */
  lemma PlacedWhereSearched(d: Desc, host: Encoding, k: nat, j: nat)
    requires AutoLaid(d, host) && |LayoutOf(d, host).desc.sections| == |d.sections| && InFile(LayoutOf(d, host).desc, k)
    requires var s := LayoutOf(d, host).desc.sections[k];
             ByteLike(s.shdr.stype, s.bufs) && j < |s.bufs|
    ensures var s := LayoutOf(d, host).desc.sections[k];
            s.bufs[j].off == StartOf(false, s.bufs, j)
  {
    hide LayoutOf, AlignUp, Off, EarlySections, PhdrEnd, Space, MaxAlign, Sized, Begin, Passed;
    SameKind(d, host, k);
    PlacedSection(d, host, k);
    var a, b, t := d.sections[k].bufs, LayoutOf(d, host).desc.sections[k].bufs, d.sections[k].shdr.stype;
    PassedIsPacked(t, b[..j]);
    forall i | 0 <= i < j ensures Space(t, b[..j][i]) == Space(t, a[..j][i]) && b[..j][i].align == a[..j][i].align {
      PlacedSpace(t, a, i);
      assert b[i] == PlacedBuf(t, a, i);
    }
    SamePacked(t, a[..j], b[..j]);
  }

  lemma {:induction false} SamePacked(t: u32, a: seq<Buf>, b: seq<Buf>)
    requires |a| == |b| && forall i :: 0 <= i < |a| ==> Space(t, b[i]) == Space(t, a[i]) && b[i].align == a[i].align
    ensures Packed(t, a) == Packed(t, b)
  {
    hide AlignUp, Space;
    if a != [] {
      SamePacked(t, a[..|a| - 1], b[..|b| - 1]);
    }
  }

  /** In a laid out string table of byte buffers the lookup finds a buffer exactly when the layout
      has placed one over the offset, and then at the offset minus that buffer's `d_off`. */
  lemma LookupAgreesWithLayout(d0: Desc, host: Encoding, k: nat, j: nat, offset: nat)
    requires AutoLaid(d0, host) && |LayoutOf(d0, host).desc.sections| == |d0.sections| && InFile(LayoutOf(d0, host).desc, k)
    requires var s := LayoutOf(d0, host).desc.sections[k];
             ByteLike(s.shdr.stype, s.bufs) && j < |s.bufs|
    ensures var b := LayoutOf(d0, host).desc.sections[k].bufs;
            && (Holds(false, b, j, offset) <==> b[j].off <= offset < b[j].off + b[j].size)
            && StartOf(false, b, j) == b[j].off
            && (Holds(false, b, j, offset) ==> forall i :: 0 <= i < |b| && i != j ==> !Holds(false, b, i, offset))
  {
    hide LayoutOf, ByteLike, StartOf;
    PlacedWhereSearched(d0, host, k, j);
    var b := LayoutOf(d0, host).desc.sections[k].bufs;
    if Holds(false, b, j, offset) {
      forall i | 0 <= i < |b| && i != j ensures !Holds(false, b, i, offset) {
        if i < j {
          StartsInOrder(b, i, j);
        } else {
          StartsInOrder(b, j, i);
        }
      }
    }
  }

  /** The byte that the lookup points to is the one that the file holds at that offset of the section. */
  lemma LookupAgreesWithFile(d0: Desc, host: Encoding, d: Desc, fill: byte, k: nat, j: nat, offset: nat)
    requires Ready(d0, host, d) && |d.sections| == |d0.sections| && InFile(d, k) && j < |d.sections[k].bufs|
    requires ByteLike(d.sections[k].shdr.stype, d.sections[k].bufs) && FileType(d.sections[k].bufs[j].dtype) == T_BYTE
    requires Holds(false, d.sections[k].bufs, j, offset)
    ensures offset < |RawSection(d0, host, d, fill, k)| && d.sections[k].bufs[j].mem.Some?
    ensures var at := offset - StartOf(false, d.sections[k].bufs, j);
            && at < |d.sections[k].bufs[j].mem.value|
            && RawSection(d0, host, d, fill, k)[offset] == d.sections[k].bufs[j].mem.value[at]
  {
    hide LayoutOf, ByteLike, StartOf, AutoLaid, Xlate, EncodingOf, FileOf, Writable, RawSection;
    assert AutoLaid(d0, host);
    LookupAgreesWithLayout(d0, host, k, j, offset);
    BufferInSection(d0, host, d, fill, k, j);
    var b, enc := d.sections[k].bufs[j], EncodingOf(d.ehdr);
    XlateBytes(host, enc, b.mem.value);
    var raw := RawSection(d0, host, d, fill, k);
    assert raw[b.off..b.off + b.size][offset - b.off] == raw[offset];
  }
}
