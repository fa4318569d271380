/** The file representations of the 32-bit class: element sizes, header records, and the
    translation of arrays of elements, as in libelf/32.xlatetof.c and libelf/32.fsize.c. */
module Records {
  import opened Words
  import opened ElfTypes
  import opened Codec
  import opened Puts

  // ---- Element types ------------------------------------------------------------------------------

  const T_BYTE := 0
  const T_EHDR := 3
  const T_PHDR := 6
  const T_SHDR := 9
  const T_SXWORD := 13
  const T_XWORD := 14
  const T_VDEF := 15
  const T_VNEED := 16
  const T_NUM := 17

  function Repeat(n: nat, w: nat): (s: seq<nat>)
    ensures |s| == n
  {
    seq(n, _ => w)
  }

  const EHDR_TAIL := [2, 2, 4, 4, 4, 4, 4, 2, 2, 2, 2, 2, 2]

  /** The fields of an element; the types without a fixed size, or without a translator, have none. */
  function Widths(t: nat): seq<nat> {
    match t
    case 0 => [1]
    case 1 => [4]
    case 2 => [4, 4]
    case 3 => Repeat(16, 1) + EHDR_TAIL
    case 4 => [2]
    case 5 => [4]
    case 6 => Repeat(8, 4)
    case 7 => [4, 4, 4]
    case 8 => [4, 4]
    case 9 => Repeat(10, 4)
    case 10 => [4]
    case 11 => [4, 4, 4, 1, 1, 2]
    case 12 => [4]
    case _ => []
  }

  /** `_fsize`, which equals `_msize` in this class; 0 where the tables hold 0. */
  function ElementSize(t: nat): nat {
    match t
    case 0 => 1 case 1 => 4 case 2 => 8 case 3 => 52 case 4 => 2 case 5 => 4 case 6 => 32
    case 7 => 12 case 8 => 8 case 9 => 40 case 10 => 4 case 11 => 16 case 12 => 4
    case _ => 0
  }

  lemma {:induction false} TotalRepeat(n: nat, w: nat)
    ensures Total(Repeat(n, w)) == n * w
  {
    if n > 0 {
      assert Repeat(n, w)[1..] == Repeat(n - 1, w);
      TotalRepeat(n - 1, w);
      assert n * w == w + (n - 1) * w;
    }
  }

  lemma {:induction false} TotalConcat(a: seq<nat>, b: seq<nat>)
    ensures Total(a + b) == Total(a) + Total(b)
  {
    if a == [] {
      assert a + b == b;
    } else {
      assert (a + b)[1..] == a[1..] + b;
      TotalConcat(a[1..], b);
    }
  }

  lemma TotalEhdr()
    ensures Total(Repeat(16, 1) + EHDR_TAIL) == 52
  {
    hide Total;
    TotalRepeat(16, 1);
    TotalRepeat(2, 2);
    TotalRepeat(5, 4);
    TotalRepeat(6, 2);
    TotalConcat(Repeat(16, 1), EHDR_TAIL);
    TotalConcat(Repeat(2, 2) + Repeat(5, 4), Repeat(6, 2));
    TotalConcat(Repeat(2, 2), Repeat(5, 4));
    assert EHDR_TAIL == Repeat(2, 2) + Repeat(5, 4) + Repeat(6, 2);
  }

  lemma TotalSym()
    ensures Total([4, 4, 4, 1, 1, 2]) == 16
  {
    hide Total;
    TotalRepeat(3, 4);
    TotalRepeat(2, 1);
    TotalRepeat(1, 2);
    TotalConcat(Repeat(3, 4) + Repeat(2, 1), Repeat(1, 2));
    TotalConcat(Repeat(3, 4), Repeat(2, 1));
    assert [4, 4, 4, 1, 1, 2] == Repeat(3, 4) + Repeat(2, 1) + Repeat(1, 2);
  }

  /** The declared element sizes are those of the fields. */
  lemma ElementSizes(t: nat)
    ensures Total(Widths(t)) == ElementSize(t)
  {
    hide Total;
    TotalRepeat(0, 0);
    TotalRepeat(1, 1);
    TotalRepeat(1, 2);
    TotalRepeat(1, 4);
    TotalRepeat(2, 4);
    TotalRepeat(3, 4);
    TotalRepeat(8, 4);
    TotalRepeat(10, 4);
    assert Repeat(0, 0) == [] && Repeat(1, 1) == [1] && Repeat(1, 2) == [2] && Repeat(1, 4) == [4];
    assert Repeat(2, 4) == [4, 4] && Repeat(3, 4) == [4, 4, 4];
    TotalEhdr();
    TotalSym();
  }

  lemma Limits()
    ensures Limit(1) == 0x100 && Limit(2) == 0x1_0000 && Limit(4) == 0x1_0000_0000
  {
    assert Limit(0) == 1;
    assert Limit(3) == 0x100 * Limit(2);
  }

  // ---- Header records -------------------------------------------------------------------------------

  function EhdrFields(e: Ehdr): seq<nat> {
    e.ident + [e.etype, e.machine, e.version, e.entry, e.phoff, e.shoff, e.flags,
               e.ehsize, e.phentsize, e.phnum, e.shentsize, e.shnum, e.shstrndx]
  }

  function PhdrFields(p: Phdr): seq<nat> {
    [p.ptype, p.offset, p.vaddr, p.paddr, p.filesz, p.memsz, p.flags, p.align]
  }

  function ShdrFields(s: Shdr): seq<nat> {
    [s.name, s.stype, s.flags, s.addr, s.offset, s.size, s.link, s.info, s.addralign, s.entsize]
  }

  lemma EhdrFits(e: Ehdr)
    requires |e.ident| == 16
    ensures Fit(Widths(T_EHDR), EhdrFields(e))
  {
    Limits();
  }

  lemma PhdrFits(p: Phdr)
    ensures Fit(Widths(T_PHDR), PhdrFields(p))
  {
    Limits();
  }

  lemma ShdrFits(s: Shdr)
    ensures Fit(Widths(T_SHDR), ShdrFields(s))
  {
    Limits();
  }

  lemma EhdrBounds(vs: seq<nat>)
    requires Fit(Widths(T_EHDR), vs)
    ensures |vs| == 29
    ensures forall i :: 0 <= i < 16 ==> vs[i] < 0x100
    ensures forall i :: 16 <= i < 29 ==> vs[i] < 0x1_0000_0000
    ensures forall i :: 16 <= i < 29 && !(18 <= i < 23) ==> vs[i] < 0x1_0000
  {
    Limits();
    hide Limit;
    var ws := Widths(T_EHDR);
    assert forall i :: 0 <= i < 16 ==> ws[i] == 1;
    assert forall i :: 16 <= i < 29 ==> ws[i] == EHDR_TAIL[i - 16];
  }

  function EhdrOf(vs: seq<nat>): (e: Ehdr)
    requires Fit(Widths(T_EHDR), vs)
    ensures |e.ident| == 16 && EhdrFields(e) == vs
  {
    EhdrBounds(vs);
    hide Fit, Widths, Limit;
    Ehdr(seq(16, i requires 0 <= i < 16 => vs[i]), vs[16], vs[17], vs[18], vs[19], vs[20], vs[21], vs[22],
         vs[23], vs[24], vs[25], vs[26], vs[27], vs[28])
  }

  function PhdrOf(vs: seq<nat>): (p: Phdr)
    requires Fit(Widths(T_PHDR), vs)
    ensures PhdrFields(p) == vs
  {
    Limits();
    Phdr(vs[0], vs[1], vs[2], vs[3], vs[4], vs[5], vs[6], vs[7])
  }

  function ShdrOf(vs: seq<nat>): (s: Shdr)
    requires Fit(Widths(T_SHDR), vs)
    ensures ShdrFields(s) == vs
  {
    Limits();
    Shdr(vs[0], vs[1], vs[2], vs[3], vs[4], vs[5], vs[6], vs[7], vs[8], vs[9])
  }

  lemma FieldsInjective(e: Ehdr, f: Ehdr)
    requires EhdrFields(e) == EhdrFields(f) && |e.ident| == |f.ident| == 16
    ensures e == f
  {
    var a, b := EhdrFields(e), EhdrFields(f);
    assert e.ident == a[..16] && f.ident == b[..16];
    assert forall i :: 16 <= i < 29 ==> a[i] == b[i];
    assert a[16] == e.etype && a[17] == e.machine && a[18] == e.version && a[19] == e.entry && a[20] == e.phoff;
    assert a[21] == e.shoff && a[22] == e.flags && a[23] == e.ehsize && a[24] == e.phentsize && a[25] == e.phnum;
    assert a[26] == e.shentsize && a[27] == e.shnum && a[28] == e.shstrndx;
  }

  function EncodeEhdr(enc: Encoding, e: Ehdr): (b: seq<byte>)
    requires |e.ident| == 16
    ensures |b| == 52
  {
    ElementSizes(T_EHDR);
    StoreFields(enc, Widths(T_EHDR), EhdrFields(e))
  }

  function DecodeEhdr(enc: Encoding, b: seq<byte>): (e: Ehdr)
    requires |b| == 52
    ensures |e.ident| == 16
  {
    ElementSizes(T_EHDR);
    StoreLoadedFields(enc, Widths(T_EHDR), b);
    EhdrOf(LoadFields(enc, Widths(T_EHDR), b))
  }

  function EncodePhdr(enc: Encoding, p: Phdr): (b: seq<byte>)
    ensures |b| == 32
  {
    ElementSizes(T_PHDR);
    StoreFields(enc, Widths(T_PHDR), PhdrFields(p))
  }

  function DecodePhdr(enc: Encoding, b: seq<byte>): Phdr
    requires |b| == 32
  {
    ElementSizes(T_PHDR);
    StoreLoadedFields(enc, Widths(T_PHDR), b);
    PhdrOf(LoadFields(enc, Widths(T_PHDR), b))
  }

  function EncodeShdr(enc: Encoding, s: Shdr): (b: seq<byte>)
    ensures |b| == 40
  {
    ElementSizes(T_SHDR);
    StoreFields(enc, Widths(T_SHDR), ShdrFields(s))
  }

  function DecodeShdr(enc: Encoding, b: seq<byte>): Shdr
    requires |b| == 40
  {
    ElementSizes(T_SHDR);
    StoreLoadedFields(enc, Widths(T_SHDR), b);
    ShdrOf(LoadFields(enc, Widths(T_SHDR), b))
  }

  lemma EhdrRoundTrip(enc: Encoding, e: Ehdr)
    requires |e.ident| == 16
    ensures DecodeEhdr(enc, EncodeEhdr(enc, e)) == e
  {
    hide Fit, StoreFields, LoadFields, Widths;
    EhdrFits(e);
    LoadStoredFields(enc, Widths(T_EHDR), EhdrFields(e));
    FieldsInjective(DecodeEhdr(enc, EncodeEhdr(enc, e)), e);
  }

  lemma PhdrRoundTrip(enc: Encoding, p: Phdr)
    ensures DecodePhdr(enc, EncodePhdr(enc, p)) == p
  {
    hide Fit, StoreFields, LoadFields, Widths;
    PhdrFits(p);
    LoadStoredFields(enc, Widths(T_PHDR), PhdrFields(p));
    var q := DecodePhdr(enc, EncodePhdr(enc, p));
    assert forall i :: 0 <= i < 8 ==> PhdrFields(p)[i] == PhdrFields(q)[i];
  }

  lemma ShdrRoundTrip(enc: Encoding, s: Shdr)
    ensures DecodeShdr(enc, EncodeShdr(enc, s)) == s
  {
    hide Fit, StoreFields, LoadFields, Widths;
    ShdrFits(s);
    LoadStoredFields(enc, Widths(T_SHDR), ShdrFields(s));
    var t := DecodeShdr(enc, EncodeShdr(enc, s));
    assert forall i :: 0 <= i < 10 ==> ShdrFields(s)[i] == ShdrFields(t)[i];
  }

  // ---- Arrays of elements -----------------------------------------------------------------------------

  /** One element from one byte order to the other. */
  function Swap(ws: seq<nat>, from: Encoding, to: Encoding, b: seq<byte>): (r: seq<byte>)
    requires |b| == Total(ws)
    ensures |r| == |b|
  {
    StoreFields(to, ws, LoadFields(from, ws, b))
  }

  lemma SwapBack(ws: seq<nat>, from: Encoding, to: Encoding, b: seq<byte>)
    requires |b| == Total(ws)
    ensures Swap(ws, to, from, Swap(ws, from, to, b)) == b
  {
    StoreLoadedFields(from, ws, b);
    LoadStoredFields(to, ws, LoadFields(from, ws, b));
  }

  /** How many bytes of `n` belong to whole elements. */
  function Whole(size: nat, n: nat): (m: nat)
    requires size > 0
    ensures m <= n < m + size
  {
    if n < size then 0 else size + Whole(size, n - size)
  }

  /** All whole elements of `src`; a rest at the end is dropped. */
  function Xlate(ws: seq<nat>, from: Encoding, to: Encoding, src: seq<byte>): (r: seq<byte>)
    requires Total(ws) > 0
    ensures |r| == Whole(Total(ws), |src|)
    decreases |src|
  {
    var s := Total(ws);
    if |src| < s then [] else Swap(ws, from, to, src[..s]) + Xlate(ws, from, to, src[s..])
  }

  /** Translating one way and back restores all whole elements. */
  lemma {:induction false} XlateBack(ws: seq<nat>, from: Encoding, to: Encoding, src: seq<byte>)
    requires Total(ws) > 0
    ensures Xlate(ws, to, from, Xlate(ws, from, to, src)) == src[..Whole(Total(ws), |src|)]
    decreases |src|
  {
    hide Total, Swap;
    var s := Total(ws);
    if |src| >= s {
      var rest := Xlate(ws, from, to, src[s..]);
      var all := Xlate(ws, from, to, src);
      XlateBack(ws, from, to, src[s..]);
      SwapBack(ws, from, to, src[..s]);
      assert all[..s] == Swap(ws, from, to, src[..s]) && all[s..] == rest;
      assert src[..Whole(s, |src|)] == src[..s] + src[s..][..Whole(s, |src| - s)];
    }
  }

  lemma FirstElement(ws: seq<nat>, from: Encoding, to: Encoding, src: seq<byte>)
    requires 0 < Total(ws) <= |src|
    ensures var s := Total(ws);
            var all := Xlate(ws, from, to, src);
            && s <= |all|
            && all[..s] == Swap(ws, from, to, src[..s])
            && all[s..] == Xlate(ws, from, to, src[s..])
  {
    hide Total, Swap;
  }

  lemma WholeStep(s: nat, n: nat)
    requires s > 0
    ensures Whole(s, n) == if n < s then 0 else s + Whole(s, n - s)
  {
  }

  lemma {:induction false} WholeTwice(s: nat, n: nat)
    requires s > 0
    ensures Whole(s, Whole(s, n)) == Whole(s, n)
  {
    if n >= s { WholeTwice(s, n - s); }
  }

  /** Translation is local: a stretch of whole elements at an element boundary is translated by itself. */
  lemma {:induction false} XlateSlice(ws: seq<nat>, from: Encoding, to: Encoding, src: seq<byte>, o: nat, n: nat)
    requires Total(ws) > 0 && o + n <= |src|
    requires Whole(Total(ws), o) == o && Whole(Total(ws), n) == n
    ensures |Xlate(ws, from, to, src)| >= o + n
    ensures Xlate(ws, from, to, src)[o..o + n] == Xlate(ws, from, to, src[o..o + n])
    decreases o, n
  {
    hide Total, Swap, Whole, Xlate;
    var s := Total(ws);
    WholeStep(s, o);
    WholeStep(s, n);
    if o > 0 {
      FirstElement(ws, from, to, src);
      XlateSlice(ws, from, to, src[s..], o - s, n);
      SliceShift(src, s, o, n);
      SliceShift(Xlate(ws, from, to, src), s, o, n);
    } else if n > 0 {
      var part := src[o..o + n];
      FirstElement(ws, from, to, src);
      FirstElement(ws, from, to, part);
      XlateSlice(ws, from, to, src[s..], 0, n - s);
      SlicePrefix(src, s, n);
      SlicePrefix(Xlate(ws, from, to, src), s, n);
      var x, y := Xlate(ws, from, to, src)[..n], Xlate(ws, from, to, part);
      assert x[..s] == y[..s] && x[s..] == y[s..];
      assert x == x[..s] + x[s..] && y == y[..s] + y[s..];
    } else {
      assert src[o..o + n] == [];
    }
  }

  lemma SliceShift<T>(q: seq<T>, s: nat, o: nat, n: nat)
    requires s <= o && o + n <= |q|
    ensures q[s..][o - s..o - s + n] == q[o..o + n]
  {
  }

  lemma SlicePrefix<T>(q: seq<T>, s: nat, n: nat)
    requires s <= n <= |q|
    ensures q[0..n] == q[..n] && q[..n][..s] == q[..s] && q[..n][s..] == q[s..][0..n - s]
  {
  }

  /** The copy loops of the translators, into `dst` from `pos` on. */
  method Copy(ws: seq<nat>, from: Encoding, to: Encoding, dst: array<byte>, pos: nat, src: seq<byte>)
    requires Total(ws) > 0 && pos + Whole(Total(ws), |src|) <= dst.Length
    modifies dst
    ensures dst[..] == ApplyOne(old(dst[..]), Put(pos, Xlate(ws, from, to, src)))
  {
    hide Total, Swap, ApplyOne, Whole, Xlate;
    var s := Total(ws);
    var done := 0;
    ghost var all := Xlate(ws, from, to, src);
    ghost var before := dst[..];
    ApplyNothing(before, pos);
    assert src[0..] == src;
    while |src| - done >= s
      invariant 0 <= done <= |src| && done + Whole(s, |src| - done) == |all|
      invariant all[done..] == Xlate(ws, from, to, src[done..])
      invariant dst[..] == ApplyOne(before, Put(pos, all[..done]))
      decreases |src| - done
    {
      WholeStep(s, |src| - done);
      var one := Swap(ws, from, to, src[done..done + s]);
      NextElement(ws, from, to, src, all, done);
      ApplyNext(before, pos, all[..done], one);
      assert all[..done] + one == all[..done + s];
      StorePut(dst, Put(pos + done, one));
      done := done + s;
    }
    WholeStep(s, |src| - done);
    assert all[..done] == all;
  }

  lemma ApplyNothing(buf: seq<byte>, pos: nat)
    requires pos <= |buf|
    ensures ApplyOne(buf, Put(pos, [])) == buf
  {
  }

  lemma NextElement(ws: seq<nat>, from: Encoding, to: Encoding, src: seq<byte>, all: seq<byte>, done: nat)
    requires Total(ws) > 0 && done <= |all| && done + Total(ws) <= |src|
    requires all[done..] == Xlate(ws, from, to, src[done..])
    ensures var s := Total(ws);
            && done + s <= |all|
            && all[done + s..] == Xlate(ws, from, to, src[done + s..])
            && all[done..done + s] == Swap(ws, from, to, src[done..done + s])
  {
    hide Total, Swap, StoreFields;
    var s := Total(ws);
    var rest := src[done..];
    assert rest[..s] == src[done..done + s] && rest[s..] == src[done + s..];
    var tail := all[done..];
    assert tail[..s] == Swap(ws, from, to, rest[..s]) && tail[s..] == Xlate(ws, from, to, rest[s..]);
    assert tail[..s] == all[done..done + s] && tail[s..] == all[done + s..];
  }

  lemma ApplyNext(buf: seq<byte>, pos: nat, a: seq<byte>, b: seq<byte>)
    requires pos + |a| + |b| <= |buf|
    ensures ApplyOne(ApplyOne(buf, Put(pos, a)), Put(pos + |a|, b)) == ApplyOne(buf, Put(pos, a + b))
  {
  }
}
