/** Which byte of an element each byte of its translation is, for every type: the translators of
    libelf/32.xlatetof.c without their field tables. */
module ElementBytes {
  import opened Words
  import opened Codec
  import opened Records
  import opened Mirrors
  import opened Layout
  import opened Pieces

  /** Byte `i` of numbers of `w` bytes each, from the other end of its number. */
  function Turn(w: nat, i: nat): nat
    requires w > 0
  {
    i / w * w + (w - 1 - i % w)
  }

  /** The length of an element of type BYTE, ADDR, DYN, EHDR, HALF, OFF, PHDR, RELA, REL, SHDR,
      SWORD, SYM or WORD. */
  function Len(t: nat): nat
    requires t <= 12
  {
    [1, 4, 8, 52, 2, 4, 32, 12, 8, 40, 4, 16, 4][t]
  }

  /** In the other byte order byte `j` of an element of type `t` is this one: halves in a HALF and in
      the ELF header around its words, bytes in its identification and in the middle of a symbol, the
      last half of a symbol, and words everywhere else. */
  function FromIn(t: nat, j: nat): nat {
    if t == 0 then j
    else if t == 4 then Turn(2, j)
    else if t == 11 then if j < 12 then Turn(4, j) else if j < 14 then j else if j == 14 then 15 else 14
    else if t == 3 then if j < 16 then j else if 20 <= j < 40 then Turn(4, j) else Turn(2, j)
    else Turn(4, j)
  }

  function From(t: nat, i: nat): int
    requires t <= 12
  {
    LensPositive(t);
    i - i % Len(t) + FromIn(t, i % Len(t))
  }

  lemma LensPositive(t: nat)
    requires t <= 12
    ensures Len(t) > 0 && Len(t) == ElementSize(t)
  {
  }

  // ---- Where the field tables lead ------------------------------------------------------------------------------

  lemma TurnFirst(w: nat, i: nat)
    requires i < w
    ensures Turn(w, i) == w - 1 - i
  {
    Quotient(i, w, 0, i);
  }

  lemma TurnShift(w: nat, a: nat, i: nat)
    requires w > 0
    ensures Turn(w, a * w + i) == a * w + Turn(w, i)
  {
    var q, r := i / w, i % w;
    assert i == q * w + r;
    assert a * w + i == (a + q) * w + r;
    Quotient(a * w + i, w, a + q, r);
  }

  lemma {:induction false} RepeatPlace(n: nat, w: nat, i: nat)
    requires w > 0 && i < n * w == Total(Repeat(n, w))
    ensures PlaceIn(Repeat(n, w), false, i) == Turn(w, i)
  {
    hide Total, Turn;
    TotalRepeat(n, w);
    assert n > 0;
    assert Repeat(n, w)[1..] == Repeat(n - 1, w);
    PlaceInFirst(Repeat(n, w), i);
    if i < w {
      TurnFirst(w, i);
    } else {
      OneLess(n, w);
      TotalRepeat(n - 1, w);
      RepeatPlace(n - 1, w, i - w);
      TurnShift(w, 1, i - w);
    }
  }

  lemma OneLess(n: nat, w: nat)
    requires n > 0
    ensures (n - 1) * w == n * w - w
  {
  }

  lemma PlaceInFirst(ws: seq<nat>, i: nat)
    requires i < Total(ws)
    ensures ws != []
    ensures if i < ws[0] then PlaceIn(ws, false, i) == ws[0] - 1 - i
            else i - ws[0] < Total(ws[1..]) && PlaceIn(ws, false, i) == ws[0] + PlaceIn(ws[1..], false, i - ws[0])
  {
  }

  lemma {:induction false} PlaceConcat(u: seq<nat>, v: seq<nat>, i: nat)
    requires i < Total(u + v) == Total(u) + Total(v)
    ensures PlaceIn(u + v, false, i) == if i < Total(u) then PlaceIn(u, false, i) else Total(u) + PlaceIn(v, false, i - Total(u))
  {
    if u == [] {
      assert u + v == v;
    } else {
      assert (u + v)[1..] == u[1..] + v;
      TotalConcat(u[1..], v);
      if i >= u[0] {
        PlaceConcat(u[1..], v, i - u[0]);
      }
    }
  }

  lemma SymPlace(j: nat)
    requires j < 16 == Total([4, 4, 4, 1, 1, 2])
    ensures PlaceIn([4, 4, 4, 1, 1, 2], false, j) == FromIn(11, j)
  {
    hide Total, PlaceIn;
    TotalRepeat(3, 4);
    TotalRepeat(2, 1);
    TotalRepeat(1, 2);
    var u, v, w := Repeat(3, 4), Repeat(2, 1), Repeat(1, 2);
    TotalConcat(u, v + w);
    TotalConcat(v, w);
    assert [4, 4, 4, 1, 1, 2] == u + (v + w);
    PlaceConcat(u, v + w, j);
    if j < 12 {
      RepeatPlace(3, 4, j);
    } else {
      PlaceConcat(v, w, j - 12);
      if j < 14 { RepeatPlace(2, 1, j - 12); } else { RepeatPlace(1, 2, j - 14); }
    }
  }

  lemma EhdrPlace(j: nat)
    requires j < 52 == Total(Repeat(16, 1) + EHDR_TAIL)
    ensures PlaceIn(Repeat(16, 1) + EHDR_TAIL, false, j) == FromIn(3, j)
  {
    hide Total, PlaceIn, Turn;
    TotalRepeat(16, 1);
    TotalRepeat(2, 2);
    TotalRepeat(5, 4);
    TotalRepeat(6, 2);
    var u, v, w, x := Repeat(16, 1), Repeat(2, 2), Repeat(5, 4), Repeat(6, 2);
    assert EHDR_TAIL == v + (w + x);
    TotalConcat(w, x);
    TotalConcat(v, w + x);
    TotalConcat(u, EHDR_TAIL);
    PlaceConcat(u, EHDR_TAIL, j);
    if j < 16 {
      RepeatPlace(16, 1, j);
      TurnOne(j);
    } else {
      PlaceConcat(v, w + x, j - 16);
      if j < 20 {
        RepeatPlace(2, 2, j - 16);
        TurnShift(2, 8, j - 16);
      } else {
        PlaceConcat(w, x, j - 20);
        if j < 40 {
          RepeatPlace(5, 4, j - 20);
          TurnShift(4, 5, j - 20);
        } else {
          RepeatPlace(6, 2, j - 40);
          TurnShift(2, 20, j - 40);
        }
      }
    }
  }

  lemma TurnOne(j: nat)
    ensures Turn(1, j) == j
  {
  }

  lemma ShortTables()
    ensures Widths(0) == Repeat(1, 1) && Widths(1) == Repeat(1, 4) && Widths(2) == Repeat(2, 4) && Widths(4) == Repeat(1, 2)
    ensures Widths(5) == Repeat(1, 4) && Widths(6) == Repeat(8, 4) && Widths(7) == Repeat(3, 4) && Widths(8) == Repeat(2, 4)
    ensures Widths(9) == Repeat(10, 4) && Widths(10) == Repeat(1, 4) && Widths(12) == Repeat(1, 4)
  {
  }

  lemma ElementPlace(t: nat, j: nat)
    requires t <= 12 && j < Len(t)
    ensures Total(Widths(t)) == Len(t) && PlaceIn(Widths(t), false, j) == FromIn(t, j)
  {
    hide Total, PlaceIn, Turn;
    LensPositive(t);
    ElementSizes(t);
    if t == 3 {
      TotalEhdr();
      EhdrPlace(j);
    } else if t == 11 {
      TotalSym();
      SymPlace(j);
    } else {
      ShortTables();
      RepeatPlace(|Widths(t)|, Widths(t)[0], j);
      if t == 0 { TurnOne(j); }
    }
  }

  lemma {:induction false} PlaceElements(ws: seq<nat>, i: nat)
    requires Total(ws) > 0
    ensures Place(ws, false, i) == i - i % Total(ws) + PlaceIn(ws, false, i % Total(ws))
  {
    hide Total, PlaceIn;
    var s := Total(ws);
    if i < s {
      Quotient(i, s, 0, i);
    } else {
      PlaceElements(ws, i - s);
      ModNext(i - s, s);
    }
  }

  lemma {:induction false} WholeIs(s: nat, n: nat)
    requires s > 0
    ensures Whole(s, n) == n - n % s
  {
    if n >= s {
      WholeIs(s, n - s);
      ModNext(n - s, s);
    } else {
      Quotient(n, s, 0, n);
    }
  }

  /** Translating an array of elements of type `t`: whole elements only, each byte from its place. */
  lemma TranslatedBytes(t: nat, from: Encoding, to: Encoding, b: seq<byte>)
    requires t <= 12
    ensures Len(t) > 0 && Total(Widths(t)) == Len(t)
    ensures var r := Xlate(Widths(t), from, to, b);
            && |r| == |b| - |b| % Len(t)
            && forall i :: 0 <= i < |r| ==> 0 <= From(t, i) < |b| && r[i] == b[if from == to then i else From(t, i)]
  {
    hide Total, PlaceIn, Turn, Place, Xlate, Widths, FromIn, Len;
    LensPositive(t);
    ElementSizes(t);
    WholeIs(Len(t), |b|);
    var r := Xlate(Widths(t), from, to, b);
    forall i | 0 <= i < |r| ensures 0 <= From(t, i) < |b| && r[i] == b[if from == to then i else From(t, i)] {
      XlateAt(Widths(t), from, to, b, i);
      PlaceElements(Widths(t), i);
      ElementPlace(t, i % Len(t));
      WholeTwice(Len(t), |b|);
      PlaceInside(Widths(t), false, i, Whole(Len(t), |b|));
      if from == to { SamePlace(Widths(t), i); }
    }
  }

  /** The space that a buffer takes in the file. */
  lemma FileSizeIs(stype: u32, b: Buf)
    ensures FileSize(stype, b) ==
            if b.version != 1 then None
            else if b.size == 0 || stype == 8 || b.dtype == 15 || b.dtype == 16 || b.dtype > 16 then Some(b.size)
            else if b.dtype == 13 || b.dtype == 14 then None
            else Some(b.size - b.size % Len(b.dtype))
  {
    hide Whole;
    if b.dtype <= 12 {
      LensPositive(b.dtype);
      WholeIs(Len(b.dtype), b.size);
    }
  }

  /** What is written of a buffer of fixed-size elements; a type that is not known is bytes. */
  lemma BufferBytes(host: Encoding, enc: Encoding, b: Buf)
    requires BufOk(host, b) && b.size > 0 && b.dtype != 15 && b.dtype != 16
    ensures var t := if b.dtype <= 12 then b.dtype else 0;
            var body := BufBody(host, enc, b);
            && (b.dtype <= 12 || b.dtype >= 17) && body.Plain? && b.mem.Some? && |b.mem.value| == b.size
            && |body.bytes| == b.size - b.size % Len(t)
            && forall i :: 0 <= i < |body.bytes| ==>
                 0 <= From(t, i) < b.size && body.bytes[i] == b.mem.value[if host == enc then i else From(t, i)]
  {
    hide Total, Xlate, Widths, From, Len;
    TranslatedBytes(FileType(b.dtype), host, enc, b.mem.value);
  }
}
