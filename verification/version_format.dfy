/** Which bytes of a section of version records decide how its chains are followed, and where each of
    its bytes goes: libelf/verdef.h and libelf/verneed.h without their record shapes. */
module VersionFormat {
  import opened Words
  import opened Codec
  import opened Records
  import opened Mirrors
  import opened Versions
  import opened FileFormat
  import ElementBytes

  // ---- The traversal, from the bytes --------------------------------------------------------------------------

  /** Verdaux records: 8 bytes, with the link to the next one at 4. */
  function DefItems(l: bool, b: seq<byte>, off: nat, count: nat): Walk
    decreases count
  {
    if count == 0 || off + 8 > |b| then Walk([], true)
    else if off % 4 != 0 then Walk([], false)
    else if U32(l, b, off + 4) == 0 then Walk([Item(off)], true)
    else
      var rest := DefItems(l, b, off + U32(l, b, off + 4), count - 1);
      Walk([Item(off)] + rest.visits, rest.ok)
  }

  /** Verdef records: 20 bytes, with the version at 0, the number of verdaux records at 6, the links to
      the first of them at 12 and to the next verdef at 16. */
  function Defs(l: bool, b: seq<byte>, off: nat): Walk
    decreases |b| - off
  {
    if off + 20 > |b| then Walk([], true)
    else if off % 4 != 0 then Walk([], false)
    else if U16(l, b, off) != 1 || U16(l, b, off + 6) == 0 || U32(l, b, off + 12) == 0 then Walk([], false)
    else Linked(off, DefItems(l, b, off + U32(l, b, off + 12), U16(l, b, off + 6)),
                var next := U32(l, b, off + 16);
                if next == 0 || |b| < off + next then Walk([], true) else Defs(l, b, off + next))
  }

  /** Vernaux records: 16 bytes, with the link to the next one at 12. */
  function NeedItems(l: bool, b: seq<byte>, off: nat, count: nat): Walk
    decreases count
  {
    if count == 0 || off + 16 > |b| then Walk([], true)
    else if off % 4 != 0 then Walk([], false)
    else if U32(l, b, off + 12) == 0 then Walk([Item(off)], true)
    else
      var rest := NeedItems(l, b, off + U32(l, b, off + 12), count - 1);
      Walk([Item(off)] + rest.visits, rest.ok)
  }

  /** Verneed records: 16 bytes, with the version at 0, the number of vernaux records at 2, the links to
      the first of them at 8 and to the next verneed at 12. */
  function Needs(l: bool, b: seq<byte>, off: nat): Walk
    decreases |b| - off
  {
    if off + 16 > |b| then Walk([], true)
    else if off % 4 != 0 then Walk([], false)
    else if U16(l, b, off) != 1 || U16(l, b, off + 2) == 0 || U32(l, b, off + 8) == 0 then Walk([], false)
    else Linked(off, NeedItems(l, b, off + U32(l, b, off + 8), U16(l, b, off + 2)),
                var next := U32(l, b, off + 12);
                if next == 0 || |b| < off + next then Walk([], true) else Needs(l, b, off + next))
  }

  /** A head, its items, and the records that follow. */
  function Linked(off: nat, items: Walk, rest: Walk): Walk {
    if !items.ok then Walk([Head(off)] + items.visits, false)
    else Walk([Head(off)] + items.visits + rest.visits, rest.ok)
  }

  // ---- The shapes are these ------------------------------------------------------------------------------------

  lemma Shapes()
    ensures VERDEF.head == Repeat(4, 2) + Repeat(3, 4) && VERDEF.item == Repeat(2, 4)
    ensures VERNEED.head == Repeat(2, 2) + Repeat(3, 4) && VERNEED.item == Repeat(1, 4) + (Repeat(2, 2) + Repeat(2, 4))
    ensures Total(VERDEF.head) == 20 && Total(VERDEF.item) == 8 && Total(VERNEED.head) == 16 && Total(VERNEED.item) == 16
    ensures Total(Repeat(4, 2)) == 8 && Total(Repeat(3, 4)) == 12 && Total(Repeat(2, 4)) == 8
    ensures Total(Repeat(2, 2)) == 4 && Total(Repeat(1, 4)) == 4 && Total(Repeat(2, 2) + Repeat(2, 4)) == 12
  {
    RecordSizes();
    hide Total;
    TotalRepeat(4, 2);
    TotalRepeat(3, 4);
    TotalRepeat(2, 4);
    TotalRepeat(2, 2);
    TotalRepeat(1, 4);
    TotalConcat(Repeat(2, 2), Repeat(2, 4));
  }

  lemma DefFields(enc: Encoding, b: seq<byte>, off: nat)
    requires VERDEF.Ok()
    ensures Size(VERDEF, Head(off)) == 20 && Size(VERDEF, Item(off)) == 8
    ensures off + 20 <= |b| ==>
              var vs := FieldsAt(VERDEF, enc, b, Head(off));
              && vs[0] == U16(enc == Lsb, b, off) && vs[3] == U16(enc == Lsb, b, off + 6)
              && vs[5] == U32(enc == Lsb, b, off + 12) && vs[6] == U32(enc == Lsb, b, off + 16)
    ensures off + 8 <= |b| ==> FieldsAt(VERDEF, enc, b, Item(off))[1] == U32(enc == Lsb, b, off + 4)
  {
    Shapes();
    hide LoadFields, Total, U16, U32;
    var l := enc == Lsb;
    if off + 20 <= |b| {
      var c := b[off..off + 20];
      FieldsConcat(enc, Repeat(4, 2), Repeat(3, 4), c);
      HalfField(enc, 4, c[..8], 0);
      HalfField(enc, 4, c[..8], 3);
      WordField(enc, 3, c[8..], 1);
      WordField(enc, 3, c[8..], 2);
      assert c[..8] == b[off..off + 8] && c[8..] == b[off + 8..off + 20];
      SameNumbers(l, b, off, off + 8, 0);
      SameNumbers(l, b, off, off + 8, 6);
      SameNumbers(l, b, off + 8, off + 20, 4);
      SameNumbers(l, b, off + 8, off + 20, 8);
    }
    if off + 8 <= |b| {
      WordField(enc, 2, b[off..off + 8], 1);
      SameNumbers(l, b, off, off + 8, 4);
    }
  }

  lemma NeedFields(enc: Encoding, b: seq<byte>, off: nat)
    requires VERNEED.Ok()
    ensures Size(VERNEED, Head(off)) == 16 && Size(VERNEED, Item(off)) == 16
    ensures off + 16 <= |b| ==>
              var vs := FieldsAt(VERNEED, enc, b, Head(off));
              && vs[0] == U16(enc == Lsb, b, off) && vs[1] == U16(enc == Lsb, b, off + 2)
              && vs[3] == U32(enc == Lsb, b, off + 8) && vs[4] == U32(enc == Lsb, b, off + 12)
              && FieldsAt(VERNEED, enc, b, Item(off))[4] == U32(enc == Lsb, b, off + 12)
  {
    Shapes();
    hide LoadFields, Total, U16, U32;
    var l := enc == Lsb;
    if off + 16 <= |b| {
      var c := b[off..off + 16];
      FieldsConcat(enc, Repeat(2, 2), Repeat(3, 4), c);
      HalfField(enc, 2, c[..4], 0);
      HalfField(enc, 2, c[..4], 1);
      WordField(enc, 3, c[4..], 1);
      WordField(enc, 3, c[4..], 2);
      FieldsConcat(enc, Repeat(1, 4), Repeat(2, 2) + Repeat(2, 4), c);
      FieldsConcat(enc, Repeat(2, 2), Repeat(2, 4), c[4..]);
      WordField(enc, 2, c[4..][4..], 1);
      assert c[..4] == b[off..off + 4] && c[4..] == b[off + 4..off + 16] && c[4..][4..] == b[off + 8..off + 16];
      SameNumbers(l, b, off, off + 4, 0);
      SameNumbers(l, b, off, off + 4, 2);
      SameNumbers(l, b, off + 4, off + 16, 4);
      SameNumbers(l, b, off + 4, off + 16, 8);
      SameNumbers(l, b, off + 8, off + 16, 4);
    }
  }

  lemma {:induction false} DefItemWalk(enc: Encoding, b: seq<byte>, off: nat, count: nat)
    requires VERDEF.Ok()
    ensures ItemWalk(VERDEF, enc, b, off, count) == DefItems(enc == Lsb, b, off, count)
    decreases count
  {
    hide FieldsAt, Size, U32;
    DefFields(enc, b, off);
    if count > 0 && off + 8 <= |b| {
      DefItemWalk(enc, b, off + U32(enc == Lsb, b, off + 4), count - 1);
    }
  }

  lemma {:induction false} NeedItemWalk(enc: Encoding, b: seq<byte>, off: nat, count: nat)
    requires VERNEED.Ok()
    ensures ItemWalk(VERNEED, enc, b, off, count) == NeedItems(enc == Lsb, b, off, count)
    decreases count
  {
    hide FieldsAt, Size, U32;
    NeedFields(enc, b, off);
    if count > 0 && off + 16 <= |b| {
      NeedItemWalk(enc, b, off + U32(enc == Lsb, b, off + 12), count - 1);
    }
  }

  lemma NothingMore(w: Walk)
    ensures w.visits + Walk([], true).visits == w.visits
  {
  }

  /** Definitions are followed as their bytes say. */
  lemma {:induction false} DefWalk(enc: Encoding, b: seq<byte>, off: nat)
    requires VERDEF.Ok()
    ensures FullWalk(VERDEF, enc, b, off) == Defs(enc == Lsb, b, off)
    decreases |b| - off
  {
    hide FieldsAt, Size, ItemWalk, DefItems, U16, U32;
    var l := enc == Lsb;
    DefFields(enc, b, off);
    if off + 20 <= |b| {
      var items, next := DefItems(l, b, off + U32(l, b, off + 12), U16(l, b, off + 6)), U32(l, b, off + 16);
      DefItemWalk(enc, b, off + U32(l, b, off + 12), U16(l, b, off + 6));
      NothingMore(Walk([Head(off)] + items.visits, true));
      if next != 0 && off + next <= |b| {
        DefWalk(enc, b, off + next);
      }
    }
  }

  /** So are needed versions. */
  lemma {:induction false} NeedWalk(enc: Encoding, b: seq<byte>, off: nat)
    requires VERNEED.Ok()
    ensures FullWalk(VERNEED, enc, b, off) == Needs(enc == Lsb, b, off)
    decreases |b| - off
  {
    hide FieldsAt, Size, ItemWalk, NeedItems, U16, U32;
    var l := enc == Lsb;
    NeedFields(enc, b, off);
    if off + 16 <= |b| {
      var items, next := NeedItems(l, b, off + U32(l, b, off + 8), U16(l, b, off + 2)), U32(l, b, off + 12);
      NeedItemWalk(enc, b, off + U32(l, b, off + 8), U16(l, b, off + 2));
      NothingMore(Walk([Head(off)] + items.visits, true));
      if next != 0 && off + next <= |b| {
        NeedWalk(enc, b, off + next);
      }
    }
  }

  // ---- The bytes of a record -------------------------------------------------------------------------------------

  /** In the other byte order byte `j` of a record is this one: the records begin with four halves, two
      halves, words only, and one word and two halves; all the rest is words. */
  function RecordFrom(need: bool, v: Visit, j: nat): nat {
    var halves := if v.Head? then j < (if need then 4 else 8) else need && 4 <= j < 8;
    ElementBytes.Turn(if halves then 2 else 4, j)
  }

  lemma RecordPlace(need: bool, v: Visit, j: nat)
    requires var f := if need then VERNEED else VERDEF; j < Total(Versions.Widths(f, v))
    ensures var f := if need then VERNEED else VERDEF;
            PlaceIn(Versions.Widths(f, v), false, j) == RecordFrom(need, v, j)
  {
    Shapes();
    hide Total, PlaceIn, ElementBytes.Turn;
    if v.Head? {
      var n: nat := if need then 2 else 4;
      ElementBytes.PlaceConcat(Repeat(n, 2), Repeat(3, 4), j);
      if j < 2 * n {
        ElementBytes.RepeatPlace(n, 2, j);
      } else {
        ElementBytes.RepeatPlace(3, 4, j - 2 * n);
        ElementBytes.TurnShift(4, n / 2, j - 2 * n);
      }
    } else if need {
      ElementBytes.PlaceConcat(Repeat(1, 4), Repeat(2, 2) + Repeat(2, 4), j);
      if j < 4 {
        ElementBytes.RepeatPlace(1, 4, j);
      } else {
        ElementBytes.PlaceConcat(Repeat(2, 2), Repeat(2, 4), j - 4);
        if j < 8 {
          ElementBytes.RepeatPlace(2, 2, j - 4);
          ElementBytes.TurnShift(2, 2, j - 4);
        } else {
          ElementBytes.RepeatPlace(2, 4, j - 8);
          ElementBytes.TurnShift(4, 2, j - 8);
        }
      }
    } else {
      ElementBytes.RepeatPlace(2, 4, j);
    }
  }

  lemma RecordLengths(need: bool, v: Visit)
    ensures VERDEF.Ok() && VERNEED.Ok() && Total(VERDEF.head) > 0 && Total(VERNEED.head) > 0
    ensures Size(if need then VERNEED else VERDEF, v) == if need then 16 else if v.Head? then 20 else 8
  {
    Shapes();
    RecordSizes();
    hide Total;
  }

  lemma RecordByte(need: bool, from: Encoding, to: Encoding, src: seq<byte>, v: Visit, i: nat)
    requires var n := if need then 16 else if v.Head? then 20 else 8; v.off + n <= |src| && i < n
    ensures VERDEF.Ok() && VERNEED.Ok()
    ensures var f := if need then VERNEED else VERDEF;
            && v.off + Size(f, v) <= |src| && i < |Translated(f, from, to, src, v).bytes|
            && var p := if from == to then i else RecordFrom(need, v, i);
               v.off + p < |src| && Translated(f, from, to, src, v).bytes[i] == src[v.off + p]
  {
    RecordLengths(need, v);
    hide Total, StoreFields, LoadFields, PlaceIn, RecordFrom;
    var f := if need then VERNEED else VERDEF;
    var c := src[v.off..v.off + Size(f, v)];
    SwapAt(Versions.Widths(f, v), from, to, c, i);
    if from == to {
      SameInPlace(Versions.Widths(f, v), i);
    } else {
      RecordPlace(need, v, i);
    }
  }

  /** Every byte that a pass stores for a record that it visits. */
  lemma PassedByte(need: bool, f: Shape, from: Encoding, to: Encoding, src: seq<byte>, dst: seq<byte>, k: nat, i: nat)
    requires f == (if need then VERNEED else VERDEF) && f.Ok() && Total(f.head) > 0 && |src| == |dst|
    requires var visits := FullWalk(f, from, src, 0).visits;
             k < |visits| && Proper(f, visits) && i < if need then 16 else if visits[k].Head? then 20 else 8
    ensures var v := FullWalk(f, from, src, 0).visits[k];
            var p := if from == to then i else RecordFrom(need, v, i);
            && v.off + i < |dst| && v.off + p < |src|
            && Pass(f, from, to, src, dst)[v.off + i] == src[v.off + p]
  {
    hide Total, Proper, FullWalk, Pass, RecordFrom, Translated, Size;
    var v := FullWalk(f, from, src, 0).visits[k];
    RecordLengths(need, v);
    PassStoresFields(f, from, to, src, dst, k);
    RecordByte(need, from, to, src, v, i);
    SliceAt(Pass(f, from, to, src, dst), v.off, Size(f, v), i);
  }

  lemma SliceAt<T>(q: seq<T>, o: nat, n: nat, i: nat)
    requires o + n <= |q| && i < n
    ensures q[o..o + n][i] == q[o + i]
  {
  }

  // ---- A needed version ---------------------------------------------------------------------------------------------

  /** One verneed record with one vernaux record right behind it. */
  const NEEDED_LSB: seq<byte> := [1, 0, 1, 0, 0, 0, 0, 0, 16, 0, 0, 0, 0, 0, 0, 0,
                                  0, 0, 0, 0, 0, 0, 0, 0, 0, 0, 0, 0, 0, 0, 0, 0]

  const NEEDED_MSB: seq<byte> := [0, 1, 0, 1, 0, 0, 0, 0, 0, 0, 0, 16, 0, 0, 0, 0,
                                  0, 0, 0, 0, 0, 0, 0, 0, 0, 0, 0, 0, 0, 0, 0, 0]

  lemma NeededLsb()
    ensures var b := NEEDED_LSB;
            && |b| == 32 && U16(true, b, 0) == 1 && U16(true, b, 2) == 1 && U32(true, b, 8) == 16
            && U32(true, b, 12) == 0 && U32(true, b, 28) == 0
  {
  }

  lemma NeededMsb()
    ensures var b := NEEDED_MSB;
            && |b| == 32 && U16(false, b, 0) == 1 && U16(false, b, 2) == 1 && U32(false, b, 8) == 16
            && U32(false, b, 12) == 0 && U32(false, b, 28) == 0
  {
  }

  /** It is accepted, and both records are visited. */
  lemma NeededIsRead(enc: Encoding)
    ensures VERNEED.Ok()
    ensures FullWalk(VERNEED, enc, if enc == Lsb then NEEDED_LSB else NEEDED_MSB, 0) == Walk([Head(0), Item(16)], true)
  {
    RecordLengths(true, Head(0));
    hide FullWalk, Total, Needs, U16, U32;
    var b := if enc == Lsb then NEEDED_LSB else NEEDED_MSB;
    if enc == Lsb { NeededLsb(); } else { NeededMsb(); }
    NeedWalk(enc, b, 0);
    OneNeeded(enc == Lsb, b);
  }

  lemma OneNeeded(l: bool, b: seq<byte>)
    requires |b| == 32 && U16(l, b, 0) == 1 && U16(l, b, 2) == 1 && U32(l, b, 8) == 16 && U32(l, b, 12) == 0 && U32(l, b, 28) == 0
    ensures Needs(l, b, 0) == Walk([Head(0), Item(16)], true)
  {
    hide U16, U32;
    assert NeedItems(l, b, 16, 1) == Walk([Item(16)], true);
  }
}
