/** Symbol-version sections: the chained records that libelf/verdef.h and libelf/verneed.h
    translate between memory and file order. The two headers differ only in their record shapes. */
module Versions {
  import opened Words
  import opened Codec
  import opened Puts

  /** Field widths of the two records of a format, and which field is which. */
  datatype Shape = Shape(head: seq<nat>, version: nat, cnt: nat, aux: nat, next: nat, item: seq<nat>, itemNext: nat) {
    predicate Ok() {
      && version < |head| && cnt < |head| && aux < |head| && next < |head| && itemNext < |item|
    }
  }

  const VERDEF := Shape([2, 2, 2, 2, 4, 4, 4], 0, 3, 5, 6, [4, 4], 1)
  const VERNEED := Shape([2, 2, 4, 4, 4], 0, 1, 3, 4, [4, 2, 2, 4, 4], 4)

  lemma RecordSizes()
    ensures VERDEF.Ok() && Total(VERDEF.head) == 20 && Total(VERDEF.item) == 8
    ensures VERNEED.Ok() && Total(VERNEED.head) == 16 && Total(VERNEED.item) == 16
  {
    assert VERDEF.head[1..][1..][1..][1..] == [4, 4, 4];
    assert Total([4, 4, 4]) == 12;
    assert VERDEF.head[1..][1..] == [2, 2, 4, 4, 4];
    assert Total([2, 2, 4, 4, 4]) == 16;
    assert VERNEED.item[1..] == [2, 2, 4, 4];
    assert Total([2, 2, 4, 4]) == 12;
  }

  /** A visited record: a head or one of its items. */
  datatype Visit = Head(off: nat) | Item(off: nat)

  function Widths(f: Shape, v: Visit): seq<nat> { if v.Head? then f.head else f.item }

  function Size(f: Shape, v: Visit): nat { Total(Widths(f, v)) }

  function FieldsAt(f: Shape, enc: Encoding, src: seq<byte>, v: Visit): (vs: seq<nat>)
    requires v.off + Size(f, v) <= |src|
    ensures |vs| == |Widths(f, v)|
  {
    LoadFields(enc, Widths(f, v), src[v.off..v.off + Size(f, v)])
  }

  // ---- The traversal ----------------------------------------------------------------------------------

  /** What a pass visits, in order, and whether it ends without a format error. */
  datatype Walk = Walk(visits: seq<Visit>, ok: bool)

  function ItemWalk(f: Shape, enc: Encoding, src: seq<byte>, off: nat, count: nat): Walk
    requires f.Ok()
    decreases count
  {
    if count == 0 || off + Size(f, Item(off)) > |src| then Walk([], true)
    else if off % 4 != 0 then Walk([], false)
    else
      var next := FieldsAt(f, enc, src, Item(off))[f.itemNext];
      if next == 0 then Walk([Item(off)], true)
      else
        var rest := ItemWalk(f, enc, src, off + next, count - 1);
        Walk([Item(off)] + rest.visits, rest.ok)
  }

  function FullWalk(f: Shape, enc: Encoding, src: seq<byte>, off: nat): Walk
    requires f.Ok()
    decreases |src| - off
  {
    if off + Size(f, Head(off)) > |src| then Walk([], true)
    else if off % 4 != 0 then Walk([], false)
    else
      var vs := FieldsAt(f, enc, src, Head(off));
      if vs[f.version] != 1 || vs[f.cnt] < 1 || vs[f.aux] == 0 then Walk([], false)
      else
        var items := ItemWalk(f, enc, src, off + vs[f.aux], vs[f.cnt]);
        var here := [Head(off)] + items.visits;
        if !items.ok then Walk(here, false)
        else if vs[f.next] == 0 || |src| < off + vs[f.next] then Walk(here, true)
        else
          var rest := FullWalk(f, enc, src, off + vs[f.next]);
          Walk(here + rest.visits, rest.ok)
  }

  // ---- Offsets in a size_t -----------------------------------------------------------------------------

  /** `size_t` has 64 or 32 bits. */
  function Modulus(wide: bool): (w: nat)
    ensures w > 0
  {
    if wide then 0x1_0000_0000_0000_0000 else 0x1_0000_0000
  }

  /** The bounds test at an offset that is computed to be `x` gives the right answer although the
      offset, and then its sum with the record size, may wrap around. */
  predicate Seen(wide: bool, n: nat, x: nat, size: nat) {
    (x % Modulus(wide) + size) % Modulus(wide) <= n <==> x + size <= n
  }

  /** So it is at every item of the chain from `off`. */
  predicate ItemsSteady(wide: bool, f: Shape, enc: Encoding, src: seq<byte>, off: nat, count: nat)
    requires f.Ok()
    decreases count
  {
    count == 0 ||
    (&& Seen(wide, |src|, off, Size(f, Item(off)))
     && (off + Size(f, Item(off)) <= |src| && off % 4 == 0 ==>
           var next := FieldsAt(f, enc, src, Item(off))[f.itemNext];
           next == 0 || ItemsSteady(wide, f, enc, src, off + next, count - 1)))
  }

  /** And at every record from the head at `off` on. */
  predicate WalkSteady(wide: bool, f: Shape, enc: Encoding, src: seq<byte>, off: nat)
    requires f.Ok()
    decreases |src| - off
  {
    && Seen(wide, |src|, off, Size(f, Head(off)))
    && (off + Size(f, Head(off)) <= |src| && off % 4 == 0 ==>
          var vs := FieldsAt(f, enc, src, Head(off));
          vs[f.version] == 1 && vs[f.cnt] >= 1 && vs[f.aux] != 0 ==>
            && ItemsSteady(wide, f, enc, src, off + vs[f.aux], vs[f.cnt])
            && (ItemWalk(f, enc, src, off + vs[f.aux], vs[f.cnt]).ok && vs[f.next] != 0 ==>
                  if off + vs[f.next] <= |src| then WalkSteady(wide, f, enc, src, off + vs[f.next])
                  else Seen(wide, |src|, off + vs[f.next], Size(f, Head(off + vs[f.next])))))
  }

  /** Every visited record lies in the buffer. */
  ghost predicate Inside(f: Shape, n: nat, visits: seq<Visit>) {
    forall k :: 0 <= k < |visits| ==> visits[k].off + Size(f, visits[k]) <= n
  }

  lemma InsideConcat(f: Shape, n: nat, a: seq<Visit>, b: seq<Visit>)
    ensures Inside(f, n, a + b) <==> Inside(f, n, a) && Inside(f, n, b)
  {
    hide Size;
    if Inside(f, n, a + b) {
      assert forall k :: 0 <= k < |a| ==> a[k] == (a + b)[k];
      assert forall k :: 0 <= k < |b| ==> b[k] == (a + b)[|a| + k];
    }
  }

  lemma InsideOne(f: Shape, n: nat, v: Visit)
    ensures Inside(f, n, [v]) <==> v.off + Size(f, v) <= n
    ensures Inside(f, n, [])
  {
    hide Size;
    if Inside(f, n, [v]) { assert [v][0] == v; }
  }

  lemma {:induction false} ItemsInside(f: Shape, enc: Encoding, src: seq<byte>, off: nat, count: nat)
    requires f.Ok()
    ensures Inside(f, |src|, ItemWalk(f, enc, src, off, count).visits)
    decreases count
  {
    hide Inside, FieldsAt, Size;
    InsideOne(f, |src|, Item(off));
    if count > 0 && off + Size(f, Item(off)) <= |src| && off % 4 == 0 {
      var next := FieldsAt(f, enc, src, Item(off))[f.itemNext];
      if next != 0 {
        ItemsInside(f, enc, src, off + next, count - 1);
        InsideConcat(f, |src|, [Item(off)], ItemWalk(f, enc, src, off + next, count - 1).visits);
      }
    }
  }

  /** For any buffer, a pass touches only bytes inside it. */
  lemma {:induction false} WalkInside(f: Shape, enc: Encoding, src: seq<byte>, off: nat)
    requires f.Ok() && Total(f.head) > 0
    ensures Inside(f, |src|, FullWalk(f, enc, src, off).visits)
    decreases |src| - off
  {
    hide Inside, FieldsAt, Size, ItemWalk;
    InsideOne(f, |src|, Head(off));
    if off + Size(f, Head(off)) <= |src| && off % 4 == 0 {
      var vs := FieldsAt(f, enc, src, Head(off));
      var items := ItemWalk(f, enc, src, off + vs[f.aux], vs[f.cnt]);
      ItemsInside(f, enc, src, off + vs[f.aux], vs[f.cnt]);
      InsideConcat(f, |src|, [Head(off)], items.visits);
      if vs[f.next] != 0 && off + vs[f.next] <= |src| {
        WalkInside(f, enc, src, off + vs[f.next]);
        InsideConcat(f, |src|, [Head(off)] + items.visits, FullWalk(f, enc, src, off + vs[f.next]).visits);
      }
    }
  }

  // ---- The translation --------------------------------------------------------------------------------

  /** The bytes a pass stores for one record. */
  function Translated(f: Shape, from: Encoding, to: Encoding, src: seq<byte>, v: Visit): (p: Put)
    requires v.off + Size(f, v) <= |src|
    ensures p.pos == v.off && |p.bytes| == Size(f, v)
  {
    Put(v.off, StoreFields(to, Widths(f, v), FieldsAt(f, from, src, v)))
  }

  function Translation(f: Shape, from: Encoding, to: Encoding, src: seq<byte>, visits: seq<Visit>): (puts: seq<Put>)
    requires Inside(f, |src|, visits)
    ensures |puts| == |visits| && InBounds(|src|, puts)
    ensures forall k :: 0 <= k < |visits| ==> puts[k] == Translated(f, from, to, src, visits[k])
  {
    seq(|visits|, k requires 0 <= k < |visits| => Translated(f, from, to, src, visits[k]))
  }

  /** Visited records are pairwise disjoint or the same record. */
  ghost predicate Proper(f: Shape, visits: seq<Visit>) {
    forall j, k :: 0 <= j < |visits| && 0 <= k < |visits| ==>
      || visits[j] == visits[k]
      || visits[j].off + Size(f, visits[j]) <= visits[k].off
      || visits[k].off + Size(f, visits[k]) <= visits[j].off
  }

  /** What the destination holds after a pass from `src` in order `from` to order `to`. */
  function Pass(f: Shape, from: Encoding, to: Encoding, src: seq<byte>, dst: seq<byte>): (r: seq<byte>)
    requires f.Ok() && Total(f.head) > 0 && |src| == |dst|
    ensures |r| == |dst|
  {
    WalkInside(f, from, src, 0);
    Apply(dst, Translation(f, from, to, src, FullWalk(f, from, src, 0).visits))
  }

  // ---- Round trip -------------------------------------------------------------------------------------

  /** The record at `v` has the same field values in `src`, read in order `from`, and in `dst`, read in order `to`. */
  ghost predicate SameFields(f: Shape, from: Encoding, to: Encoding, src: seq<byte>, dst: seq<byte>, v: Visit) {
    && v.off + Size(f, v) <= |src| == |dst|
    && FieldsAt(f, to, dst, v) == FieldsAt(f, from, src, v)
  }

  ghost predicate AllSame(f: Shape, from: Encoding, to: Encoding, src: seq<byte>, dst: seq<byte>, visits: seq<Visit>) {
    forall k :: 0 <= k < |visits| ==> SameFields(f, from, to, src, dst, visits[k])
  }

  lemma AllSameSplit(f: Shape, from: Encoding, to: Encoding, src: seq<byte>, dst: seq<byte>, a: seq<Visit>, b: seq<Visit>)
    requires AllSame(f, from, to, src, dst, a + b)
    ensures AllSame(f, from, to, src, dst, a) && AllSame(f, from, to, src, dst, b)
  {
    hide SameFields;
    assert forall k :: 0 <= k < |a| ==> a[k] == (a + b)[k];
    assert forall k :: 0 <= k < |b| ==> b[k] == (a + b)[|a| + k];
  }

  lemma AllSameOne(f: Shape, from: Encoding, to: Encoding, src: seq<byte>, dst: seq<byte>, v: Visit)
    requires AllSame(f, from, to, src, dst, [v])
    ensures SameFields(f, from, to, src, dst, v)
  {
    hide SameFields;
    assert [v][0] == v;
  }

  lemma {:induction false} SameItemWalk(f: Shape, from: Encoding, to: Encoding, src: seq<byte>, dst: seq<byte>, off: nat, count: nat)
    requires f.Ok() && |src| == |dst|
    requires ItemWalk(f, from, src, off, count).ok
    requires AllSame(f, from, to, src, dst, ItemWalk(f, from, src, off, count).visits)
    ensures ItemWalk(f, to, dst, off, count) == ItemWalk(f, from, src, off, count)
    decreases count
  {
    hide AllSame, FieldsAt, Size;
    if count > 0 && off + Size(f, Item(off)) <= |src| {
      var next := FieldsAt(f, from, src, Item(off))[f.itemNext];
      if next != 0 {
        AllSameSplit(f, from, to, src, dst, [Item(off)], ItemWalk(f, from, src, off + next, count - 1).visits);
        SameItemWalk(f, from, to, src, dst, off + next, count - 1);
      }
      AllSameOne(f, from, to, src, dst, Item(off));
    }
  }

  lemma {:induction false} SameWalk(f: Shape, from: Encoding, to: Encoding, src: seq<byte>, dst: seq<byte>, off: nat)
    requires f.Ok() && |src| == |dst|
    requires FullWalk(f, from, src, off).ok
    requires AllSame(f, from, to, src, dst, FullWalk(f, from, src, off).visits)
    ensures FullWalk(f, to, dst, off) == FullWalk(f, from, src, off)
    decreases |src| - off
  {
    hide AllSame, FieldsAt, Size, ItemWalk;
    if off + Size(f, Head(off)) <= |src| {
      var vs := FieldsAt(f, from, src, Head(off));
      var items := ItemWalk(f, from, src, off + vs[f.aux], vs[f.cnt]);
      var here := [Head(off)] + items.visits;
      if vs[f.next] != 0 && off + vs[f.next] <= |src| {
        AllSameSplit(f, from, to, src, dst, here, FullWalk(f, from, src, off + vs[f.next]).visits);
        SameWalk(f, from, to, src, dst, off + vs[f.next]);
      }
      AllSameSplit(f, from, to, src, dst, [Head(off)], items.visits);
      AllSameOne(f, from, to, src, dst, Head(off));
      SameItemWalk(f, from, to, src, dst, off + vs[f.aux], vs[f.cnt]);
    }
  }

  lemma TranslationCompatible(f: Shape, from: Encoding, to: Encoding, src: seq<byte>, visits: seq<Visit>)
    requires Inside(f, |src|, visits) && Proper(f, visits)
    ensures Compatible(Translation(f, from, to, src, visits))
  {
    hide Size, Widths, Total;
  }

  lemma StoredBytes(f: Shape, from: Encoding, to: Encoding, src: seq<byte>, dst: seq<byte>, v: Visit)
    requires v.off + Size(f, v) <= |src| == |dst|
    requires dst[v.off..v.off + Size(f, v)] == Translated(f, from, to, src, v).bytes
    ensures SameFields(f, from, to, src, dst, v)
  {
    hide Total, Fit;
    StoreLoadedFields(from, Widths(f, v), src[v.off..v.off + Size(f, v)]);
    LoadStoredFields(to, Widths(f, v), FieldsAt(f, from, src, v));
  }

  /** After a pass every visited record of the destination has the field values of the source. */
  lemma PassStoresFields(f: Shape, from: Encoding, to: Encoding, src: seq<byte>, dst: seq<byte>, k: nat)
    requires f.Ok() && Total(f.head) > 0 && |src| == |dst|
    requires Proper(f, FullWalk(f, from, src, 0).visits) && k < |FullWalk(f, from, src, 0).visits|
    ensures var v := FullWalk(f, from, src, 0).visits[k];
            && SameFields(f, from, to, src, Pass(f, from, to, src, dst), v)
            && Pass(f, from, to, src, dst)[v.off..v.off + Size(f, v)] == Translated(f, from, to, src, v).bytes
  {
    hide Apply, FullWalk, Total, Compatible, Proper, SameFields, FieldsAt, Size, StoreFields;
    WalkInside(f, from, src, 0);
    var visits := FullWalk(f, from, src, 0).visits;
    TranslationCompatible(f, from, to, src, visits);
    CoveredSlice(dst, Translation(f, from, to, src, visits), k);
    StoredBytes(f, from, to, src, Pass(f, from, to, src, dst), visits[k]);
  }

  lemma BackTranslated(f: Shape, host: Encoding, file: Encoding, src: seq<byte>, written: seq<byte>, v: Visit)
    requires SameFields(f, host, file, src, written, v)
    ensures Translated(f, file, host, written, v).bytes == src[v.off..v.off + Size(f, v)]
  {
    StoreLoadedFields(host, Widths(f, v), src[v.off..v.off + Size(f, v)]);
  }

  /** To file and back: in either pair of byte orders and whatever the destination buffers held,
      the second pass visits the same records in the same order and restores every visited byte. */
  lemma PassesCompose(f: Shape, host: Encoding, file: Encoding, src: seq<byte>, dst: seq<byte>, back: seq<byte>)
    requires f.Ok() && Total(f.head) > 0 && |src| == |dst| == |back|
    requires FullWalk(f, host, src, 0).ok && Proper(f, FullWalk(f, host, src, 0).visits)
    ensures var written := Pass(f, host, file, src, dst);
            && FullWalk(f, file, written, 0) == FullWalk(f, host, src, 0)
            && forall k :: 0 <= k < |FullWalk(f, host, src, 0).visits| ==>
                 var v := FullWalk(f, host, src, 0).visits[k];
                 && v.off + Size(f, v) <= |src|
                 && Pass(f, file, host, written, back)[v.off..v.off + Size(f, v)] == src[v.off..v.off + Size(f, v)]
  {
    hide Apply, Pass, FullWalk, Total, Size, FieldsAt, Translated, Proper;
    var visits, written := FullWalk(f, host, src, 0).visits, Pass(f, host, file, src, dst);
    forall k | 0 <= k < |visits|
      ensures SameFields(f, host, file, src, written, visits[k])
    {
      PassStoresFields(f, host, file, src, dst, k);
    }
    SameWalk(f, host, file, src, written, 0);
    forall k | 0 <= k < |visits|
      ensures var v := visits[k];
              && v.off + Size(f, v) <= |src|
              && Pass(f, file, host, written, back)[v.off..v.off + Size(f, v)] == src[v.off..v.off + Size(f, v)]
    {
      PassStoresFields(f, host, file, src, dst, k);
      PassStoresFields(f, file, host, written, back, k);
      BackTranslated(f, host, file, src, written, visits[k]);
    }
  }

  // ---- The translators as the source has them ---------------------------------------------------------

  /** The destination once the given records have been stored. */
  function Stored(f: Shape, from: Encoding, to: Encoding, src: seq<byte>, dst: seq<byte>, visits: seq<Visit>): (r: seq<byte>)
    requires Inside(f, |src|, visits) && |src| == |dst|
    ensures |r| == |dst|
  {
    Apply(dst, Translation(f, from, to, src, visits))
  }

  lemma StoredOne(f: Shape, from: Encoding, to: Encoding, src: seq<byte>, dst: seq<byte>, v: Visit)
    requires v.off + Size(f, v) <= |src| == |dst|
    ensures Inside(f, |src|, [v])
    ensures Stored(f, from, to, src, dst, [v]) == ApplyOne(dst, Translated(f, from, to, src, v))
  {
    hide Size, Translated, Inside;
    InsideOne(f, |src|, v);
    var puts := Translation(f, from, to, src, [v]);
    assert puts[..|puts| - 1] == [];
    assert Apply(dst, []) == dst;
  }

  lemma StoredNone(f: Shape, from: Encoding, to: Encoding, src: seq<byte>, dst: seq<byte>)
    requires |src| == |dst|
    ensures Inside(f, |src|, []) && Stored(f, from, to, src, dst, []) == dst
  {
  }

  lemma StoredConcat(f: Shape, from: Encoding, to: Encoding, src: seq<byte>, dst: seq<byte>, a: seq<Visit>, b: seq<Visit>)
    requires Inside(f, |src|, a) && Inside(f, |src|, b) && |src| == |dst|
    ensures Inside(f, |src|, a + b)
    ensures Stored(f, from, to, src, dst, a + b) == Stored(f, from, to, src, Stored(f, from, to, src, dst, a), b)
  {
    hide Size, Translated, Inside, Apply;
    InsideConcat(f, |src|, a, b);
    var x, y := Translation(f, from, to, src, a), Translation(f, from, to, src, b);
    assert Translation(f, from, to, src, a + b) == x + y;
    ApplyAppend(dst, x, y);
  }

  /** The destination after the items chained from `off`. */
  function AfterItems(f: Shape, from: Encoding, to: Encoding, src: seq<byte>, dst: seq<byte>, off: nat, count: nat): (r: seq<byte>)
    requires f.Ok() && |src| == |dst|
    ensures |r| == |dst|
  {
    ItemsInside(f, from, src, off, count);
    Stored(f, from, to, src, dst, ItemWalk(f, from, src, off, count).visits)
  }

  /** The destination after everything chained from head `off`. */
  function AfterWalk(f: Shape, from: Encoding, to: Encoding, src: seq<byte>, dst: seq<byte>, off: nat): (r: seq<byte>)
    requires f.Ok() && Total(f.head) > 0 && |src| == |dst|
    ensures |r| == |dst|
  {
    WalkInside(f, from, src, off);
    Stored(f, from, to, src, dst, FullWalk(f, from, src, off).visits)
  }

  lemma NoItems(f: Shape, from: Encoding, to: Encoding, src: seq<byte>, dst: seq<byte>, off: nat, count: nat)
    requires f.Ok() && |src| == |dst|
    requires ItemWalk(f, from, src, off, count).visits == []
    ensures AfterItems(f, from, to, src, dst, off, count) == dst
  {
    StoredNone(f, from, to, src, dst);
  }

  /** The first item, then the rest of its chain. */
  lemma OneItem(f: Shape, from: Encoding, to: Encoding, src: seq<byte>, dst: seq<byte>, off: nat, count: nat)
    requires f.Ok() && |src| == |dst| && count > 0 && off + Size(f, Item(off)) <= |src| && off % 4 == 0
    ensures var next := FieldsAt(f, from, src, Item(off))[f.itemNext];
            var d := ApplyOne(dst, Translated(f, from, to, src, Item(off)));
            AfterItems(f, from, to, src, dst, off, count)
            == if next == 0 then d else AfterItems(f, from, to, src, d, off + next, count - 1)
  {
    hide Inside, Stored, FieldsAt, Size, Translated;
    var next := FieldsAt(f, from, src, Item(off))[f.itemNext];
    StoredOne(f, from, to, src, dst, Item(off));
    if next != 0 {
      ItemsInside(f, from, src, off + next, count - 1);
      StoredConcat(f, from, to, src, dst, [Item(off)], ItemWalk(f, from, src, off + next, count - 1).visits);
    }
  }

  /** Storing into a window of the buffer. */
  lemma WindowStore(buf: seq<byte>, base: nat, w: seq<byte>, p: Put)
    requires base + |w| <= |buf| && p.pos + |p.bytes| <= |w|
    ensures ApplyOne(ApplyOne(buf, Put(base, w)), Put(base + p.pos, p.bytes)) == ApplyOne(buf, Put(base, ApplyOne(w, p)))
  {
  }

  lemma SeenInside(wide: bool, n: nat, x: nat, size: nat)
    requires Seen(wide, n, x, size) && n < Modulus(wide)
    ensures (x % Modulus(wide) + size) % Modulus(wide) <= n ==> x % Modulus(wide) == x && x + size <= n
    ensures (x % Modulus(wide) + size) % Modulus(wide) > n ==> x + size > n
  {
  }

  /** The inner loop: translate the items chained from `off`, into the window of `dst` at `base`
      that holds `w`; `x` is what the sum of the two offsets would be without wrap-around. */
  method CopyItems(wide: bool, f: Shape, dst: array<byte>, base: nat, ghost buf: seq<byte>, ghost w: seq<byte>, src: seq<byte>,
                   from: Encoding, to: Encoding, off: nat, count: nat, ghost x0: nat) returns (ok: bool)
    requires f.Ok() && base + |src| <= dst.Length == |buf| && |w| == |src| && dst[..] == ApplyOne(buf, Put(base, w))
    requires |src| < Modulus(wide) && off == x0 % Modulus(wide) && ItemsSteady(wide, f, from, src, x0, count)
    modifies dst
    ensures dst[..] == ApplyOne(buf, Put(base, AfterItems(f, from, to, src, w, x0, count)))
    ensures ok == ItemWalk(f, from, src, x0, count).ok
  {
    hide AfterItems, FieldsAt, Size, Translated, ApplyOne, Seen, Modulus, ItemsSteady;
    var aoff: nat, acount := off, 0;
    ghost var v: seq<byte>, x: nat := w, x0;
    while acount < count
      invariant acount <= count && |v| == |src| && dst[..] == ApplyOne(buf, Put(base, v))
      invariant aoff == x % Modulus(wide) && ItemsSteady(wide, f, from, src, x, count - acount)
      invariant ItemWalk(f, from, src, x, count - acount).ok == ItemWalk(f, from, src, x0, count).ok
      invariant AfterItems(f, from, to, src, v, x, count - acount) == AfterItems(f, from, to, src, w, x0, count)
    {
      SteadyItem(wide, f, from, src, x, count - acount);
      SeenInside(wide, |src|, x, Size(f, Item(x)));
      SameSize(f, aoff, x);
      if (aoff + Size(f, Item(aoff))) % Modulus(wide) > |src| { break; }
      if aoff % 4 != 0 {
        NoItems(f, from, to, src, v, x, count - acount);
        return false;
      }
      var fields := FieldsAt(f, from, src, Item(aoff));
      var p := Translated(f, from, to, src, Item(aoff));
      OneItem(f, from, to, src, v, x, count - acount);
      WindowStore(buf, base, v, p);
      StorePut(dst, Put(base + p.pos, p.bytes));
      v := ApplyOne(v, p);
      if fields[f.itemNext] == 0 { return true; }
      x := x + fields[f.itemNext];
      aoff := (aoff + fields[f.itemNext]) % Modulus(wide);
      acount := acount + 1;
    }
    NoItems(f, from, to, src, v, x, count - acount);
    return true;
  }

  lemma SteadyItem(wide: bool, f: Shape, enc: Encoding, src: seq<byte>, x: nat, count: nat)
    requires f.Ok() && count > 0 && ItemsSteady(wide, f, enc, src, x, count)
    ensures Seen(wide, |src|, x, Size(f, Item(x)))
    ensures x + Size(f, Item(x)) <= |src| && x % 4 == 0 && FieldsAt(f, enc, src, Item(x))[f.itemNext] != 0 ==>
              ItemsSteady(wide, f, enc, src, x + FieldsAt(f, enc, src, Item(x))[f.itemNext], count - 1)
  {
    hide FieldsAt, Size, Seen;
  }

  lemma SameSize(f: Shape, a: nat, b: nat)
    ensures Size(f, Item(a)) == Size(f, Item(b)) && Size(f, Head(a)) == Size(f, Head(b))
  {
  }

  lemma NoRecords(f: Shape, from: Encoding, to: Encoding, src: seq<byte>, dst: seq<byte>, off: nat)
    requires f.Ok() && Total(f.head) > 0 && |src| == |dst|
    requires FullWalk(f, from, src, off).visits == []
    ensures AfterWalk(f, from, to, src, dst, off) == dst
  {
    StoredNone(f, from, to, src, dst);
  }

  /** A well-formed head, its items, then the rest of the chain. */
  lemma OneHead(f: Shape, from: Encoding, to: Encoding, src: seq<byte>, dst: seq<byte>, off: nat)
    requires f.Ok() && Total(f.head) > 0 && |src| == |dst|
    requires off + Size(f, Head(off)) <= |src| && off % 4 == 0
    requires var vs := FieldsAt(f, from, src, Head(off)); vs[f.version] == 1 && vs[f.cnt] >= 1 && vs[f.aux] != 0
    ensures var vs := FieldsAt(f, from, src, Head(off));
            var d := AfterItems(f, from, to, src, ApplyOne(dst, Translated(f, from, to, src, Head(off))), off + vs[f.aux], vs[f.cnt]);
            var ok := ItemWalk(f, from, src, off + vs[f.aux], vs[f.cnt]).ok;
            if !ok || vs[f.next] == 0
            then AfterWalk(f, from, to, src, dst, off) == d && FullWalk(f, from, src, off).ok == ok
            else && AfterWalk(f, from, to, src, dst, off) == AfterWalk(f, from, to, src, d, off + vs[f.next])
                 && FullWalk(f, from, src, off).ok == FullWalk(f, from, src, off + vs[f.next]).ok
  {
    hide Inside, Stored, FieldsAt, Size, Translated, ItemWalk;
    var vs := FieldsAt(f, from, src, Head(off));
    var items := ItemWalk(f, from, src, off + vs[f.aux], vs[f.cnt]);
    var rest := FullWalk(f, from, src, off + vs[f.next]);
    ItemsInside(f, from, src, off + vs[f.aux], vs[f.cnt]);
    WalkInside(f, from, src, off + vs[f.next]);
    StoredOne(f, from, to, src, dst, Head(off));
    StoredConcat(f, from, to, src, dst, [Head(off)], items.visits);
    StoredConcat(f, from, to, src, dst, [Head(off)] + items.visits, rest.visits);
    if |src| < off + vs[f.next] {
      BeyondEnd(f, from, src, off + vs[f.next]);
      assert [Head(off)] + items.visits + rest.visits == [Head(off)] + items.visits;
    }
  }

  lemma BeyondEnd(f: Shape, enc: Encoding, src: seq<byte>, off: nat)
    requires f.Ok() && |src| < off
    ensures FullWalk(f, enc, src, off) == Walk([], true)
  {
  }

  /** `xlt_verdef` and `xlt_verneed`, into the window of `dst` at `base`. */
  method Translate(wide: bool, f: Shape, dst: array<byte>, base: nat, src: seq<byte>, from: Encoding, to: Encoding) returns (ok: bool)
    requires f.Ok() && Total(f.head) > 0 && base + |src| <= dst.Length
    requires |src| < Modulus(wide) && WalkSteady(wide, f, from, src, 0)
    modifies dst
    ensures dst[..] == ApplyOne(old(dst[..]), Put(base, Pass(f, from, to, src, old(dst[base..base + |src|]))))
    ensures ok == FullWalk(f, from, src, 0).ok
  {
    hide AfterItems, AfterWalk, FieldsAt, Size, Translated, ItemWalk, FullWalk, Pass, ApplyOne, Seen, ItemsSteady, WalkSteady, Modulus;
    ghost var buf, w := dst[..], dst[base..base + |src|];
    ghost var v: seq<byte>, x: nat := w, 0;
    OwnWindow(buf, base, w);
    PassIsAfterWalk(f, from, to, src, w);
    var off: nat := 0;
    WrapNothing(wide, 0);
    SteadyHere(wide, f, from, src, x);
    SeenInside(wide, |src|, x, Size(f, Head(x)));
    while (off + Size(f, Head(off))) % Modulus(wide) <= |src|
      invariant |v| == |src| && dst[..] == ApplyOne(buf, Put(base, v))
      invariant off == x % Modulus(wide) && (x <= |src| ==> WalkSteady(wide, f, from, src, x))
      invariant if (off + Size(f, Head(off))) % Modulus(wide) <= |src| then off == x && x + Size(f, Head(x)) <= |src|
                else x + Size(f, Head(x)) > |src|
      invariant FullWalk(f, from, src, x).ok == FullWalk(f, from, src, 0).ok
      invariant AfterWalk(f, from, to, src, v, x) == AfterWalk(f, from, to, src, w, 0)
      decreases |src| + 1 - x
    {
      var fields := FieldsAt(f, from, src, Head(off));
      HeadStops(f, from, src, x);
      if off % 4 != 0 || fields[f.version] != 1 || fields[f.cnt] < 1 || fields[f.aux] == 0 {
        NoRecords(f, from, to, src, v, off);
        return false;
      }
      SteadyNext(wide, f, from, src, x);
      var p := Translated(f, from, to, src, Head(off));
      OneHead(f, from, to, src, v, off);
      WindowStore(buf, base, v, p);
      StorePut(dst, Put(base + p.pos, p.bytes));
      v := ApplyOne(v, p);
      ok := CopyItems(wide, f, dst, base, buf, v, src, from, to, (off + fields[f.aux]) % Modulus(wide), fields[f.cnt], x + fields[f.aux]);
      v := AfterItems(f, from, to, src, v, off + fields[f.aux], fields[f.cnt]);
      if !ok { return; }
      if fields[f.next] == 0 { return true; }
      x := x + fields[f.next];
      off := (off + fields[f.next]) % Modulus(wide);
      SameSize(f, off, x);
      SeenInside(wide, |src|, x, Size(f, Head(x)));
    }
    HeadStops(f, from, src, x);
    NoRecords(f, from, to, src, v, x);
    return true;
  }

  /** Where the walk visits nothing more. */
  lemma HeadStops(f: Shape, enc: Encoding, src: seq<byte>, x: nat)
    requires f.Ok()
    ensures x + Size(f, Head(x)) > |src| ==> FullWalk(f, enc, src, x) == Walk([], true)
    ensures x + Size(f, Head(x)) <= |src| ==>
              var vs := FieldsAt(f, enc, src, Head(x));
              x % 4 != 0 || vs[f.version] != 1 || vs[f.cnt] < 1 || vs[f.aux] == 0 ==> FullWalk(f, enc, src, x) == Walk([], false)
  {
    hide FieldsAt, Size, ItemWalk;
  }

  lemma SteadyHere(wide: bool, f: Shape, enc: Encoding, src: seq<byte>, x: nat)
    requires f.Ok() && WalkSteady(wide, f, enc, src, x)
    ensures Seen(wide, |src|, x, Size(f, Head(x)))
  {
    hide FieldsAt, Size, ItemWalk, Seen, ItemsSteady;
  }

  lemma SteadyNext(wide: bool, f: Shape, enc: Encoding, src: seq<byte>, x: nat)
    requires f.Ok() && WalkSteady(wide, f, enc, src, x) && x + Size(f, Head(x)) <= |src| && x % 4 == 0
    requires var vs := FieldsAt(f, enc, src, Head(x)); vs[f.version] == 1 && vs[f.cnt] >= 1 && vs[f.aux] != 0
    ensures var vs := FieldsAt(f, enc, src, Head(x));
            var y := x + vs[f.next];
            && ItemsSteady(wide, f, enc, src, x + vs[f.aux], vs[f.cnt])
            && (ItemWalk(f, enc, src, x + vs[f.aux], vs[f.cnt]).ok && vs[f.next] != 0 ==>
                  && Seen(wide, |src|, y, Size(f, Head(y)))
                  && (y <= |src| ==> WalkSteady(wide, f, enc, src, y)))
  {
    hide FieldsAt, Size, ItemWalk, Seen, ItemsSteady;
  }

  lemma WrapNothing(wide: bool, x: nat)
    requires x < Modulus(wide)
    ensures x % Modulus(wide) == x
  {
  }

  lemma OwnWindow(buf: seq<byte>, base: nat, w: seq<byte>)
    requires base + |w| <= |buf| && w == buf[base..base + |w|]
    ensures ApplyOne(buf, Put(base, w)) == buf
  {
  }

  lemma PassIsAfterWalk(f: Shape, from: Encoding, to: Encoding, src: seq<byte>, dst: seq<byte>)
    requires f.Ok() && Total(f.head) > 0 && |src| == |dst|
    ensures Pass(f, from, to, src, dst) == AfterWalk(f, from, to, src, dst, 0)
  {
  }
}
