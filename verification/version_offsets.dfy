/** The offsets of libelf/verdef.h and libelf/verneed.h are `size_t` sums of 32-bit links: when the
    traversal of the source is the one without wrap-around, and what it does otherwise. */
module VersionOffsets {
  import opened Words
  import opened Codec
  import opened Versions

  /** How a traversal of the source ends. `Escaped` is a record outside the buffer, which it would
      read and store; `Running` means that it has not ended in the given number of heads. */
  datatype End = Finished | Malformed | Escaped | Running

  datatype Trace = Trace(visits: seq<Visit>, end: End)

  /** One head, and the chain of its items. */
  datatype Run = Run(off: nat, items: Trace)

  datatype Runs = Runs(heads: seq<Run>, end: End)

  // ---- The traversal with wrap-around ----------------------------------------------------------------------

  function SourceItems(wide: bool, f: Shape, enc: Encoding, src: seq<byte>, off: nat, count: nat): Trace
    requires f.Ok()
    decreases count
  {
    if count == 0 || (off + Size(f, Item(off))) % Modulus(wide) > |src| then Trace([], Finished)
    else if off % 4 != 0 then Trace([], Malformed)
    else if off + Size(f, Item(off)) > |src| then Trace([Item(off)], Escaped)
    else
      var next := FieldsAt(f, enc, src, Item(off))[f.itemNext];
      if next == 0 then Trace([Item(off)], Finished)
      else
        var rest := SourceItems(wide, f, enc, src, (off + next) % Modulus(wide), count - 1);
        Trace([Item(off)] + rest.visits, rest.end)
  }

  /** A head at `off` with its items, and after link `next`, unless that is 0, the rest. */
  function Then(off: nat, items: Trace, next: nat, rest: Runs): Runs {
    if items.end != Finished || next == 0 then Runs([Run(off, items)], items.end)
    else Runs([Run(off, items)] + rest.heads, rest.end)
  }

  function SourceRuns(wide: bool, f: Shape, enc: Encoding, src: seq<byte>, off: nat, steps: nat): Runs
    requires f.Ok()
    decreases steps
  {
    if steps == 0 then Runs([], Running)
    else if (off + Size(f, Head(off))) % Modulus(wide) > |src| then Runs([], Finished)
    else if off % 4 != 0 then Runs([], Malformed)
    else if off + Size(f, Head(off)) > |src| then Runs([Run(off, Trace([], Escaped))], Escaped)
    else
      var vs := FieldsAt(f, enc, src, Head(off));
      if vs[f.version] != 1 || vs[f.cnt] < 1 || vs[f.aux] == 0 then Runs([], Malformed)
      else
        Then(off, SourceItems(wide, f, enc, src, (off + vs[f.aux]) % Modulus(wide), vs[f.cnt]), vs[f.next],
             SourceRuns(wide, f, enc, src, (off + vs[f.next]) % Modulus(wide), steps - 1))
  }

  // ---- The traversal without wrap-around ---------------------------------------------------------------------

  function AsTrace(w: Walk): Trace { Trace(w.visits, if w.ok then Finished else Malformed) }

  function FullRuns(f: Shape, enc: Encoding, src: seq<byte>, off: nat): Runs
    requires f.Ok()
    decreases |src| - off
  {
    if off + Size(f, Head(off)) > |src| then Runs([], Finished)
    else if off % 4 != 0 then Runs([], Malformed)
    else
      var vs := FieldsAt(f, enc, src, Head(off));
      if vs[f.version] != 1 || vs[f.cnt] < 1 || vs[f.aux] == 0 then Runs([], Malformed)
      else
        Then(off, AsTrace(ItemWalk(f, enc, src, off + vs[f.aux], vs[f.cnt])), vs[f.next],
             if vs[f.next] == 0 || |src| < off + vs[f.next] then Runs([], Finished)
             else FullRuns(f, enc, src, off + vs[f.next]))
  }

  function Visits(heads: seq<Run>): seq<Visit> {
    if heads == [] then [] else [Head(heads[0].off)] + heads[0].items.visits + Visits(heads[1..])
  }

  lemma VisitsThen(off: nat, items: Trace, next: nat, rest: Runs)
    ensures var r := Then(off, items, next, rest);
            Visits(r.heads) == [Head(off)] + items.visits + if items.end != Finished || next == 0 then [] else Visits(rest.heads)
  {
    var one := [Run(off, items)];
    assert one[1..] == [] && (one + rest.heads)[1..] == rest.heads;
    assert Visits([]) == [];
  }

  /** It is the walk by which the translation is specified. */
  lemma {:induction false} RunsAreWalk(f: Shape, enc: Encoding, src: seq<byte>, off: nat)
    requires f.Ok()
    ensures var r, w := FullRuns(f, enc, src, off), FullWalk(f, enc, src, off);
            Visits(r.heads) == w.visits && r.end == if w.ok then Finished else Malformed
    decreases |src| - off
  {
    hide FieldsAt, Size, ItemWalk, Visits;
    NoVisits();
    if off + Size(f, Head(off)) <= |src| && off % 4 == 0 {
      var vs := FieldsAt(f, enc, src, Head(off));
      var items := AsTrace(ItemWalk(f, enc, src, off + vs[f.aux], vs[f.cnt]));
      if vs[f.next] != 0 && off + vs[f.next] <= |src| {
        RunsAreWalk(f, enc, src, off + vs[f.next]);
        VisitsThen(off, items, vs[f.next], FullRuns(f, enc, src, off + vs[f.next]));
      } else {
        VisitsThen(off, items, vs[f.next], Runs([], Finished));
      }
    }
  }

  lemma NoVisits()
    ensures Visits([]) == []
  {
  }

  // ---- Exactly when they agree ---------------------------------------------------------------------------------

  lemma InsideIsSeen(wide: bool, n: nat, x: nat, size: nat)
    requires n < Modulus(wide) && x + size <= n
    ensures Seen(wide, n, x, size) && x % Modulus(wide) == x
  {
  }

  lemma ItemOutside(wide: bool, f: Shape, enc: Encoding, src: seq<byte>, x: nat, count: nat)
    requires f.Ok() && count > 0 && x + Size(f, Item(x)) > |src|
    ensures SourceItems(wide, f, enc, src, x % Modulus(wide), count) == AsTrace(ItemWalk(f, enc, src, x, count))
       <==> ItemsSteady(wide, f, enc, src, x, count)
  {
    hide FieldsAt, Size, Modulus, Seen;
    SameSize(f, x, x % Modulus(wide));
    Unseen(wide, |src|, x, Size(f, Item(x)));
  }

  lemma ItemInside(wide: bool, f: Shape, enc: Encoding, src: seq<byte>, x: nat, count: nat)
    requires f.Ok() && |src| < Modulus(wide) && count > 0 && x + Size(f, Item(x)) <= |src|
    requires var z := x + FieldsAt(f, enc, src, Item(x))[f.itemNext];
             SourceItems(wide, f, enc, src, z % Modulus(wide), count - 1) == AsTrace(ItemWalk(f, enc, src, z, count - 1))
             <==> ItemsSteady(wide, f, enc, src, z, count - 1)
    ensures SourceItems(wide, f, enc, src, x % Modulus(wide), count) == AsTrace(ItemWalk(f, enc, src, x, count))
       <==> ItemsSteady(wide, f, enc, src, x, count)
  {
    hide FieldsAt, Size, Modulus, Seen;
    InsideIsSeen(wide, |src|, x, Size(f, Item(x)));
    SeenInside(wide, |src|, x, Size(f, Item(x)));
    var z := x + FieldsAt(f, enc, src, Item(x))[f.itemNext];
    Cancel([Item(x)], SourceItems(wide, f, enc, src, z % Modulus(wide), count - 1).visits, ItemWalk(f, enc, src, z, count - 1).visits);
  }

  /** A chain of items is followed as without wrap-around exactly if every bounds test is right. */
  lemma {:induction false} ItemsAgree(wide: bool, f: Shape, enc: Encoding, src: seq<byte>, x: nat, count: nat)
    requires f.Ok() && |src| < Modulus(wide)
    ensures SourceItems(wide, f, enc, src, x % Modulus(wide), count) == AsTrace(ItemWalk(f, enc, src, x, count))
       <==> ItemsSteady(wide, f, enc, src, x, count)
    decreases count
  {
    hide FieldsAt, Size, Modulus, SourceItems, ItemWalk, ItemsSteady;
    if count == 0 {
      NoItemsAgree(wide, f, enc, src, x);
    } else if x + Size(f, Item(x)) <= |src| {
      ItemsAgree(wide, f, enc, src, x + FieldsAt(f, enc, src, Item(x))[f.itemNext], count - 1);
      ItemInside(wide, f, enc, src, x, count);
    } else {
      ItemOutside(wide, f, enc, src, x, count);
    }
  }

  lemma NoItemsAgree(wide: bool, f: Shape, enc: Encoding, src: seq<byte>, x: nat)
    requires f.Ok()
    ensures SourceItems(wide, f, enc, src, x % Modulus(wide), 0) == AsTrace(ItemWalk(f, enc, src, x, 0))
    ensures ItemsSteady(wide, f, enc, src, x, 0)
  {
  }

  lemma Cancel<T>(a: seq<T>, b: seq<T>, c: seq<T>)
    ensures a + b == a + c <==> b == c
  {
    if a + b == a + c {
      assert b == (a + b)[|a|..] && c == (a + c)[|a|..];
    }
  }

  lemma Unseen(wide: bool, n: nat, x: nat, size: nat)
    requires x + size > n
    ensures Seen(wide, n, x, size) <==> (x % Modulus(wide) + size) % Modulus(wide) > n
  {
  }

  lemma ThenEqual(off: nat, a: Trace, b: Trace, next: nat, p: Runs, q: Runs)
    ensures Then(off, a, next, p) == Then(off, b, next, q) <==> a == b && (a.end == Finished && next != 0 ==> p == q)
  {
    Cancel([Run(off, a)], p.heads, q.heads);
    assert Then(off, a, next, p).heads[0].items == a && Then(off, b, next, q).heads[0].items == b;
  }

  /** What the traversal without wrap-around does from `z` on, which may be beyond the buffer. */
  function RunsFrom(f: Shape, enc: Encoding, src: seq<byte>, z: nat): Runs
    requires f.Ok()
  {
    if z <= |src| then FullRuns(f, enc, src, z) else Runs([], Finished)
  }

  predicate SteadyFrom(wide: bool, f: Shape, enc: Encoding, src: seq<byte>, z: nat)
    requires f.Ok()
  {
    if z <= |src| then WalkSteady(wide, f, enc, src, z) else Seen(wide, |src|, z, Size(f, Head(z)))
  }

  lemma BeyondAgrees(wide: bool, f: Shape, enc: Encoding, src: seq<byte>, z: nat, steps: nat)
    requires f.Ok() && |src| < z && steps > 0
    ensures SourceRuns(wide, f, enc, src, z % Modulus(wide), steps) == Runs([], Finished) <==> Seen(wide, |src|, z, Size(f, Head(z)))
  {
    hide FieldsAt, Size, Modulus, Seen, SourceItems;
    SameSize(f, z, z % Modulus(wide));
    Unseen(wide, |src|, z, Size(f, Head(z)));
  }

  /** A well-formed head: its items, and what the link leads to. */
  lemma HeadAgrees(wide: bool, f: Shape, enc: Encoding, src: seq<byte>, x: nat, steps: nat)
    requires f.Ok() && |src| < Modulus(wide) && x + Size(f, Head(x)) <= |src| && x % 4 == 0 && steps > 0
    requires var vs := FieldsAt(f, enc, src, Head(x)); vs[f.version] == 1 && vs[f.cnt] >= 1 && vs[f.aux] != 0
    requires var vs := FieldsAt(f, enc, src, Head(x));
             var z := x + vs[f.next];
             vs[f.next] != 0 ==>
               (SourceRuns(wide, f, enc, src, z % Modulus(wide), steps - 1) == RunsFrom(f, enc, src, z) <==> SteadyFrom(wide, f, enc, src, z))
    ensures SourceRuns(wide, f, enc, src, x % Modulus(wide), steps) == FullRuns(f, enc, src, x)
       <==> WalkSteady(wide, f, enc, src, x)
  {
    hide FieldsAt, Size, Modulus, ItemWalk, SourceItems, ItemsSteady, SourceRuns, FullRuns, RunsFrom, WalkSteady, SteadyFrom, Then;
    InsideIsSeen(wide, |src|, x, Size(f, Head(x)));
    var vs := FieldsAt(f, enc, src, Head(x));
    var z := x + vs[f.next];
    ItemsAgree(wide, f, enc, src, x + vs[f.aux], vs[f.cnt]);
    SourceAtHead(wide, f, enc, src, x, steps);
    FullAtHead(f, enc, src, x);
    SteadyAtHead(wide, f, enc, src, x);
    ThenEqual(x, SourceItems(wide, f, enc, src, (x + vs[f.aux]) % Modulus(wide), vs[f.cnt]),
              AsTrace(ItemWalk(f, enc, src, x + vs[f.aux], vs[f.cnt])), vs[f.next],
              SourceRuns(wide, f, enc, src, z % Modulus(wide), steps - 1), RunsFrom(f, enc, src, z));
  }

  lemma SourceAtHead(wide: bool, f: Shape, enc: Encoding, src: seq<byte>, x: nat, steps: nat)
    requires f.Ok() && |src| < Modulus(wide) && x + Size(f, Head(x)) <= |src| && x % 4 == 0 && steps > 0 && x % Modulus(wide) == x
    requires var vs := FieldsAt(f, enc, src, Head(x)); vs[f.version] == 1 && vs[f.cnt] >= 1 && vs[f.aux] != 0
    ensures var vs := FieldsAt(f, enc, src, Head(x));
            SourceRuns(wide, f, enc, src, x % Modulus(wide), steps)
            == Then(x, SourceItems(wide, f, enc, src, (x + vs[f.aux]) % Modulus(wide), vs[f.cnt]), vs[f.next],
                    SourceRuns(wide, f, enc, src, (x + vs[f.next]) % Modulus(wide), steps - 1))
  {
    hide FieldsAt, Size, Modulus, Seen, SourceItems, Then;
    InsideIsSeen(wide, |src|, x, Size(f, Head(x)));
    SeenInside(wide, |src|, x, Size(f, Head(x)));
  }

  lemma FullAtHead(f: Shape, enc: Encoding, src: seq<byte>, x: nat)
    requires f.Ok() && x + Size(f, Head(x)) <= |src| && x % 4 == 0
    requires var vs := FieldsAt(f, enc, src, Head(x)); vs[f.version] == 1 && vs[f.cnt] >= 1 && vs[f.aux] != 0
    ensures var vs := FieldsAt(f, enc, src, Head(x));
            FullRuns(f, enc, src, x) == Then(x, AsTrace(ItemWalk(f, enc, src, x + vs[f.aux], vs[f.cnt])), vs[f.next],
                                             RunsFrom(f, enc, src, x + vs[f.next]))
  {
    hide FieldsAt, Size, ItemWalk;
  }

  lemma SteadyAtHead(wide: bool, f: Shape, enc: Encoding, src: seq<byte>, x: nat)
    requires f.Ok() && x + Size(f, Head(x)) <= |src| && x % 4 == 0 && Seen(wide, |src|, x, Size(f, Head(x)))
    requires var vs := FieldsAt(f, enc, src, Head(x)); vs[f.version] == 1 && vs[f.cnt] >= 1 && vs[f.aux] != 0
    ensures var vs := FieldsAt(f, enc, src, Head(x));
            WalkSteady(wide, f, enc, src, x)
            <==> ItemsSteady(wide, f, enc, src, x + vs[f.aux], vs[f.cnt])
                 && (AsTrace(ItemWalk(f, enc, src, x + vs[f.aux], vs[f.cnt])).end == Finished && vs[f.next] != 0 ==>
                       SteadyFrom(wide, f, enc, src, x + vs[f.next]))
  {
    hide FieldsAt, Size, ItemWalk, Seen, ItemsSteady;
  }

  /** The whole traversal is the one without wrap-around exactly if every bounds test is right. */
  lemma {:induction false} RunsAgree(wide: bool, f: Shape, enc: Encoding, src: seq<byte>, x: nat, steps: nat)
    requires f.Ok() && Total(f.head) > 0 && |src| < Modulus(wide) && x <= |src| < x + steps
    ensures SourceRuns(wide, f, enc, src, x % Modulus(wide), steps) == FullRuns(f, enc, src, x)
       <==> WalkSteady(wide, f, enc, src, x)
    decreases |src| - x
  {
    hide FieldsAt, Size, Modulus, Seen, ItemWalk, SourceItems, ItemsSteady;
    SameSize(f, x, x % Modulus(wide));
    HasSize(f, x);
    if x + Size(f, Head(x)) > |src| {
      Unseen(wide, |src|, x, Size(f, Head(x)));
    } else {
      InsideIsSeen(wide, |src|, x, Size(f, Head(x)));
      var vs := FieldsAt(f, enc, src, Head(x));
      if x % 4 == 0 && vs[f.version] == 1 && vs[f.cnt] >= 1 && vs[f.aux] != 0 {
        var z := x + vs[f.next];
        if vs[f.next] != 0 && z <= |src| {
          RunsAgree(wide, f, enc, src, z, steps - 1);
        } else {
          if vs[f.next] != 0 { BeyondAgrees(wide, f, enc, src, z, steps - 1); }
        }
        HeadAgrees(wide, f, enc, src, x, steps);
      }
    }
  }

  lemma HasSize(f: Shape, x: nat)
    requires Total(f.head) > 0
    ensures Size(f, Head(x)) > 0
  {
  }

  // ---- 64 bits ---------------------------------------------------------------------------------------------------

  /** Records of at most 20 bytes with fields of at most 32 bits, as both formats have them. */
  predicate Narrow(f: Shape) {
    && f.Ok() && 0 < Total(f.head) <= 20 && Total(f.item) <= 20
    && (forall i :: 0 <= i < |f.head| ==> f.head[i] <= 4) && (forall i :: 0 <= i < |f.item| ==> f.item[i] <= 4)
  }

  lemma FormatsAreNarrow()
    ensures Narrow(VERDEF) && Narrow(VERNEED)
  {
    RecordSizes();
    hide Total;
  }

  lemma {:induction false} LimitGrows(w: nat, v: nat)
    requires w <= v
    ensures Limit(w) <= Limit(v)
    decreases v
  {
    if w < v { LimitGrows(w, v - 1); }
  }

  lemma Limit4()
    ensures Limit(4) == 0x1_0000_0000
  {
    assert Limit(2) == 0x1_0000;
    assert Limit(3) == 0x100 * Limit(2);
  }

  lemma FieldIsNarrow(f: Shape, enc: Encoding, src: seq<byte>, v: Visit, i: nat)
    requires Narrow(f) && v.off + Size(f, v) <= |src| && i < |Widths(f, v)|
    ensures FieldsAt(f, enc, src, v)[i] < 0x1_0000_0000
  {
    hide Total;
    StoreLoadedFields(enc, Widths(f, v), src[v.off..v.off + Size(f, v)]);
    Limit4();
    LimitGrows(Widths(f, v)[i], 4);
  }

  lemma SmallIsSeen(n: nat, x: nat, size: nat)
    requires n < 0x8000_0000_0000_0000 && x <= n + 0x1_0000_0000 && size <= 20
    ensures Seen(true, n, x, size)
  {
  }

  lemma {:induction false} WideItems(f: Shape, enc: Encoding, src: seq<byte>, x: nat, count: nat)
    requires Narrow(f) && |src| < 0x8000_0000_0000_0000 && x <= |src| + 0x1_0000_0000
    ensures ItemsSteady(true, f, enc, src, x, count)
    decreases count
  {
    hide FieldsAt, Seen, Total;
    if count > 0 {
      SmallIsSeen(|src|, x, Size(f, Item(x)));
      if x + Size(f, Item(x)) <= |src| {
        FieldIsNarrow(f, enc, src, Item(x), f.itemNext);
        WideItems(f, enc, src, x + FieldsAt(f, enc, src, Item(x))[f.itemNext], count - 1);
      }
    }
  }

  /** With 64 bits nothing wraps, for any buffer. */
  lemma {:induction false} WideIsSteady(f: Shape, enc: Encoding, src: seq<byte>, x: nat)
    requires Narrow(f) && |src| < 0x8000_0000_0000_0000 && x <= |src|
    ensures WalkSteady(true, f, enc, src, x)
    decreases |src| - x
  {
    hide FieldsAt, Seen, Total, ItemsSteady, ItemWalk;
    SmallIsSeen(|src|, x, Size(f, Head(x)));
    if x + Size(f, Head(x)) <= |src| {
      var vs := FieldsAt(f, enc, src, Head(x));
      FieldIsNarrow(f, enc, src, Head(x), f.aux);
      FieldIsNarrow(f, enc, src, Head(x), f.next);
      WideItems(f, enc, src, x + vs[f.aux], vs[f.cnt]);
      var z := x + vs[f.next];
      SmallIsSeen(|src|, z, Size(f, Head(z)));
      if vs[f.next] != 0 && z <= |src| {
        WideIsSteady(f, enc, src, z);
      }
    }
  }

  // ---- 32 bits ---------------------------------------------------------------------------------------------------

  /** A verdef record with one verdaux at distance `aux`, and the next record at distance `next`. */
  function Verdef(enc: Encoding, aux: u32, next: u32): (b: seq<byte>)
    ensures |b| == 20
  {
    RecordSizes();
    StoreFields(enc, VERDEF.head, [1, 0, 0, 1, 0, aux, next])
  }

  lemma VerdefFields(enc: Encoding, src: seq<byte>, off: nat, aux: u32, next: u32)
    requires off + 20 <= |src| && src[off..off + 20] == Verdef(enc, aux, next)
    ensures VERDEF.Ok() && Size(VERDEF, Head(off)) == 20 && Size(VERDEF, Item(off)) == 8
    ensures FieldsAt(VERDEF, enc, src, Head(off)) == [1, 0, 0, 1, 0, aux, next]
  {
    RecordSizes();
    hide Total;
    Limit4();
    assert Limit(2) == 0x1_0000 by { LimitGrows(2, 2); }
    LoadStoredFields(enc, VERDEF.head, [1, 0, 0, 1, 0, aux, next]);
  }

  lemma Modulus32(off: nat)
    ensures Modulus(false) == 0x1_0000_0000 && (off < 0x1_0000_0000 ==> off % Modulus(false) == off)
  {
  }

  /** A record of 20 bytes that has one item of 8 bytes and the given links. */
  predicate OneItem20(f: Shape, enc: Encoding, src: seq<byte>, off: nat, aux: nat, next: nat) {
    && f.Ok() && Size(f, Head(off)) == 20 && Size(f, Item(off)) == 8 && off + 20 <= |src| && off % 4 == 0
    && var vs := FieldsAt(f, enc, src, Head(off));
       vs[f.version] == 1 && vs[f.cnt] == 1 && vs[f.aux] == aux > 0 && vs[f.next] == next
  }

  lemma RunOf(f: Shape, enc: Encoding, src: seq<byte>, off: nat, aux: nat, next: nat, steps: nat)
    requires OneItem20(f, enc, src, off, aux, next) && |src| < 0x1_0000_0000 && steps > 0
    ensures SourceRuns(false, f, enc, src, off, steps)
         == Then(off, SourceItems(false, f, enc, src, (off + aux) % 0x1_0000_0000, 1), next,
                 SourceRuns(false, f, enc, src, (off + next) % 0x1_0000_0000, steps - 1))
  {
    hide FieldsAt, Size, SourceRuns, SourceItems, Then, Modulus;
    Modulus32(off);
    SourceAtHead(false, f, enc, src, off, steps);
  }

  /** The item, when it is not in the buffer. */
  lemma ItemOf(f: Shape, enc: Encoding, src: seq<byte>, off: nat)
    requires f.Ok() && Size(f, Item(off)) == 8 && |src| < off + 8 && off < 0x1_0000_0000
    ensures SourceItems(false, f, enc, src, off, 1)
         == if (off + 8) % 0x1_0000_0000 > |src| then Trace([], Finished)
            else if off % 4 != 0 then Trace([], Malformed)
            else Trace([Item(off)], Escaped)
  {
    hide Size;
  }

  lemma VerdefIs(enc: Encoding, src: seq<byte>, off: nat, aux: u32, next: u32)
    requires off + 20 <= |src| && src[off..off + 20] == Verdef(enc, aux, next) && off % 4 == 0 && aux > 0
    ensures OneItem20(VERDEF, enc, src, off, aux, next)
  {
    VerdefFields(enc, src, off, aux, next);
    hide FieldsAt, Size, Verdef;
  }

  lemma Escapes(f: Shape, enc: Encoding, src: seq<byte>)
    requires OneItem20(f, enc, src, 0, 0xffff_fffc, 0) && |src| == 20
    ensures SourceRuns(false, f, enc, src, 0, 1) == Runs([Run(0, Trace([Item(0xffff_fffc)], Escaped))], Escaped)
  {
    hide FieldsAt, Size, SourceRuns, SourceItems;
    RunOf(f, enc, src, 0, 0xffff_fffc, 0, 1);
    SameSize(f, 0, 0xffff_fffc);
    ItemOf(f, enc, src, 0xffff_fffc);
  }

  /** With 32 bits a link can lead to 4 bytes before the buffer: the bounds test lets it pass. */
  lemma EscapesBefore(enc: Encoding)
    ensures VERDEF.Ok()
    ensures SourceRuns(false, VERDEF, enc, Verdef(enc, 0xffff_fffc, 0), 0, 1)
         == Runs([Run(0, Trace([Item(0xffff_fffc)], Escaped))], Escaped)
  {
    hide Verdef, SourceRuns, OneItem20;
    RecordSizes();
    var src := Verdef(enc, 0xffff_fffc, 0);
    assert src[0..20] == src;
    VerdefIs(enc, src, 0, 0xffff_fffc, 0);
    Escapes(VERDEF, enc, src);
  }

  /** And a chain of heads can lead back to its start, so that the traversal does not end. */
  function Circle(enc: Encoding): (b: seq<byte>)
    ensures |b| == 40 && b[0..20] == Verdef(enc, 40, 20) && b[20..40] == Verdef(enc, 40, 0xffff_ffec)
  {
    hide Verdef;
    Joined(Verdef(enc, 40, 20), Verdef(enc, 40, 0xffff_ffec));
    Verdef(enc, 40, 20) + Verdef(enc, 40, 0xffff_ffec)
  }

  lemma Joined<T>(a: seq<T>, b: seq<T>)
    ensures (a + b)[0..|a|] == a && (a + b)[|a|..|a| + |b|] == b
  {
  }

  lemma {:induction false} Circles(f: Shape, enc: Encoding, src: seq<byte>, steps: nat)
    requires OneItem20(f, enc, src, 0, 40, 20) && OneItem20(f, enc, src, 20, 40, 0xffff_ffec) && |src| == 40
    ensures SourceRuns(false, f, enc, src, 0, steps).end == Running
  {
    hide FieldsAt, Size, SourceRuns, SourceItems;
    NoSteps(f, enc, src, 0);
    NoSteps(f, enc, src, 20);
    if steps >= 1 {
      RunOf(f, enc, src, 0, 40, 20, steps);
      SameSize(f, 0, 40);
      ItemOf(f, enc, src, 40);
      if steps >= 2 {
        RunOf(f, enc, src, 20, 40, 0xffff_ffec, steps - 1);
        SameSize(f, 0, 60);
        ItemOf(f, enc, src, 60);
        Circles(f, enc, src, steps - 2);
      }
    }
  }

  lemma NoSteps(f: Shape, enc: Encoding, src: seq<byte>, off: nat)
    requires f.Ok()
    ensures SourceRuns(false, f, enc, src, off, 0) == Runs([], Running)
  {
  }

  lemma NeverEnds(enc: Encoding, steps: nat)
    ensures VERDEF.Ok()
    ensures SourceRuns(false, VERDEF, enc, Circle(enc), 0, steps).end == Running
  {
    hide Verdef, SourceRuns, Circle, OneItem20;
    RecordSizes();
    VerdefIs(enc, Circle(enc), 0, 40, 20);
    VerdefIs(enc, Circle(enc), 20, 40, 0xffff_ffec);
    Circles(VERDEF, enc, Circle(enc), steps);
  }
}
