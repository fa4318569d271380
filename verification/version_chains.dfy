/** Version records in the first part of a larger buffer: exactly when their chains are followed the
    same way there. */
module VersionChains {
  import opened Words
  import opened Codec
  import opened Puts
  import opened Versions

  /** The chain of items ends with a zero link or by its count, in the buffer. */
  predicate ItemsClosed(f: Shape, enc: Encoding, src: seq<byte>, off: nat, count: nat)
    requires f.Ok()
    decreases count
  {
    count == 0 ||
    (&& off + Size(f, Item(off)) <= |src| && off % 4 == 0
     && var next := FieldsAt(f, enc, src, Item(off))[f.itemNext];
        next == 0 || ItemsClosed(f, enc, src, off + next, count - 1))
  }

  /** So does the chain of heads, and the chain of items of each. */
  predicate Closed(f: Shape, enc: Encoding, src: seq<byte>, off: nat)
    requires f.Ok()
    decreases |src| - off
  {
    && off + Size(f, Head(off)) <= |src| && off % 4 == 0
    && var vs := FieldsAt(f, enc, src, Head(off));
       && vs[f.version] == 1 && vs[f.cnt] >= 1 && vs[f.aux] != 0
       && ItemsClosed(f, enc, src, off + vs[f.aux], vs[f.cnt])
       && (vs[f.next] == 0 || (off + vs[f.next] <= |src| && Closed(f, enc, src, off + vs[f.next])))
  }

  /** Where the chain of items leaves `src`, there is no room for an item in `n` bytes either. */
  predicate ItemsRunOff(f: Shape, enc: Encoding, src: seq<byte>, n: nat, off: nat, count: nat)
    requires f.Ok()
    decreases count
  {
    count == 0 ||
    if off + Size(f, Item(off)) > |src| then off + Size(f, Item(off)) > n
    else
      var next := FieldsAt(f, enc, src, Item(off))[f.itemNext];
      next == 0 || ItemsRunOff(f, enc, src, n, off + next, count - 1)
  }

  /** Wherever the chains of `src` leave it, there is no room for another record in `n` bytes either. */
  predicate RunsOff(f: Shape, enc: Encoding, src: seq<byte>, n: nat, off: nat)
    requires f.Ok()
    decreases |src| - off
  {
    if off + Size(f, Head(off)) > |src| then off + Size(f, Head(off)) > n
    else
      var vs := FieldsAt(f, enc, src, Head(off));
      && ItemsRunOff(f, enc, src, n, off + vs[f.aux], vs[f.cnt])
      && (vs[f.next] == 0 || RunsOff(f, enc, src, n, off + vs[f.next]))
  }

  // ---- Sufficient conditions ------------------------------------------------------------------------------

  lemma {:induction false} ClosedItemsRunOff(f: Shape, enc: Encoding, src: seq<byte>, n: nat, off: nat, count: nat)
    requires f.Ok() && ItemsClosed(f, enc, src, off, count)
    ensures ItemsRunOff(f, enc, src, n, off, count)
    decreases count
  {
    hide FieldsAt, Size;
    if count > 0 {
      var next := FieldsAt(f, enc, src, Item(off))[f.itemNext];
      if next != 0 {
        ClosedItemsRunOff(f, enc, src, n, off + next, count - 1);
      }
    }
  }

  /** Chains that end by their own links and counts never leave the buffer. */
  lemma {:induction false} ClosedRunsOff(f: Shape, enc: Encoding, src: seq<byte>, n: nat, off: nat)
    requires f.Ok() && Closed(f, enc, src, off)
    ensures RunsOff(f, enc, src, n, off)
    decreases |src| - off
  {
    hide FieldsAt, Size, ItemsClosed, ItemsRunOff;
    var vs := FieldsAt(f, enc, src, Head(off));
    ClosedItemsRunOff(f, enc, src, n, off + vs[f.aux], vs[f.cnt]);
    if vs[f.next] != 0 {
      ClosedRunsOff(f, enc, src, n, off + vs[f.next]);
    }
  }

  lemma {:induction false} AloneItemsRunOff(f: Shape, enc: Encoding, src: seq<byte>, off: nat, count: nat)
    requires f.Ok()
    ensures ItemsRunOff(f, enc, src, |src|, off, count)
    decreases count
  {
    hide FieldsAt, Size;
    if count > 0 && off + Size(f, Item(off)) <= |src| {
      var next := FieldsAt(f, enc, src, Item(off))[f.itemNext];
      if next != 0 {
        AloneItemsRunOff(f, enc, src, off + next, count - 1);
      }
    }
  }

  /** Nor do any where there is nothing else. */
  lemma {:induction false} AloneRunsOff(f: Shape, enc: Encoding, src: seq<byte>, off: nat)
    requires f.Ok()
    ensures RunsOff(f, enc, src, |src|, off)
    decreases |src| - off
  {
    hide FieldsAt, Size, ItemsRunOff;
    if off + Size(f, Head(off)) <= |src| {
      var vs := FieldsAt(f, enc, src, Head(off));
      AloneItemsRunOff(f, enc, src, off + vs[f.aux], vs[f.cnt]);
      if vs[f.next] != 0 {
        AloneRunsOff(f, enc, src, off + vs[f.next]);
      }
    }
  }

  // ---- The larger buffer --------------------------------------------------------------------------------------

  lemma FieldsExtend(f: Shape, enc: Encoding, src: seq<byte>, raw: seq<byte>, v: Visit)
    requires |src| <= |raw| && raw[..|src|] == src && v.off + Size(f, v) <= |src|
    ensures FieldsAt(f, enc, raw, v) == FieldsAt(f, enc, src, v)
  {
    hide Size, LoadFields;
    forall i | 0 <= i < |src| ensures raw[i] == src[i] {
      assert raw[..|src|][i] == raw[i];
    }
    assert raw[v.off..v.off + Size(f, v)] == src[v.off..v.off + Size(f, v)];
  }

  lemma {:induction false} ItemsExtend(f: Shape, enc: Encoding, src: seq<byte>, raw: seq<byte>, off: nat, count: nat)
    requires f.Ok() && |src| <= |raw| && raw[..|src|] == src && ItemsRunOff(f, enc, src, |raw|, off, count)
    ensures ItemWalk(f, enc, raw, off, count) == ItemWalk(f, enc, src, off, count)
    decreases count
  {
    hide FieldsAt, Size;
    if count > 0 && off + Size(f, Item(off)) <= |src| {
      FieldsExtend(f, enc, src, raw, Item(off));
      var next := FieldsAt(f, enc, src, Item(off))[f.itemNext];
      if next != 0 {
        ItemsExtend(f, enc, src, raw, off + next, count - 1);
      }
    }
  }

  /** What follows chains that run off does not matter. */
  lemma {:induction false} WalkExtends(f: Shape, enc: Encoding, src: seq<byte>, raw: seq<byte>, off: nat)
    requires f.Ok() && |src| <= |raw| && raw[..|src|] == src && RunsOff(f, enc, src, |raw|, off)
    ensures FullWalk(f, enc, raw, off) == FullWalk(f, enc, src, off)
    decreases |src| - off
  {
    hide FieldsAt, Size, ItemWalk, ItemsRunOff;
    if off + Size(f, Head(off)) <= |src| {
      FieldsExtend(f, enc, src, raw, Head(off));
      var vs := FieldsAt(f, enc, src, Head(off));
      ItemsExtend(f, enc, src, raw, off + vs[f.aux], vs[f.cnt]);
      if vs[f.next] != 0 {
        WalkExtends(f, enc, src, raw, off + vs[f.next]);
        BeyondEnds(f, enc, src, off + vs[f.next]);
        BeyondEnds(f, enc, raw, off + vs[f.next]);
        NothingAfter([Head(off)] + ItemWalk(f, enc, src, off + vs[f.aux], vs[f.cnt]).visits);
      }
    }
  }

  lemma BeyondEnds(f: Shape, enc: Encoding, src: seq<byte>, off: nat)
    requires f.Ok()
    ensures off > |src| ==> FullWalk(f, enc, src, off) == Walk([], true)
  {
  }

  lemma NothingAfter<T>(a: seq<T>)
    ensures a + [] == a
  {
  }

  /** Some record does not lie in the first `m` bytes. */
  ghost predicate Leaves(f: Shape, m: nat, visits: seq<Visit>) {
    exists v :: v in visits && v.off + Size(f, v) > m
  }

  lemma LeavesConcat(f: Shape, m: nat, a: seq<Visit>, b: seq<Visit>)
    ensures Leaves(f, m, a + b) <==> Leaves(f, m, a) || Leaves(f, m, b)
  {
    hide Size;
    if Leaves(f, m, a) {
      var v :| v in a && v.off + Size(f, v) > m;
      assert v in a + b;
    }
    if Leaves(f, m, b) {
      var v :| v in b && v.off + Size(f, v) > m;
      assert v in a + b;
    }
  }

  lemma LeavesOne(f: Shape, m: nat, v: Visit)
    requires v.off + Size(f, v) > m
    ensures Leaves(f, m, [v])
  {
    assert v in [v];
  }

  lemma {:induction false} ItemsLeave(f: Shape, enc: Encoding, src: seq<byte>, raw: seq<byte>, off: nat, count: nat)
    requires f.Ok() && |src| <= |raw| && raw[..|src|] == src && !ItemsRunOff(f, enc, src, |raw|, off, count)
    ensures var w := ItemWalk(f, enc, raw, off, count);
            !w.ok || Leaves(f, |src|, w.visits)
    decreases count
  {
    hide FieldsAt, Size, Leaves;
    var next := FieldsAt(f, enc, raw, Item(off))[f.itemNext];
    LeavesConcat(f, |src|, [Item(off)], ItemWalk(f, enc, raw, off + next, count - 1).visits);
    if off + Size(f, Item(off)) > |src| {
      LeavesOne(f, |src|, Item(off));
    } else {
      FieldsExtend(f, enc, src, raw, Item(off));
      ItemsLeave(f, enc, src, raw, off + next, count - 1);
    }
  }

  /** Where there is room for another record, the traversal of the larger buffer visits one that is not
      in the first part, or finds the format wrong, whatever the other bytes are. */
  lemma {:induction false} WalkLeaves(f: Shape, enc: Encoding, src: seq<byte>, raw: seq<byte>, off: nat)
    requires f.Ok() && |src| <= |raw| && raw[..|src|] == src && !RunsOff(f, enc, src, |raw|, off)
    ensures var w := FullWalk(f, enc, raw, off);
            !w.ok || Leaves(f, |src|, w.visits)
    decreases |src| - off
  {
    hide FieldsAt, Size, ItemWalk, ItemsRunOff, Leaves;
    var vs := FieldsAt(f, enc, raw, Head(off));
    var items := ItemWalk(f, enc, raw, off + vs[f.aux], vs[f.cnt]);
    var here := [Head(off)] + items.visits;
    LeavesConcat(f, |src|, [Head(off)], items.visits);
    if off + Size(f, Head(off)) > |src| {
      LeavesOne(f, |src|, Head(off));
      AnyRest(f, enc, src, raw, off + vs[f.next], here);
    } else {
      FieldsExtend(f, enc, src, raw, Head(off));
      if !ItemsRunOff(f, enc, src, |raw|, off + vs[f.aux], vs[f.cnt]) {
        ItemsLeave(f, enc, src, raw, off + vs[f.aux], vs[f.cnt]);
      } else {
        WalkLeaves(f, enc, src, raw, off + vs[f.next]);
        BeyondEnds(f, enc, raw, off + vs[f.next]);
      }
      AnyRest(f, enc, src, raw, off + vs[f.next], here);
    }
  }

  lemma AnyRest(f: Shape, enc: Encoding, src: seq<byte>, raw: seq<byte>, z: nat, here: seq<Visit>)
    requires f.Ok()
    ensures Leaves(f, |src|, here + FullWalk(f, enc, raw, z).visits)
            <==> Leaves(f, |src|, here) || Leaves(f, |src|, FullWalk(f, enc, raw, z).visits)
    ensures Leaves(f, |src|, []) <==> false
  {
    hide FullWalk;
    LeavesConcat(f, |src|, here, FullWalk(f, enc, raw, z).visits);
  }

  /** A larger buffer is walked as its first part exactly if the chains of that run off. */
  lemma ExtendsExactly(f: Shape, enc: Encoding, src: seq<byte>, raw: seq<byte>)
    requires f.Ok() && Total(f.head) > 0 && |src| <= |raw| && raw[..|src|] == src && FullWalk(f, enc, src, 0).ok
    ensures FullWalk(f, enc, raw, 0) == FullWalk(f, enc, src, 0) <==> RunsOff(f, enc, src, |raw|, 0)
    ensures !RunsOff(f, enc, src, |raw|, 0) ==> !FullWalk(f, enc, raw, 0).ok || Leaves(f, |src|, FullWalk(f, enc, raw, 0).visits)
  {
    hide FullWalk, RunsOff, Size, Total;
    if RunsOff(f, enc, src, |raw|, 0) {
      WalkExtends(f, enc, src, raw, 0);
    } else {
      WalkLeaves(f, enc, src, raw, 0);
      WalkInside(f, enc, src, 0);
    }
  }

  // ---- The other byte order -------------------------------------------------------------------------------------

  lemma {:induction false} ItemsRunOffToo(f: Shape, from: Encoding, to: Encoding, src: seq<byte>, dst: seq<byte>, n: nat, off: nat, count: nat)
    requires f.Ok() && |src| == |dst| && ItemWalk(f, from, src, off, count).ok
    requires AllSame(f, from, to, src, dst, ItemWalk(f, from, src, off, count).visits)
    ensures ItemsRunOff(f, to, dst, n, off, count) <==> ItemsRunOff(f, from, src, n, off, count)
    decreases count
  {
    hide AllSame, FieldsAt, Size;
    if count > 0 && off + Size(f, Item(off)) <= |src| {
      var next := FieldsAt(f, from, src, Item(off))[f.itemNext];
      if next != 0 {
        AllSameSplit(f, from, to, src, dst, [Item(off)], ItemWalk(f, from, src, off + next, count - 1).visits);
        ItemsRunOffToo(f, from, to, src, dst, n, off + next, count - 1);
      }
      AllSameOne(f, from, to, src, dst, Item(off));
    }
  }

  lemma {:induction false} RunsOffToo(f: Shape, from: Encoding, to: Encoding, src: seq<byte>, dst: seq<byte>, n: nat, off: nat)
    requires f.Ok() && |src| == |dst| && FullWalk(f, from, src, off).ok
    requires AllSame(f, from, to, src, dst, FullWalk(f, from, src, off).visits)
    ensures RunsOff(f, to, dst, n, off) <==> RunsOff(f, from, src, n, off)
    decreases |src| - off
  {
    hide AllSame, FieldsAt, Size, ItemWalk, ItemsRunOff;
    if off + Size(f, Head(off)) <= |src| {
      var vs := FieldsAt(f, from, src, Head(off));
      var items := ItemWalk(f, from, src, off + vs[f.aux], vs[f.cnt]);
      var here := [Head(off)] + items.visits;
      if vs[f.next] != 0 {
        BeyondEnds(f, from, src, off + vs[f.next]);
        NothingSame(f, from, to, src, dst);
        if off + vs[f.next] <= |src| {
          AllSameSplit(f, from, to, src, dst, here, FullWalk(f, from, src, off + vs[f.next]).visits);
        }
        RunsOffToo(f, from, to, src, dst, n, off + vs[f.next]);
      }
      AllSameSplit(f, from, to, src, dst, [Head(off)], items.visits);
      AllSameOne(f, from, to, src, dst, Head(off));
      ItemsRunOffToo(f, from, to, src, dst, n, off + vs[f.aux], vs[f.cnt]);
    }
  }

  lemma NothingSame(f: Shape, from: Encoding, to: Encoding, src: seq<byte>, dst: seq<byte>)
    ensures AllSame(f, from, to, src, dst, [])
  {
  }

  /** The translation of a record depends only on its own bytes. */
  lemma TranslatedExtends(f: Shape, from: Encoding, to: Encoding, src: seq<byte>, raw: seq<byte>, v: Visit)
    requires |src| <= |raw| && raw[..|src|] == src && v.off + Size(f, v) <= |src|
    ensures Translated(f, from, to, raw, v) == Translated(f, from, to, src, v)
  {
    hide Size, FieldsAt, StoreFields;
    FieldsExtend(f, from, src, raw, v);
  }

  /** To file, into the first part of a larger buffer: that is walked from file as the first part was
      in memory exactly if the chains of the first part run off the larger buffer too. */
  lemma SameVisits(f: Shape, host: Encoding, file: Encoding, src: seq<byte>, dst: seq<byte>, raw: seq<byte>)
    requires f.Ok() && Total(f.head) > 0 && |src| == |dst| <= |raw|
    requires raw[..|src|] == Pass(f, host, file, src, dst)
    requires FullWalk(f, host, src, 0).ok && Proper(f, FullWalk(f, host, src, 0).visits)
    ensures FullWalk(f, file, raw, 0) == FullWalk(f, host, src, 0) <==> RunsOff(f, host, src, |raw|, 0)
    ensures !RunsOff(f, host, src, |raw|, 0) ==> !FullWalk(f, file, raw, 0).ok || Leaves(f, |src|, FullWalk(f, file, raw, 0).visits)
  {
    hide Pass, FullWalk, Total, Size, FieldsAt, Translated, Proper, RunsOff;
    var visits, written := FullWalk(f, host, src, 0).visits, Pass(f, host, file, src, dst);
    forall k | 0 <= k < |visits| ensures SameFields(f, host, file, src, written, visits[k]) {
      PassStoresFields(f, host, file, src, dst, k);
    }
    SameWalk(f, host, file, src, written, 0);
    RunsOffToo(f, host, file, src, written, |raw|, 0);
    ExtendsExactly(f, file, written, raw);
  }

  /** Byte `i` is in none of the records. */
  ghost predicate Unvisited(f: Shape, visits: seq<Visit>, i: nat) {
    forall v :: v in visits ==> i < v.off || v.off + Size(f, v) <= i
  }

  /** `out` has the record of `src` at `v`. */
  predicate SameRecord(f: Shape, src: seq<byte>, out: seq<byte>, v: Visit) {
    v.off + Size(f, v) <= |src| <= |out| && out[v.off..v.off + Size(f, v)] == src[v.off..v.off + Size(f, v)]
  }

  /** `out` has the given records of `src`, and is what `back` was everywhere else. */
  ghost predicate Restored(f: Shape, src: seq<byte>, visits: seq<Visit>, out: seq<byte>, back: seq<byte>) {
    && |src| <= |out| == |back|
    && (forall v :: v in visits ==> SameRecord(f, src, out, v))
    && (forall i :: 0 <= i < |back| && Unvisited(f, visits, i) ==> out[i] == back[i])
  }

  lemma VisitRestored(f: Shape, host: Encoding, file: Encoding, src: seq<byte>, dst: seq<byte>, raw: seq<byte>, back: seq<byte>, k: nat)
    requires f.Ok() && Total(f.head) > 0 && |src| == |dst| <= |raw| == |back|
    requires raw[..|src|] == Pass(f, host, file, src, dst)
    requires Proper(f, FullWalk(f, host, src, 0).visits) && k < |FullWalk(f, host, src, 0).visits|
    requires FullWalk(f, file, raw, 0) == FullWalk(f, host, src, 0)
    ensures SameRecord(f, src, Pass(f, file, host, raw, back), FullWalk(f, host, src, 0).visits[k])
  {
    hide Pass, FullWalk, Total, Size, FieldsAt, Translated, Proper, Widths;
    var v, written := FullWalk(f, host, src, 0).visits[k], Pass(f, host, file, src, dst);
    PassStoresFields(f, host, file, src, dst, k);
    PassStoresFields(f, file, host, raw, back, k);
    TranslatedExtends(f, file, host, written, raw, v);
    BackTranslated(f, host, file, src, written, v);
  }

  /** And then the pass from file restores every visited byte and leaves all others as they were. */
  lemma PassRestores(f: Shape, host: Encoding, file: Encoding, src: seq<byte>, dst: seq<byte>, raw: seq<byte>, back: seq<byte>)
    requires f.Ok() && Total(f.head) > 0 && |src| == |dst| <= |raw| == |back|
    requires raw[..|src|] == Pass(f, host, file, src, dst)
    requires Proper(f, FullWalk(f, host, src, 0).visits)
    requires FullWalk(f, file, raw, 0) == FullWalk(f, host, src, 0)
    ensures Restored(f, src, FullWalk(f, host, src, 0).visits, Pass(f, file, host, raw, back), back)
  {
    hide Pass, FullWalk, Total, Size, Proper, Widths, Unvisited, SameRecord;
    var visits, out := FullWalk(f, host, src, 0).visits, Pass(f, file, host, raw, back);
    forall v | v in visits
      ensures SameRecord(f, src, out, v)
    {
      var k :| 0 <= k < |visits| && visits[k] == v;
      VisitRestored(f, host, file, src, dst, raw, back, k);
    }
    forall i | 0 <= i < |back| && Unvisited(f, visits, i) ensures out[i] == back[i] {
      UnvisitedKeeps(f, file, host, raw, back, i);
    }
  }

  /** A byte of a visited record does not depend on what was there. */
  lemma VisitedOverwrites(f: Shape, from: Encoding, to: Encoding, src: seq<byte>, a: seq<byte>, b: seq<byte>, v: Visit, i: nat)
    requires f.Ok() && Total(f.head) > 0 && |src| == |a| == |b| && i < |src|
    requires v in FullWalk(f, from, src, 0).visits && v.off <= i < v.off + Size(f, v)
    ensures Pass(f, from, to, src, a)[i] == Pass(f, from, to, src, b)[i]
  {
    hide FullWalk, Total, Size, Apply;
    WalkInside(f, from, src, 0);
    var visits := FullWalk(f, from, src, 0).visits;
    var k :| 0 <= k < |visits| && visits[k] == v;
    Overwritten(a, b, Translation(f, from, to, src, visits), k, i);
  }

  /** If the larger buffer is read, a record beyond the first part changes what no record of the first
      part has. */
  lemma LeavingChanges(f: Shape, file: Encoding, host: Encoding, src: seq<byte>, visits: seq<Visit>, raw: seq<byte>) returns (back: seq<byte>)
    requires f.Ok() && Total(f.head) > 0 && Total(f.item) > 0 && |src| <= |raw|
    requires Inside(f, |src|, visits) && Leaves(f, |src|, FullWalk(f, file, raw, 0).visits)
    ensures |back| == |raw| && !Restored(f, src, visits, Pass(f, file, host, raw, back), back)
  {
    hide Pass, FullWalk, Total;
    WalkInside(f, file, raw, 0);
    var v :| v in FullWalk(f, file, raw, 0).visits && v.off + Size(f, v) > |src|;
    var i := v.off + Size(f, v) - 1;
    var zeros, ones := seq(|raw|, _ => 0), seq(|raw|, _ => 1);
    VisitedOverwrites(f, file, host, raw, zeros, ones, v, i);
    back := if Pass(f, file, host, raw, zeros)[i] == 0 then ones else zeros;
    assert Pass(f, file, host, raw, back)[i] != back[i];
    forall w | w in visits ensures w.off + Size(f, w) <= i {
      var k :| 0 <= k < |visits| && visits[k] == w;
    }
  }

  /** The pass from file restores the first part and nothing else. */
  ghost predicate ReadsBack(f: Shape, host: Encoding, file: Encoding, src: seq<byte>, raw: seq<byte>, back: seq<byte>)
    requires f.Ok() && Total(f.head) > 0 && |raw| == |back|
  {
    FullWalk(f, file, raw, 0).ok && Restored(f, src, FullWalk(f, host, src, 0).visits, Pass(f, file, host, raw, back), back)
  }

  /** To file, into the first part of a larger buffer, and back: the second pass visits the same records
      in the same order exactly if the chains of the first part run off the larger buffer too; and exactly
      then it restores every visited byte and leaves all others as they were, whatever those were. */
  lemma PassesExtend(f: Shape, host: Encoding, file: Encoding, src: seq<byte>, dst: seq<byte>, raw: seq<byte>)
    requires f.Ok() && Total(f.head) > 0 && Total(f.item) > 0 && |src| == |dst| <= |raw|
    requires raw[..|src|] == Pass(f, host, file, src, dst)
    requires FullWalk(f, host, src, 0).ok && Proper(f, FullWalk(f, host, src, 0).visits)
    ensures FullWalk(f, file, raw, 0) == FullWalk(f, host, src, 0) <==> RunsOff(f, host, src, |raw|, 0)
    ensures (forall back: seq<byte> :: |back| == |raw| ==> ReadsBack(f, host, file, src, raw, back)) <==> RunsOff(f, host, src, |raw|, 0)
  {
    hide Pass, FullWalk, Total, Size, Proper, RunsOff, Restored, Leaves;
    SameVisits(f, host, file, src, dst, raw);
    WalkInside(f, host, src, 0);
    if RunsOff(f, host, src, |raw|, 0) {
      forall back: seq<byte> | |back| == |raw| ensures ReadsBack(f, host, file, src, raw, back) {
        PassRestores(f, host, file, src, dst, raw, back);
      }
    } else {
      var back := seq(|raw|, _ => 0);
      if FullWalk(f, file, raw, 0).ok {
        back := LeavingChanges(f, file, host, src, FullWalk(f, host, src, 0).visits, raw);
      }
      assert !ReadsBack(f, host, file, src, raw, back);
    }
  }

  lemma UnvisitedKeeps(f: Shape, from: Encoding, to: Encoding, src: seq<byte>, dst: seq<byte>, i: nat)
    requires f.Ok() && Total(f.head) > 0 && |src| == |dst| && i < |dst|
    requires Unvisited(f, FullWalk(f, from, src, 0).visits, i)
    ensures Pass(f, from, to, src, dst)[i] == dst[i]
  {
    hide FullWalk, Total, Size, FieldsAt, Apply;
    WalkInside(f, from, src, 0);
    var visits := FullWalk(f, from, src, 0).visits;
    var puts := Translation(f, from, to, src, visits);
    forall k | 0 <= k < |puts| ensures !Covers(puts[k], i) {
      assert visits[k] in visits;
    }
    Uncovered(dst, puts, i);
  }
}
