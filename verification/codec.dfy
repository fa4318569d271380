/** External representations: libelf/byteswap.h and the record translators of
    libelf/32.xlatetof.c, for both byte orders. */
module Codec {
  import opened Words

  datatype Encoding = Lsb | Msb

  // ---- Integers of a given width --------------------------------------------------------------------

  function Limit(w: nat): (l: nat)
    ensures l > 0
  {
    if w == 0 then 1 else 0x100 * Limit(w - 1)
  }

  /** `__store_u16L`, `__store_u32M`, ...: the bytes of `v` in the given order. */
  function StoreInt(enc: Encoding, w: nat, v: nat): (b: seq<byte>)
    ensures |b| == w
  {
    if w == 0 then []
    else if enc == Lsb then [v % 0x100] + StoreInt(enc, w - 1, v / 0x100)
    else StoreInt(enc, w - 1, v / 0x100) + [v % 0x100]
  }

  /** `__load_u16L`, `__load_u32M`, ... */
  function LoadInt(enc: Encoding, b: seq<byte>): nat {
    if b == [] then 0
    else if enc == Lsb then b[0] as nat + 0x100 * LoadInt(enc, b[1..])
    else b[|b| - 1] as nat + 0x100 * LoadInt(enc, b[..|b| - 1])
  }

  lemma {:induction false} LoadBound(enc: Encoding, b: seq<byte>)
    ensures LoadInt(enc, b) < Limit(|b|)
  {
    if b != [] {
      LoadBound(enc, if enc == Lsb then b[1..] else b[..|b| - 1]);
    }
  }

  lemma {:induction false} LoadStored(enc: Encoding, w: nat, v: nat)
    requires v < Limit(w)
    ensures LoadInt(enc, StoreInt(enc, w, v)) == v
  {
    if w > 0 {
      LoadStored(enc, w - 1, v / 0x100);
      var b := StoreInt(enc, w, v);
      if enc == Lsb {
        assert b[1..] == StoreInt(enc, w - 1, v / 0x100);
      } else {
        assert b[..|b| - 1] == StoreInt(enc, w - 1, v / 0x100);
      }
    }
  }

  lemma {:induction false} StoreLoaded(enc: Encoding, b: seq<byte>)
    ensures StoreInt(enc, |b|, LoadInt(enc, b)) == b
  {
    if b != [] {
      if enc == Lsb {
        StoreLoaded(enc, b[1..]);
        LowByte(b[0], LoadInt(enc, b[1..]));
        assert b == [b[0]] + b[1..];
      } else {
        StoreLoaded(enc, b[..|b| - 1]);
        LowByte(b[|b| - 1], LoadInt(enc, b[..|b| - 1]));
        assert b == b[..|b| - 1] + [b[|b| - 1]];
      }
    }
  }

  lemma LowByte(x: byte, y: nat)
    ensures (x as nat + 0x100 * y) % 0x100 == x && (x as nat + 0x100 * y) / 0x100 == y
  {
  }

  // ---- Records: fields of given widths ----------------------------------------------------------------

  function Total(ws: seq<nat>): nat {
    if ws == [] then 0 else ws[0] + Total(ws[1..])
  }

  predicate Fit(ws: seq<nat>, vs: seq<nat>) {
    |vs| == |ws| && forall i :: 0 <= i < |ws| ==> vs[i] < Limit(ws[i])
  }

  function StoreFields(enc: Encoding, ws: seq<nat>, vs: seq<nat>): (b: seq<byte>)
    requires |vs| == |ws|
    ensures |b| == Total(ws)
  {
    if ws == [] then [] else StoreInt(enc, ws[0], vs[0]) + StoreFields(enc, ws[1..], vs[1..])
  }

  function LoadFields(enc: Encoding, ws: seq<nat>, b: seq<byte>): (vs: seq<nat>)
    requires |b| == Total(ws)
    ensures |vs| == |ws|
  {
    if ws == [] then [] else [LoadInt(enc, b[..ws[0]])] + LoadFields(enc, ws[1..], b[ws[0]..])
  }

  lemma {:induction false} LoadStoredFields(enc: Encoding, ws: seq<nat>, vs: seq<nat>)
    requires Fit(ws, vs)
    ensures LoadFields(enc, ws, StoreFields(enc, ws, vs)) == vs
  {
    hide StoreInt, LoadInt, Limit;
    if ws != [] {
      var b := StoreFields(enc, ws, vs);
      assert b[..ws[0]] == StoreInt(enc, ws[0], vs[0]);
      assert b[ws[0]..] == StoreFields(enc, ws[1..], vs[1..]);
      LoadStored(enc, ws[0], vs[0]);
      LoadStoredFields(enc, ws[1..], vs[1..]);
    }
  }

  lemma {:induction false} StoreLoadedFields(enc: Encoding, ws: seq<nat>, b: seq<byte>)
    requires |b| == Total(ws)
    ensures StoreFields(enc, ws, LoadFields(enc, ws, b)) == b
    ensures Fit(ws, LoadFields(enc, ws, b))
  {
    hide StoreInt, LoadInt, Limit;
    if ws != [] {
      LoadBound(enc, b[..ws[0]]);
      StoreLoaded(enc, b[..ws[0]]);
      StoreLoadedFields(enc, ws[1..], b[ws[0]..]);
      var vs := LoadFields(enc, ws, b);
      assert vs[1..] == LoadFields(enc, ws[1..], b[ws[0]..]);
      forall i | 0 <= i < |ws| ensures vs[i] < Limit(ws[i]) {
        if i > 0 { assert vs[i] == vs[1..][i - 1] && ws[i] == ws[1..][i - 1]; }
      }
    }
  }
}
