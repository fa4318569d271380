/** Where translation between byte orders moves each byte, and when a part of an array that does not
    start at an element boundary can be read back. */
module Mirrors {
  import opened Words
  import opened Codec
  import opened Records

  /** Byte `i` of an element comes from this byte: in the other order each field is turned around. */
  function PlaceIn(ws: seq<nat>, same: bool, i: nat): (p: nat)
    requires i < Total(ws)
    ensures p < Total(ws)
  {
    if i < ws[0] then if same then i else ws[0] - 1 - i
    else ws[0] + PlaceIn(ws[1..], same, i - ws[0])
  }

  /** The same for an array of elements. */
  function Place(ws: seq<nat>, same: bool, i: nat): nat
    requires Total(ws) > 0
  {
    if i < Total(ws) then PlaceIn(ws, same, i) else Total(ws) + Place(ws, same, i - Total(ws))
  }

  lemma Loaded(b: seq<byte>)
    requires b != []
    ensures LoadInt(Lsb, b) == b[0] as nat + 0x100 * LoadInt(Lsb, b[1..])
    ensures LoadInt(Msb, b) == b[|b| - 1] as nat + 0x100 * LoadInt(Msb, b[..|b| - 1])
  {
  }

  lemma Stored(w: nat, v: nat, x: byte, q: nat)
    requires w > 0 && v == x as nat + 0x100 * q
    ensures StoreInt(Msb, w, v) == StoreInt(Msb, w - 1, q) + [x]
    ensures StoreInt(Lsb, w, v) == [x] + StoreInt(Lsb, w - 1, q)
  {
    LowByte(x, q);
    assert v % 0x100 == x && v / 0x100 == q;
  }

  lemma Turned(b: seq<byte>)
    requires b != []
    ensures StoreInt(Msb, |b|, LoadInt(Lsb, b)) == StoreInt(Msb, |b| - 1, LoadInt(Lsb, b[1..])) + [b[0]]
    ensures StoreInt(Lsb, |b|, LoadInt(Msb, b)) == [b[|b| - 1]] + StoreInt(Lsb, |b| - 1, LoadInt(Msb, b[..|b| - 1]))
  {
    hide StoreInt, LoadInt;
    Loaded(b);
    Stored(|b|, LoadInt(Lsb, b), b[0], LoadInt(Lsb, b[1..]));
    Stored(|b|, LoadInt(Msb, b), b[|b| - 1], LoadInt(Msb, b[..|b| - 1]));
  }

  lemma {:induction false} IntAt(from: Encoding, to: Encoding, b: seq<byte>, i: nat)
    requires i < |b|
    ensures StoreInt(to, |b|, LoadInt(from, b))[i] == b[if from == to then i else |b| - 1 - i]
  {
    hide StoreInt, LoadInt;
    if from == to {
      StoreLoaded(from, b);
    } else if from == Lsb {
      Turned(b);
      if i < |b| - 1 { IntAt(from, to, b[1..], i); }
    } else {
      Turned(b);
      if i > 0 { IntAt(from, to, b[..|b| - 1], i - 1); }
    }
  }

  lemma FirstField(ws: seq<nat>, from: Encoding, to: Encoding, b: seq<byte>)
    requires ws != [] && |b| == Total(ws)
    ensures Swap(ws, from, to, b) == StoreInt(to, ws[0], LoadInt(from, b[..ws[0]])) + Swap(ws[1..], from, to, b[ws[0]..])
  {
    hide StoreInt, LoadInt;
    var vs := LoadFields(from, ws, b);
    assert vs[1..] == LoadFields(from, ws[1..], b[ws[0]..]);
  }

  lemma {:induction false} SwapAt(ws: seq<nat>, from: Encoding, to: Encoding, b: seq<byte>, i: nat)
    requires i < |b| == Total(ws)
    ensures Swap(ws, from, to, b)[i] == b[PlaceIn(ws, from == to, i)]
  {
    hide StoreInt, LoadInt, Swap;
    FirstField(ws, from, to, b);
    if i < ws[0] {
      IntAt(from, to, b[..ws[0]], i);
    } else {
      SwapAt(ws[1..], from, to, b[ws[0]..], i - ws[0]);
    }
  }

  /** Translation moves each byte to where the byte order has it. */
  lemma {:induction false} XlateAt(ws: seq<nat>, from: Encoding, to: Encoding, b: seq<byte>, i: nat)
    requires Total(ws) > 0 && i < Whole(Total(ws), |b|)
    ensures Place(ws, from == to, i) < Whole(Total(ws), |b|)
    ensures Xlate(ws, from, to, b)[i] == b[Place(ws, from == to, i)]
    decreases |b|
  {
    hide Total, Swap, PlaceIn;
    var s := Total(ws);
    if i < s {
      SwapAt(ws, from, to, b[..s], i);
    } else {
      XlateAt(ws, from, to, b[s..], i - s);
    }
  }

  lemma {:induction false} PlaceInBack(ws: seq<nat>, same: bool, i: nat)
    requires i < Total(ws)
    ensures PlaceIn(ws, same, PlaceIn(ws, same, i)) == i
  {
    if i >= ws[0] { PlaceInBack(ws[1..], same, i - ws[0]); }
  }

  /** Going there twice is going nowhere. */
  lemma {:induction false} PlaceBack(ws: seq<nat>, same: bool, i: nat)
    requires Total(ws) > 0
    ensures Place(ws, same, Place(ws, same, i)) == i
  {
    hide Total, PlaceIn;
    if i < Total(ws) {
      PlaceInBack(ws, same, i);
    } else {
      PlaceBack(ws, same, i - Total(ws));
    }
  }

  lemma {:induction false} PlaceInside(ws: seq<nat>, same: bool, i: nat, n: nat)
    requires Total(ws) > 0 && i < n && Whole(Total(ws), n) == n
    ensures Place(ws, same, i) < n
  {
    hide Total, PlaceIn;
    if i >= Total(ws) { PlaceInside(ws, same, i - Total(ws), n - Total(ws)); }
  }

  lemma {:induction false} SameInPlace(ws: seq<nat>, i: nat)
    requires i < Total(ws)
    ensures PlaceIn(ws, true, i) == i
  {
    if i >= ws[0] { SameInPlace(ws[1..], i - ws[0]); }
  }

  /** In one order every byte stays. */
  lemma {:induction false} SamePlace(ws: seq<nat>, i: nat)
    requires Total(ws) > 0
    ensures Place(ws, true, i) == i
  {
    hide Total, PlaceIn;
    if i < Total(ws) { SameInPlace(ws, i); } else { SamePlace(ws, i - Total(ws)); }
  }

  // ---- A part that is read back -------------------------------------------------------------------------------

  /** Byte `m` from `off` on moves as it does from the beginning. */
  predicate Moves(ws: seq<nat>, same: bool, off: nat, m: nat)
    requires Total(ws) > 0
  {
    Place(ws, same, off + m) == off + Place(ws, same, m)
  }

  /** Or the bytes of `raw` do not tell the difference. */
  predicate Match(ws: seq<nat>, same: bool, raw: seq<byte>, off: nat, m: nat)
    requires Total(ws) > 0
  {
    && Place(ws, same, off + m) < |raw| && off + Place(ws, same, m) < |raw|
    && raw[Place(ws, same, off + m)] == raw[off + Place(ws, same, m)]
  }

  predicate Fitted(ws: seq<nat>, same: bool, off: nat, n: nat)
    requires Total(ws) > 0
  {
    forall m :: 0 <= m < n ==> Moves(ws, same, off, m)
  }

  predicate Matches(ws: seq<nat>, same: bool, raw: seq<byte>, off: nat, n: nat)
    requires Total(ws) > 0
  {
    forall m :: 0 <= m < n ==> Match(ws, same, raw, off, m)
  }

  /** So they do at an element boundary. */
  lemma {:induction false} BoundaryMoves(ws: seq<nat>, same: bool, off: nat, m: nat)
    requires Total(ws) > 0 && Whole(Total(ws), off) == off
    ensures Moves(ws, same, off, m)
  {
    hide Total, PlaceIn;
    if off > 0 { BoundaryMoves(ws, same, off - Total(ws), m); }
  }

  /** Byte `m` of `mem` is in `raw` where translation back looks for it, or at another place. */
  lemma FoundAt(ws: seq<nat>, host: Encoding, enc: Encoding, same: bool, raw: seq<byte>, mem: seq<byte>, off: nat, n: nat, m: nat)
    requires same == (enc == host) && m < n
    requires Total(ws) > 0 && n == Whole(Total(ws), |mem|) && off + n <= Whole(Total(ws), |raw|)
    requires raw[off..off + n] == Xlate(ws, host, enc, mem)
    ensures off + n <= |Xlate(ws, enc, host, raw)|
    ensures Xlate(ws, enc, host, raw)[off + m] == mem[m] <==> Match(ws, same, raw, off, m)
  {
    hide Total, Whole, Xlate, Place;
    XlateAt(ws, enc, host, raw, off + m);
    XlateAt(ws, host, enc, mem, m);
    var p := Place(ws, same, m);
    XlateAt(ws, host, enc, mem, p);
    PlaceBack(ws, same, m);
    assert raw[off..off + n][p] == raw[off + p];
  }

  /** An array that has the translation of `mem` at `off` gives it back exactly if its bytes match. */
  lemma FoundExactly(ws: seq<nat>, host: Encoding, enc: Encoding, same: bool, raw: seq<byte>, mem: seq<byte>, off: nat, n: nat)
    requires same == (enc == host)
    requires Total(ws) > 0 && n == Whole(Total(ws), |mem|) && off + n <= Whole(Total(ws), |raw|)
    requires raw[off..off + n] == Xlate(ws, host, enc, mem)
    ensures off + n <= |Xlate(ws, enc, host, raw)|
    ensures Xlate(ws, enc, host, raw)[off..off + n] == mem[..n] <==> Matches(ws, same, raw, off, n)
  {
    hide Total, Whole, Xlate, Place, Match;
    var x, y := Xlate(ws, enc, host, raw)[off..off + n], mem[..n];
    forall m: nat | m < n
      ensures x[m] == y[m] <==> Match(ws, same, raw, off, m)
    {
      FoundAt(ws, host, enc, same, raw, mem, off, n, m);
    }
    if Matches(ws, same, raw, off, n) {
      forall m: nat | m < n ensures x[m] == y[m] {
        assert Match(ws, same, raw, off, m);
      }
    } else {
      var m: nat :| m < n && !Match(ws, same, raw, off, m);
      assert x[m] != y[m];
    }
  }

  /** Bytes that move as from the beginning match, whatever they are. */
  lemma FittedMatches(ws: seq<nat>, same: bool, raw: seq<byte>, off: nat, n: nat)
    requires Total(ws) > 0 && off + n <= |raw| && Whole(Total(ws), n) == n && Fitted(ws, same, off, n)
    ensures Matches(ws, same, raw, off, n)
  {
    hide Total, Place;
    forall m: nat | m < n ensures Match(ws, same, raw, off, m) {
      assert Moves(ws, same, off, m);
      PlaceInside(ws, same, m, n);
    }
  }

  /** `img` in `around`, from `off` on. */
  function Spliced(around: seq<byte>, off: nat, img: seq<byte>): (raw: seq<byte>)
    requires off + |img| <= |around|
    ensures |raw| == |around| && raw[off..off + |img|] == img
    ensures forall i :: 0 <= i < |around| ==> raw[i] == if off <= i < off + |img| then img[i - off] else around[i]
  {
    around[..off] + img + around[off + |img|..]
  }

  /** `mem` is given back from `off` in `around`. */
  predicate GivenBack(ws: seq<nat>, host: Encoding, enc: Encoding, around: seq<byte>, off: nat, mem: seq<byte>)
    requires Total(ws) > 0 && Whole(Total(ws), |mem|) == |mem| && off + |mem| <= Whole(Total(ws), |around|)
  {
    Xlate(ws, enc, host, Spliced(around, off, Xlate(ws, host, enc, mem)))[off..off + |mem|] == mem
  }

  lemma FittedGivesBack(ws: seq<nat>, host: Encoding, enc: Encoding, same: bool, around: seq<byte>, off: nat, mem: seq<byte>)
    requires same == (enc == host) && Total(ws) > 0 && Fitted(ws, same, off, |mem|)
    requires Whole(Total(ws), |mem|) == |mem| && off + |mem| <= Whole(Total(ws), |around|)
    ensures GivenBack(ws, host, enc, around, off, mem)
  {
    hide Total, Whole, Xlate, Spliced, Fitted, Matches;
    var raw := Spliced(around, off, Xlate(ws, host, enc, mem));
    FittedMatches(ws, same, raw, off, |mem|);
    FoundExactly(ws, host, enc, same, raw, mem, off, |mem|);
    assert mem[..|mem|] == mem;
  }

  /** An image that is zero but for byte `p`. */
  function OneByte(n: nat, p: nat, c: byte): (img: seq<byte>)
    requires p < n
    ensures |img| == n && img[p] == c && forall i :: 0 <= i < n && i != p ==> img[i] == 0
  {
    seq(n, i => if i == p then c else 0)
  }

  /** A value for it that is not the one at `q`, which is somewhere else. */
  lemma Differs(around: seq<byte>, off: nat, n: nat, p: nat, q: nat) returns (c: byte)
    requires p < n && off + n <= |around| && q < |around| && q != off + p
    ensures var raw := Spliced(around, off, OneByte(n, p, c)); raw[off + p] != raw[q]
  {
    c := if (q < off || off + n <= q) && around[q] == 1 then 0 else 1;
    var raw := Spliced(around, off, OneByte(n, p, c));
    assert off <= q < off + n ==> raw[q] == 0;
  }

  /** Contents that are not given back where a byte does not move as from the beginning. */
  lemma LostContents(ws: seq<nat>, host: Encoding, enc: Encoding, same: bool, around: seq<byte>, off: nat, n: nat, m: nat)
    returns (mem: seq<byte>)
    requires same == (enc == host)
    requires Total(ws) > 0 && Whole(Total(ws), n) == n && off + n <= Whole(Total(ws), |around|)
    requires m < n && !Moves(ws, same, off, m)
    ensures |mem| == n && !GivenBack(ws, host, enc, around, off, mem)
  {
    hide Total, Whole, Xlate, Place, Spliced, OneByte;
    XlateAt(ws, enc, host, around, off + m);
    PlaceInside(ws, same, m, n);
    var q, p := Place(ws, same, off + m), Place(ws, same, m);
    var c := Differs(around, off, n, p, q);
    var img := OneByte(n, p, c);
    mem := Xlate(ws, enc, host, img);
    XlateBack(ws, enc, host, img);
    assert img[..n] == img && mem[..n] == mem;
    assert !Match(ws, same, Spliced(around, off, img), off, m);
    FoundExactly(ws, host, enc, same, Spliced(around, off, img), mem, off, n);
  }

  /** Whatever else is in the array, contents of every kind are given back exactly where bytes move as
      they do from the beginning. */
  lemma FoundWhatever(ws: seq<nat>, host: Encoding, enc: Encoding, same: bool, around: seq<byte>, off: nat, n: nat)
    requires same == (enc == host)
    requires Total(ws) > 0 && Whole(Total(ws), n) == n && off + n <= Whole(Total(ws), |around|)
    ensures (forall mem: seq<byte> :: |mem| == n ==> GivenBack(ws, host, enc, around, off, mem)) <==> Fitted(ws, same, off, n)
  {
    hide Total, Whole, Xlate, Place, Moves, GivenBack;
    if Fitted(ws, same, off, n) {
      forall mem: seq<byte> | |mem| == n ensures GivenBack(ws, host, enc, around, off, mem) {
        FittedGivesBack(ws, host, enc, same, around, off, mem);
      }
    } else {
      var m: nat :| m < n && !Moves(ws, same, off, m);
      var mem := LostContents(ws, host, enc, same, around, off, n, m);
    }
  }
}
