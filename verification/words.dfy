/** 32-bit words, bytes, and big-endian access to a byte memory. */
module Words {

  type u32 = x: int | 0 <= x < 0x1_0000_0000
  type byte = x: int | 0 <= x < 0x100

  datatype Option<+T> = None | Some(value: T)

  /** Unsigned 32-bit arithmetic wraps around. */
  function Wrap(x: int): u32 { x % 0x1_0000_0000 }

  function Plus(x: int, y: int): u32 { Wrap(x + y) }

  function Minus(x: int, y: int): u32 { Wrap(x - y) }

  /** Sums can be taken before or after wrapping. */
  lemma WrapPlus(x: int, y: int)
    ensures Wrap(Wrap(x) + y) == Wrap(x + y)
  {
    var q := x / 0x1_0000_0000;
    assert x == q * 0x1_0000_0000 + Wrap(x);
    var r := (Wrap(x) + y) / 0x1_0000_0000;
    assert x + y == (q + r) * 0x1_0000_0000 + Wrap(Wrap(x) + y);
  }

  lemma WrappedPlus(a: int, z: int)
    ensures Wrap(a + Wrap(z)) == Wrap(a + z)
  {
    hide Wrap;
    WrapPlus(z, a);
  }

  /** An address that is moved from `e` to `x` moves with `x`. */
  lemma MovesWith(a: int, e: int, x: int, c: int)
    ensures Plus(a, Minus(Plus(x, c), e)) == Plus(Plus(a, Minus(x, e)), c)
  {
    hide Wrap;
    WrapPlus(x + c, -e);
    WrappedPlus(a, x + c - e);
    WrappedPlus(a, x - e);
    WrapPlus(a + (x - e), c);
    assert a + (x + c - e) == a + (x - e) + c;
  }

  /** Moving from `e` to `x` and from there to `y` is moving from `e` to `y`. */
  lemma MovesOn(a: int, e: int, x: int, y: int)
    ensures Plus(Plus(a, Minus(x, e)), Minus(y, x)) == Plus(a, Minus(y, e))
  {
    hide Wrap;
    WrappedPlus(a, x - e);
    WrapPlus(a + (x - e), Wrap(y - x));
    WrappedPlus(a + (x - e), y - x);
    WrappedPlus(a, y - e);
    assert a + (x - e) + (y - x) == a + (y - e);
  }

  lemma Product(a: nat, b: nat, d: nat)
    requires a > b
    ensures a * d >= b * d + d
  {
    assert a * d == b * d + (a - b) * d;
    assert (a - b) * d == (a - b - 1) * d + d;
  }

  lemma Quotient(x: nat, d: nat, a: nat, r: nat)
    requires d > 0 && x == a * d + r && r < d
    ensures x / d == a && x % d == r
  {
    var q, s := x / d, x % d;
    assert x == q * d + s;
    if q > a { Product(q, a, d); } else if q < a { Product(a, q, d); }
  }

  lemma ModNext(n: nat, d: nat)
    requires d > 0
    ensures (n + d) % d == n % d
  {
    var q, r := n / d, n % d;
    assert n + d == (q + 1) * d + r;
    Quotient(n + d, d, q + 1, r);
  }

  /** The value of a 16-bit two's complement field. */
  function Sext(h: int): int
    requires 0 <= h < 0x1_0000
  {
    if h < 0x8000 then h else h - 0x1_0000
  }

  /** Four bytes, most significant first, as one word. */
  function Join(a: byte, b: byte, c: byte, d: byte): u32 {
    a as int * 0x100_0000 + b as int * 0x1_0000 + c as int * 0x100 + d
  }

  /** `g_ntohl(*p)` for a word pointer `p` at byte offset `o`. */
  function Load(m: seq<byte>, o: nat): u32
    requires o + 4 <= |m|
  {
    Join(m[o], m[o + 1], m[o + 2], m[o + 3])
  }

  function BigEndian(w: u32): (b: seq<byte>)
    ensures |b| == 4 && Load(b, 0) == w
  {
    var h, l := w / 0x1_0000, w % 0x1_0000;
    [h / 0x100, h % 0x100, l / 0x100, l % 0x100]
  }

  /** `*p = g_htonl(w)`. */
  function Store(m: seq<byte>, o: nat, w: u32): (r: seq<byte>)
    requires o + 4 <= |m|
    ensures |r| == |m|
    ensures Load(r, o) == w
    ensures forall p: nat :: p + 4 <= |m| && (p + 4 <= o || o + 4 <= p) ==> Load(r, p) == Load(m, p)
    ensures forall i: nat :: i < |m| && (i < o || o + 4 <= i) ==> r[i] == m[i]
  {
    var b := BigEndian(w);
    m[o := b[0]][o + 1 := b[1]][o + 2 := b[2]][o + 3 := b[3]]
  }

  /** A word determines its four bytes. */
  lemma LoadInjective(m: seq<byte>, n: seq<byte>, o: nat)
    requires o + 4 <= |m| && o + 4 <= |n|
    requires Load(m, o) == Load(n, o)
    ensures m[o..o + 4] == n[o..o + 4]
  {
    assert m[o] == n[o];
    assert m[o + 1] == n[o + 1];
    assert m[o + 2] == n[o + 2];
  }

  method ReadWord(m: array<byte>, o: nat) returns (w: u32)
    requires o + 4 <= m.Length
    ensures w == Load(m[..], o)
  {
    w := Join(m[o], m[o + 1], m[o + 2], m[o + 3]);
  }

  method WriteWord(m: array<byte>, o: nat, w: u32)
    requires o + 4 <= m.Length
    modifies m
    ensures m[..] == Store(old(m[..]), o, w)
  {
    var h, l := w / 0x1_0000, w % 0x1_0000;
    m[o], m[o + 1], m[o + 2], m[o + 3] := h / 0x100, h % 0x100, l / 0x100, l % 0x100;
  }
}
