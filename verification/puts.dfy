/** Writing pieces into a buffer: what a list of writes leaves where. */
module Puts {
  import opened Words

  /** `bytes` stored from position `pos` on. */
  datatype Put = Put(pos: nat, bytes: seq<byte>)

  predicate InBounds(n: nat, puts: seq<Put>) {
    forall k :: 0 <= k < |puts| ==> puts[k].pos + |puts[k].bytes| <= n
  }

  function ApplyOne(buf: seq<byte>, p: Put): (r: seq<byte>)
    requires p.pos + |p.bytes| <= |buf|
    ensures |r| == |buf|
    ensures forall i :: 0 <= i < |buf| ==> r[i] == if p.pos <= i < p.pos + |p.bytes| then p.bytes[i - p.pos] else buf[i]
  {
    buf[..p.pos] + p.bytes + buf[p.pos + |p.bytes|..]
  }

  function Apply(buf: seq<byte>, puts: seq<Put>): (r: seq<byte>)
    requires InBounds(|buf|, puts)
    ensures |r| == |buf|
  {
    if puts == [] then buf else ApplyOne(Apply(buf, puts[..|puts| - 1]), puts[|puts| - 1])
  }

  predicate Covers(p: Put, i: int) { p.pos <= i < p.pos + |p.bytes| }

  predicate Clear(p: Put, q: Put) {
    p.pos + |p.bytes| <= q.pos || q.pos + |q.bytes| <= p.pos
  }

  /** Any two writes are about disjoint places, or are the same write. */
  ghost predicate Compatible(puts: seq<Put>) {
    forall j, k :: 0 <= j < |puts| && 0 <= k < |puts| ==> puts[j] == puts[k] || Clear(puts[j], puts[k])
  }

  /** A byte that no write covers keeps its value. */
  lemma {:induction false} Uncovered(buf: seq<byte>, puts: seq<Put>, i: nat)
    requires InBounds(|buf|, puts) && i < |buf|
    requires forall k :: 0 <= k < |puts| ==> !Covers(puts[k], i)
    ensures Apply(buf, puts)[i] == buf[i]
  {
    if puts != [] {
      Uncovered(buf, puts[..|puts| - 1], i);
      assert !Covers(puts[|puts| - 1], i);
    }
  }

  /** A byte that a write covers does not depend on what was there. */
  lemma {:induction false} Overwritten(a: seq<byte>, b: seq<byte>, puts: seq<Put>, k: nat, i: nat)
    requires |a| == |b| && InBounds(|a|, puts) && k < |puts| && Covers(puts[k], i)
    ensures Apply(a, puts)[i] == Apply(b, puts)[i]
  {
    var n := |puts| - 1;
    if !Covers(puts[n], i) {
      var init := puts[..n];
      assert init[k] == puts[k];
      Overwritten(a, b, init, k, i);
    }
  }

  /** With compatible writes each one's bytes are there at the end. */
  lemma {:induction false} Covered(buf: seq<byte>, puts: seq<Put>, k: nat, i: nat)
    requires InBounds(|buf|, puts) && Compatible(puts) && k < |puts| && Covers(puts[k], i)
    ensures Apply(buf, puts)[i] == puts[k].bytes[i - puts[k].pos]
  {
    var n := |puts| - 1;
    if Covers(puts[n], i) {
      assert puts[n] == puts[k];
    } else {
      var init := puts[..n];
      assert init[k] == puts[k];
      Covered(buf, init, k, i);
    }
  }

  lemma CoveredSlice(buf: seq<byte>, puts: seq<Put>, k: nat)
    requires InBounds(|buf|, puts) && Compatible(puts) && k < |puts|
    ensures var p := puts[k];
            Apply(buf, puts)[p.pos..p.pos + |p.bytes|] == p.bytes
  {
    hide Apply, Compatible;
    var p := puts[k];
    forall i | p.pos <= i < p.pos + |p.bytes|
      ensures Apply(buf, puts)[i] == p.bytes[i - p.pos]
    {
      Covered(buf, puts, k, i);
    }
  }

  lemma {:induction false} ApplyAppend(buf: seq<byte>, a: seq<Put>, b: seq<Put>)
    requires InBounds(|buf|, a + b)
    ensures InBounds(|buf|, a) && InBounds(|buf|, b)
    ensures Apply(buf, a + b) == Apply(Apply(buf, a), b)
  {
    assert forall k :: 0 <= k < |a| ==> a[k] == (a + b)[k];
    assert forall k :: 0 <= k < |b| ==> b[k] == (a + b)[|a| + k];
    if b == [] {
      assert a + b == a;
    } else {
      var init := b[..|b| - 1];
      assert (a + b)[..|a + b| - 1] == a + init;
      ApplyAppend(buf, a, init);
    }
  }

  /** Storing one piece in place. */
  method StorePut(buf: array<byte>, p: Put)
    requires p.pos + |p.bytes| <= buf.Length
    modifies buf
    ensures buf[..] == ApplyOne(old(buf[..]), p)
  {
    for i := 0 to |p.bytes|
      invariant forall k :: 0 <= k < buf.Length ==>
                  buf[k] == if p.pos <= k < p.pos + i then p.bytes[k - p.pos] else old(buf[k])
    {
      buf[p.pos + i] := p.bytes[i];
    }
  }
}
