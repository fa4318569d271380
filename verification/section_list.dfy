/** The mutable section list of an ELF descriptor: libelf/newscn.c, x.movscn.c, x.remscn.c and
    opt.delscn.c. */
module SectionList {
  import opened Words
  import opened ElfTypes

  class Scn {
    var link: Scn?
    var index: nat
    var elf: Elf
    var shdr: Shdr
    var scnDirty: bool
    var shdrDirty: bool

    /** `_makescn` */
    constructor (elf: Elf, index: nat)
      ensures link == null && this.elf == elf && this.index == index && scnDirty && shdrDirty
      ensures shdr == Shdr(0, 0, 0, 0, 0, 0, 0, 0, 0, 0)
    {
      link, this.elf, this.index, shdr, scnDirty, shdrDirty := null, elf, index, ZERO_SHDR, true, true;
    }
  }

  /** What `_elf_cook` finds in a file: the ELF header, the section headers in order, and whether it
      succeeds, which can still fail after either. */
  datatype Cooking = Cooking(ehdr: Option<Ehdr>, shdrs: seq<Shdr>, ok: bool) {
    predicate Possible() { (ok ==> ehdr.Some?) && (shdrs != [] ==> ehdr.Some?) }
  }

  /** There is no file. */
  const NOTHING := Cooking(None, [], false)

  // ---- The operations on the abstract sequence -------------------------------------------------

  function RemoveAt<T>(s: seq<T>, p: nat): (r: seq<T>)
    requires p < |s|
    ensures |r| == |s| - 1
  {
    s[..p] + s[p + 1..]
  }

  /** Element `p` moved to just after element `a`. */
  function MoveAt<T>(s: seq<T>, p: nat, a: nat): (r: seq<T>)
    requires p < |s| && a < |s|
    ensures |r| == |s|
  {
    if p == a || p == a + 1 then s
    else if p < a then s[..p] + s[p + 1..a + 1] + [s[p]] + s[a + 1..]
    else s[..a + 1] + [s[p]] + s[a + 1..p] + s[p + 1..]
  }

  /** The old position of the element at position `i` after the move. */
  function Source(p: nat, a: nat, i: nat): nat {
    if p < a then (if i < p || i > a then i else if i == a then p else i + 1)
    else (if i <= a || i > p then i else if i == a + 1 then p else i - 1)
  }

  lemma MovedElement<T>(s: seq<T>, p: nat, a: nat, i: nat)
    requires p < |s| && a < |s| && p != a && p != a + 1 && i < |s|
    ensures Source(p, a, i) < |s| && MoveAt(s, p, a)[i] == s[Source(p, a, i)]
  {
    hide MoveAt, Source;
    if p < a {
      MovedDown(s, p, a, i);
    } else {
      MovedUp(s, p, a, i);
    }
  }

  lemma MovedDown<T>(s: seq<T>, p: nat, a: nat, i: nat)
    requires p < a < |s| && i < |s|
    ensures Source(p, a, i) < |s| && MoveAt(s, p, a)[i] == s[Source(p, a, i)]
  {
    var x, y, z := s[..p], s[p + 1..a + 1], s[a + 1..];
    assert MoveAt(s, p, a) == x + y + [s[p]] + z;
    MovedLast(x, y, s[p], z, i);
  }

  lemma MovedUp<T>(s: seq<T>, p: nat, a: nat, i: nat)
    requires a + 1 < p < |s| && i < |s|
    ensures Source(p, a, i) < |s| && MoveAt(s, p, a)[i] == s[Source(p, a, i)]
  {
    var x, y, z := s[..a + 1], s[a + 1..p], s[p + 1..];
    assert MoveAt(s, p, a) == x + [s[p]] + y + z;
    MovedFirst(x, s[p], y, z, i);
  }

  lemma MovedLast<T>(x: seq<T>, y: seq<T>, e: T, z: seq<T>, i: nat)
    requires i < |x| + |y| + 1 + |z|
    ensures (x + y + [e] + z)[i] == if i < |x| then x[i] else if i < |x| + |y| then y[i - |x|]
                                        else if i == |x| + |y| then e else z[i - |x| - |y| - 1]
  {
  }

  lemma MovedFirst<T>(x: seq<T>, e: T, y: seq<T>, z: seq<T>, i: nat)
    requires i < |x| + 1 + |y| + |z|
    ensures (x + [e] + y + z)[i] == if i < |x| then x[i] else if i == |x| then e
                                        else if i < |x| + 1 + |y| then y[i - |x| - 1] else z[i - |x| - |y| - 1]
  {
  }

  lemma RemainingElement<T>(s: seq<T>, p: nat, i: nat)
    requires p < |s| && i < |s| - 1
    ensures RemoveAt(s, p)[i] == s[if i < p then i else i + 1]
  {
  }

  /** The move is a removal followed by an insertion right behind `after`: every other element
      keeps its place among the others. */
  lemma MoveIsRemoveAndInsert<T>(s: seq<T>, p: nat, a: nat)
    requires p < |s| && a < |s| && p != a
    ensures var q := if p < a then a else a + 1;
            var t := MoveAt(s, p, a);
            t[q] == s[p] && t[q - 1] == s[a] && RemoveAt(t, q) == RemoveAt(s, p)
  {
    hide MoveAt, RemoveAt;
    var q := if p < a then a else a + 1;
    if p == a + 1 {
      MovedNowhere(s, p, a);
    } else {
      MovedElement(s, p, a, q);
      MovedElement(s, p, a, q - 1);
      forall i | 0 <= i < |s| - 1 ensures RemoveAt(MoveAt(s, p, a), q)[i] == RemoveAt(s, p)[i] {
        RemainingElement(MoveAt(s, p, a), q, i);
        RemainingElement(s, p, i);
        MovedElement(s, p, a, if i < q then i else i + 1);
      }
    }
  }

  lemma MovedNowhere<T>(s: seq<T>, p: nat, a: nat)
    requires p < |s| && a < |s| && (p == a || p == a + 1)
    ensures MoveAt(s, p, a) == s
  {
  }

  /** By how much the index of the node at `j` shifts when `p` moves after `a`. */
  function Shift(p: nat, a: nat, j: nat): int { if a < j <= p then 1 else if p < j <= a then -1 else 0 }

  /** The old position of the node that follows the one from `j` after the move. */
  function Follower(p: nat, a: nat, j: nat): nat {
    if j == p then a + 1 else if j == a then p else if j == p - 1 then p + 1 else j + 1
  }

  /** Who comes where, and who follows whom, after the move. */
  lemma SourceFacts(n: nat, p: nat, a: nat, i: nat)
    requires 0 < p < n && a < n && p != a && p != a + 1 && i < n
    ensures var j := Source(p, a, i);
            && j < n
            && (j != p ==> j + Shift(p, a, j) == i)
            && (j == p ==> a + Shift(p, a, a) + 1 == i)
            && if i + 1 < n then Source(p, a, i + 1) == Follower(p, a, j) else Follower(p, a, j) == n
  {
  }

  lemma SourceEnds(n: nat, p: nat, a: nat)
    requires 0 < p < n && a < n && p != a && p != a + 1
    ensures Source(p, a, 0) == 0 && 0 <= a + Shift(p, a, a) + 1 < n && Source(p, a, a + Shift(p, a, a) + 1) == p
  {
  }

  // ---- References between sections ---------------------------------------------------------------

  /** Section types whose sh_link is a section number. */
  predicate HasLink(stype: u32) {
    stype in {SHT_REL, SHT_RELA, SHT_DYNSYM, SHT_DYNAMIC, SHT_HASH, SHT_SYMTAB, SHT_VERDEF, SHT_VERNEED, SHT_VERSYM}
  }

  /** Section types whose sh_info is a section number too. */
  predicate HasInfo(stype: u32) { stype == SHT_REL || stype == SHT_RELA }

  /** `_newindex` */
  function NewIndex(i: u32, index: nat): u32 {
    if i == index then SHN_UNDEF else if i > index then i - 1 else i
  }

  /** A section number after section `p` is gone: it designates what it designated, or 0 exactly
      if that was nothing or the removed section. */
  lemma NewIndexDesignates<T>(s: seq<T>, p: nat, i: u32)
    requires 0 < p < |s| && i < |s|
    ensures var j := NewIndex(i, p);
            && j < |s| - 1
            && (i != p ==> RemoveAt(s, p)[j] == s[i])
            && (j == 0 <==> i == p || i == 0)
  {
  }

  function Renumbered(h: Shdr, index: nat): Shdr {
    h.(info := if HasInfo(h.stype) then NewIndex(h.info, index) else h.info,
       link := if HasLink(h.stype) then NewIndex(h.link, index) else h.link)
  }

  /** Section number `i` before and `j` after section `gone` was removed: the same section, or 0
      exactly if it was that one or none. */
  ghost predicate SameReference<T>(was: seq<T>, now: seq<T>, gone: nat, i: u32, j: u32) {
    if i < |was| then
      && j < |now|
      && (i != gone ==> now[j] == was[i])
      && (j == 0 <==> i == gone || i == 0)
    else j == i - 1
  }

  /** SYMTAB, RELA, HASH, DYNAMIC, REL, DYNSYM and the three kinds of version section. */
  const LINKED: set<int> := {2, 4, 5, 6, 9, 11, 0x6fff_fffd, 0x6fff_fffe, 0x6fff_ffff}

  /** RELA and REL. */
  const INFORMED: set<int> := {4, 9}

  /** Header `g` before and `h` after section `gone` was removed: references name the sections that
      they named, and nothing else changes. */
  ghost predicate HeaderKept<T>(was: seq<T>, now: seq<T>, gone: nat, g: Shdr, h: Shdr) {
    && h == g.(link := h.link, info := h.info)
    && (if g.stype in LINKED then SameReference(was, now, gone, g.link, h.link) else h.link == g.link)
    && (if g.stype in INFORMED then SameReference(was, now, gone, g.info, h.info) else h.info == g.info)
  }

  /** The references of a header after the removal. */
  lemma ReferencesKept<T>(s: seq<T>, p: nat, h: Shdr)
    requires 0 < p < |s|
    ensures var g := Renumbered(h, p);
            g.stype == h.stype && HeaderKept(s, RemoveAt(s, p), p, h, g)
  {
    hide RemoveAt;
    if h.link < |s| { NewIndexDesignates(s, p, h.link); }
    if h.info < |s| { NewIndexDesignates(s, p, h.info); }
  }

  /** The adjustment, type by type. */
  lemma RenumberedIs(h: Shdr, index: nat)
    ensures var g := Renumbered(h, index);
            && g == h.(link := g.link, info := g.info)
            && g.link == (if h.stype !in LINKED || h.link < index then h.link else if h.link == index then 0 else h.link - 1)
            && g.info == (if h.stype !in INFORMED || h.info < index then h.info else if h.info == index then 0 else h.info - 1)
  {
  }

  class Elf {
    var kind: FileKind
    var readable: bool
    var ehdr: Option<Ehdr>
    var ehdrDirty: bool
    var first: Scn?
    var last: Scn?
    ghost var scns: seq<Scn>

    /** A descriptor with a new ELF header and no sections. */
    constructor (h: Ehdr)
      requires h.shnum == 0
      ensures Linked() && scns == [] && kind == ElfKind && !readable && ehdr == Some(h)
    {
      kind, readable, ehdr, ehdrDirty, first, last := ElfKind, false, Some(h), true, null, null;
      scns := [];
    }

    /** The nodes reached from `first` are `scns`, in order, and node k says it is section k (so no
        node comes twice). */
    ghost predicate Linked()
      reads this, scns
    {
      && (scns == [] ==> first == null && last == null)
      && (scns != [] ==> first == scns[0] && last == scns[|scns| - 1])
      && (forall i {:trigger scns[i].index} :: 0 <= i < |scns| ==> scns[i].index == i)
      && (forall i {:trigger scns[i].elf} :: 0 <= i < |scns| ==> scns[i].elf == this)
      && (forall i {:trigger scns[i].link} :: 0 <= i < |scns| ==>
            scns[i].link == if i + 1 < |scns| then scns[i + 1] else null)
      && (scns != [] ==> ehdr.Some?)
    }

    /** The number of sections the headers record: e_shnum, or sh_size of section 0 when that is 0. */
    ghost function Recorded(): nat
      reads this, scns
      requires scns != [] && ehdr.Some?
    {
      if ehdr.value.shnum != 0 then ehdr.value.shnum else scns[0].shdr.size
    }

    ghost predicate Counted()
      reads this, scns
    {
      scns != [] && ehdr.Some? ==> Recorded() == |scns|
    }

    /** `scn` is the list's section number `scn.index`. */
    ghost predicate Listed(scn: Scn)
      reads this, scn
    {
      scn.index < |scns| && scns[scn.index] == scn
    }

    lemma LinkOf(k: nat)
      requires Linked() && k < |scns|
      ensures scns[k].link == (if k + 1 < |scns| then scns[k + 1] else null)
      ensures scns[k].index == k && scns[k].elf == this && Listed(scns[k])
    {
    }

    /** `_elf_update_shnum` */
    method UpdateShnum(n: nat)
      requires first != null && ehdr.Some? && n < 0x1_0000_0000
      modifies this`ehdr, this`ehdrDirty, first`shdr, first`shdrDirty
      ensures ehdr == Some(old(ehdr).value.(shnum := if n < 0xff00 then n else 0))
      ensures first.shdr == old(first.shdr).(size := if n < 0xff00 then 0 else n)
      ensures ehdrDirty && first.shdrDirty
    {
      var extshnum, shnum := 0, n;
      if shnum >= SHN_LORESERVE {
        extshnum, shnum := shnum, 0;
      }
      ehdr := Some(ehdr.value.(shnum := shnum));
      first.shdr := first.shdr.(size := extshnum);
      ehdrDirty := true;
      first.shdrDirty := true;
    }

    /** `_elf_first_scn` */
    method FirstScn()
      requires Linked() && ehdr.Some?
      modifies this, scns
      ensures Linked() && scns != [] && ehdr.Some? && kind == old(kind) && readable == old(readable)
      ensures old(scns) != [] ==> unchanged(this) && unchanged(old(scns))
      ensures old(scns) == [] ==> |scns| == 1 && fresh(scns[0]) && Counted()
    {
      if first != null { return; }
      var scn := new Scn(this, 0);
      first, last := scn, scn;
      scns := [scn];
      UpdateShnum(1);
    }

    /** The last sections of the file, from number `i` on, are linked. */
    ghost predicate Cooks(list: seq<Scn>, headers: seq<Shdr>, i: nat)
      reads list
    {
      && i + |list| == |headers|
      && (forall k {:trigger list[k].index} :: 0 <= k < |list| ==> list[k].index == i + k)
      && (forall k {:trigger list[k].elf} :: 0 <= k < |list| ==> list[k].elf == this)
      && (forall k {:trigger list[k].link} :: 0 <= k < |list| ==> list[k].link == if k + 1 < |list| then list[k + 1] else null)
      && (forall k {:trigger list[k].shdr} :: 0 <= k < |list| ==>
            list[k].shdr == headers[i + k] && !list[k].scnDirty && !list[k].shdrDirty)
    }

    method CookNode(headers: seq<Shdr>, i: nat, scn: Scn?, ghost list: seq<Scn>) returns (r: Scn)
      requires i < |headers| && Cooks(list, headers, i + 1) && scn == NodeAt(list, 0)
      ensures fresh(r) && Cooks([r] + list, headers, i)
    {
      r := new Scn(this, i);
      r.link, r.shdr, r.scnDirty, r.shdrDirty := scn, headers[i], false, false;
      ghost var now := [r] + list;
      forall k | 0 <= k < |now|
        ensures now[k].index == i + k && now[k].elf == this && now[k].shdr == headers[i + k]
        ensures !now[k].scnDirty && !now[k].shdrDirty && now[k].link == if k + 1 < |now| then now[k + 1] else null
      {
        if k > 0 {
          var x := list[k - 1];
          assert x.index == i + k && x.elf == this && x.shdr == headers[i + k];
          assert x.link == if k < |list| then list[k] else null;
        }
      }
    }

    method CookNodes(headers: seq<Shdr>) returns (head: Scn?, tail: Scn?, ghost list: seq<Scn>)
      ensures fresh(list) && Cooks(list, headers, 0)
      ensures head == NodeAt(list, 0) && tail == if list == [] then null else list[|list| - 1]
    {
      var i := |headers|;
      head, tail, list := null, null, [];
      while i > 0
        invariant 0 <= i <= |headers| && Cooks(list, headers, i) && fresh(list)
        invariant head == NodeAt(list, 0) && tail == if list == [] then null else list[|list| - 1]
      {
        hide Cooks;
        i := i - 1;
        head := CookNode(headers, i, head, list);
        if tail == null { tail := head; }
        list := [head] + list;
      }
    }

    /** `_elf_cook_shdr`: the sections of the file, linked from the last to the first. */
    method CookList(headers: seq<Shdr>)
      requires Linked() && scns == [] && ehdr.Some?
      modifies this`first, this`last, this`scns
      ensures Linked() && |scns| == |headers|
      ensures forall k :: 0 <= k < |scns| ==> fresh(scns[k]) && scns[k].shdr == headers[k] && !scns[k].scnDirty && !scns[k].shdrDirty
    {
      first, last, scns := CookNodes(headers);
    }

    /** `_elf_cook`, with what it finds in the file. */
    method CookFrom(c: Cooking) returns (ok: bool)
      requires Linked() && scns == [] && ehdr.None? && c.Possible()
      modifies this`ehdr, this`first, this`last, this`scns
      ensures Linked() && ok == c.ok && ehdr == c.ehdr && HasHeaders(c.shdrs)
      ensures forall k :: 0 <= k < |scns| ==> fresh(scns[k])
    {
      ehdr := c.ehdr;
      if c.shdrs != [] {
        CookList(c.shdrs);
      }
      ok := c.ok;
    }

    ghost predicate HasHeaders(headers: seq<Shdr>)
      reads this, scns
    {
      |scns| == |headers| && forall k :: 0 <= k < |scns| ==> scns[k].shdr == headers[k]
    }

    /** `elf_newscn`; the file that the descriptor reads, if any, is cooked first if it has not been. */
    method NewScn(c: Cooking) returns (r: Scn?)
      requires Linked() && c.Possible() && |scns| + |c.shdrs| + 2 < 0x1_0000_0000
      modifies this, scns
      ensures Linked() && kind == old(kind) && (old(ehdr).Some? ==> ehdr.Some?)
      ensures r != null <==> old(kind) == ElfKind && (old(ehdr).Some? || (old(readable) && c.ok))
      ensures old(kind) != ElfKind || (old(ehdr).None? && !old(readable)) ==> unchanged(this) && unchanged(old(scns))
      ensures old(kind) == ElfKind && old(ehdr).None? && old(readable) && !c.ok ==> ehdr == c.ehdr && HasHeaders(c.shdrs)
      ensures r != null ==> fresh(r) && ehdr.Some? && Counted() && |scns| >= 2 && scns[|scns| - 1] == r
      ensures r != null && old(ehdr).Some? ==>
                && (old(scns) != [] ==> scns == old(scns) + [r])
                && (old(scns) == [] ==> |scns| == 2 && fresh(scns[0]))
                && forall i :: 1 <= i < |old(scns)| ==> old(scns)[i].shdr == old(scns[i].shdr)
      ensures r != null && old(ehdr).None? ==>
                && |scns| == (if c.shdrs == [] then 2 else |c.shdrs| + 1)
                && (forall i :: 0 <= i < |scns| ==> fresh(scns[i]))
                && forall i :: 1 <= i < |c.shdrs| ==> scns[i].shdr == c.shdrs[i]
    {
      if !readable && ehdr.None? { return null; }
      if kind != ElfKind { return null; }
      if ehdr.None? {
        var ok := CookFrom(c);
        if !ok { return null; }
      }
      r := BuildScn();
    }

    /** `_buildscn` */
    method BuildScn() returns (r: Scn)
      requires Linked() && ehdr.Some? && |scns| + 2 < 0x1_0000_0000
      modifies this, scns
      ensures Linked() && Counted() && ehdr.Some? && fresh(r) && |scns| >= 2 && scns[|scns| - 1] == r
      ensures old(scns) != [] ==> scns == old(scns) + [r]
      ensures old(scns) == [] ==> |scns| == 2 && fresh(scns[0])
      ensures forall i :: 1 <= i < |old(scns)| ==> old(scns)[i].shdr == old(scns[i].shdr)
      ensures kind == old(kind) && readable == old(readable)
    {
      FirstScn();
      LinkOf(|scns| - 1);
      r := new Scn(this, last.index + 1);
      UpdateShnum(r.index + 1);
      Distinct();
      AppendNode(r);
    }

    method AppendNode(r: Scn)
      requires Linked() && scns != [] && r !in scns
      requires r.index == |scns| && r.elf == this && r.link == null
      modifies this`last, this`scns, last`link
      ensures Linked() && scns == old(scns) + [r]
    {
      ghost var s := scns;
      Distinct();
      last.link := r;
      last := r;
      scns := s + [r];
      forall i | 0 <= i < |scns|
        ensures scns[i].link == if i + 1 < |scns| then scns[i + 1] else null
      {
        if i < |s| { assert scns[i] == s[i]; }
        if i + 1 < |s| { assert scns[i + 1] == s[i + 1]; }
      }
    }

    /** The section before `scn`: the node whose link it is, or the last node. */
    method FindPrevious(scn: Scn) returns (prev: Scn)
      requires Linked() && scns != []
      ensures Listed(prev)
      ensures if Listed(scn) && scn.index > 0 then prev.link == scn && prev.index + 1 == scn.index
              else prev.link == null
    {
      prev := first;
      ghost var k := 0;
      LinkOf(0);
      while prev.link != null && prev.link != scn
        invariant k < |scns| && prev == scns[k]
        invariant forall j :: 1 <= j <= k ==> scns[j] != scn
        decreases |scns| - k
      {
        LinkOf(k);
        prev := prev.link;
        k := k + 1;
      }
      LinkOf(k);
      if prev.link != null { LinkOf(k + 1); }
    }

    /** `elfx_movscn`; 0 stands for the error return. */
    method MovScn(scn: Scn, after: Scn) returns (index: nat)
      requires Linked() && scns != []
      requires scn.elf == this ==> Listed(scn)
      requires after.elf == this ==> Listed(after)
      modifies this, scns
      ensures Linked() && ehdr == old(ehdr)
      ensures kind != ElfKind || old(scn.elf) != this || old(after.elf) != this || scn == old(scns)[0] ==>
                index == SHN_UNDEF && scns == old(scns)
      ensures kind == ElfKind && old(scn.elf) == this && old(after.elf) == this && scn != old(scns)[0] ==>
                && scns == MoveAt(old(scns), old(scn.index), old(after.index))
                && index == scn.index && Listed(scn)
      ensures forall x :: x in old(scns) ==> x.shdr == old(x.shdr)
      ensures old(Counted()) ==> Counted()
      ensures kind == old(kind)
    {
      hide MoveAt;
      if kind != ElfKind { return SHN_UNDEF; }
      if scn.elf != this || after.elf != this { return SHN_UNDEF; }
      if scn == first { return SHN_UNDEF; }
      LinkOf(after.index);
      if scn == after || scn == after.link {
        MovedNowhere(scns, scn.index, after.index);
        return scn.index;
      }
      MoveNode(scn, after);
      return scn.index;
    }

    method MoveNode(scn: Scn, after: Scn)
      requires Linked() && Listed(scn) && Listed(after) && scn.index > 0
      requires scn.index != after.index && scn.index != after.index + 1
      modifies this`last, this`scns, scns`link, scns`index
      ensures Linked() && Listed(scn) && scns == MoveAt(old(scns), old(scn.index), old(after.index))
      ensures scns[0] == old(scns)[0]
    {
      hide MoveAt;
      ghost var p, a := scn.index, after.index;
      var prev := FindPrevious(scn);
      Distinct();
      ShiftIndices(scn, after);
      Relink(scn, after, prev, p, a);
    }

    lemma Distinct()
      requires Linked()
      ensures forall i, j :: 0 <= i < j < |scns| ==> scns[i] != scns[j]
    {
      forall i, j | 0 <= i < j < |scns| ensures scns[i] != scns[j] {
        assert scns[i].index != scns[j].index;
      }
    }

    static ghost function NodeAt(s: seq<Scn>, i: nat): Scn? { if i < |s| then s[i] else null }

    /** Taking the node out and putting it back, once the other indices are right. */
    method Relink(scn: Scn, after: Scn, prev: Scn, ghost p: nat, ghost a: nat)
      requires 0 < p < |scns| && a < |scns| && p != a && p != a + 1 && ehdr.Some?
      requires scns[p] == scn && scns[a] == after && scns[p - 1] == prev
      requires first == scns[0] && last == scns[|scns| - 1]
      requires forall i, j :: 0 <= i < j < |scns| ==> scns[i] != scns[j]
      requires forall j {:trigger scns[j].index} :: 0 <= j < |scns| ==> scns[j].index == j + Shift(p, a, j)
      requires forall j {:trigger scns[j].elf} :: 0 <= j < |scns| ==> scns[j].elf == this
      requires forall j {:trigger scns[j].link} :: 0 <= j < |scns| ==>
                 scns[j].link == if j + 1 < |scns| then scns[j + 1] else null
      modifies this`last, this`scns, scns`link, scn`index
      ensures Linked() && scns == MoveAt(old(scns), p, a) && Listed(scn) && scns[0] == old(scns)[0]
    {
      hide MoveAt;
      ghost var s := scns;
      prev.link := scn.link;
      scn.link := after.link;
      after.link := scn;
      scn.index := after.index + 1;
      if last == scn {
        last := prev;
      } else if last == after {
        last := scn;
      }
      scns := MoveAt(s, p, a);
      assert last == s[Source(p, a, |s| - 1)];
      MovedIsLinked(s, p, a);
    }

    lemma MovedIsLinked(s: seq<Scn>, p: nat, a: nat)
      requires 0 < p < |s| && a < |s| && p != a && p != a + 1 && ehdr.Some?
      requires scns == MoveAt(s, p, a)
      requires first == s[0] && last == s[Source(p, a, |s| - 1)]
      requires forall j {:trigger s[j].index} :: 0 <= j < |s| ==>
                 s[j].index == if j == p then a + Shift(p, a, a) + 1 else j + Shift(p, a, j)
      requires forall j {:trigger s[j].elf} :: 0 <= j < |s| ==> s[j].elf == this
      requires forall j {:trigger s[j].link} :: 0 <= j < |s| ==> s[j].link == NodeAt(s, Follower(p, a, j))
      ensures Linked() && Listed(s[p])
    {
      hide MoveAt, Source, Follower, Shift;
      forall i | 0 <= i < |s|
        ensures scns[i].index == i && scns[i].elf == this
      {
        SourceFacts(|s|, p, a, i);
        MovedElement(s, p, a, i);
      }
      forall i {:trigger scns[i].link} | 0 <= i < |scns|
        ensures scns[i].link == if i + 1 < |scns| then scns[i + 1] else null
      {
        SourceFacts(|s|, p, a, i);
        MovedElement(s, p, a, i);
        if i + 1 < |s| { MovedElement(s, p, a, i + 1); }
      }
      SourceEnds(|s|, p, a);
      MovedElement(s, p, a, 0);
      MovedElement(s, p, a, |s| - 1);
      MovedElement(s, p, a, a + Shift(p, a, a) + 1);
    }

    /** The one pass over the list that shifts the indices between the two sections. */
    method ShiftIndices(scn: Scn, after: Scn)
      requires Linked() && Listed(scn) && Listed(after) && scn != after
      modifies scns`index
      ensures forall j :: 0 <= j < |scns| ==>
                scns[j].index == j + Shift(old(scn.index), old(after.index), j)
    {
      ghost var p, a := scn.index, after.index;
      var off := 0;
      var tmp := first;
      ghost var k := 0;
      while tmp != null
        invariant 0 <= k <= |scns| && tmp == (if k < |scns| then scns[k] else null)
        invariant off == Shift(p, a, k)
        invariant forall j :: k <= j < |scns| ==> scns[j].index == j
        invariant forall j :: 0 <= j < k ==> scns[j].index == j + Shift(p, a, j)
        decreases |scns| - k
      {
        if off != 0 { tmp.index := tmp.index + off; }
        if tmp == after { off := off + 1; }
        else if tmp == scn { off := off - 1; }
        tmp := tmp.link;
        k := k + 1;
      }
    }

    /** Renumbering from the node after the removed one. */
    method Renumber(next0: Scn?, ghost s: seq<Scn>, ghost p: nat)
      requires p < |s| && next0 == (if p + 1 < |s| then s[p + 1] else null)
      requires forall j {:trigger s[j].index} :: 0 <= j < |s| ==> s[j].index == j
      requires forall j {:trigger s[j].link} :: p < j < |s| ==> s[j].link == if j + 1 < |s| then s[j + 1] else null
      modifies s`index
      ensures forall j :: 0 <= j < |s| ==> s[j].index == if j <= p then j else j - 1
    {
      var next := next0;
      ghost var k := p + 1;
      while next != null
        invariant p + 1 <= k <= |s| && next == (if k < |s| then s[k] else null)
        invariant forall j :: 0 <= j < |s| ==> s[j].index == if p < j < k then j - 1 else j
        decreases |s| - k
      {
        next.index := next.index - 1;
        next := next.link;
        k := k + 1;
      }
    }

    /** `pscn` is linked to what follows `scn`. */
    method Bypass(scn: Scn, pscn: Scn, ghost s: seq<Scn>, ghost p: nat)
      requires Linked() && s == scns && 0 < p < |s| && s[p] == scn && s[p - 1] == pscn
      modifies this`last, pscn`link
      ensures last == s[if p == |s| - 1 then p - 1 else |s| - 1] && pscn.link == NodeAt(s, p + 1)
      ensures forall j {:trigger s[j].link} :: 0 <= j < |s| ==> s[j].link == NodeAt(s, if j == p - 1 then p + 1 else j + 1)
    {
      Distinct();
      if last == scn { last := pscn; }
      pscn.link := scn.link;
    }

    /** Unlinking and renumbering, common to the two ways of removing a section. */
    method Unlink(scn: Scn, pscn: Scn)
      requires Linked() && Listed(scn) && Listed(pscn) && pscn.index + 1 == scn.index
      modifies this`last, this`scns, scns`link, scns`index
      ensures Linked() && scns == RemoveAt(old(scns), old(scn.index)) && |scns| > 0 && scns[0] == old(scns)[0]
    {
      hide RemoveAt;
      ghost var s, p := scns, scn.index;
      Bypass(scn, pscn, s, p);
      Renumber(pscn.link, s, p);
      scns := RemoveAt(s, p);
      RemovedIsLinked(s, p);
    }

    lemma RemovedIsLinked(s: seq<Scn>, p: nat)
      requires 0 < p < |s| && ehdr.Some?
      requires scns == RemoveAt(s, p)
      requires first == s[0] && last == s[if p == |s| - 1 then p - 1 else |s| - 1]
      requires forall j {:trigger s[j].index} :: 0 <= j < |s| ==> s[j].index == if j <= p then j else j - 1
      requires forall j {:trigger s[j].elf} :: 0 <= j < |s| ==> s[j].elf == this
      requires forall j {:trigger s[j].link} :: 0 <= j < |s| ==>
                 s[j].link == NodeAt(s, if j == p - 1 then p + 1 else j + 1)
      ensures Linked() && scns[0] == s[0]
    {
      hide RemoveAt;
      RemainingElement(s, p, 0);
      RemainingElement(s, p, |s| - 2);
      forall i | 0 <= i < |s| - 1
        ensures scns[i].index == i && scns[i].elf == this
        ensures scns[i].link == if i + 1 < |s| - 1 then scns[i + 1] else null
      {
        RemainingElement(s, p, i);
        if i + 1 < |s| - 1 { RemainingElement(s, p, i + 1); }
      }
    }

    /** `elfx_remscn`; 0 stands for the error return. */
    method RemScn(scn: Scn) returns (index: nat)
      requires Linked() && scns != [] && |scns| < 0x1_0000_0000
      modifies this, scns
      ensures Linked()
      ensures kind != ElfKind || !old(Listed(scn)) || scn == old(scns)[0] ==>
                index == SHN_UNDEF && unchanged(this) && unchanged(old(scns))
      ensures kind == ElfKind && old(Listed(scn)) && scn != old(scns)[0] ==>
                && 0 < index == old(scn.index) && scns == RemoveAt(old(scns), index) && Counted()
      ensures forall i :: 1 <= i < |old(scns)| ==> old(scns)[i].shdr == old(scns[i].shdr)
      ensures kind == old(kind) && (old(ehdr).Some? ==> ehdr.Some?)
    {
      hide RemoveAt;
      if kind != ElfKind { return SHN_UNDEF; }
      Distinct();
      if scn.elf != this { return SHN_UNDEF; }
      if scn == first { return SHN_UNDEF; }
      var pscn := FindPrevious(scn);
      if pscn.link != scn { return SHN_UNDEF; }
      index := scn.index;
      Unlink(scn, pscn);
      assert Linked();
      LinkOf(|scns| - 1);
      UpdateShnum(last.index + 1);
    }

    static method UpdateShdr(scn: Scn, index: nat)
      modifies scn`shdr
      ensures scn.shdr == Renumbered(old(scn.shdr), index)
    {
      var stype := scn.shdr.stype;
      if stype == SHT_REL || stype == SHT_RELA {
        scn.shdr := scn.shdr.(info := NewIndex(scn.shdr.info, index));
      }
      if HasLink(stype) {
        scn.shdr := scn.shdr.(link := NewIndex(scn.shdr.link, index));
      }
    }

    /** `_elf32_update_shdr`: the count goes to the 16-bit field of the ELF header, then every
        section number in the headers is adjusted. */
    method UpdateShdrs(index: nat)
      requires Linked() && scns != []
      modifies this`ehdr, scns`shdr
      ensures ehdr == Some(old(ehdr).value.(shnum := |scns| % 0x1_0000))
      ensures forall i :: 0 <= i < |scns| ==> scns[i].shdr == Renumbered(old(scns[i].shdr), index)
    {
      hide Renumbered;
      Distinct();
      LinkOf(|scns| - 1);
      ehdr := Some(ehdr.value.(shnum := (last.index + 1) % 0x1_0000));
      var scn := first;
      ghost var k := 0;
      while scn != null
        invariant 0 <= k <= |scns| && scn == (if k < |scns| then scns[k] else null)
        invariant forall i :: 0 <= i < k ==> scns[i].shdr == Renumbered(old(scns[i].shdr), index)
        invariant forall i :: k <= i < |scns| ==> scns[i].shdr == old(scns[i].shdr)
        modifies scns`shdr
        decreases |scns| - k
      {
        UpdateShdr(scn, index);
        scn := scn.link;
        k := k + 1;
      }
    }

    /** `elf_delscn` for the 32-bit class; 0 stands for the error return. Unlike `elfx_remscn` it
        adjusts the references, and records the count without the extended encoding. */
    method DelScn(scn: Scn) returns (index: nat)
      requires Linked() && scns != [] && |scns| < 0x1_0000_0000
      modifies this, scns
      ensures Linked()
      ensures !old(Listed(scn)) || scn == old(scns)[0] ==>
                index == SHN_UNDEF && unchanged(this) && unchanged(old(scns))
      ensures old(Listed(scn)) && scn != old(scns)[0] ==>
                && 0 < index == old(scn.index) && scns == RemoveAt(old(scns), index)
                && (forall x :: x in scns ==> x in old(scns) && x.shdr == Renumbered(old(x.shdr), index))
                && (forall x :: x in scns ==> HeaderKept(old(scns), scns, index, old(x.shdr), x.shdr))
                && (old(Counted()) ==> (Counted() <==> |scns| < 0x1_0000))
    {
      hide RemoveAt, Renumbered, HeaderKept;
      Distinct();
      if scn.elf != this { return SHN_UNDEF; }
      if scn == first { return SHN_UNDEF; }
      var pscn := FindPrevious(scn);
      if pscn.link != scn { return SHN_UNDEF; }
      index := scn.index;
      ghost var s := scns;
      DelNode(scn, pscn);
      forall x | x in scns ensures HeaderKept(s, scns, index, old(x.shdr), x.shdr) {
        ReferencesKept(s, index, old(x.shdr));
      }
    }

    /** Takes section `scn` out of the list and out of the headers. */
    method DelNode(scn: Scn, pscn: Scn)
      requires Linked() && Listed(scn) && Listed(pscn) && pscn.index + 1 == scn.index && |scns| < 0x1_0000_0000
      modifies this, scns
      ensures Linked() && scns == RemoveAt(old(scns), old(scn.index))
      ensures forall x :: x in scns ==> x in old(scns) && x.shdr == Renumbered(old(x.shdr), old(scn.index))
      ensures old(Counted()) ==> (Counted() <==> |scns| < 0x1_0000)
    {
      hide RemoveAt, Renumbered;
      ghost var s := scns;
      var index := scn.index;
      Unlink(scn, pscn);
      RemainingAreOld(s, index);
      assert forall i :: 0 <= i < |scns| ==> scns[i] in old(scns);
      UpdateShdrs(index);
      SizeKept(old(s[0].shdr), index);
    }

    // ---- Runs ------------------------------------------------------------------------------------

    /** Section number `p`, if there is one. */
    method Get(p: nat) returns (scn: Scn?)
      requires Linked()
      ensures scn == NodeAt(scns, p)
    {
      scn := first;
      ghost var k := 0;
      while scn != null && scn.index != p
        invariant 0 <= k <= |scns| && scn == NodeAt(scns, k) && k <= p
        decreases |scns| - k
      {
        scn := scn.link;
        k := k + 1;
      }
    }

    /** One operation; `made` is what a new section adds. */
    method Apply(op: Op) returns (ghost made: seq<Scn>)
      requires Linked() && Counted() && kind == ElfKind && ehdr.Some? && |scns| + 2 < 0x1_0000_0000
      modifies this, scns
      ensures Linked() && Counted() && kind == ElfKind && ehdr.Some?
      ensures fresh(made) && |made| == Makes(|old(scns)|, op) && scns == ListStep(old(scns), op, made)
      ensures forall k :: 0 <= k < |scns| ==> scns[k] in old(scns) || fresh(scns[k])
    {
      hide MoveAt, RemoveAt;
      made := [];
      match op
      case NewSection =>
        var r := NewScn(NOTHING);
        made := scns[|old(scns)|..];
      case Move(p, a) =>
        var scn := Get(p);
        var after := Get(a);
        if scn != null && after != null {
          MovedAreOld(scns, p, a);
          Distinct();
          var index := MovScn(scn, after);
        }
      case Remove(p) =>
        var scn := Get(p);
        if scn != null {
          RemainingAreOld(scns, p);
          var index := RemScn(scn);
        }
    }

    /** However the operations are mixed, the list is what they make of the sequence one after the other,
        with `made[i]` the new sections of operation `i`; it stays linked and its length stays recorded. */
    method Run(ops: seq<Op>) returns (ghost made: seq<seq<Scn>>)
      requires Linked() && Counted() && kind == ElfKind && ehdr.Some?
      requires |scns| + |ops| + 3 < 0x1_0000_0000
      modifies this, scns
      ensures Linked() && Counted()
      ensures |made| == |ops| && scns == ListAfter(old(scns), ops, made) && |scns| == LengthAfter(|old(scns)|, ops)
      ensures forall i :: 0 <= i < |ops| ==> fresh(made[i]) && |made[i]| == Makes(LengthAfter(|old(scns)|, ops[..i]), ops[i])
    {
      hide ListStep, Makes, LengthAfter, ListAfter, LengthStep, Linked, Counted;
      made := [];
      RunNothing(scns);
      for i := 0 to |ops|
        invariant Linked() && Counted() && kind == ElfKind && ehdr.Some?
        invariant |made| == i && scns == ListAfter(old(scns), ops[..i], made) && |scns| == LengthAfter(|old(scns)|, ops[..i])
        invariant forall k :: 0 <= k < i ==> fresh(made[k]) && |made[k]| == Makes(LengthAfter(|old(scns)|, ops[..k]), ops[k])
        invariant |scns| <= |old(scns)| + i + 1
        invariant forall k :: 0 <= k < |scns| ==> scns[k] in old(scns) || fresh(scns[k])
      {
        ghost var more := Apply(ops[i]);
        RunNext(old(scns), ops[..i], made, ops[i], more);
        LengthGrows(|old(scns)|, ops[..i] + [ops[i]]);
        assert ops[..i + 1] == ops[..i] + [ops[i]];
        made := made + [more];
      }
      assert ops[..|ops|] == ops;
    }
  }

  datatype Op = NewSection | Move(p: nat, after: nat) | Remove(p: nat)

  function LengthStep(n: nat, op: Op): nat {
    match op
    case NewSection => if n == 0 then 2 else n + 1
    case Move(_, _) => n
    case Remove(p) => if 0 < p < n then n - 1 else n
  }

  function LengthAfter(n: nat, ops: seq<Op>): nat {
    if ops == [] then n else LengthStep(LengthAfter(n, ops[..|ops| - 1]), ops[|ops| - 1])
  }

  /** How many sections an operation adds to a list of `n`: the first one brings the null section. */
  function Makes(n: nat, op: Op): nat { if op.NewSection? then if n == 0 then 2 else 1 else 0 }

  /** What an operation makes of the sequence; the null section is neither moved nor removed. */
  function ListStep<T>(s: seq<T>, op: Op, made: seq<T>): seq<T> {
    match op
    case NewSection => s + made
    case Move(p, a) => if 0 < p < |s| && a < |s| then MoveAt(s, p, a) else s
    case Remove(p) => if 0 < p < |s| then RemoveAt(s, p) else s
  }

  function ListAfter<T>(s: seq<T>, ops: seq<Op>, made: seq<seq<T>>): seq<T>
    requires |made| == |ops|
  {
    if ops == [] then s
    else
      var n := |ops| - 1;
      ListStep(ListAfter(s, ops[..n], made[..n]), ops[n], made[n])
  }

  lemma RunNothing<T>(s: seq<T>)
    ensures ListAfter(s, [], []) == s && LengthAfter(|s|, []) == |s|
  {
  }

  lemma RunNext<T>(s: seq<T>, ops: seq<Op>, made: seq<seq<T>>, op: Op, more: seq<T>)
    requires |made| == |ops| && |more| == Makes(|ListAfter(s, ops, made)|, op)
    ensures ListAfter(s, ops + [op], made + [more]) == ListStep(ListAfter(s, ops, made), op, more)
    ensures |ListStep(ListAfter(s, ops, made), op, more)| == LengthStep(|ListAfter(s, ops, made)|, op)
    ensures LengthAfter(|s|, ops + [op]) == LengthStep(LengthAfter(|s|, ops), op)
  {
    hide MoveAt, RemoveAt;
    var n := |ops|;
    assert (ops + [op])[..n] == ops && (made + [more])[..n] == made;
  }

  lemma {:induction false} LengthGrows(n: nat, ops: seq<Op>)
    ensures LengthAfter(n, ops) <= n + |ops| + 1
    ensures n > 0 ==> 0 < LengthAfter(n, ops) <= n + |ops|
  {
    if ops != [] { LengthGrows(n, ops[..|ops| - 1]); }
  }

  lemma MovedAreOld<T>(s: seq<T>, p: nat, a: nat)
    requires p < |s| && a < |s|
    ensures forall x :: x in MoveAt(s, p, a) ==> x in s
  {
  }

  lemma RemainingAreOld<T>(s: seq<T>, p: nat)
    requires p < |s|
    ensures forall x :: x in RemoveAt(s, p) ==> x in s
  {
  }

  lemma SizeKept(h: Shdr, index: nat)
    ensures Renumbered(h, index).size == h.size
  {
  }

  /** A list of 0x10001 sections: after one is deleted the headers record 0x10001 of them still,
      because the new count does not fit the field it is stored in. */
  method WrongCount() returns (e: Elf)
    ensures e.Linked() && |e.scns| == 0x1_0000 && !e.Counted()
  {
    e := new Elf(Ehdr([], 0, 0, 0, 0, 0, 0, 0, 0, 0, 0, 0, 0, 0));
    var r := e.NewScn(NOTHING);
    while r.index < 0x1_0000
      invariant e.Linked() && e.Counted() && e.kind == ElfKind && e.ehdr.Some?
      invariant fresh(e) && forall k :: 0 <= k < |e.scns| ==> fresh(e.scns[k])
      invariant 2 <= |e.scns| <= 0x1_0001 && r == e.scns[|e.scns| - 1]
      decreases 0x1_0001 - |e.scns|
    {
      r := e.NewScn(NOTHING);
    }
    var index := e.DelScn(r);
  }

  /** [null, .text, .symtab, .strtab], where the symbol table names its string table by number. After
      .text is deleted it names it by its new number. */
  method SymbolTable() returns (e: Elf, symtab: Scn)
    ensures e.Linked() && |e.scns| == 3 && e.scns[1] == symtab && symtab.shdr.stype == 2 && e.scns[2].shdr.stype == 3
    ensures symtab.shdr.link == 2
  {
    e := new Elf(Ehdr([], 0, 0, 0, 0, 0, 0, 0, 0, 0, 0, 0, 0, 0));
    var text := e.NewScn(NOTHING);
    symtab := e.NewScn(NOTHING);
    var strtab := e.NewScn(NOTHING);
    e.Distinct();
    text.shdr := ZERO_SHDR.(stype := 1);
    symtab.shdr := ZERO_SHDR.(stype := 2, link := 3);
    strtab.shdr := ZERO_SHDR.(stype := 3);
    ghost var s := e.scns;
    assert s[1] == text && s[2] == symtab && s[3] == strtab;
    RemainingElement(s, 1, 0);
    RemainingElement(s, 1, 1);
    RemainingElement(s, 1, 2);
    var index := e.DelScn(text);
  }
}
