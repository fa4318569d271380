/** Who owns what: the reference counts of archives and their members in libelf/begin.c and
    libelf/end.c. */
module Archive {
  import opened Words
  import opened ElfTypes

  const SIZEOF_AR_HDR := 60

  /** How a descriptor was opened. */
  datatype Access = Access(readable: bool, writable: bool, memory: bool, fd: int)

  class Descriptor {
    const access: Access
    var kind: FileKind
    var count: nat
    var parent: Descriptor?
    var members: Descriptor?
    var link: Descriptor?
    var base: nat
    var off: nat
    /** The members, in list order, and the distance from the file the descriptor was opened from. */
    ghost var kids: seq<Descriptor>
    ghost var depth: nat

    /** `_elf_init` */
    constructor (kind: FileKind, access: Access)
      ensures this.kind == kind && this.access == access && count == 1 && parent == null && members == null && link == null
      ensures base == 0 && off == 0 && kids == [] && depth == 0
    {
      this.access := access;
      this.kind, count, parent, members, link, base, off := kind, 1, null, null, null, 0, 0;
      kids, depth := [], 0;
    }
  }

  datatype Command = NullCommand | ReadFile | WriteFile | ReadWriteFile | OtherCommand

  /** The checks of `elf_begin`: no version set, no such command, a command that the reference does
      not allow, writing a member, or the wrong file. */
  predicate Refused(version: bool, cmd: Command, fd: int, ref: Descriptor?, kind: FileKind) {
    || !version || cmd == NullCommand || cmd == OtherCommand
    || (ref != null &&
        (|| !ref.access.readable
         || (cmd == ReadWriteFile && (!ref.access.writable || kind == ArKind))
         || (kind == ArKind && !ref.access.memory && fd != ref.access.fd)))
  }

  ghost function At(s: seq<Descriptor>, i: nat): Descriptor? { if i < |s| then s[i] else null }

  function RemoveAt<T>(s: seq<T>, k: nat): seq<T>
    requires k < |s|
  {
    s[..k] + s[k + 1..]
  }

  /** The descriptors that have not been released, and the handles the program holds on them. */
  class Library {
    ghost var live: set<Descriptor>
    ghost var handles: multiset<Descriptor>

    /** The list that starts at `members` holds `kids`: live descriptors of this archive with
        pairwise different positions in it. */
    ghost predicate MembersOk(d: Descriptor)
      requires d in live
      reads this, live
    {
      && d.members == At(d.kids, 0)
      && (d.kids != [] ==> d.kind == ArKind)
      && (forall i :: 0 <= i < |d.kids| ==> d.kids[i] in live)
      && (forall i {:trigger d.kids[i].parent} :: 0 <= i < |d.kids| ==> d.kids[i].parent == d)
      && (forall i {:trigger d.kids[i].link} :: 0 <= i < |d.kids| ==> d.kids[i].link == At(d.kids, i + 1))
      && (forall i, j {:trigger d.kids[i].base, d.kids[j].base} ::
            0 <= i < |d.kids| && 0 <= j < |d.kids| && i != j ==> d.kids[i].base != d.kids[j].base)
    }

    /** `d` is in the list of its archive, which is live and nearer to a file. */
    ghost predicate ParentOk(d: Descriptor)
      requires d in live
      reads this, live
    {
      d.parent != null ==> d.parent in live && d in d.parent.kids && d.parent.depth < d.depth
    }

    /** Every count is the number of handles plus the number of members, and one more for `extra`. */
    ghost predicate Counted(extra: Descriptor?)
      reads this, live
    {
      && (forall d :: d in handles ==> d in live)
      && (forall d :: d in live ==>
            d.count > 0 && d.count == handles[d] + |d.kids| + if d == extra then 1 else 0)
    }

    ghost predicate Linked()
      reads this, live
    {
      && (forall d {:trigger MembersOk(d)} :: d in live ==> MembersOk(d))
      && (forall d {:trigger ParentOk(d)} :: d in live ==> ParentOk(d))
    }

    ghost predicate Valid()
      reads this, live
    {
      Counted(null) && Linked()
    }

    constructor ()
      ensures Valid() && live == {} && handles == multiset{}
    {
      live, handles := {}, multiset{};
    }

    /** A descriptor for a file: `elf_begin` without a reference descriptor. */
    method BeginFile(kind: FileKind, access: Access) returns (r: Descriptor)
      requires Valid()
      modifies this
      ensures Valid() && fresh(r) && live == old(live) + {r} && handles == old(handles) + multiset{r}
      ensures r.parent == null && r.access == access
    {
      hide MembersOk, ParentOk;
      r := new Descriptor(kind, access);
      live := live + {r};
      handles := handles + multiset{r};
      Alone(r);
      forall d | d in old(live) ensures MembersOk(d) && ParentOk(d) {
        assert old(MembersOk(d) && ParentOk(d));
        Kept(d);
      }
    }

    lemma Alone(d: Descriptor)
      requires d in live && d.kids == [] && d.members == null && d.parent == null
      ensures MembersOk(d) && ParentOk(d)
    {
    }

    /** Another handle on an open descriptor. */
    method Share(d: Descriptor)
      requires Valid() && d in live
      modifies this`handles, d`count
      ensures Valid() && live == old(live) && handles == old(handles) + multiset{d}
    {
      hide MembersOk, ParentOk;
      d.count := d.count + 1;
      handles := handles + multiset{d};
      forall e | e in live ensures MembersOk(e) && ParentOk(e) {
        assert old(MembersOk(e) && ParentOk(e));
        Kept(e);
      }
    }

    /** No field of the descriptors in `s` changes but for their counts. */
    twostate predicate OnlyCounts(s: set<Descriptor>)
      reads s
    {
      forall x {:trigger x.kids} {:trigger x.link} {:trigger x.parent} {:trigger x.base} {:trigger x.depth} ::
        x in s ==>
        && x.kind == old(x.kind) && x.members == old(x.members) && x.kids == old(x.kids)
        && x.link == old(x.link) && x.parent == old(x.parent) && x.base == old(x.base)
        && x.depth == old(x.depth)
    }

    /** `d` keeps its place when no descriptor changes but for its count. */
    twostate lemma Kept(d: Descriptor)
      requires old(live) <= live && d in old(live) && old(MembersOk(d) && ParentOk(d))
      requires OnlyCounts(old(live))
      ensures MembersOk(d) && ParentOk(d)
    {
    }

    /** The open member of archive `ref` at position `base`, if there is one. */
    method FindMember(ref: Descriptor, base: nat) returns (x: Descriptor?)
      requires Valid() && ref in live
      ensures x != null ==> x in live && x in ref.kids && x.base == base
      ensures x == null ==> forall i :: 0 <= i < |ref.kids| ==> ref.kids[i].base != base
    {
      x := ref.members;
      ghost var k := 0;
      assert MembersOk(ref);
      while x != null && x.base != base
        invariant k <= |ref.kids| && x == At(ref.kids, k)
        invariant forall i :: 0 <= i < k ==> ref.kids[i].base != base
        decreases |ref.kids| - k
      {
        x := x.link;
        k := k + 1;
      }
    }

    /** What linking a new member `r` into `ref` changes. */
    twostate predicate Joined(ref: Descriptor, new r: Descriptor)
      requires ref in old(live)
      reads this, live
    {
      && live == old(live) + {r} && r !in old(live) && r.parent == ref
      && r.kids == [] && r.members == null && r.depth == ref.depth + 1 && r.link == old(ref.members)
      && ref.members == r && ref.kids == [r] + old(ref.kids)
      && (forall x {:trigger x.kids} {:trigger x.members} :: x in old(live) && x != ref ==>
            x.members == old(x.members) && x.kids == old(x.kids))
      && (forall x {:trigger x.link} {:trigger x.parent} {:trigger x.base} {:trigger x.depth} {:trigger x.kind} ::
            x in old(live) ==>
            && x.kind == old(x.kind) && x.link == old(x.link) && x.parent == old(x.parent)
            && x.base == old(x.base) && x.depth == old(x.depth))
    }

    twostate lemma JoinedMembers(ref: Descriptor, new r: Descriptor, new d: Descriptor)
      requires ref in old(live) && ref.kind == ArKind && Joined(ref, r) && d in live
      requires d in old(live) ==> allocated(d) && old(MembersOk(d))
      requires old(MembersOk(ref))
      requires forall i {:trigger old(ref.kids)[i]} :: 0 <= i < |old(ref.kids)| ==> old(ref.kids[i].base) != r.base
      ensures MembersOk(d)
    {
      if d == ref {
        MemberAdded(ref, r, old(ref.kids));
      }
    }

    twostate lemma JoinedParents(ref: Descriptor, new r: Descriptor, new d: Descriptor)
      requires ref in old(live) && Joined(ref, r) && d in live
      requires d in old(live) ==> allocated(d) && old(ParentOk(d))
      ensures ParentOk(d)
    {
      if d != r && d.parent == ref {
        assert d in old(ref.kids);
      }
    }

    twostate lemma JoinedCounts(ref: Descriptor, new r: Descriptor)
      requires old(Counted(null)) && ref in old(live) && Joined(ref, r)
      requires r.count == 1 && ref.count == old(ref.count) + 1 && handles == old(handles) + multiset{r}
      requires forall x {:trigger x.count} :: x in old(live) && x != ref ==> x.count == old(x.count)
      ensures Counted(null)
    {
    }

    /** Parent/child linking of a new member. */
    method LinkMember(ref: Descriptor, r: Descriptor, next: nat)
      requires Valid() && ref in live && ref.kind == ArKind && r !in live
      requires r.count == 1 && r.kids == [] && r.members == null
      requires forall i :: 0 <= i < |ref.kids| ==> ref.kids[i].base != r.base
      modifies this, ref`members, ref`count, ref`kids, ref`off, r`parent, r`depth, r`link
      ensures Valid() && live == old(live) + {r} && handles == old(handles) + multiset{r}
      ensures Joined(ref, r) && ref.off == next
    {
      hide MembersOk, ParentOk, Counted;
      LinkFields(ref, r, next);
      JoinedCounts(ref, r);
      assert old(MembersOk(ref));
      forall d | d in live ensures MembersOk(d) && ParentOk(d) {
        assert d in old(live) ==> old(MembersOk(d) && ParentOk(d));
        JoinedMembers(ref, r, d);
        JoinedParents(ref, r, d);
      }
    }

    method LinkFields(ref: Descriptor, r: Descriptor, next: nat)
      requires ref in live && r !in live && r.count == 1 && r.kids == [] && r.members == null
      modifies this, ref`members, ref`count, ref`kids, ref`off, r`parent, r`depth, r`link
      ensures Joined(ref, r) && handles == old(handles) + multiset{r}
      ensures ref.count == old(ref.count) + 1 && ref.off == next
    {
      hide MembersOk, ParentOk, Counted;
      r.parent := ref;
      r.depth := ref.depth + 1;
      r.link := ref.members;
      ref.members := r;
      ref.count := ref.count + 1;
      ref.kids := [r] + ref.kids;
      ref.off := next;
      live := live + {r};
      handles := handles + multiset{r};
    }

    lemma MemberAdded(ref: Descriptor, r: Descriptor, kids: seq<Descriptor>)
      requires ref in live && r in live && ref.kids == [r] + kids && ref.kind == ArKind
      requires ref.members == r && r.parent == ref && r.link == At(kids, 0)
      requires forall i :: 0 <= i < |kids| ==> kids[i] in live
      requires forall i {:trigger kids[i].parent} :: 0 <= i < |kids| ==> kids[i].parent == ref
      requires forall i {:trigger kids[i].link} :: 0 <= i < |kids| ==> kids[i].link == At(kids, i + 1)
      requires forall i {:trigger kids[i].base} :: 0 <= i < |kids| ==> kids[i].base != r.base
      requires forall i, j {:trigger kids[i].base, kids[j].base} ::
                 0 <= i < |kids| && 0 <= j < |kids| && i != j ==> kids[i].base != kids[j].base
      ensures MembersOk(ref)
    {
      forall i | 0 <= i < |ref.kids|
        ensures ref.kids[i] in live && ref.kids[i].parent == ref && ref.kids[i].link == At(ref.kids, i + 1)
      {
        assert i > 0 ==> ref.kids[i] == kids[i - 1];
      }
      forall i, j | 0 <= i < |ref.kids| && 0 <= j < |ref.kids| && i != j
        ensures ref.kids[i].base != ref.kids[j].base
      {
        assert i > 0 ==> ref.kids[i] == kids[i - 1];
        assert j > 0 ==> ref.kids[j] == kids[j - 1];
      }
    }

    /** `elf_begin` on an archive, for the member that follows its current offset: an open member
        is shared, otherwise a new one is linked in and keeps the archive alive. */
    method BeginMember(ref: Descriptor, size: nat, kind: FileKind) returns (r: Descriptor)
      requires Valid() && ref in live && ref.kind == ArKind
      modifies this, ref, live
      ensures Valid() && r in live && handles == old(handles) + multiset{r}
      ensures r.parent == ref && r.base == ref.base + old(ref.off) + 60
      ensures if r in old(live) then live == old(live) && ref.off == old(ref.off)
              else fresh(r) && live == old(live) + {r} && ref.off == old(ref.off) + 60 + size + size % 2
    {
      hide Counted, ParentOk;
      var offset := ref.off + SIZEOF_AR_HDR;
      var base := ref.base + offset;
      var x := FindMember(ref, base);
      if x != null {
        assert MembersOk(ref);
        Share(x);
        return x;
      }
      r := new Descriptor(kind, Access(true, false, ref.access.memory, ref.access.fd));
      r.base := base;
      LinkMember(ref, r, offset + size + size % 2);
    }

    /** The part of `elf_begin` after its checks: `arhdr` is the size in the member header at the archive's offset, if it is valid. */
    method Begin(ref: Descriptor?, arhdr: Option<nat>, kind: FileKind, access: Access) returns (r: Descriptor?)
      requires Valid() && (ref != null ==> ref in live)
      modifies this, ref, live
      ensures Valid() && old(live) <= live
      ensures r == null <==> ref != null && old(ref.kind) == ArKind && arhdr == None
      ensures if r == null then handles == old(handles) && live == old(live)
              else r in live && handles == old(handles) + multiset{r}
      ensures r != null && ref != null ==> if old(ref.kind) == ArKind then r.parent == ref else r == ref
      ensures r != null && ref == null ==> fresh(r) && r.parent == null && r.access == access
    {
      hide Linked, Counted;
      if ref == null {
        r := BeginFile(kind, access);
      } else if ref.kind != ArKind {
        Share(ref);
        r := ref;
      } else if arhdr == None {
        r := null;
      } else {
        r := BeginMember(ref, arhdr.value, kind);
      }
    }

    /** `elf_begin`: a refused command opens nothing and changes nothing; a descriptor for writing is
        always one for a file. */
    method ElfBegin(version: bool, cmd: Command, fd: int, ref0: Descriptor?, arhdr: Option<nat>, kind: FileKind) returns (r: Descriptor?)
      requires Valid() && (ref0 != null ==> ref0 in live)
      modifies this, ref0, live
      ensures Valid() && old(live) <= live
      ensures var ref := if cmd == WriteFile then null else ref0;
              r == null <==> Refused(version, cmd, fd, ref, if ref == null then NoKind else old(ref.kind))
                             || (ref != null && old(ref.kind) == ArKind && arhdr == None)
      ensures if r == null then handles == old(handles) && live == old(live)
              else r in live && handles == old(handles) + multiset{r}
      ensures r != null && ref0 != null && cmd != WriteFile ==> if old(ref0.kind) == ArKind then r.parent == ref0 else r == ref0
      ensures r != null && (ref0 == null || cmd == WriteFile) ==>
                fresh(r) && r.parent == null && r.access == Access(cmd != WriteFile, cmd != ReadFile, false, fd)
    {
      hide Linked, Counted;
      var ref := ref0;
      if !version || cmd == NullCommand {
        return null;
      } else if cmd == WriteFile {
        ref := null;
      } else if cmd == OtherCommand {
        return null;
      } else if ref != null {
        if !ref.access.readable || (cmd == ReadWriteFile && !ref.access.writable) {
          return null;
        }
        if ref.kind == ArKind && (cmd == ReadWriteFile || (!ref.access.memory && fd != ref.access.fd)) {
          return null;
        }
      }
      r := Begin(ref, arhdr, kind, Access(cmd != WriteFile, cmd != ReadFile, false, fd));
    }

    lemma MembersDiffer(p: Descriptor)
      requires p in live && MembersOk(p)
      ensures forall i, j :: 0 <= i < j < |p.kids| ==> p.kids[i] != p.kids[j]
    {
      forall i, j | 0 <= i < j < |p.kids| ensures p.kids[i] != p.kids[j] {
        assert p.kids[i].base != p.kids[j].base;
      }
    }

    /** Takes `d` out of the list of its archive. */
    method Unlink(p: Descriptor, d: Descriptor) returns (ghost k: nat)
      requires p in live && MembersOk(p) && d in p.kids
      modifies p`members, p`kids, p.kids`link
      ensures k < |old(p.kids)| && old(p.kids)[k] == d && p.kids == RemoveAt(old(p.kids), k)
      ensures p.members == At(p.kids, 0)
      ensures forall i {:trigger p.kids[i].link} :: 0 <= i < |p.kids| ==> p.kids[i].link == At(p.kids, i + 1)
    {
      ghost var kids := p.kids;
      assert links: forall i {:trigger kids[i].link} :: 0 <= i < |kids| ==> kids[i].link == At(kids, i + 1);
      MembersDiffer(p);
      k := 0;
      if p.members == d {
        p.members := d.link;
      } else {
        var x := p.members;
        k := 1;
        while x.link != null && x.link != d
          invariant 1 <= k <= |kids| && x == kids[k - 1]
          invariant forall i :: 0 <= i < k ==> kids[i] != d
          decreases |kids| - k
        {
          x := x.link;
          k := k + 1;
        }
        assert k < |kids| && kids[k] == d;
        assert d.link == At(kids, k + 1);
        x.link := d.link;
      }
      p.kids := RemoveAt(kids, k);
      forall i | 0 <= i < |p.kids| ensures p.kids[i].link == At(p.kids, i + 1) {
        var m := if i < k then i else i + 1;
        assert p.kids[i] == kids[m];
        assert old(kids[m].link) == At(kids, m + 1);
      }
    }

    /** What taking `d` out of the list of `p` changes, once `d` is not live any more. */
    twostate predicate Parted(new p: Descriptor, new d: Descriptor, k: nat)
      requires p in old(live)
      reads this, live, d, p, p.kids
    {
      && live == old(live) - {d} && d in old(live) && p in live
      && k < |old(p.kids)| && old(p.kids)[k] == d && p.kids == RemoveAt(old(p.kids), k)
      && p.members == At(p.kids, 0)
      && (forall i {:trigger p.kids[i].link} :: 0 <= i < |p.kids| ==> p.kids[i].link == At(p.kids, i + 1))
      && (forall x {:trigger x.kids} {:trigger x.members} :: x in old(live) && x != p ==>
            x.members == old(x.members) && x.kids == old(x.kids))
      && (forall x {:trigger x.link} :: x in old(live) && old(x.parent) != p ==> x.link == old(x.link))
      && (forall x {:trigger x.parent} {:trigger x.base} {:trigger x.depth} {:trigger x.kind} :: x in old(live) ==>
            && x.kind == old(x.kind) && x.parent == old(x.parent) && x.base == old(x.base)
            && x.depth == old(x.depth))
    }

    twostate lemma PartedKept(new p: Descriptor, new d: Descriptor, k: nat, new e: Descriptor)
      requires p in old(live) && d in old(live) && Parted(p, d, k) && e in live && e in old(live)
      requires old(MembersOk(e) && ParentOk(e)) && old(MembersOk(p)) && d.parent == p && old(d.kids) == []
      ensures MembersOk(e) && ParentOk(e)
    {
      ghost var kids := old(p.kids);
      if e == p {
        forall i | 0 <= i < |p.kids| ensures p.kids[i] in live && p.kids[i].parent == p {
          var m := if i < k then i else i + 1;
          assert p.kids[i] == kids[m] && old(kids[m].base) != old(kids[k].base);
        }
        forall i, j | 0 <= i < |p.kids| && 0 <= j < |p.kids| && i != j
          ensures p.kids[i].base != p.kids[j].base
        {
          var m, n := if i < k then i else i + 1, if j < k then j else j + 1;
          assert p.kids[i] == kids[m] && p.kids[j] == kids[n];
          assert old(kids[m].base) != old(kids[n].base);
        }
      }
      if e.parent == p {
        var m :| 0 <= m < |kids| && kids[m] == e;
        assert p.kids[if m < k then m else m - 1] == e;
      }
    }

    twostate lemma PartedLinks(new p: Descriptor, new d: Descriptor, k: nat)
      requires p in old(live) && d in old(live) && old(Linked()) && Parted(p, d, k)
      requires old(d.kids) == [] && d.parent == p
      ensures Linked()
    {
      hide MembersOk, ParentOk;
      assert old(MembersOk(p));
      forall e | e in live ensures MembersOk(e) && ParentOk(e) {
        assert old(MembersOk(e) && ParentOk(e));
        PartedKept(p, d, k, e);
      }
    }

    twostate lemma PartedCounts(new p: Descriptor, new d: Descriptor, k: nat)
      requires p in old(live) && d in old(live) && Parted(p, d, k) && old(Counted(d)) && old(d.count) == 1
      requires handles == old(handles) && p != d
      requires forall x {:trigger x.count} :: x in live ==> x.count == old(x.count)
      ensures Counted(p)
    {
    }

    /** A descriptor that has lost its last reference leaves the list of its archive. */
    method Detach(p: Descriptor, d: Descriptor) returns (ghost k: nat)
      requires p in live && d in live && p != d && MembersOk(p) && d in p.kids
      modifies this`live, p`members, p`kids, p.kids`link
      ensures Parted(p, d, k)
    {
      MembersFacts(p);
      hide MembersOk;
      k := Unlink(p, d);
      live := live - {d};
    }

    lemma MembersFacts(p: Descriptor)
      requires p in live && MembersOk(p)
      ensures forall i {:trigger p.kids[i].parent} :: 0 <= i < |p.kids| ==> p.kids[i] in live && p.kids[i].parent == p
    {
    }

    /** `elf_end`: the count-down, and what follows when it reaches zero. One reference on `d` is
        not accounted for by a handle or a member: the one that is given up. */
    method Drop(d: Descriptor) returns (left: nat)
      requires d in live && Counted(d) && Linked()
      modifies this`live, live
      ensures Valid() && live <= old(live) && handles == old(handles)
      ensures left == if d in live then d.count else 0
      ensures forall x :: x in live ==> x.parent == old(x.parent) && x.base == old(x.base) && x.kind == old(x.kind)
      decreases d.depth
    {
      hide MembersOk, ParentOk;
      var p := d.parent;
      assert ParentOk(d) && (p != null ==> MembersOk(p)) by {
        ParentFacts(d);
      }
      ParentFacts(d);
      left := d.count - 1;
      if left > 0 {
        d.count := left;
        KeptAll();
      } else if p != null {
        label before:
        ghost var k := Detach(p, d);
        PartedCounts@before(p, d, k);
        PartedLinks@before(p, d, k);
        var rest := Drop(p);
      } else {
        live := live - {d};
        forall e | e in live ensures MembersOk(e) && ParentOk(e) {
          assert old(MembersOk(e) && ParentOk(e));
          Gone(d, e);
        }
      }
    }

    twostate lemma KeptAll()
      requires live == old(live) && old(Linked())
      requires OnlyCounts(old(live))
      ensures Linked()
    {
      hide MembersOk, ParentOk;
      forall e | e in live ensures MembersOk(e) && ParentOk(e) {
        assert old(MembersOk(e) && ParentOk(e));
        Kept(e);
      }
    }

    twostate lemma Gone(new d: Descriptor, new e: Descriptor)
      requires d in old(live) && live == old(live) - {d} && e in live && e in old(live) && d.kids == [] && d.parent == null
      requires old(MembersOk(e) && ParentOk(e))
      requires OnlyCounts(old(live))
      ensures MembersOk(e) && ParentOk(e)
    {
    }

    lemma ParentFacts(d: Descriptor)
      requires d in live && Linked()
      ensures d.parent != null ==>
                && d.parent in live && MembersOk(d.parent) && d in d.parent.kids && d.parent.depth < d.depth
    {
      assert ParentOk(d);
    }

    /** `elf_end` on a handle. */
    method End(d: Descriptor) returns (left: nat)
      requires Valid() && handles[d] > 0
      modifies this, live
      ensures Valid() && live <= old(live) && handles == old(handles) - multiset{d}
      ensures left == if d in live then d.count else 0
      ensures forall x :: x in live ==> x.parent == old(x.parent) && x.base == old(x.base) && x.kind == old(x.kind)
    {
      hide MembersOk, ParentOk;
      assert d in handles;
      handles := handles - multiset{d};
      KeptAll();
      left := Drop(d);
    }

    /** `d` is `h`, or an archive that `h` was opened from, directly or not. */
    ghost predicate Under(d: Descriptor, h: Descriptor)
      requires Linked() && h in live
      reads this, live
      decreases h.depth
    {
      d == h || (h.parent != null && (assert ParentOk(h); Under(d, h.parent)))
    }

    /** In every valid state exactly those descriptors are still there that have an open handle
        on them or on something opened from them. */
    lemma LiveIsReachable(d: Descriptor)
      requires Valid()
      ensures d in live <==> exists h :: h in handles && Under(d, h)
    {
      if d in live {
        HandleBelow(d, live);
      }
      forall h | h in handles && Under(d, h) ensures d in live {
        UnderIsLive(d, h);
      }
    }

    /** When every handle is closed, everything has been released. */
    lemma NothingLeft()
      requires Valid() && handles == multiset{}
      ensures live == {}
    {
      forall d | d in live ensures false {
        LiveIsReachable(d);
      }
    }

    lemma {:induction false} HandleBelow(d: Descriptor, deeper: set<Descriptor>)
      requires Valid() && d in live
      requires deeper <= live && forall x :: x in live && x.depth > d.depth ==> x in deeper
      ensures exists h :: h in handles && Under(d, h)
      decreases |deeper|
    {
      if handles[d] > 0 {
        assert d in handles && Under(d, d);
      } else {
        assert MembersOk(d);
        var e := d.kids[0];
        assert e.parent == d;
        assert ParentOk(e);
        HandleBelow(e, deeper - {e});
        var h :| h in handles && Under(e, h);
        UnderStep(d, e, h);
      }
    }

    lemma {:induction false} UnderStep(d: Descriptor, e: Descriptor, h: Descriptor)
      requires Linked() && h in live && e in live && e.parent == d && Under(e, h)
      ensures Under(d, h)
      decreases h.depth
    {
      assert ParentOk(h) && ParentOk(e);
      if h != e {
        UnderStep(d, e, h.parent);
      }
    }

    lemma {:induction false} UnderIsLive(d: Descriptor, h: Descriptor)
      requires Linked() && h in live && Under(d, h)
      ensures d in live
      decreases h.depth
    {
      assert ParentOk(h);
      if d != h {
        UnderIsLive(d, h.parent);
      }
    }
  }
}
