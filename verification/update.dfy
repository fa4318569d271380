/** `elf_update` of libelf/update.c: layout, and writing when something has changed. */
module Update {
  import opened Words
  import opened Codec
  import opened Records
  import opened Layout
  import opened Layouter
  import opened Pieces
  import opened WrittenFile
  import opened Writer

  function CleanSection(s: Section): (r: Section)
    ensures |r.bufs| == |s.bufs|
  {
    Section(s.shdr, seq(|s.bufs|, j requires 0 <= j < |s.bufs| => s.bufs[j].(dirty := false)), false, false)
  }

  /** No flag is set after writing. */
  function Cleaned(d: Desc): Desc {
    d.(ehdrDirty := false, phdrDirty := false, elfDirty := false,
       sections := seq(|d.sections|, k requires 0 <= k < |d.sections| => CleanSection(d.sections[k])))
  }

  /** Nothing is dirty then, and nothing else has changed. */
  lemma CleanedIsClean(d: Desc)
    ensures !IsDirty(Cleaned(d))
    ensures var e := Cleaned(d);
            && e.ehdr == d.ehdr && e.phdrs == d.phdrs && e.manual == d.manual && e.overlapAllowed == d.overlapAllowed
            && |e.sections| == |d.sections|
            && forall k :: 0 <= k < |d.sections| ==>
                 && e.sections[k].shdr == d.sections[k].shdr && |e.sections[k].bufs| == |d.sections[k].bufs|
                 && forall j :: 0 <= j < |d.sections[k].bufs| ==> e.sections[k].bufs[j] == d.sections[k].bufs[j].(dirty := false)
  {
  }

  /** The result of an update: the size of the file, or none for an error, and the new file if one is written. */
  datatype Updated = Updated(size: Option<nat>, file: Option<seq<byte>>)

  ghost function UpdateOf(d: Desc, write: bool, host: Encoding, fill: byte): (Desc, Updated)
    requires Layout.Proper(d) && BufsSound(d)
  {
    var o := LayoutOf(d, host);
    if o.result.Failed? then (o.desc, Updated(None, None))
    else if !write || !o.result.dirty then (o.desc, Updated(Some(o.result.size), None))
    else if !Writable(o.desc, host) then (o.desc, Updated(None, None))
    else
      LaidIsRoomy(d, host);
      RoomyFits(o.desc, host, o.result.size);
      (Cleaned(o.desc), Updated(Some(o.result.size),
                                Some(WriteAll(o.desc, host, seq(o.result.size, _ => fill), Labels(o.desc)))))
  }

  lemma RoomyFits(d: Desc, host: Encoding, n: nat)
    requires Sound(d) && Roomy(d, n) && Writable(d, host)
    ensures Fitting(d, host, n, Labels(d))
  {
    hide BufOk, BufBody, Labels, EncodePhdrs, EncodeShdr, Room, Length, PieceOf;
    LabelsAre(d);
    forall i | 0 <= i < |Labels(d)|
      ensures LabelOk(d, host, Labels(d)[i])
      ensures PieceOf(d, host, Labels(d)[i]).pos + Length(PieceOf(d, host, Labels(d)[i]).body) <= n
    {
      assert Labels(d)[i] in Labels(d);
      RoomyFitsOne(d, host, n, Labels(d)[i]);
    }
  }

  lemma RoomyFitsOne(d: Desc, host: Encoding, n: nat, l: Label)
    requires Sound(d) && Roomy(d, n) && LabelOk(d, host, l)
    ensures PieceOf(d, host, l).pos + Length(PieceOf(d, host, l).body) <= n
  {
    hide BufOk, BufBody, EncodePhdrs, EncodeShdr, Room;
    if l.Data? {
      RoomIsLength(host, EncodingOf(d.ehdr), d.sections[l.k].bufs[l.j]);
    }
  }

  /** The cleanup after writing. */
  method Clean(e: Descriptor)
    modifies e
    ensures e.Value() == Cleaned(old(e.Value()))
  {
    ghost var secs := e.sections;
    e.elfDirty, e.ehdrDirty, e.phdrDirty := false, false, false;
    for k := 0 to |e.sections|
      invariant |e.sections| == |secs|
      invariant e.Value() == old(e.Value()).(elfDirty := false, ehdrDirty := false, phdrDirty := false, sections := e.sections)
      invariant forall i :: 0 <= i < |secs| ==> e.sections[i] == if i < k then CleanSection(secs[i]) else secs[i]
    {
      e.sections := e.sections[k := CleanSection(e.sections[k])];
    }
    assert e.sections == Cleaned(old(e.Value())).sections;
  }

  method UpdateFile(e: Descriptor, write: bool, host: Encoding, fill: byte) returns (r: Updated)
    requires Layout.Proper(e.Value()) && BufsSound(e.Value())
    modifies e
    ensures (e.Value(), r) == UpdateOf(old(e.Value()), write, host, fill)
  {
    hide LayoutOf, Cleaned, Writable, WriteAll, Fitting, BufsSound, Sound, Roomy, Labels;
    ghost var d := e.Value();
    var laid := e.Layout(host);
    if laid.Failed? {
      return Updated(None, None);
    }
    if !write || !laid.dirty {
      return Updated(Some(laid.size), None);
    }
    LaidIsRoomy(d, host);
    var out := new byte[laid.size](_ => fill);
    assert out[..] == seq(laid.size, _ => fill);
    var ok := WriteParts(out, e.Value(), host);
    if !ok {
      return Updated(None, None);
    }
    Clean(e);
    return Updated(Some(laid.size), Some(out[..]));
  }

  datatype Command = NullCommand | WriteCommand | OtherCommand

  /** The checks of `elf_update` before the layout, on a descriptor of the 32-bit class with an ELF header. */
  predicate Refused(cmd: Command, writable: bool, disabled: bool) {
    cmd == OtherCommand || (cmd == WriteCommand && (!writable || disabled))
  }

  /** `elf_update`: a refused command changes nothing. */
  method ElfUpdate(e: Descriptor, cmd: Command, writable: bool, disabled: bool, host: Encoding, fill: byte) returns (r: Updated)
    requires Layout.Proper(e.Value()) && BufsSound(e.Value())
    modifies e
    ensures (e.Value(), r) == if Refused(cmd, writable, disabled) then (old(e.Value()), Updated(None, None))
                              else UpdateOf(old(e.Value()), cmd == WriteCommand, host, fill)
  {
    hide LayoutOf, Cleaned, Writable, WriteAll, Fitting, BufsSound, Labels, UpdateOf;
    if cmd == WriteCommand {
      if !writable || disabled {
        return Updated(None, None);
      }
    } else if cmd != NullCommand {
      return Updated(None, None);
    }
    r := UpdateFile(e, cmd == WriteCommand, host, fill);
  }
}
