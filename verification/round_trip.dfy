/** What `elf_update` writes, `_elf_cook_file` reads. */
module RoundTrip {
  import opened Words
  import opened Codec
  import opened Layout
  import opened Allocation
  import opened Pieces
  import opened WrittenFile
  import opened Writer
  import opened Update
  import opened Cook
  import opened ReadBack

  /** An update of a descriptor that is laid out automatically writes a file exactly if something is
      dirty and every buffer can be written; reading it gives back the ELF header, all section headers
      and all program headers as the layout has left them, in a descriptor with no flag set. */
  lemma UpdatedFileReadsBack(d: Desc, host: Encoding, fill: byte)
    requires Layout.Proper(d) && BufsSound(d) && AutoLaid(d, host)
    ensures var o := LayoutOf(d, host);
            var (after, r) := UpdateOf(d, true, host, fill);
            && (r.file.Some? <==> o.result.dirty && Writable(o.desc, host))
            && (r.file.Some? ==>
                  && Ready(d, host, o.desc) && r.file.value == FileOf(d, host, o.desc, fill)
                  && CookOf(r.file.value) == Ok(Cooked(after.ehdr, SectionHeaders(after), after.phdrs))
                  && !IsDirty(after))
  {
    hide LayoutOf, CookOf, WriteAll, Labels, Fitting, Writable, IsDirty, BufsSound;
    var o := LayoutOf(d, host);
    if o.result.dirty && Writable(o.desc, host) {
      var (after, r) := UpdateOf(d, true, host, fill);
      SameFile(d, host, fill);
      HeadersReadBack(d, host, o.desc, fill);
      CleanedIsClean(o.desc);
      assert SectionHeaders(after) == SectionHeaders(o.desc);
    }
  }

  lemma SameFile(d: Desc, host: Encoding, fill: byte)
    requires Layout.Proper(d) && BufsSound(d) && AutoLaid(d, host)
    requires LayoutOf(d, host).result.dirty && Writable(LayoutOf(d, host).desc, host)
    ensures Ready(d, host, LayoutOf(d, host).desc)
    ensures UpdateOf(d, true, host, fill).1.file == Some(FileOf(d, host, LayoutOf(d, host).desc, fill))
  {
    hide LayoutOf, WriteAll, Labels, Fitting, Writable, BufsSound;
    PiecesFit(d, host, LayoutOf(d, host).desc);
  }
}
