/** Reading an ELF file of the 32-bit class: libelf/cook.c and `elf_getdata` of libelf/getdata.c. */
module Cook {
  import opened Words
  import opened ElfTypes
  import opened Codec
  import opened Records
  import Versions
  import opened Layout
  import opened Pieces

  datatype CookError =
    | NotElf | BadVersion | BadEncoding | BadClass | OtherClass
    | Outside | TruncEhdr | TruncPhdr | TruncShdr | BadShentsize | BadPhentsize | NoSuchSection

  datatype Cooked = Cooked(ehdr: Ehdr, shdrs: seq<Shdr>, phdrs: seq<Phdr>)

  datatype Either<T> = Ok(value: T) | Err(error: CookError)

  function EncodingIn(file: seq<byte>): Encoding
    requires |file| >= 16
  {
    if file[5] == 1 then Lsb else Msb
  }

  // ---- Specification ---------------------------------------------------------------------------------------

  function ShdrAt(file: seq<byte>, enc: Encoding, pos: nat): Shdr
    requires pos + 40 <= |file|
  {
    DecodeShdr(enc, file[pos..pos + 40])
  }

  function PhdrAt(file: seq<byte>, enc: Encoding, pos: nat): Phdr
    requires pos + 32 <= |file|
  {
    DecodePhdr(enc, file[pos..pos + 32])
  }

  /** The number of sections, from the first section header if the ELF header says none. */
  function Shnum(file: seq<byte>, enc: Encoding, e: Ehdr): nat
    requires e.shoff + 40 <= |file|
  {
    if e.shnum == 0 then ShdrAt(file, enc, e.shoff).size else e.shnum
  }

  /** `_elf_cook_shdr` */
  function ShdrsOf(file: seq<byte>, enc: Encoding, e: Ehdr): Either<seq<Shdr>> {
    if e.shoff == 0 then Ok([])
    else if e.shoff > |file| then Err(Outside)
    else if e.shentsize != 40 then Err(BadShentsize)
    else if e.shnum == 0 && |file| - e.shoff < 40 then Err(TruncShdr)
    else if |file| - e.shoff < 40 * (if e.shnum == 0 then Shnum(file, enc, e) else e.shnum) then Err(TruncShdr)
    else
      var n := if e.shnum == 0 then Shnum(file, enc, e) else e.shnum;
      Ok(seq(n, i requires 0 <= i < n => ShdrAt(file, enc, e.shoff + 40 * i)))
  }

  /** The number of program headers, from the first section header if it is escaped. */
  function Phnum(e: Ehdr, shdrs: seq<Shdr>): nat
    requires e.phnum == PN_XNUM ==> shdrs != []
  {
    if e.phnum == PN_XNUM then shdrs[0].info else e.phnum
  }

  /** `_elf_cook_phdr` */
  function PhdrsOf(file: seq<byte>, enc: Encoding, e: Ehdr, shdrs: seq<Shdr>): Either<seq<Phdr>> {
    if e.phoff == 0 then Ok([])
    else if e.phnum == PN_XNUM && shdrs == [] then Err(NoSuchSection)
    else if e.phentsize != 32 then Err(BadPhentsize)
    else
      var n := Phnum(e, shdrs);
      if n == 0 then Ok([])
      else if e.phoff > |file| then Err(Outside)
      else if |file| - e.phoff < 32 * n then Err(TruncPhdr)
      else Ok(seq(n, i requires 0 <= i < n => PhdrAt(file, enc, e.phoff + 32 * i)))
  }

  /** `_elf_cook` on a file image. */
  function CookOf(file: seq<byte>): Either<Cooked> {
    if |file| < 16 || file[..4] != [0x7f, 0x45, 0x4c, 0x46] then Err(NotElf)
    else if file[6] != 1 then Err(BadVersion)
    else if file[5] != 1 && file[5] != 2 then Err(BadEncoding)
    else if file[4] == 2 then Err(OtherClass)
    else if file[4] != 1 then Err(BadClass)
    else if |file| < 52 then Err(TruncEhdr)
    else
      var enc := EncodingIn(file);
      var e := DecodeEhdr(enc, file[..52]);
      var shdrs := ShdrsOf(file, enc, e);
      if shdrs.Err? then Err(shdrs.error)
      else
        var phdrs := PhdrsOf(file, enc, e, shdrs.value);
        if phdrs.Err? then Err(phdrs.error) else Ok(Cooked(e, shdrs.value, phdrs.value))
  }

  /** The bytes of a section in memory: `elf_getdata` for a section of the file; `back` is what the
      memory for version records held before. */
  function DataOf(file: seq<byte>, enc: Encoding, host: Encoding, h: Shdr, back: seq<byte>): Option<seq<byte>>
    requires |back| == h.size
  {
    if h.stype == SHT_NULL || h.offset > |file| then None
    else if h.stype == SHT_NOBITS || h.size == 0 then Some([])
    else if h.offset + h.size > |file| then None
    else
      var raw, t := file[h.offset..h.offset + h.size], ScnType(h.stype);
      if IsVersion(t) then
        if Versions.FullWalk(ShapeOf(t), enc, raw, 0).ok then Some(Versions.Pass(ShapeOf(t), enc, host, raw, back)) else None
      else
        ElementSizes(t);
        Some(Xlate(Widths(t), enc, host, raw))
  }

  // ---- The loops of the source -------------------------------------------------------------------------------

  /** `_elf_item` for a program header. */
  method PhdrItem(file: seq<byte>, enc: Encoding, pos: nat) returns (r: Either<Phdr>)
    ensures r == if pos > |file| then Err(Outside) else if |file| - pos < 32 then Err(TruncPhdr) else Ok(PhdrAt(file, enc, pos))
  {
    if pos > |file| {
      return Err(Outside);
    }
    if |file| - pos < 32 {
      return Err(TruncPhdr);
    }
    return Ok(DecodePhdr(enc, file[pos..pos + 32]));
  }

  method CookPhdrs(file: seq<byte>, enc: Encoding, e: Ehdr, shdrs: seq<Shdr>) returns (r: Either<seq<Phdr>>)
    ensures r == PhdrsOf(file, enc, e, shdrs)
  {
    hide PhdrAt;
    if e.phoff == 0 {
      return Ok([]);
    }
    var num: nat := e.phnum;
    if num == PN_XNUM {
      if |shdrs| == 0 {
        return Err(NoSuchSection);
      }
      num := shdrs[0].info;
    }
    if e.phentsize != 32 {
      return Err(BadPhentsize);
    }
    var ps := [];
    for i := 0 to num
      invariant |ps| == i && (i > 0 ==> e.phoff + 32 * i <= |file|)
      invariant forall j :: 0 <= j < i ==> ps[j] == PhdrAt(file, enc, e.phoff + 32 * j)
    {
      var p := PhdrItem(file, enc, e.phoff + i * e.phentsize);
      if p.Err? {
        return Err(p.error);
      }
      ps := ps + [p.value];
    }
    assert num > 0 ==> ps == seq(num, i requires 0 <= i < num => PhdrAt(file, enc, e.phoff + 32 * i));
    return Ok(ps);
  }

  /** The section headers, from the last one to the first. */
  method CookShdrs(file: seq<byte>, enc: Encoding, e: Ehdr) returns (r: Either<seq<Shdr>>)
    ensures r == ShdrsOf(file, enc, e)
  {
    hide ShdrAt;
    if e.shoff == 0 {
      return Ok([]);
    }
    if e.shoff > |file| {
      return Err(Outside);
    }
    if e.shentsize != 40 {
      return Err(BadShentsize);
    }
    var num: nat := e.shnum;
    if num == 0 {
      if |file| - e.shoff < e.shentsize {
        return Err(TruncShdr);
      }
      var first := ShdrAt(file, enc, e.shoff);
      num := first.size;
    }
    if (|file| - e.shoff) / e.shentsize < num {
      return Err(TruncShdr);
    }
    var i, scns := num, [];
    while i > 0
      invariant 0 <= i <= num && |scns| == num - i
      invariant forall j :: i <= j < num ==> scns[j - i] == ShdrAt(file, enc, e.shoff + 40 * j)
    {
      i := i - 1;
      scns := [ShdrAt(file, enc, e.shoff + i * e.shentsize)] + scns;
    }
    assert scns == seq(num, j requires 0 <= j < num => ShdrAt(file, enc, e.shoff + 40 * j)) by {
      assert forall j :: 0 <= j < num ==> scns[j - 0] == ShdrAt(file, enc, e.shoff + 40 * j);
    }
    return Ok(scns);
  }

  method CookFile(file: seq<byte>) returns (r: Either<Cooked>)
    ensures r == CookOf(file)
  {
    hide ShdrsOf, PhdrsOf, DecodeEhdr;
    if |file| < 16 || file[..4] != [0x7f, 0x45, 0x4c, 0x46] {
      return Err(NotElf);
    }
    if file[6] != 1 {
      return Err(BadVersion);
    }
    if file[5] != 1 && file[5] != 2 {
      return Err(BadEncoding);
    }
    if file[4] != 1 {
      return Err(if file[4] == 2 then OtherClass else BadClass);
    }
    if |file| < 52 {
      return Err(TruncEhdr);
    }
    var enc := EncodingIn(file);
    var e := DecodeEhdr(enc, file[..52]);
    var shdrs := CookShdrs(file, enc, e);
    if shdrs.Err? {
      return Err(shdrs.error);
    }
    var phdrs := CookPhdrs(file, enc, e, shdrs.value);
    if phdrs.Err? {
      return Err(phdrs.error);
    }
    return Ok(Cooked(e, shdrs.value, phdrs.value));
  }
}
