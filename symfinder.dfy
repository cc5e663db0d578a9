/**
 * The ELF symbol classifier: given a file's bytes, decide whether the file
 * still carries a non-trivial `.symtab` and `.strtab`.
 */
module SymFinder {
  import opened Wrappers
  import opened Goblin

  /** The section names the classifier looks for, as ASCII bytes. */
  const SYMTAB: seq<byte> := [0x2e, 0x73, 0x79, 0x6d, 0x74, 0x61, 0x62]  // ".symtab"
  const STRTAB: seq<byte> := [0x2e, 0x73, 0x74, 0x72, 0x74, 0x61, 0x62]  // ".strtab"

  /** A table of at most this many bytes counts as empty. */
  const EMPTY_TABLE_SIZE: nat := 16

  /**
   * The layout section headers are always decoded with: 32-bit entries,
   * little-endian, whatever the ELF header declares.
   */
  const SectionHeaderCtx: Ctx := Ctx(Little, LittleEndian)

  /** Entry `h` is a section called `name` holding more than an empty table. */
  predicate Qualifies(tab: Strtab, h: SectionHeader, name: seq<byte>) {
    GetAt(tab, h.shName) == Some(name) && h.shSize > EMPTY_TABLE_SIZE
  }

  /** Some entry of `headers` qualifies under `name`. */
  predicate AnyQualifies(tab: Strtab, headers: seq<SectionHeader>, name: seq<byte>) {
    exists i :: 0 <= i < |headers| && Qualifies(tab, headers[i], name)
  }

  /**
   * The classification: some entry is a `.symtab` of more than 16 bytes and
   * some (possibly other) entry is a `.strtab` of more than 16 bytes.
   */
  predicate HasSyms(tab: Strtab, headers: seq<SectionHeader>) {
    AnyQualifies(tab, headers, SYMTAB) && AnyQualifies(tab, headers, STRTAB)
  }

  /**
   * The section-name string table: an empty table when `sectionIdx` names no
   * entry; otherwise the entry passes `check_size` and the table is parsed
   * from the bytes it declares.
   */
  function GetStrtab(bytes: Bytes, sectionHeaders: seq<SectionHeader>, sectionIdx: usize)
    : (r: Result<Strtab, Error>)
    ensures sectionIdx >= |sectionHeaders| ==> r == Ok(DefaultStrtab())
    ensures sectionIdx < |sectionHeaders| ==>
      var sh := sectionHeaders[sectionIdx];
      && (r.Ok? <==>
            && sh.shOffset + sh.shSize <= |bytes|
            && (SizeCheckExempt(sh) || sh.shAddr + sh.shSize < U64_LIMIT)
            && ValidUtf8(bytes[sh.shOffset..sh.shOffset + sh.shSize]))
      && (r.Ok? ==> r.value.buf == bytes && r.value.offset == sh.shOffset && r.value.len == sh.shSize)
      && (sh.shOffset + sh.shSize > |bytes| ==>
            r == Err(if SizeCheckExempt(sh) then StrtabOutOfBounds else SectionOutOfBounds))
  {
    if sectionIdx >= |sectionHeaders| then
      Ok(DefaultStrtab())
    else
      var shdr := sectionHeaders[sectionIdx];
      var _ :- CheckSize(shdr, |bytes|);
      ParseStrtab(bytes, shdr.shOffset, shdr.shSize)
  }

  /**
   * The decision rule: scan every entry, setting a flag for each qualifying
   * `.symtab` and `.strtab`; the file has symbols when both flags are set.
   */
  method SectionHeadersIndicateSyms(elf: Elf) returns (r: bool)
    ensures r <==> HasSyms(elf.shdrStrtab, elf.sectionHeaders)
  {
    var goodSymtab := false;
    var goodStrtab := false;
    var headers := elf.sectionHeaders;
    assert SYMTAB != STRTAB by { assert SYMTAB[2] != STRTAB[2]; }
    for i := 0 to |headers|
      invariant goodSymtab <==> AnyQualifies(elf.shdrStrtab, headers[..i], SYMTAB)
      invariant goodStrtab <==> AnyQualifies(elf.shdrStrtab, headers[..i], STRTAB)
    {
      var header := headers[i];
      var symOpt := GetAt(elf.shdrStrtab, header.shName);
      if symOpt == Some(SYMTAB) && header.shSize > EMPTY_TABLE_SIZE {
        goodSymtab := true;
      } else if symOpt == Some(STRTAB) && header.shSize > EMPTY_TABLE_SIZE {
        goodStrtab := true;
      }
      assert headers[..i + 1] == headers[..i] + [header];
      AnyQualifiesSnoc(elf.shdrStrtab, headers[..i], header, SYMTAB);
      AnyQualifiesSnoc(elf.shdrStrtab, headers[..i], header, STRTAB);
    }
    assert headers[..|headers|] == headers;
    r := goodSymtab && goodStrtab;
  }

  /** Extending the scanned prefix by one entry: the flag is set before or by it. */
  lemma AnyQualifiesSnoc(tab: Strtab, headers: seq<SectionHeader>, h: SectionHeader, name: seq<byte>)
    ensures AnyQualifies(tab, headers + [h], name) <==> AnyQualifies(tab, headers, name) || Qualifies(tab, h, name)
  {
    var all := headers + [h];
    if AnyQualifies(tab, headers, name) {
      var i :| 0 <= i < |headers| && Qualifies(tab, headers[i], name);
      assert all[i] == headers[i];
    }
    if Qualifies(tab, h, name) {
      assert all[|headers|] == h;
    }
    if AnyQualifies(tab, all, name) {
      var i :| 0 <= i < |all| && Qualifies(tab, all[i], name);
      if i < |headers| {
        assert all[i] == headers[i];
      }
    }
  }

  /**
   * The whole classifier. `file` is the result of reading the file (`None`
   * when it could not be read) and `d` supplies the foreign decoders. Every
   * failing step makes the answer `false`: a positive answer means the file
   * was read, the header, the lazy parse, the 32-bit little-endian section
   * headers and the section-name table were all obtained, and the table
   * shows both sections.
   */
  function FileHasSyms(file: Option<Bytes>, d: Decoders): (r: bool)
    ensures r ==> file.Some? && d.parseHeader(file.value).Some?
    ensures r ==>
      var bytes := file.value;
      var header := d.parseHeader(bytes).value;
      && d.lazyParse(header).Some?
      && d.parseSectionHeaders(bytes, header.shoff, header.shnum, SectionHeaderCtx).Some?
      && var hs := d.parseSectionHeaders(bytes, header.shoff, header.shnum, SectionHeaderCtx).value;
         && GetStrtab(bytes, hs, header.shstrndx).Ok?
         && HasSyms(GetStrtab(bytes, hs, header.shstrndx).value, hs)
  {
    match file
    case None => false
    case Some(bytes) =>
      match d.parseHeader(bytes)
      case None => false
      case Some(header) =>
        match d.lazyParse(header)
        case None => false
        case Some(elf) =>
          match d.parseSectionHeaders(bytes, header.shoff, header.shnum, SectionHeaderCtx)
          case None => false
          case Some(sectionHeaders) =>
            match GetStrtab(bytes, sectionHeaders, header.shstrndx)
            case Err(_) => false
            case Ok(shdrStrtab) =>
              var parsed := elf.(shdrStrtab := shdrStrtab, sectionHeaders := sectionHeaders);
              HasSyms(parsed.shdrStrtab, parsed.sectionHeaders)
  }
}
