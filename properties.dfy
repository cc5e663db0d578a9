/**
 * Properties of the classifier: what the decision rule depends on and what
 * it ignores, and how every failure of the decoding pipeline collapses to
 * "no symbols".
 */
module SymFinderProperties {
  import opened Wrappers
  import opened Goblin
  import opened SymFinder

  // ---------------------------------------------------------------------
  // The decision rule
  // ---------------------------------------------------------------------

  /** A qualifying entry qualifies wherever it sits in a concatenation. */
  lemma AnyQualifiesAppend(tab: Strtab, a: seq<SectionHeader>, b: seq<SectionHeader>, name: seq<byte>)
    ensures AnyQualifies(tab, a + b, name) <==> AnyQualifies(tab, a, name) || AnyQualifies(tab, b, name)
  {
    var all := a + b;
    if AnyQualifies(tab, a, name) {
      var i :| 0 <= i < |a| && Qualifies(tab, a[i], name);
      assert all[i] == a[i];
    }
    if AnyQualifies(tab, b, name) {
      var i :| 0 <= i < |b| && Qualifies(tab, b[i], name);
      assert all[|a| + i] == b[i];
    }
    if AnyQualifies(tab, all, name) {
      var i :| 0 <= i < |all| && Qualifies(tab, all[i], name);
      if i < |a| {
        assert all[i] == a[i];
      } else {
        assert all[i] == b[i - |a|];
      }
    }
  }

  /** Whether some entry qualifies depends only on which entries there are. */
  lemma AnyQualifiesPermutation(tab: Strtab, hs: seq<SectionHeader>, hs': seq<SectionHeader>, name: seq<byte>)
    requires multiset(hs) == multiset(hs')
    ensures AnyQualifies(tab, hs, name) ==> AnyQualifies(tab, hs', name)
  {
    if AnyQualifies(tab, hs, name) {
      var i :| 0 <= i < |hs| && Qualifies(tab, hs[i], name);
      assert hs[i] in multiset(hs);
      assert hs[i] in hs';
      var j :| 0 <= j < |hs'| && hs'[j] == hs[i];
    }
  }

  /** The answer does not depend on the order of the section header table. */
  lemma HasSymsOrderIndependent(tab: Strtab, hs: seq<SectionHeader>, hs': seq<SectionHeader>)
    requires multiset(hs) == multiset(hs')
    ensures HasSyms(tab, hs) <==> HasSyms(tab, hs')
  {
    AnyQualifiesPermutation(tab, hs, hs', SYMTAB);
    AnyQualifiesPermutation(tab, hs', hs, SYMTAB);
    AnyQualifiesPermutation(tab, hs, hs', STRTAB);
    AnyQualifiesPermutation(tab, hs', hs, STRTAB);
  }

  /**
   * The flags are never reset: once the entries scanned so far show both
   * tables, no later entries can undo it.
   */
  lemma LaterEntriesCannotUndo(tab: Strtab, hs: seq<SectionHeader>, later: seq<SectionHeader>)
    requires HasSyms(tab, hs)
    ensures HasSyms(tab, hs + later)
  {
    AnyQualifiesAppend(tab, hs, later, SYMTAB);
    AnyQualifiesAppend(tab, hs, later, STRTAB);
  }

  /**
   * An entry that does not qualify under `name` (its name does not resolve,
   * is another name, or its size is at most 16) leaves that flag as it was,
   * wherever it is inserted.
   */
  lemma OtherEntriesAreIgnored(tab: Strtab, hs: seq<SectionHeader>, k: nat, h: SectionHeader, name: seq<byte>)
    requires k <= |hs|
    requires !Qualifies(tab, h, name)
    ensures AnyQualifies(tab, hs[..k] + [h] + hs[k..], name) <==> AnyQualifies(tab, hs, name)
  {
    assert hs == hs[..k] + hs[k..];
    AnyQualifiesAppend(tab, hs[..k] + [h], hs[k..], name);
    AnyQualifiesSnoc(tab, hs[..k], h, name);
    AnyQualifiesAppend(tab, hs[..k], hs[k..], name);
  }

  /**
   * The size test is strict. When entry `k` is the only `.symtab`, giving it
   * exactly 16 bytes means no symbols, while 17 bytes leaves the answer to
   * the `.strtab` entries.
   */
  lemma SizeThresholdIsStrict(tab: Strtab, hs: seq<SectionHeader>, k: nat)
    requires k < |hs|
    requires GetAt(tab, hs[k].shName) == Some(SYMTAB)
    requires forall j :: 0 <= j < |hs| && j != k ==> GetAt(tab, hs[j].shName) != Some(SYMTAB)
    ensures !HasSyms(tab, hs[k := hs[k].(shSize := 16)])
    ensures HasSyms(tab, hs[k := hs[k].(shSize := 17)]) <==> AnyQualifies(tab, hs, STRTAB)
  {
    var at16 := hs[k := hs[k].(shSize := 16)];
    var at17 := hs[k := hs[k].(shSize := 17)];
    assert !AnyQualifies(tab, at16, SYMTAB);
    assert Qualifies(tab, at17[k], SYMTAB);
    assert STRTAB != SYMTAB by { assert STRTAB[2] != SYMTAB[2]; }
    forall i | 0 <= i < |hs|
      ensures Qualifies(tab, at17[i], STRTAB) <==> Qualifies(tab, hs[i], STRTAB)
    {
      if i == k {
        assert !Qualifies(tab, hs[i], STRTAB);
        assert !Qualifies(tab, at17[i], STRTAB);
      }
    }
    assert AnyQualifies(tab, at17, STRTAB) <==> AnyQualifies(tab, hs, STRTAB) by {
      if AnyQualifies(tab, at17, STRTAB) {
        var i :| 0 <= i < |at17| && Qualifies(tab, at17[i], STRTAB);
        assert Qualifies(tab, hs[i], STRTAB);
      }
      if AnyQualifies(tab, hs, STRTAB) {
        var i :| 0 <= i < |hs| && Qualifies(tab, hs[i], STRTAB);
        assert Qualifies(tab, at17[i], STRTAB);
      }
    }
  }

  /** Through an empty string table no name resolves, so there are no symbols. */
  lemma EmptyStrtabMeansNoSymbols(hs: seq<SectionHeader>)
    ensures !HasSyms(DefaultStrtab(), hs)
  {
  }

  // ---------------------------------------------------------------------
  // Worked examples: a name table where `.symtab` starts at `a` and
  // `.strtab` at `b`, and the three-entry table null, `.symtab`, `.strtab`
  // ---------------------------------------------------------------------

  /** The table null entry, `.symtab` of `symSize` bytes, `.strtab` of `strSize` bytes. */
  function ExampleHeaders(a: usize, b: usize, symSize: u64, strSize: u64): (hs: seq<SectionHeader>)
    ensures |hs| == 3 && hs[1].shName == a && hs[2].shName == b
    ensures hs[0].shSize == 0 && hs[1].shSize == symSize && hs[2].shSize == strSize
  {
    [SectionHeader(0, 0, 0, 0, 0), SectionHeader(a, SHT_SYMTAB, 0, 64, symSize), SectionHeader(b, SHT_STRTAB, 0, 128, strSize)]
  }

  /** A `.symtab` and a `.strtab` of 17 bytes each, in separate entries: symbols. */
  lemma SeventeenByteTablesHaveSymbols(tab: Strtab, a: usize, b: usize)
    requires GetAt(tab, a) == Some(SYMTAB) && GetAt(tab, b) == Some(STRTAB)
    ensures HasSyms(tab, ExampleHeaders(a, b, 17, 17))
  {

  }

  /** The same file with a `.symtab` of exactly 16 bytes: no symbols. */
  lemma SixteenByteSymtabHasNoSymbols(tab: Strtab, a: usize, b: usize)
    requires GetAt(tab, a) == Some(SYMTAB) && GetAt(tab, b) == Some(STRTAB)
    ensures !HasSyms(tab, ExampleHeaders(a, b, 16, 17))
  {
    var hs := ExampleHeaders(a, b, 16, 17);
    assert Some(STRTAB) != Some(SYMTAB) by { assert STRTAB[2] != SYMTAB[2]; }
    forall i | 0 <= i < |hs|
      ensures !Qualifies(tab, hs[i], SYMTAB)
    {
      if i == 2 {
        assert GetAt(tab, hs[i].shName) == Some(STRTAB);
      }
    }
  }

  /** Without any `.strtab` entry there are no symbols, however large `.symtab` is. */
  lemma MissingStrtabHasNoSymbols(tab: Strtab, a: usize, b: usize, symSize: u64)
    requires GetAt(tab, a) == Some(SYMTAB) && GetAt(tab, b) == Some(SYMTAB)
    ensures !HasSyms(tab, ExampleHeaders(a, b, symSize, 4096))
  {
    var hs := ExampleHeaders(a, b, symSize, 4096);
    assert Some(SYMTAB) != Some(STRTAB) by { assert STRTAB[2] != SYMTAB[2]; }
    forall i | 0 <= i < |hs|
      ensures !Qualifies(tab, hs[i], STRTAB)
    {
      if i > 0 {
        assert GetAt(tab, hs[i].shName) == Some(SYMTAB);
      }
    }
  }

  // ---------------------------------------------------------------------
  // The pipeline
  // ---------------------------------------------------------------------

  /** Once every step succeeds, the answer is exactly the decision rule's. */
  lemma DecodedFileIsClassifiedByRule(
    bytes: Bytes, d: Decoders, header: Header, elf: Elf, hs: seq<SectionHeader>, tab: Strtab)
    requires d.parseHeader(bytes) == Some(header)
    requires d.lazyParse(header) == Some(elf)
    requires d.parseSectionHeaders(bytes, header.shoff, header.shnum, SectionHeaderCtx) == Some(hs)
    requires GetStrtab(bytes, hs, header.shstrndx) == Ok(tab)
    ensures FileHasSyms(Some(bytes), d) <==> HasSyms(tab, hs)
  {
  }

  /**
   * An `e_shstrndx` past the end of the section header table gives the
   * empty name table rather than an error, and then no symbols.
   */
  lemma OutOfRangeShstrndxHasNoSymbols(bytes: Bytes, d: Decoders, header: Header, hs: seq<SectionHeader>)
    requires d.parseHeader(bytes) == Some(header)
    requires d.parseSectionHeaders(bytes, header.shoff, header.shnum, SectionHeaderCtx) == Some(hs)
    requires header.shstrndx >= |hs|
    ensures GetStrtab(bytes, hs, header.shstrndx) == Ok(DefaultStrtab())
    ensures !FileHasSyms(Some(bytes), d)
  {

  }

  /**
   * A section-name table whose declared range runs past the end of the file
   * is an error, and then no symbols. `check_size` reports it, unless the
   * entry is exempt from that check; `Strtab::parse` reports it then.
   */
  lemma OversizedShstrtabHasNoSymbols(bytes: Bytes, d: Decoders, header: Header, hs: seq<SectionHeader>)
    requires d.parseHeader(bytes) == Some(header)
    requires d.parseSectionHeaders(bytes, header.shoff, header.shnum, SectionHeaderCtx) == Some(hs)
    requires header.shstrndx < |hs|
    requires hs[header.shstrndx].shOffset + hs[header.shstrndx].shSize > |bytes|
    ensures GetStrtab(bytes, hs, header.shstrndx) ==
      Err(if SizeCheckExempt(hs[header.shstrndx]) then StrtabOutOfBounds else SectionOutOfBounds)
    ensures !FileHasSyms(Some(bytes), d)
  {
  }

  /**
   * A section-name table that lies inside the file but is not valid UTF-8 is
   * an error, and then no symbols, even when `.symtab` and `.strtab` resolve.
   */
  lemma NonUtf8ShstrtabHasNoSymbols(bytes: Bytes, d: Decoders, header: Header, hs: seq<SectionHeader>)
    requires d.parseHeader(bytes) == Some(header)
    requires d.parseSectionHeaders(bytes, header.shoff, header.shnum, SectionHeaderCtx) == Some(hs)
    requires header.shstrndx < |hs|
    requires hs[header.shstrndx].shOffset + hs[header.shstrndx].shSize <= |bytes|
    requires !ValidUtf8(bytes[hs[header.shstrndx].shOffset..hs[header.shstrndx].shOffset + hs[header.shstrndx].shSize])
    ensures GetStrtab(bytes, hs, header.shstrndx).Err?
    ensures !FileHasSyms(Some(bytes), d)
  {
  }

  /**
   * A section-name table of plain ASCII names that lies inside the file is
   * accepted, provided its `sh_addr + sh_size` fits in a `u64` or the entry is
   * exempt from `check_size`.
   */
  lemma AsciiShstrtabIsAccepted(bytes: Bytes, hs: seq<SectionHeader>, idx: usize)
    requires idx < |hs|
    requires hs[idx].shOffset + hs[idx].shSize <= |bytes|
    requires SizeCheckExempt(hs[idx]) || hs[idx].shAddr + hs[idx].shSize < U64_LIMIT
    requires forall k :: hs[idx].shOffset <= k < hs[idx].shOffset + hs[idx].shSize ==> bytes[k] < 0x80
    ensures GetStrtab(bytes, hs, idx).Ok?
  {
    var sh := hs[idx];
    var table := bytes[sh.shOffset..sh.shOffset + sh.shSize];
    assert forall k :: 0 <= k < |table| ==> table[k] == bytes[sh.shOffset + k];
    AsciiIsValidUtf8(table);
  }

  /**
   * Only the 32-bit little-endian decoding of the section headers is ever
   * consulted: two decoders that agree on it (and on the header) classify
   * every file alike. No other layout is ever requested.
   */
  lemma OnlyLittleEndian32Consulted(file: Option<Bytes>, d: Decoders, d': Decoders)
    requires d.parseHeader == d'.parseHeader && d.lazyParse == d'.lazyParse
    requires forall b, off, n :: d.parseSectionHeaders(b, off, n, SectionHeaderCtx) == d'.parseSectionHeaders(b, off, n, SectionHeaderCtx)
    ensures FileHasSyms(file, d) == FileHasSyms(file, d')
  {
  }
}
