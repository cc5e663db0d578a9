# symfinder: the ELF symbol classifier, modelled in Dafny

symfinder scans a directory and names the files that are unstripped ELF
images. The decision is made per file by a classifier that takes the file's
bytes and returns one boolean: does the file still carry a `.symtab` of more
than 16 bytes and a `.strtab` of more than 16 bytes? This project models that
classifier and proves what it promises.

The classifier has three parts, each modelled in the form the Rust code has:

- **the pipeline** (`file_has_syms`): a chain of fallible steps. It reads the
  file, parses the ELF header, does the lazy parse, and decodes `e_shnum`
  section headers at `e_shoff` with a fixed 32-bit little-endian layout. It
  then builds the section-name string table from `e_shstrndx`. Any failure
  yields `false`. Modelled as the function `SymFinder.FileHasSyms` over
  `Option`/`Result`.
- **string-table selection** (`get_strtab`): an out-of-range index gives the
  empty table. An in-range index is bounds-checked against the file before a
  view over it is built. Modelled as the function `SymFinder.GetStrtab`.
- **the decision rule** (`section_headers_indicate_syms`): a loop that only
  ever sets two flags. Modelled as the method
  `SymFinder.SectionHeadersIndicateSyms`, whose `for` loop carries
  invariants tying each flag to the prefix scanned so far. It is proved equal
  to the predicate `SymFinder.HasSyms`: some entry qualifies as `.symtab` and
  some entry qualifies as `.strtab`. `FileHasSyms`, being a function, uses that
  predicate in place of the loop.

The files:

- `goblin.dfy`: modules `Wrappers` (`Option`, `Result`) and `Goblin`, the
  parts of the `goblin` crate the classifier relies on. The byte-level
  decoders `Elf::parse_header`, `Elf::lazy_parse` and `SectionHeader::parse`
  are foreign code. They are passed in as the function-valued fields of a
  `Decoders` record, and nothing is proved about how they decode bytes. Some
  pieces are written out because the classifier's contract depends on them,
  following the goblin releases whose `Strtab::parse` pre-parses every string:
  - `SectionHeader::check_size`: sections of type `SHT_NOBITS` or of size 0
    pass; otherwise `sh_offset + sh_size` must neither overflow a `u64` nor
    pass the file's end, and `sh_addr + sh_size` must not overflow.
  - `Strtab::parse`: a view `(offset, len)` into the file buffer. It fails when
    the range leaves the buffer, or when a NUL-terminated string in it is not
    valid UTF-8 (Table 3-7 of the Unicode Standard, as Rust's `str` demands).
  - `Strtab::default` and `Strtab::get_at`. `get_at` follows the
    NUL-terminated string-table convention of the System V ABI: it returns the
    bytes up to the next NUL. Inside a multi-byte character it returns
    nothing. At the table's end it returns the empty string when the last
    string is unterminated. Past the end it returns nothing.
- `symfinder.dfy`: module `SymFinder`, the three functions of `src/main.rs`.
- `properties.dfy`: module `SymFinderProperties`, lemmas about the decision
  rule and the pipeline.

Two facts about the code shape the model:

- Only the section-name table entry is bounds-checked (`check_size` in
  `get_strtab`, src/main.rs:65). The other entries' ranges are never checked,
  so a `.symtab` whose declared range runs past the end of the file still
  counts.
- Section headers are always decoded with the 32-bit little-endian layout
  (src/main.rs:31), whatever class the ELF header declares. The model passes
  that fixed layout.

## Model

| member | source | states |
|---|---|---|
| `SymFinder.SectionHeadersIndicateSyms` | src/main.rs:46-58 | The scan returns true exactly when some entry resolves to `.symtab` with `sh_size > 16` and some entry, possibly another, resolves to `.strtab` with `sh_size > 16`. The loop invariant says each flag is set exactly when such an entry occurs among the entries scanned so far. |
| `SymFinder.AnyQualifiesSnoc` | src/main.rs:49-55 | Scanning one more entry sets a flag exactly when that entry qualifies or the flag was already set. A flag is never reset. |
| `SymFinder.GetStrtab` | src/main.rs:60-68 | An index at or past the table length gives the empty table and never an error. An in-range index succeeds exactly when three things hold. The entry's `sh_offset + sh_size` lies within the file. The entry is exempt from `check_size` or its `sh_addr + sh_size` fits in a `u64`. Those bytes are valid UTF-8. The result is then a view of exactly that range of the file. A range past the file's end is reported by `check_size`, or by `Strtab::parse` when the entry is exempt from `check_size`. |
| `SymFinder.FileHasSyms` | src/main.rs:23-44 | A true answer means every step succeeded: the file was read, the header parsed, the lazy parse succeeded, the section headers decoded at `e_shoff`/`e_shnum` with the 32-bit little-endian layout, and `get_strtab` succeeded. The resulting table and headers also satisfy the decision rule. So any failing step yields false. |
| `SymFinderProperties.DecodedFileIsClassifiedByRule` | src/main.rs:32-37 | Once every step succeeds, the answer is exactly the decision rule over the decoded headers and name table. This is the converse of `FileHasSyms`'s contract. |
| `SymFinderProperties.OutOfRangeShstrndxHasNoSymbols` | src/main.rs:61-62 | An `e_shstrndx` past the section header table gives the empty name table, not an error, and then the answer is false. |
| `SymFinderProperties.OversizedShstrtabHasNoSymbols` | src/main.rs:64-66 | An in-range name-table entry whose range runs past the end of the file makes `get_strtab` fail, and then the answer is false. The error comes from `check_size`, or from `Strtab::parse` for an entry of type `SHT_NOBITS` or size 0. |
| `SymFinderProperties.NonUtf8ShstrtabHasNoSymbols` | src/main.rs:66 | A name table that lies inside the file but is not valid UTF-8 makes `get_strtab` fail, and then the answer is false, whatever names the table holds. |
| `SymFinderProperties.AsciiShstrtabIsAccepted` | src/main.rs:64-66 | An in-range name-table entry whose bytes lie inside the file and are plain ASCII is accepted by `get_strtab`, provided its `sh_addr + sh_size` fits in a `u64` or the entry is exempt from `check_size`. |
| `SymFinderProperties.OnlyLittleEndian32Consulted` | src/main.rs:27-31 | Two decoder sets that agree on the header and on 32-bit little-endian section-header decoding classify every file alike. No other layout is ever consulted. |
| `SymFinderProperties.AnyQualifiesAppend` | src/main.rs:47-56 | Some entry of a concatenation qualifies exactly when some entry of either part does. |
| `SymFinderProperties.HasSymsOrderIndependent` | src/main.rs:47-57 | Permuting the section header table never changes the answer. |
| `SymFinderProperties.LaterEntriesCannotUndo` | src/main.rs:47-55 | Once the entries scanned so far show both tables, appending any entries keeps the answer true. |
| `SymFinderProperties.OtherEntriesAreIgnored` | src/main.rs:50-54 | An entry that does not qualify under a name leaves that name's flag as it was, wherever the entry is inserted. This covers a name that does not resolve, any other name, and a size of at most 16. |
| `SymFinderProperties.SizeThresholdIsStrict` | src/main.rs:52-53 | If entry `k` is the only one named `.symtab`, giving it exactly 16 bytes makes the answer false. Giving it 17 bytes makes the answer depend on the `.strtab` entries alone. |
| `SymFinderProperties.EmptyStrtabMeansNoSymbols` | src/main.rs:50-57 | Through the empty table no name resolves, so no header table classifies as having symbols. |
| `SymFinderProperties.SeventeenByteTablesHaveSymbols` | src/main.rs:52-57 | A null entry, a 17-byte `.symtab` and a 17-byte `.strtab` in separate entries classify as having symbols. |
| `SymFinderProperties.SixteenByteSymtabHasNoSymbols` | src/main.rs:52-57 | The same table with a `.symtab` of exactly 16 bytes classifies as having no symbols. |
| `SymFinderProperties.MissingStrtabHasNoSymbols` | src/main.rs:52-57 | With no `.strtab` entry the answer is false, however large the `.symtab` is. |
| `Goblin.CheckSize` | src/main.rs:65 | `check_size` succeeds exactly when the section is of type `SHT_NOBITS`, or has size 0, or both of these hold: the mathematical `sh_offset + sh_size` is at most the file length, and `sh_addr + sh_size` is below 2^64. It reports the bounds error exactly when a non-exempt range passes the file's end, and otherwise the address overflow. |
| `Goblin.ParseStrtab` | src/main.rs:66 | `Strtab::parse` succeeds exactly when `offset + len` is at most the buffer length and those bytes are valid UTF-8. The table is then a view of that range of the buffer. It reports the range error exactly when the range leaves the buffer, and otherwise the UTF-8 error. |
| `Goblin.AllStringsValidIsUtf8` | src/main.rs:66 | Checking each NUL-terminated string of the table for UTF-8, as the pre-parse does, accepts exactly the tables that are valid UTF-8 as a whole. |
| `Goblin.ValidUtf8AroundNul` | src/main.rs:66 | Bytes split at a NUL are valid UTF-8 exactly when both sides are. A NUL never occurs inside a multi-byte character. |
| `Goblin.AsciiIsValidUtf8` | src/main.rs:66 | A table of ASCII bytes, such as ordinary section names, always passes the UTF-8 check. |
| `Goblin.DefaultStrtab` | src/main.rs:62 | The default table covers no bytes, and lookup at every offset gives nothing. |
| `Goblin.GetAt` | src/main.rs:50 | Lookup gives a string exactly in two cases. Either the offset is inside the table and not inside a multi-byte character, or it is at the table's end and the last string is unterminated. Inside the table, the string is the table's bytes from the offset up to the next NUL or the table's end, and contains no NUL. At the end it is empty. |
| `Goblin.UntilNul` | src/main.rs:50 | The bytes before the first NUL form a NUL-free prefix ending at a NUL or at the end. |
| `Goblin.LeadingStringUnique` | src/main.rs:50 | Any NUL-free prefix that ends at a NUL or at the end equals `UntilNul`, so the name a lookup returns is uniquely determined. |

## Left out

- `main` (src/main.rs:9-21): argument checking, directory listing and
  printing are I/O around the classifier.
- `fs::read` (src/main.rs:24) is file I/O. `FileHasSyms` takes its outcome as
  a parameter, `None` meaning the read failed.
- `Elf::parse_header`, `Elf::lazy_parse` and `SectionHeader::parse` are
  foreign code and are parameters of the model. Their byte-level decoding is
  not modelled, so the model does not show that a buffer shorter than an ELF
  header is rejected. It shows only that a rejected header means false.
- `Strtab::get_at` looks strings up by binary search over the list that
  `Strtab::parse` pre-parsed. `Goblin.GetAt` states the result directly over
  the table's bytes, and the list itself is not modelled.
- `usize` is taken to be 64 bits wide, as on the hosts the tool targets. On
  a 32-bit host the `as usize` casts of `e_shoff`, `sh_offset` and `sh_size`
  could truncate, and that is not modelled.
- The `Elf` value filled in by the pipeline (src/main.rs:35-36) is a value:
  `FileHasSyms` builds the updated record instead of assigning its two
  fields in place.
