/** Failure-compatible wrappers used by the ELF model. */
module Wrappers {

  datatype Option<+T> = None | Some(value: T)

  datatype Result<+T, +E> = Ok(value: T) | Err(error: E) {

    predicate IsFailure() {
      Err?
    }

    function PropagateFailure<U>(): Result<U, E>
      requires Err?
    {
      Err(error)
    }

    function Extract(): T
      requires Ok?
    {
      value
    }
  }
}

/**
 * The parts of the `goblin` ELF crate that the classifier relies on.
 *
 * The byte-level decoders (`Elf::parse_header`, `Elf::lazy_parse`,
 * `SectionHeader::parse`) are foreign code: they are not re-derived here but
 * passed in as the function-valued fields of `Decoders`. The pieces whose
 * behaviour the classifier's contract depends on (the section bound check,
 * the string-table constructor with its UTF-8 validation, and the table's
 * lookup) are written out.
 */
module Goblin {
  import opened Wrappers

  /** 2^64: one past the largest `u64` (and `usize` on a 64-bit host). */
  const U64_LIMIT: int := 0x1_0000_0000_0000_0000

  /** A `u8`. */
  type byte = x: nat | x < 0x100
  type u16 = x: nat | x < 0x1_0000
  type u32 = x: nat | x < 0x1_0000_0000
  type u64 = x: nat | x < U64_LIMIT
  /** The tool is built for 64-bit hosts, where `usize` is `u64`. */
  type usize = u64

  /** A file's contents: a Rust slice is never longer than `usize::MAX`. */
  type Bytes = s: seq<byte> | |s| < U64_LIMIT witness []

  /** Section types: a symbol table, a string table, and a section that occupies no file bytes. */
  const SHT_SYMTAB: u32 := 2
  const SHT_STRTAB: u32 := 3
  const SHT_NOBITS: u32 := 8

  datatype Error =
    | SectionOutOfBounds     // `check_size`: the section's bytes leave the file
    | SectionAddressOverflow // `check_size`: `sh_addr + sh_size` overflows
    | StrtabOutOfBounds      // `Strtab::parse`: the byte range leaves the buffer
    | BadUtf8                // `Strtab::parse`: a string is not valid UTF-8

  /** The ELF header fields the classifier reads. */
  datatype Header = Header(shoff: u64, shnum: u16, shstrndx: u16)

  /** One section header entry, as far as the classifier and `check_size` read it. */
  datatype SectionHeader = SectionHeader(
    shName: usize,
    shType: u32,
    shAddr: u64,
    shOffset: u64,
    shSize: u64)

  /** `Container::Little` is the 32-bit layout, `Container::Big` the 64-bit one. */
  datatype Container = Little | Big
  datatype Endian = LittleEndian | BigEndian
  datatype Ctx = Ctx(container: Container, le: Endian)

  /**
   * A string table: a view of `len` bytes at `offset` in the buffer `buf`
   * it borrows from. The view always lies inside the buffer.
   */
  datatype StrtabView = StrtabView(buf: seq<byte>, offset: nat, len: nat)
  type Strtab = t: StrtabView | t.offset + t.len <= |t.buf| witness StrtabView([], 0, 0)

  /** The bytes a string table covers. */
  function Contents(t: Strtab): (s: seq<byte>)
    ensures |s| == t.len
  {
    t.buf[t.offset..t.offset + t.len]
  }

  /** The parsed file, as far as the classifier uses it. */
  datatype Elf = Elf(header: Header, sectionHeaders: seq<SectionHeader>, shdrStrtab: Strtab)

  /**
   * The foreign decoders: each yields `None` where goblin returns an error.
   * `parseSectionHeaders(bytes, offset, count, ctx)` decodes `count` entries
   * at `offset` with the given layout.
   */
  datatype Decoders = Decoders(
    parseHeader: Bytes -> Option<Header>,
    lazyParse: Header -> Option<Elf>,
    parseSectionHeaders: (Bytes, usize, usize, Ctx) -> Option<seq<SectionHeader>>)

  /** `Strtab::default()`: a table over no bytes at all. */
  function DefaultStrtab(): (t: Strtab)
    ensures t.len == 0
    ensures forall i: usize :: GetAt(t, i) == None
  {
    StrtabView([], 0, 0)
  }

  /** `check_size` lets these sections through without looking at their range. */
  predicate SizeCheckExempt(sh: SectionHeader) {
    sh.shType == SHT_NOBITS || sh.shSize == 0
  }

  /**
   * `SectionHeader::check_size`: a section of type `SHT_NOBITS` or of size 0
   * passes. Otherwise its end, computed with a `u64` overflowing add, must
   * neither overflow nor pass the buffer's end, and `sh_addr + sh_size` must
   * not overflow either.
   */
  function CheckSize(sh: SectionHeader, size: usize): (r: Result<(), Error>)
    ensures r.Ok? <==>
      SizeCheckExempt(sh) || (sh.shOffset + sh.shSize <= size && sh.shAddr + sh.shSize < U64_LIMIT)
    ensures r.Err? ==> (r.error == SectionOutOfBounds <==> sh.shOffset + sh.shSize > size)
    ensures r.Err? ==> r.error == SectionOutOfBounds || r.error == SectionAddressOverflow
  {
    if sh.shType == SHT_NOBITS || sh.shSize == 0 then
      Ok(())
    else
      var sum := sh.shOffset + sh.shSize;
      var overflow := sum >= U64_LIMIT;
      var end := if overflow then sum - U64_LIMIT else sum;  // the wrapped sum
      if overflow || end > size then
        Err(SectionOutOfBounds)
      else
        var addrOverflow := sh.shAddr + sh.shSize >= U64_LIMIT;
        if addrOverflow then Err(SectionAddressOverflow) else Ok(())
  }

  /** Bytes `0x80..0xBF` continue a multi-byte UTF-8 sequence and never start one. */
  predicate IsContinuation(b: byte) {
    0x80 <= b <= 0xBF
  }

  /**
   * UTF-8 validity (Table 3-7 of the Unicode Standard, which RFC 3629
   * restates and Rust's `str::from_utf8` enforces), read one byte at a time:
   * `pending` continuation bytes of the current character are still owed, and
   * the next of them must lie in `lo..hi`.
   */
  predicate Utf8From(s: seq<byte>, pending: nat, lo: byte, hi: byte)
    decreases |s|
  {
    if |s| == 0 then pending == 0
    else
      var b, rest := s[0], s[1..];
      if pending > 0 then lo <= b <= hi && Utf8From(rest, pending - 1, 0x80, 0xBF)
      else if b < 0x80 then Utf8From(rest, 0, 0x80, 0xBF)
      else if 0xC2 <= b <= 0xDF then Utf8From(rest, 1, 0x80, 0xBF)
      else if b == 0xE0 then Utf8From(rest, 2, 0xA0, 0xBF)
      else if 0xE1 <= b <= 0xEC || 0xEE <= b <= 0xEF then Utf8From(rest, 2, 0x80, 0xBF)
      else if b == 0xED then Utf8From(rest, 2, 0x80, 0x9F)
      else if b == 0xF0 then Utf8From(rest, 3, 0x90, 0xBF)
      else if 0xF1 <= b <= 0xF3 then Utf8From(rest, 3, 0x80, 0xBF)
      else if b == 0xF4 then Utf8From(rest, 3, 0x80, 0x8F)
      else false
  }

  /** `s` is a sequence of well-formed UTF-8 characters. */
  predicate ValidUtf8(s: seq<byte>) {
    Utf8From(s, 0, 0x80, 0xBF)
  }

  /**
   * The check `Strtab::parse` makes while it pre-parses the table: walking
   * from the start, each NUL-terminated string (the last one may run to the
   * end unterminated) must be valid UTF-8.
   */
  predicate AllStringsValid(s: seq<byte>)
    decreases |s|
  {
    |s| == 0 ||
    var w := UntilNul(s);
    ValidUtf8(w) && (|w| == |s| || AllStringsValid(s[|w| + 1..]))
  }

  /** Plain ASCII, such as a table of ordinary section names, is valid UTF-8. */
  lemma {:induction false} AsciiIsValidUtf8(s: seq<byte>)
    requires forall k :: 0 <= k < |s| ==> s[k] < 0x80
    ensures ValidUtf8(s)
    decreases |s|
  {
    if |s| > 0 {
      AsciiIsValidUtf8(s[1..]);
    }
  }

  /**
   * `Strtab::parse(bytes, offset, len, 0)`: a view over `bytes[offset..offset + len]`.
   * It fails when the range (a `usize` overflowing add) leaves the buffer, and
   * when a string in the range is not valid UTF-8.
   */
  function ParseStrtab(bytes: Bytes, offset: usize, len: usize): (r: Result<Strtab, Error>)
    ensures r.Ok? <==> offset + len <= |bytes| && ValidUtf8(bytes[offset..offset + len])
    ensures r.Ok? ==> r.value.buf == bytes && r.value.offset == offset && r.value.len == len
    ensures r.Err? ==> (r.error == StrtabOutOfBounds <==> offset + len > |bytes|)
    ensures r.Err? ==> r.error == StrtabOutOfBounds || r.error == BadUtf8
  {
    var sum := offset + len;
    var overflow := sum >= U64_LIMIT;
    var end := if overflow then sum - U64_LIMIT else sum;  // the wrapped sum
    if overflow || end > |bytes| then
      Err(StrtabOutOfBounds)
    else
      var t: Strtab := StrtabView(bytes, offset, len);
      var strings := Contents(t);
      assert strings == bytes[offset..offset + len];
      AllStringsValidIsUtf8(strings);
      if AllStringsValid(strings) then Ok(t) else Err(BadUtf8)
  }

  /** `s` holds no NUL byte. */
  predicate NulFree(s: seq<byte>) {
    forall k :: 0 <= k < |s| ==> s[k] != 0
  }

  /**
   * `r` is the string at the start of `s` under the NUL-terminated convention:
   * a NUL-free prefix of `s` that stops at a NUL or at the end of `s`.
   */
  predicate IsLeadingString(s: seq<byte>, r: seq<byte>) {
    && |r| <= |s|
    && r == s[..|r|]
    && NulFree(r)
    && (|r| < |s| ==> s[|r|] == 0)
  }

  /** The bytes of `s` before its first NUL (all of `s` if it has none). */
  function UntilNul(s: seq<byte>): (r: seq<byte>)
    ensures IsLeadingString(s, r)
  {
    if |s| == 0 || s[0] == 0 then [] else [s[0]] + UntilNul(s[1..])
  }

  /** There is only one leading string, so `UntilNul` is the only choice. */
  lemma LeadingStringUnique(s: seq<byte>, r: seq<byte>)
    requires IsLeadingString(s, r)
    ensures r == UntilNul(s)
  {
  }

  /**
   * A NUL is never part of a multi-byte character, so reading a NUL-free `w`
   * followed by a NUL succeeds exactly when `w` is read to a character
   * boundary and what follows the NUL is valid on its own.
   */
  lemma {:induction false} Utf8FromAroundNul(w: seq<byte>, rest: seq<byte>, pending: nat, lo: byte, hi: byte)
    requires NulFree(w)
    requires pending > 0 ==> lo >= 0x80
    ensures Utf8From(w + [0] + rest, pending, lo, hi) <==> Utf8From(w, pending, lo, hi) && ValidUtf8(rest)
    decreases |w|
  {
    var s := w + [0] + rest;
    if |w| == 0 {
      assert s[1..] == rest;
    } else {
      assert s[0] == w[0];
      assert s[1..] == w[1..] + [0] + rest;
      var b := w[0];
      if pending > 0 {
        Utf8FromAroundNul(w[1..], rest, pending - 1, 0x80, 0xBF);
      } else if b < 0x80 {
        Utf8FromAroundNul(w[1..], rest, 0, 0x80, 0xBF);
      } else if 0xC2 <= b <= 0xDF {
        Utf8FromAroundNul(w[1..], rest, 1, 0x80, 0xBF);
      } else if b == 0xE0 {
        Utf8FromAroundNul(w[1..], rest, 2, 0xA0, 0xBF);
      } else if 0xE1 <= b <= 0xEC || 0xEE <= b <= 0xEF {
        Utf8FromAroundNul(w[1..], rest, 2, 0x80, 0xBF);
      } else if b == 0xED {
        Utf8FromAroundNul(w[1..], rest, 2, 0x80, 0x9F);
      } else if b == 0xF0 {
        Utf8FromAroundNul(w[1..], rest, 3, 0x90, 0xBF);
      } else if 0xF1 <= b <= 0xF3 {
        Utf8FromAroundNul(w[1..], rest, 3, 0x80, 0xBF);
      } else if b == 0xF4 {
        Utf8FromAroundNul(w[1..], rest, 3, 0x80, 0x8F);
      }
    }
  }

  /** A NUL splits UTF-8 validity: both sides must be valid, and that suffices. */
  lemma ValidUtf8AroundNul(w: seq<byte>, rest: seq<byte>)
    requires NulFree(w)
    ensures ValidUtf8(w + [0] + rest) <==> ValidUtf8(w) && ValidUtf8(rest)
  {
    Utf8FromAroundNul(w, rest, 0, 0x80, 0xBF);
  }

  /**
   * The pre-parse's string-by-string check is the same as asking that the
   * whole table be valid UTF-8.
   */
  lemma {:induction false} AllStringsValidIsUtf8(s: seq<byte>)
    ensures AllStringsValid(s) <==> ValidUtf8(s)
    decreases |s|
  {
    if |s| > 0 {
      var w := UntilNul(s);
      if |w| < |s| {
        var rest := s[|w| + 1..];
        assert s == w + [0] + rest;
        ValidUtf8AroundNul(w, rest);
        AllStringsValidIsUtf8(rest);
      } else {
        assert w == s;
      }
    }
  }

  /**
   * `Strtab::get_at(i)`, the lookup over the pre-parsed strings: at the start
   * of a character inside the table, the string from `i` to the next NUL or
   * the table's end. Inside a multi-byte character there is nothing (a `str`
   * cannot be sliced there). At the table's end there is the empty string
   * when the last string is unterminated, and nothing otherwise; past the end
   * there is nothing.
   */
  function GetAt(t: Strtab, i: usize): (r: Option<seq<byte>>)
    ensures r.Some? <==>
      || (i < t.len && !IsContinuation(Contents(t)[i]))
      || (i == t.len && t.len > 0 && Contents(t)[i - 1] != 0)
    ensures r.Some? && i < t.len ==> IsLeadingString(Contents(t)[i..], r.value)
    ensures r.Some? && i >= t.len ==> r.value == []
  {
    var s := Contents(t);
    if i < t.len then
      if IsContinuation(s[i]) then None else Some(UntilNul(s[i..]))
    else if i == t.len && t.len > 0 && s[i - 1] != 0 then
      Some([])
    else
      None
  }
}
