/**
 The ELF loader: little-endian 32- and 64-bit files, their loadable segments written to guest memory in
 chunks of at most eight bytes, the rest of each segment filled with zeros.
 */
module Elf {
  import opened Outcomes
  import opened Words
  import opened Memory
  import opened ChunkedWrite

  const PT_LOAD := 1
  const CLASS32 := 1
  const CLASS64 := 2

  datatype Header = Header(class_: Byte, machine: nat, entry: nat, phoff: nat, phentsize: nat, phnum: nat)

  datatype Phdr = Phdr(type_: nat, offset: nat, vaddr: nat, filesz: nat, memsz: nat, flags: nat)

  /** A file is parsed, rejected with an error, or makes the parser abort. */
  datatype Parsed = Parsed(header: Header, phdrs: seq<Phdr>) | Rejected | Aborted

  function U16(d: seq<Byte>, off: nat): nat
    requires off + 2 <= |d|
  {
    d[off] as int + 256 * d[off + 1] as int
  }

  function U32(d: seq<Byte>, off: nat): nat
    requires off + 4 <= |d|
  {
    U16(d, off) + 65536 * U16(d, off + 2)
  }

  function U64At(d: seq<Byte>, off: nat): nat
    requires off + 8 <= |d|
  {
    U32(d, off) + 0x1_0000_0000 * U32(d, off + 4)
  }

  lemma Halves(d: seq<Byte>, off: nat, n: nat)
    requires off + 2 * n <= |d|
    ensures BytesValue(d[off..off + 2 * n])
            == BytesValue(d[off..off + n]) + Pow2(8 * n) * BytesValue(d[off + n..off + 2 * n])
  {
    assert d[off..off + 2 * n] == d[off..off + n] + d[off + n..off + 2 * n];
    BytesAppend(d[off..off + n], d[off + n..off + 2 * n]);
    RaiseIsMultiply(BytesValue(d[off + n..off + 2 * n]), 8 * n);
  }

  lemma OneByteValue(d: seq<Byte>, off: nat)
    requires off < |d|
    ensures BytesValue(d[off..off + 1]) == d[off]
  {
    assert d[off..off + 1] == [d[off]] && [d[off]][1..] == [];
  }

  lemma Reads2(d: seq<Byte>, off: nat)
    requires off + 2 <= |d|
    ensures U16(d, off) == BytesValue(d[off..off + 2])
  {
    OneByteValue(d, off);
    OneByteValue(d, off + 1);
    Halves(d, off, 1);
    Pow2Values();
  }

  lemma Reads4(d: seq<Byte>, off: nat)
    requires off + 4 <= |d|
    ensures U32(d, off) == BytesValue(d[off..off + 4])
  {
    Reads2(d, off);
    Reads2(d, off + 2);
    Halves(d, off, 2);
    Pow2Values();
    Pow2Add(8, 8);
  }

  lemma Reads8(d: seq<Byte>, off: nat)
    requires off + 8 <= |d|
    ensures U64At(d, off) == BytesValue(d[off..off + 8])
  {
    Reads4(d, off);
    Reads4(d, off + 4);
    Halves(d, off, 4);
    Pow2Values();
  }

  // ---- parsing ----

  function ParseHeader(d: seq<Byte>): Header
    requires |d| >= 52 && (d[4] == CLASS64 ==> |d| >= 64)
  {
    if d[4] == CLASS64 then Header(d[4], U16(d, 18), U64At(d, 24), U64At(d, 32), U16(d, 54), U16(d, 56))
    else Header(d[4], U16(d, 18), U32(d, 24), U32(d, 28), U16(d, 42), U16(d, 44))
  }

  function EntrySize(class_: Byte): nat {
    if class_ == CLASS64 then 56 else 32
  }

  function ParseEntry(d: seq<Byte>, class_: Byte, off: nat): Phdr
    requires off + EntrySize(class_) <= |d|
  {
    if class_ == CLASS64
    then Phdr(U32(d, off), U64At(d, off + 8), U64At(d, off + 16), U64At(d, off + 32), U64At(d, off + 40), U32(d, off + 4))
    else Phdr(U32(d, off), U32(d, off + 4), U32(d, off + 8), U32(d, off + 16), U32(d, off + 20), U32(d, off + 24))
  }

  /** The program headers from the `i`-th on; an offset beyond 64 bits aborts. */
  function ParseEntries(d: seq<Byte>, h: Header, i: nat): Parsed
    decreases h.phnum - i
  {
    if i >= h.phnum then Parsed(h, [])
    else
      var off := h.phoff + i * h.phentsize;
      if off + EntrySize(h.class_) >= TWO64 then Aborted
      else if off + EntrySize(h.class_) > |d| then Rejected
      else
        match ParseEntries(d, h, i + 1)
        case Parsed(_, rest) => Parsed(h, [ParseEntry(d, h.class_, off)] + rest)
        case failed => failed
  }

  predicate HasMagic(d: seq<Byte>)
    requires |d| >= 16
  {
    d[0] == 0x7f && d[1] == 'E' as int && d[2] == 'L' as int && d[3] == 'F' as int
  }

  /** The machine field is read before the header's length is checked. */
  function Parse(d: seq<Byte>): Parsed {
    if |d| < 16 || !HasMagic(d) || d[5] != 1 then Rejected
    else if |d| < 20 then Aborted
    else if (d[4] == CLASS64 && |d| >= 64) || (d[4] == CLASS32 && |d| >= 52) then ParseEntries(d, ParseHeader(d), 0)
    else Rejected
  }

  // ---- what a file holds ----

  /** The `n` bytes at `off` are the number `v`. */
  predicate FieldIs(d: seq<Byte>, off: nat, n: nat, v: nat) {
    off + n <= |d| && d[off..off + n] == Bytes(v, n)
  }

  /** A field of the right width is the number its bytes are. */
  lemma FieldIsValue(d: seq<Byte>, off: nat, n: nat, v: nat)
    requires off + n <= |d|
    ensures FieldIs(d, off, n, v) && v < Pow2(8 * n) <==> BytesValue(d[off..off + n]) == v
  {
    var s := d[off..off + n];
    BytesOfValue(s);
    ValueOfBytes(v, n);
    if v < Pow2(8 * n) {
      SmallMod(v, Pow2(8 * n));
    }
  }

  lemma FieldWidths()
    ensures Pow2(8 * 1) == 256 && Pow2(8 * 2) == 65536 && Pow2(8 * 4) == 0x1_0000_0000 && Pow2(8 * 8) == TWO64
  {
    Pow2Values();
    Pow2Add(8, 8);
  }

  lemma Field1(d: seq<Byte>, off: nat, v: nat)
    requires off + 1 <= |d|
    ensures FieldIs(d, off, 1, v) && v < 256 <==> d[off] == v
  {
    FieldIsValue(d, off, 1, v);
    FieldWidths();
    OneByteValue(d, off);
  }

  lemma Field2(d: seq<Byte>, off: nat, v: nat)
    requires off + 2 <= |d|
    ensures FieldIs(d, off, 2, v) && v < 65536 <==> U16(d, off) == v
  {
    FieldIsValue(d, off, 2, v);
    FieldWidths();
    Reads2(d, off);
  }

  lemma Field4(d: seq<Byte>, off: nat, v: nat)
    requires off + 4 <= |d|
    ensures FieldIs(d, off, 4, v) && v < 0x1_0000_0000 <==> U32(d, off) == v
  {
    FieldIsValue(d, off, 4, v);
    FieldWidths();
    Reads4(d, off);
  }

  lemma Field8(d: seq<Byte>, off: nat, v: nat)
    requires off + 8 <= |d|
    ensures FieldIs(d, off, 8, v) && v < TWO64 <==> U64At(d, off) == v
  {
    FieldIsValue(d, off, 8, v);
    FieldWidths();
    Reads8(d, off);
  }

  /** The file's identification and header say `h`, at the offsets of the ELF specification. */
  predicate HeaderHolds(d: seq<Byte>, h: Header) {
    && FieldIs(d, 0, 1, 0x7f) && FieldIs(d, 1, 1, 'E' as int) && FieldIs(d, 2, 1, 'L' as int) && FieldIs(d, 3, 1, 'F' as int)
    && FieldIs(d, 4, 1, h.class_) && FieldIs(d, 5, 1, 1)
    && FieldIs(d, 18, 2, h.machine) && h.machine < 65536 && h.phentsize < 65536 && h.phnum < 65536
    && if h.class_ == 2 then
         && |d| >= 64 && h.entry < TWO64 && h.phoff < TWO64
         && FieldIs(d, 24, 8, h.entry) && FieldIs(d, 32, 8, h.phoff)
         && FieldIs(d, 54, 2, h.phentsize) && FieldIs(d, 56, 2, h.phnum)
       else
         && h.class_ == 1 && |d| >= 52 && h.entry < 0x1_0000_0000 && h.phoff < 0x1_0000_0000
         && FieldIs(d, 24, 4, h.entry) && FieldIs(d, 28, 4, h.phoff)
         && FieldIs(d, 42, 2, h.phentsize) && FieldIs(d, 44, 2, h.phnum)
  }

  /** The program header at `off` says `ph`, whole within the file. */
  predicate EntryHolds(d: seq<Byte>, class_: Byte, off: nat, ph: Phdr) {
    && ph.type_ < 0x1_0000_0000 && ph.flags < 0x1_0000_0000
    && if class_ == 2 then
         && off + 56 <= |d| && off + 56 < TWO64
         && ph.offset < TWO64 && ph.vaddr < TWO64 && ph.filesz < TWO64 && ph.memsz < TWO64
         && FieldIs(d, off, 4, ph.type_) && FieldIs(d, off + 4, 4, ph.flags)
         && FieldIs(d, off + 8, 8, ph.offset) && FieldIs(d, off + 16, 8, ph.vaddr)
         && FieldIs(d, off + 32, 8, ph.filesz) && FieldIs(d, off + 40, 8, ph.memsz)
       else
         && off + 32 <= |d| && off + 32 < TWO64
         && ph.offset < 0x1_0000_0000 && ph.vaddr < 0x1_0000_0000 && ph.filesz < 0x1_0000_0000 && ph.memsz < 0x1_0000_0000
         && FieldIs(d, off, 4, ph.type_) && FieldIs(d, off + 4, 4, ph.offset) && FieldIs(d, off + 8, 4, ph.vaddr)
         && FieldIs(d, off + 16, 4, ph.filesz) && FieldIs(d, off + 20, 4, ph.memsz) && FieldIs(d, off + 24, 4, ph.flags)
  }

  /** The `i`-th program header says `ph`. */
  predicate EntryHoldsAt(d: seq<Byte>, h: Header, i: nat, ph: Phdr) {
    EntryHolds(d, h.class_, h.phoff + i * h.phentsize, ph)
  }

  /** The file holds this header and, where it says they are, these program headers. */
  predicate FileHolds(d: seq<Byte>, h: Header, phdrs: seq<Phdr>) {
    && HeaderHolds(d, h) && |phdrs| == h.phnum
    && forall i {:trigger phdrs[i]} :: 0 <= i < |phdrs| ==> EntryHoldsAt(d, h, i, phdrs[i])
  }

  lemma EntryParses(d: seq<Byte>, class_: Byte, off: nat, ph: Phdr)
    requires class_ == CLASS32 || class_ == CLASS64
    ensures EntryHolds(d, class_, off, ph) <==>
            off + EntrySize(class_) < TWO64 && off + EntrySize(class_) <= |d| && ParseEntry(d, class_, off) == ph
  {
    hide FieldIs, U32, U64At;
    if off + EntrySize(class_) <= |d| {
      Field4(d, off, ph.type_);
      if class_ == CLASS64 {
        Field4(d, off + 4, ph.flags);
        Field8(d, off + 8, ph.offset);
        Field8(d, off + 16, ph.vaddr);
        Field8(d, off + 32, ph.filesz);
        Field8(d, off + 40, ph.memsz);
      } else {
        Field4(d, off + 4, ph.offset);
        Field4(d, off + 8, ph.vaddr);
        Field4(d, off + 16, ph.filesz);
        Field4(d, off + 20, ph.memsz);
        Field4(d, off + 24, ph.flags);
      }
    }
  }

  lemma IdentParses(d: seq<Byte>, class_: Byte)
    requires |d| >= 16
    ensures HasMagic(d) && d[4] == class_ && d[5] == 1 <==>
            && FieldIs(d, 0, 1, 0x7f) && FieldIs(d, 1, 1, 'E' as int) && FieldIs(d, 2, 1, 'L' as int)
            && FieldIs(d, 3, 1, 'F' as int) && FieldIs(d, 4, 1, class_) && FieldIs(d, 5, 1, 1)
  {
    hide FieldIs;
    Field1(d, 0, 0x7f);
    Field1(d, 1, 'E' as int);
    Field1(d, 2, 'L' as int);
    Field1(d, 3, 'F' as int);
    Field1(d, 4, class_);
    Field1(d, 5, 1);
  }

  lemma HeaderParses(d: seq<Byte>, h: Header)
    ensures HeaderHolds(d, h) <==>
            && |d| >= 52 && HasMagic(d) && d[5] == 1 && (d[4] == CLASS32 || (d[4] == CLASS64 && |d| >= 64))
            && ParseHeader(d) == h
  {
    hide FieldIs, U16, U32, U64At, HasMagic;
    if |d| >= 52 {
      IdentParses(d, h.class_);
      Field2(d, 18, h.machine);
      if h.class_ == CLASS64 {
        if |d| >= 64 {
          Field8(d, 24, h.entry);
          Field8(d, 32, h.phoff);
          Field2(d, 54, h.phentsize);
          Field2(d, 56, h.phnum);
        }
      } else {
        Field4(d, 24, h.entry);
        Field4(d, 28, h.phoff);
        Field2(d, 42, h.phentsize);
        Field2(d, 44, h.phnum);
      }
    }
  }

  lemma {:induction false} EntriesParse(d: seq<Byte>, h: Header, i: nat, phdrs: seq<Phdr>)
    requires i <= h.phnum && (h.class_ == CLASS32 || h.class_ == CLASS64)
    ensures ParseEntries(d, h, i) == Parsed(h, phdrs) <==>
            && |phdrs| == h.phnum - i
            && forall j {:trigger phdrs[j]} :: 0 <= j < |phdrs| ==>
                 EntryHoldsAt(d, h, i + j, phdrs[j])
    decreases h.phnum - i
  {
    hide *;
    FirstParses(d, h, i, phdrs);
    if i < h.phnum && phdrs != [] {
      EntriesParse(d, h, i + 1, phdrs[1..]);
      FirstAndRest(d, h, i, phdrs);
    }
  }

  lemma FirstParses(d: seq<Byte>, h: Header, i: nat, phdrs: seq<Phdr>)
    requires i <= h.phnum && (h.class_ == CLASS32 || h.class_ == CLASS64)
    ensures ParseEntries(d, h, i) == Parsed(h, phdrs) <==>
            if i == h.phnum then phdrs == []
            else phdrs != [] && EntryHoldsAt(d, h, i, phdrs[0]) && ParseEntries(d, h, i + 1) == Parsed(h, phdrs[1..])
  {
    EntriesUnfold(d, h, i, phdrs);
    hide EntryHolds, EntryHoldsAt, ParseEntry, EntrySize, ParseEntries;
    if i < h.phnum && phdrs != [] {
      EntryAtParses(d, h, i, phdrs[0]);
    }
  }

  lemma EntryAtParses(d: seq<Byte>, h: Header, i: nat, ph: Phdr)
    requires h.class_ == CLASS32 || h.class_ == CLASS64
    ensures var off := h.phoff + i * h.phentsize;
            EntryHoldsAt(d, h, i, ph) <==>
            && off + EntrySize(h.class_) < TWO64 && off + EntrySize(h.class_) <= |d|
            && ph == ParseEntry(d, h.class_, off)
  {
    hide EntryHolds, ParseEntry, EntrySize;
    EntryParses(d, h.class_, h.phoff + i * h.phentsize, ph);
  }

  lemma EntriesUnfold(d: seq<Byte>, h: Header, i: nat, phdrs: seq<Phdr>)
    requires i <= h.phnum
    ensures ParseEntries(d, h, i) == Parsed(h, phdrs) <==>
            if i == h.phnum then phdrs == []
            else
              var off := h.phoff + i * h.phentsize;
              && off + EntrySize(h.class_) < TWO64 && off + EntrySize(h.class_) <= |d|
              && phdrs != [] && phdrs[0] == ParseEntry(d, h.class_, off)
              && ParseEntries(d, h, i + 1) == Parsed(h, phdrs[1..])
  {
    hide ParseEntry;
    EntriesKeepHeader(d, h, i + 1);
    if i < h.phnum {
      var off := h.phoff + i * h.phentsize;
      if off + EntrySize(h.class_) < TWO64 && off + EntrySize(h.class_) <= |d| {
        var first, rest := ParseEntry(d, h.class_, off), ParseEntries(d, h, i + 1);
        if phdrs != [] {
          assert [phdrs[0]] + phdrs[1..] == phdrs;
        }
        if rest.Parsed? {
          assert ([first] + rest.phdrs)[0] == first && ([first] + rest.phdrs)[1..] == rest.phdrs;
        }
      }
    }
  }

  lemma {:induction false} EntriesKeepHeader(d: seq<Byte>, h: Header, i: nat)
    ensures ParseEntries(d, h, i).Parsed? ==> ParseEntries(d, h, i).header == h
  {
  }

  lemma FirstAndRest(d: seq<Byte>, h: Header, i: nat, phdrs: seq<Phdr>)
    requires phdrs != []
    ensures (forall j {:trigger phdrs[j]} :: 0 <= j < |phdrs| ==>
               EntryHoldsAt(d, h, i + j, phdrs[j]))
            <==>
            && EntryHoldsAt(d, h, i, phdrs[0])
            && forall j {:trigger phdrs[1..][j]} :: 0 <= j < |phdrs[1..]| ==>
                 EntryHoldsAt(d, h, i + 1 + j, phdrs[1..][j])
  {
    hide EntryHoldsAt;
    var rest := phdrs[1..];
    forall j | 0 <= j < |rest|
      ensures rest[j] == phdrs[j + 1] && i + 1 + j == i + (j + 1)
    {
    }
    if forall j {:trigger rest[j]} :: 0 <= j < |rest| ==> EntryHoldsAt(d, h, i + 1 + j, rest[j]) {
      forall j | 0 < j < |phdrs|
        ensures EntryHoldsAt(d, h, i + j, phdrs[j])
                == EntryHoldsAt(d, h, i + 1 + (j - 1), rest[j - 1])
      {
        assert i + 1 + (j - 1) == i + j;
      }
    }
  }

  /**
   Parsing is exact: the parser gives a header and program headers exactly if the file holds them, field by
   field, for both classes.
   */
  lemma ParseIsExact(d: seq<Byte>, h: Header, phdrs: seq<Phdr>)
    ensures Parse(d) == Parsed(h, phdrs) <==> FileHolds(d, h, phdrs)
  {
    HeaderParses(d, h);
    hide HeaderHolds, EntryHolds, EntryHoldsAt, HasMagic, ParseHeader;
    if |d| >= 52 && HasMagic(d) && d[5] == 1 && (d[4] == CLASS32 || (d[4] == CLASS64 && |d| >= 64)) {
      var k := ParseHeader(d);
      ClassIs(d);
      assert Parse(d) == ParseEntries(d, k, 0);
      EntriesKeepHeader(d, k, 0);
      EntriesParse(d, k, 0, phdrs);
      hide ParseEntries, Parse;
    }
  }

  lemma ClassIs(d: seq<Byte>)
    requires |d| >= 52 && (d[4] == CLASS64 ==> |d| >= 64)
    ensures ParseHeader(d).class_ == d[4]
  {
  }

  /**
   Parsing aborts exactly on a file cut inside its first 20 bytes, or one whose first program header lies
   beyond 64 bits.
   */
  lemma ParseAborts(d: seq<Byte>)
    requires |d| < TWO63
    ensures Parse(d).Aborted? <==>
            && |d| >= 16 && HasMagic(d) && d[5] == 1
            && (|d| < 20 || (d[4] == CLASS64 && |d| >= 64 && U16(d, 56) > 0 && U64At(d, 32) + 56 >= TWO64))
  {
    if |d| >= 52 && (d[4] == CLASS64 ==> |d| >= 64) {
      var h := ParseHeader(d);
      EntriesAbort(d, h, 0);
    }
  }

  lemma {:induction false} EntriesAbort(d: seq<Byte>, h: Header, i: nat)
    requires |d| < TWO63 && h.phentsize < 65536
    requires i > 0 ==> h.phoff + (i - 1) * h.phentsize <= |d|
    ensures ParseEntries(d, h, i).Aborted? <==> i == 0 && h.phnum > 0 && h.phoff + EntrySize(h.class_) >= TWO64
    decreases h.phnum - i
  {
    assert i > 0 ==> i * h.phentsize == (i - 1) * h.phentsize + h.phentsize;
    if i < h.phnum {
      var off := h.phoff + i * h.phentsize;
      if off + EntrySize(h.class_) < TWO64 && off + EntrySize(h.class_) <= |d| {
        EntriesAbort(d, h, i + 1);
      }
    }
  }

  /** The program header loop. */
  method ParsePhdrs(d: seq<Byte>, h: Header) returns (r: Parsed)
    ensures r == ParseEntries(d, h, 0)
  {
    hide ParseEntry;
    var phdrs := [];
    for i := 0 to h.phnum
      invariant ParseEntries(d, h, 0) ==
                match ParseEntries(d, h, i)
                case Parsed(_, rest) => Parsed(h, phdrs + rest)
                case failed => failed
    {
      var off := h.phoff + i * h.phentsize;
      if off + EntrySize(h.class_) >= TWO64 {
        return Aborted;
      }
      if off + EntrySize(h.class_) > |d| {
        return Rejected;
      }
      phdrs := phdrs + [ParseEntry(d, h.class_, off)];
    }
    r := Parsed(h, phdrs);
  }

  method ParseElf(d: seq<Byte>) returns (r: Parsed)
    ensures r == Parse(d)
    ensures forall h, phdrs :: r == Parsed(h, phdrs) <==> FileHolds(d, h, phdrs)
  {
    hide FileHolds, ParseEntries;
    forall h, phdrs
      ensures Parse(d) == Parsed(h, phdrs) <==> FileHolds(d, h, phdrs)
    {
      ParseIsExact(d, h, phdrs);
    }
    if |d| < 16 || !HasMagic(d) || d[5] != 1 {
      return Rejected;
    }
    if |d| < 20 {
      return Aborted;
    }
    if d[4] == CLASS64 {
      if |d| < 64 {
        return Rejected;
      }
    } else if d[4] == CLASS32 {
      if |d| < 52 {
        return Rejected;
      }
    } else {
      return Rejected;
    }
    r := ParsePhdrs(d, ParseHeader(d));
  }

  // ---- loading ----

  /** A segment's bytes: those in the file, then zeros. */
  function SegmentBytes(d: seq<Byte>, ph: Phdr): (data: seq<Byte>)
    requires ph.offset + ph.filesz <= |d|
    ensures |data| == if ph.memsz > ph.filesz then ph.memsz else ph.filesz
    ensures forall k :: 0 <= k < |data| ==> data[k] == if k < ph.filesz then d[ph.offset + k] else 0
  {
    d[ph.offset..ph.offset + ph.filesz]
    + (if ph.memsz > ph.filesz then seq(ph.memsz - ph.filesz, _ => 0) else [])
  }

  datatype Loaded = Entry(mem: Mem, entry: nat) | NotLoaded | LoadAborted

  /** Writes the loadable segments from the `i`-th on, in file order. */
  function LoadFrom(d: seq<Byte>, phdrs: seq<Phdr>, entry: nat, mem: Mem): Loaded
    decreases |phdrs|
  {
    if phdrs == [] then Entry(mem, entry)
    else
      var ph := phdrs[0];
      if ph.type_ != PT_LOAD then LoadFrom(d, phdrs[1..], entry, mem)
      else if ph.offset + ph.filesz >= TWO64 then LoadAborted
      else if ph.offset + ph.filesz > |d| then NotLoaded
      else match WriteChunks(mem, ph.vaddr, SegmentBytes(d, ph))
           case Ok(next) => LoadFrom(d, phdrs[1..], entry, next)
           case Err => NotLoaded
  }

  function Load(d: seq<Byte>, mem: Mem): Loaded {
    match Parse(d)
    case Parsed(h, phdrs) => LoadFrom(d, phdrs, h.entry, mem)
    case Rejected => NotLoaded
    case Aborted => LoadAborted
  }

  method LoadElf(d: seq<Byte>, mem: Mem) returns (r: Loaded)
    ensures r == Load(d, mem)
  {
    var parsed := ParseElf(d);
    if !parsed.Parsed? {
      return if parsed.Aborted? then LoadAborted else NotLoaded;
    }
    var phdrs, next := parsed.phdrs, mem;
    for i := 0 to |phdrs|
      invariant Load(d, mem) == LoadFrom(d, phdrs[i..], parsed.header.entry, next)
    {
      var ph := phdrs[i];
      assert phdrs[i..][0] == ph && phdrs[i..][1..] == phdrs[i + 1..];
      if ph.type_ == PT_LOAD {
        if ph.offset + ph.filesz >= TWO64 {
          return LoadAborted;
        }
        if ph.offset + ph.filesz > |d| {
          return NotLoaded;
        }
        var written := WriteChecked(next, ph.vaddr, SegmentBytes(d, ph));
        if written.Err? {
          return NotLoaded;
        }
        next := written.value;
      }
    }
    r := Entry(next, parsed.header.entry);
  }

  /** The addresses a segment fills. */
  predicate Fills(ph: Phdr, x: nat) {
    ph.type_ == 1 && ph.vaddr <= x < ph.vaddr + (if ph.memsz > ph.filesz then ph.memsz else ph.filesz)
  }

  ghost predicate SegmentsApart(phdrs: seq<Phdr>) {
    forall i, j, x: nat {:trigger Fills(phdrs[i], x), Fills(phdrs[j], x)} ::
      0 <= i < j < |phdrs| && Fills(phdrs[i], x) ==> !Fills(phdrs[j], x)
  }

  /** An address no segment fills keeps its byte, whatever the segments. */
  lemma {:induction false} LoadKeeps(d: seq<Byte>, phdrs: seq<Phdr>, entry: nat, mem: Mem, x: nat)
    requires Valid(mem) && LoadFrom(d, phdrs, entry, mem).Entry?
    ensures var m := LoadFrom(d, phdrs, entry, mem).mem;
            Valid(m) && ((forall i :: 0 <= i < |phdrs| ==> !Fills(phdrs[i], x)) ==> ByteAt(m, x) == ByteAt(mem, x))
    decreases |phdrs|
  {
    hide Valid, WriteChunks, ByteAt;
    if phdrs != [] {
      var ph := phdrs[0];
      if ph.type_ != PT_LOAD {
        LoadKeeps(d, phdrs[1..], entry, mem, x);
      } else {
        var data := SegmentBytes(d, ph);
        ChunksSet(mem, ph.vaddr, data);
        var next := WriteChunks(mem, ph.vaddr, data).value;
        LoadKeeps(d, phdrs[1..], entry, next, x);
        assert HoldsAt(next, mem, ph.vaddr, data, x);
      }
    }
  }

  /**
   Loading is exact: with segments that do not overlap, every address of a segment holds its byte of the file,
   or zero past the file's part.
   */
  lemma {:induction false} LoadIsExact(d: seq<Byte>, phdrs: seq<Phdr>, entry: nat, mem: Mem, i: nat, x: nat)
    requires Valid(mem) && LoadFrom(d, phdrs, entry, mem).Entry? && SegmentsApart(phdrs)
    requires i < |phdrs| && Fills(phdrs[i], x)
    ensures var m := LoadFrom(d, phdrs, entry, mem).mem;
            && Valid(m) && phdrs[i].offset + phdrs[i].filesz <= |d|
            && var k := x - phdrs[i].vaddr;
               ByteAt(m, x) == Some(if k < phdrs[i].filesz then d[phdrs[i].offset + k] else 0)
    decreases |phdrs|
  {
    hide Valid, WriteChunks, ByteAt;
    var ph := phdrs[0];
    if ph.type_ != PT_LOAD {
      TailApart(phdrs);
      LoadIsExact(d, phdrs[1..], entry, mem, i - 1, x);
    } else {
      var data := SegmentBytes(d, ph);
      ChunksSet(mem, ph.vaddr, data);
      var next := WriteChunks(mem, ph.vaddr, data).value;
      if i == 0 {
        forall j | 0 <= j < |phdrs[1..]|
          ensures !Fills(phdrs[1..][j], x)
        {
          assert Fills(phdrs[0], x) ==> !Fills(phdrs[j + 1], x);
        }
        LoadKeeps(d, phdrs[1..], entry, next, x);
        assert HoldsAt(next, mem, ph.vaddr, data, x);
      } else {
        TailApart(phdrs);
        LoadIsExact(d, phdrs[1..], entry, next, i - 1, x);
      }
    }
  }

  lemma TailApart(phdrs: seq<Phdr>)
    requires phdrs != [] && SegmentsApart(phdrs)
    ensures SegmentsApart(phdrs[1..])
  {
    forall i, j, x: nat | 0 <= i < j < |phdrs[1..]| && Fills(phdrs[1..][i], x)
      ensures !Fills(phdrs[1..][j], x)
    {
      assert Fills(phdrs[i + 1], x) ==> !Fills(phdrs[j + 1], x);
    }
  }

  // ---- when loading succeeds ----

  /** A segment is within the file, and its bytes can all be written, in chunks that stay inside one region. */
  predicate SegmentLoads(d: seq<Byte>, ph: Phdr, mem: Mem) {
    ph.type_ == PT_LOAD ==>
      && ph.offset + ph.filesz < TWO64 && ph.offset + ph.filesz <= |d|
      && AllWritable(mem, ph.vaddr, |SegmentBytes(d, ph)|)
      && ChunksStayInside(mem, ph.vaddr, |SegmentBytes(d, ph)|)
  }

  lemma LayoutLoads(d: seq<Byte>, ph: Phdr, a: Mem, b: Mem)
    requires SameLayout(a, b)
    ensures SegmentLoads(d, ph, a) == SegmentLoads(d, ph, b)
  {
    if ph.offset + ph.filesz <= |d| {
      LayoutAllWritable(a, b, ph.vaddr, |SegmentBytes(d, ph)|);
      LayoutStaysInside(a, b, ph.vaddr, |SegmentBytes(d, ph)|);
    }
  }

  lemma SegmentWritten(d: seq<Byte>, ph: Phdr, mem: Mem)
    requires Valid(mem) && ph.type_ == PT_LOAD && ph.offset + ph.filesz <= |d| < TWO64
    ensures var r := WriteChunks(mem, ph.vaddr, SegmentBytes(d, ph));
            && (r.Ok? <==> SegmentLoads(d, ph, mem))
            && (r.Ok? ==> Valid(r.value) && SameLayout(r.value, mem))
  {
    hide Valid, SameLayout, WriteChunks, AllWritable, ChunksStayInside, Holds;
    var data := SegmentBytes(d, ph);
    ChunksSucceed(mem, ph.vaddr, data);
    if WriteChunks(mem, ph.vaddr, data).Ok? {
      ChunksSet(mem, ph.vaddr, data);
    }
  }

  /** Loading succeeds exactly if each segment loads into the memory given, whatever the others write. */
  lemma {:induction false} LoadSucceedsIff(d: seq<Byte>, phdrs: seq<Phdr>, entry: nat, mem: Mem)
    requires Valid(mem) && |d| < TWO64
    ensures LoadFrom(d, phdrs, entry, mem).Entry? <==> forall i :: 0 <= i < |phdrs| ==> SegmentLoads(d, phdrs[i], mem)
    decreases |phdrs|
  {
    hide Valid, SameLayout, WriteChunks, SegmentLoads, SegmentBytes;
    if phdrs != [] {
      var ph := phdrs[0];
      FirstLoads(d, phdrs, mem);
      if ph.type_ != PT_LOAD {
        NothingToLoad(d, ph, mem);
        LoadSucceedsIff(d, phdrs[1..], entry, mem);
      } else if ph.offset + ph.filesz <= |d| {
        SegmentWritten(d, ph, mem);
        var r := WriteChunks(mem, ph.vaddr, SegmentBytes(d, ph));
        if r.Ok? {
          LoadSucceedsIff(d, phdrs[1..], entry, r.value);
          forall i | 0 <= i < |phdrs[1..]|
            ensures SegmentLoads(d, phdrs[1..][i], r.value) == SegmentLoads(d, phdrs[1..][i], mem)
          {
            LayoutLoads(d, phdrs[1..][i], r.value, mem);
          }
        }
      } else {
        BeyondFile(d, ph, mem);
      }
    }
  }

  lemma FirstLoads(d: seq<Byte>, phdrs: seq<Phdr>, mem: Mem)
    requires phdrs != []
    ensures (forall i :: 0 <= i < |phdrs| ==> SegmentLoads(d, phdrs[i], mem))
            <==> SegmentLoads(d, phdrs[0], mem) && forall i :: 0 <= i < |phdrs[1..]| ==> SegmentLoads(d, phdrs[1..][i], mem)
  {
    hide SegmentLoads;
    forall i | 0 < i < |phdrs|
      ensures phdrs[i] == phdrs[1..][i - 1]
    {
    }
  }

  lemma NothingToLoad(d: seq<Byte>, ph: Phdr, mem: Mem)
    requires ph.type_ != PT_LOAD
    ensures SegmentLoads(d, ph, mem)
  {
  }

  lemma BeyondFile(d: seq<Byte>, ph: Phdr, mem: Mem)
    requires ph.type_ == PT_LOAD && ph.offset + ph.filesz > |d|
    ensures !SegmentLoads(d, ph, mem)
  {
  }

  /** So a file loads exactly if it parses and all its segments load. */
  lemma LoadsIff(d: seq<Byte>, mem: Mem)
    requires Valid(mem) && |d| < TWO64
    ensures Load(d, mem).Entry?
            <==> Parse(d).Parsed? && forall i :: 0 <= i < |Parse(d).phdrs| ==> SegmentLoads(d, Parse(d).phdrs[i], mem)
  {
    hide Parse, Valid, LoadFrom, SegmentLoads;
    var p := Parse(d);
    if p.Parsed? {
      LoadSucceedsIff(d, p.phdrs, p.header.entry, mem);
    }
  }

  // ---- building a file ----

  method Put(d: seq<Byte>, off: nat, n: nat, v: nat) returns (e: seq<Byte>)
    requires off + n <= |d|
    ensures |e| == |d| && FieldIs(e, off, n, v)
    ensures forall o: nat, m: nat, u: nat {:trigger FieldIs(e, o, m, u)} ::
              FieldIs(d, o, m, u) && (o + m <= off || off + n <= o) ==> FieldIs(e, o, m, u)
  {
    e := Splice(d, off, Bytes(v, n));
    forall o: nat, m: nat, u: nat | FieldIs(d, o, m, u) && (o + m <= off || off + n <= o)
      ensures FieldIs(e, o, m, u)
    {
      assert e[o..o + m] == d[o..o + m];
    }
  }

  const BASE: nat := 0x8000_0000

  method PutIdent(d: seq<Byte>) returns (e: seq<Byte>)
    requires |d| >= 84
    ensures |e| == |d|
    ensures forall o: nat, m: nat, u: nat {:trigger FieldIs(e, o, m, u)} ::
              FieldIs(d, o, m, u) && (o + m <= 0 || 16 <= o) ==> FieldIs(e, o, m, u)
    ensures IdentFields(e)
  {
    hide FieldIs;
    e := Put(d, 0, 1, 0x7f);
    e := Put(e, 1, 1, 'E' as int);
    e := Put(e, 2, 1, 'L' as int);
    e := Put(e, 3, 1, 'F' as int);
    e := Put(e, 4, 1, CLASS32);
    e := Put(e, 5, 1, 1);
    e := Put(e, 6, 1, 1);
  }

  method PutHeader(d: seq<Byte>) returns (e: seq<Byte>)
    requires |d| >= 84
    ensures |e| == |d|
    ensures forall o: nat, m: nat, u: nat {:trigger FieldIs(e, o, m, u)} ::
              FieldIs(d, o, m, u) && (o + m <= 16 || 52 <= o) ==> FieldIs(e, o, m, u)
    ensures HeaderFields(e)
  {
    hide FieldIs;
    e := Put(d, 16, 2, 2);
    e := Put(e, 18, 2, 243);
    e := Put(e, 20, 4, 1);
    e := Put(e, 24, 4, BASE);
    e := Put(e, 28, 4, 52);
    e := Put(e, 40, 2, 52);
    e := Put(e, 42, 2, 32);
    e := Put(e, 44, 2, 1);
  }

  method PutSegment(d: seq<Byte>, n: nat) returns (e: seq<Byte>)
    requires |d| >= 84
    ensures |e| == |d|
    ensures forall o: nat, m: nat, u: nat {:trigger FieldIs(e, o, m, u)} ::
              FieldIs(d, o, m, u) && (o + m <= 52 || 84 <= o) ==> FieldIs(e, o, m, u)
    ensures SegmentFields(e, n)
  {
    hide FieldIs;
    e := Put(d, 52, 4, PT_LOAD);
    e := Put(e, 56, 4, 84);
    e := Put(e, 60, 4, BASE);
    e := Put(e, 64, 4, BASE);
    e := Put(e, 68, 4, n);
    e := Put(e, 72, 4, n);
    e := Put(e, 76, 4, 7);
    e := Put(e, 80, 4, 4);
  }

  /** A 32-bit executable with one loadable segment, the payload, at `BASE`. */
  method MakeElf(payload: seq<Byte>) returns (d: seq<Byte>)
    ensures MadeFrom(d, payload)
  {
    hide FieldIs, MadeFrom;
    d := seq(84, _ => 0);
    d := PutIdent(d);
    d := PutHeader(d);
    d := PutSegment(d, SizeField(payload));
    FieldsParse(d, payload);
    d := d + payload;
  }

  /** The payload's size as the 32-bit field holds it. */
  function SizeField(payload: seq<Byte>): (n: nat)
    ensures n <= |payload| && n < 0x1_0000_0000
  {
    |payload| % 0x1_0000_0000
  }

  /** The file parses to the fields it was built from, and ends with the payload. */
  predicate MadeFrom(d: seq<Byte>, payload: seq<Byte>) {
    && |d| == 84 + |payload| && d[84..] == payload
    && Parse(d) == Parsed(Header(CLASS32, 243, BASE, 52, 32, 1),
                          [Phdr(PT_LOAD, 84, BASE, SizeField(payload), SizeField(payload), 7)])
  }

  predicate IdentFields(d: seq<Byte>) {
    && FieldIs(d, 0, 1, 0x7f) && FieldIs(d, 1, 1, 'E' as int) && FieldIs(d, 2, 1, 'L' as int) && FieldIs(d, 3, 1, 'F' as int)
    && FieldIs(d, 4, 1, CLASS32) && FieldIs(d, 5, 1, 1)
  }

  predicate HeaderFields(d: seq<Byte>) {
    && FieldIs(d, 18, 2, 243) && FieldIs(d, 24, 4, BASE) && FieldIs(d, 28, 4, 52)
    && FieldIs(d, 42, 2, 32) && FieldIs(d, 44, 2, 1)
  }

  predicate SegmentFields(d: seq<Byte>, n: nat) {
    && FieldIs(d, 52, 4, PT_LOAD) && FieldIs(d, 56, 4, 84) && FieldIs(d, 60, 4, BASE)
    && FieldIs(d, 68, 4, n) && FieldIs(d, 72, 4, n) && FieldIs(d, 76, 4, 7)
  }

  lemma Extended(d: seq<Byte>, more: seq<Byte>, off: nat, n: nat, v: nat)
    requires FieldIs(d, off, n, v)
    ensures FieldIs(d + more, off, n, v)
  {
    assert (d + more)[off..off + n] == d[off..off + n];
  }

  lemma FieldsParse(d: seq<Byte>, payload: seq<Byte>)
    requires |d| == 84 && IdentFields(d) && HeaderFields(d) && SegmentFields(d, SizeField(payload))
    ensures MadeFrom(d + payload, payload)
  {
    var file := d + payload;
    forall off, n, v: nat | FieldIs(d, off, n, v)
      ensures FieldIs(file, off, n, v)
    {
      Extended(d, payload, off, n, v);
    }
    var n := SizeField(payload);
    var h, ph := Header(CLASS32, 243, BASE, 52, 32, 1), Phdr(PT_LOAD, 84, BASE, n, n, 7);
    MadeHolds(file, n);
    hide *;
    ParseIsExact(file, h, [ph]);
    MadeParses(file, payload);
  }

  lemma MadeHolds(d: seq<Byte>, n: nat)
    requires |d| >= 84 && IdentFields(d) && HeaderFields(d) && SegmentFields(d, n) && n < 0x1_0000_0000
    ensures FileHolds(d, Header(CLASS32, 243, BASE, 52, 32, 1), [Phdr(PT_LOAD, 84, BASE, n, n, 7)])
  {
    hide FieldIs;
  }

  lemma MadeParses(d: seq<Byte>, payload: seq<Byte>)
    requires |d| == 84 + |payload| && d[84..] == payload
    requires Parse(d) == Parsed(Header(CLASS32, 243, BASE, 52, 32, 1),
                                [Phdr(PT_LOAD, 84, BASE, SizeField(payload), SizeField(payload), 7)])
    ensures MadeFrom(d, payload)
  {
  }

  /**
   A built file loads exactly if the payload's addresses can be written in chunks; then the payload, up to
   the size its field holds, is at `BASE`, where the program starts, and no other byte has changed.
   */
  lemma MadeElfLoads(d: seq<Byte>, payload: seq<Byte>, mem: Mem, x: nat)
    requires Valid(mem) && MadeFrom(d, payload) && |d| < TWO64
    ensures Load(d, mem).Entry?
            <==> AllWritable(mem, BASE, SizeField(payload)) && ChunksStayInside(mem, BASE, SizeField(payload))
    ensures var loaded := Load(d, mem);
            loaded.Entry? ==>
              && Valid(loaded.mem) && loaded.entry == BASE
              && ByteAt(loaded.mem, x)
                 == if BASE <= x < BASE + SizeField(payload) then Some(payload[x - BASE]) else ByteAt(mem, x)
  {
    var phdrs := Parse(d).phdrs;
    LoadsIff(d, mem);
    assert SegmentLoads(d, phdrs[0], mem)
      <==> AllWritable(mem, BASE, SizeField(payload)) && ChunksStayInside(mem, BASE, SizeField(payload));
    if Load(d, mem).Entry? {
      MadeElfHolds(d, payload, mem, x);
    }
  }

  lemma MadeElfHolds(d: seq<Byte>, payload: seq<Byte>, mem: Mem, x: nat)
    requires Valid(mem) && MadeFrom(d, payload) && Load(d, mem).Entry?
    ensures var loaded := Load(d, mem);
            && Valid(loaded.mem) && loaded.entry == BASE
            && ByteAt(loaded.mem, x)
               == if BASE <= x < BASE + SizeField(payload) then Some(payload[x - BASE]) else ByteAt(mem, x)
  {
    var phdrs := Parse(d).phdrs;
    LoadKeeps(d, phdrs, BASE, mem, x);
    if Fills(phdrs[0], x) {
      LoadIsExact(d, phdrs, BASE, mem, 0, x);
      assert d[84 + (x - BASE)] == d[84..][x - BASE];
    }
    EntryIsKept(d, phdrs, BASE, mem);
  }

  lemma {:induction false} EntryIsKept(d: seq<Byte>, phdrs: seq<Phdr>, entry: nat, mem: Mem)
    ensures LoadFrom(d, phdrs, entry, mem).Entry? ==> LoadFrom(d, phdrs, entry, mem).entry == entry
    decreases |phdrs|
  {
    if phdrs != [] {
      var ph := phdrs[0];
      if ph.type_ != PT_LOAD {
        EntryIsKept(d, phdrs[1..], entry, mem);
      } else if ph.offset + ph.filesz <= |d| {
        match WriteChunks(mem, ph.vaddr, SegmentBytes(d, ph)) {
          case Ok(next) => EntryIsKept(d, phdrs[1..], entry, next);
          case Err =>
        }
      }
    }
  }

  // ---- from the file to memory ----

  /**
   A file that holds these headers, once loaded: the program starts where the header says, an address of a loadable
   segment holds the file's byte for it, or zero beyond the segment's part of the file, and every other address is as it was.
   */
  lemma LoadedFile(d: seq<Byte>, h: Header, phdrs: seq<Phdr>, mem: Mem, x: nat)
    requires Valid(mem) && FileHolds(d, h, phdrs) && Load(d, mem).Entry? && SegmentsApart(phdrs)
    ensures var (m, entry) := (Load(d, mem).mem, Load(d, mem).entry);
            && Valid(m) && entry == h.entry
            && ((forall i :: 0 <= i < |phdrs| ==> !Fills(phdrs[i], x)) ==> ByteAt(m, x) == ByteAt(mem, x))
            && forall i :: 0 <= i < |phdrs| && Fills(phdrs[i], x) ==>
                 var (k, ph) := (x - phdrs[i].vaddr, phdrs[i]);
                 && ph.offset + ph.filesz <= |d|
                 && ByteAt(m, x) == Some(if k < ph.filesz then d[ph.offset + k] else 0)
  {
    ParseIsExact(d, h, phdrs);
    hide FileHolds, Parse, LoadFrom, Valid, ByteAt, SegmentsApart, Fills;
    LoadKeeps(d, phdrs, h.entry, mem, x);
    EntryIsKept(d, phdrs, h.entry, mem);
    forall i | 0 <= i < |phdrs| && Fills(phdrs[i], x)
      ensures var (k, ph) := (x - phdrs[i].vaddr, phdrs[i]);
              && k >= 0 && ph.offset + ph.filesz <= |d|
              && ByteAt(LoadFrom(d, phdrs, h.entry, mem).mem, x) == Some(if k < ph.filesz then d[ph.offset + k] else 0)
    {
      LoadIsExact(d, phdrs, h.entry, mem, i, x);
      FillsFrom(phdrs[i], x);
    }
  }

  lemma FillsFrom(ph: Phdr, x: nat)
    requires Fills(ph, x)
    ensures ph.vaddr <= x
  {
  }
}
