/**
 Preloading the firmware image into the simulated SRAM: ELF program headers become a segment
 map, the map is read in chunks, and every chunk is stored as 64-bit words
 (tb/src/verilator/tb_elfloader.cpp, tb_sim_ctrl.cpp:193-231, tb_util.svh:20-58).
 */
module Preload {
  import opened Text
  import opened Bytes

  const PT_LOAD := 1
  const SECTION_CHUNK_LENGTH := 256

  datatype ProgramHeader = ProgramHeader(kind: nat, offset: uint64, paddr: uint64, filesz: uint64, memsz: uint64)

  datatype ElfClass = Elf32 | Elf64

  /** The file contents, with the header fields that the loader reads already decoded. */
  datatype ElfFile = ElfFile(bytes: seq<byte>, elfClass: ElfClass, phoff: uint64, headers: seq<ProgramHeader>)

  /** Size of a program header. */
  function HeaderSize(c: ElfClass): nat { if c.Elf32? then 32 else 56 }

  /** Where the program headers end. */
  function TableEnd(elf: ElfFile): nat { elf.phoff + |elf.headers| * HeaderSize(elf.elfClass) }

  /** Offsets and sizes of a file are added in the width of its class. */
  function OffsetModulus(c: ElfClass): nat { if c.Elf32? then TWO_32 else TWO_64 }

  /** A piece of the image and the address it is meant for. */
  datatype Segment = Segment(address: uint64, data: seq<byte>)

  // ---------- what the headers describe

  predicate IsLoaded(h: ProgramHeader) { h.kind == PT_LOAD && h.memsz != 0 && h.filesz != 0 }

  predicate InFile(h: ProgramHeader, size: nat) { h.offset + h.filesz <= size }

  predicate AllInFile(headers: seq<ProgramHeader>, size: nat) {
    forall i :: 0 <= i < |headers| && IsLoaded(headers[i]) ==> InFile(headers[i], size)
  }

  /** What one header contributes. */
  function SegmentOf(h: ProgramHeader, bytes: seq<byte>): seq<Segment>
    requires IsLoaded(h) ==> InFile(h, |bytes|)
  {
    if IsLoaded(h) then [Segment(h.paddr, bytes[h.offset..h.offset + h.filesz])] else []
  }

  /** The segments of the headers, in header order. */
  function Segments(headers: seq<ProgramHeader>, bytes: seq<byte>): seq<Segment>
    requires AllInFile(headers, |bytes|)
  {
    if headers == [] then []
    else Segments(headers[..|headers| - 1], bytes) + SegmentOf(headers[|headers| - 1], bytes)
  }

  lemma AllInFileSnoc(headers: seq<ProgramHeader>, h: ProgramHeader, size: nat)
    requires AllInFile(headers, size) && (IsLoaded(h) ==> InFile(h, size))
    ensures AllInFile(headers + [h], size)
  {}

  lemma SegmentsSnoc(headers: seq<ProgramHeader>, h: ProgramHeader, bytes: seq<byte>)
    requires AllInFile(headers, |bytes|) && (IsLoaded(h) ==> InFile(h, |bytes|))
    ensures AllInFile(headers + [h], |bytes|)
    ensures Segments(headers + [h], bytes) == Segments(headers, bytes) + SegmentOf(h, bytes)
  {
    AllInFileSnoc(headers, h, |bytes|);
    hide SegmentOf, AllInFile;
    var all := headers + [h];
    assert all[..|all| - 1] == headers && all[|all| - 1] == h;
  }

  /** `std::map::insert` keeps the first entry of a key. */
  function FirstWins(segments: seq<Segment>): map<uint64, seq<byte>> {
    if segments == [] then map[]
    else
      var s := segments[|segments| - 1];
      var m := FirstWins(segments[..|segments| - 1]);
      if s.address in m then m else m[s.address := s.data]
  }

  /** `OutOfBounds` is a read from outside of the file, which the loader's tests miss when a sum wraps around. */
  datatype LoadResult = HeadersTruncated | Aborted | OutOfBounds | Loaded

  /** What the loader's assertion says of a range. */
  predicate PassesAssertion(h: ProgramHeader, size: nat, c: ElfClass) {
    (h.offset + h.filesz) % OffsetModulus(c) <= size
  }

  /** How the loop over the headers ends. */
  function Outcome(headers: seq<ProgramHeader>, size: nat, c: ElfClass): LoadResult {
    if headers == [] then Loaded
    else if IsLoaded(headers[0]) && !InFile(headers[0], size) then
      if PassesAssertion(headers[0], size, c) then OutOfBounds else Aborted
    else Outcome(headers[1..], size, c)
  }

  /** The loader's tests, written out: `PT_LOAD` is 1, and neither size may be 0. */
  predicate Loadable(h: ProgramHeader) { h.kind == 1 && h.memsz != 0 && h.filesz != 0 }

  lemma LoadableIs(headers: seq<ProgramHeader>, size: nat)
    ensures forall h :: IsLoaded(h) <==> Loadable(h)
    ensures AllInFile(headers, size) <==>
      forall i :: 0 <= i < |headers| && Loadable(headers[i]) ==> headers[i].offset + headers[i].filesz <= size
  {}

  /** The headers are loaded if and only if all loadable ones lie in the file. */
  lemma LoadedMeansInFile(headers: seq<ProgramHeader>, size: nat, c: ElfClass)
    ensures Outcome(headers, size, c).Loaded? <==>
      forall i :: 0 <= i < |headers| && Loadable(headers[i]) ==> headers[i].offset + headers[i].filesz <= size
  {
    LoadableIs(headers, size);
    hide Outcome;
    LoadedIsAllInFile(headers, size, c);
  }

  lemma {:induction false} LoadedIsAllInFile(headers: seq<ProgramHeader>, size: nat, c: ElfClass)
    ensures Outcome(headers, size, c).Loaded? <==> AllInFile(headers, size)
  {
    hide PassesAssertion, InFile;
    if headers != [] {
      LoadedIsAllInFile(headers[1..], size, c);
      assert headers == [headers[0]] + headers[1..];
    }
  }

  /** Otherwise the first header that does not decides: its sum either shows it, or wraps around. */
  lemma {:induction false} FirstDecides(headers: seq<ProgramHeader>, size: nat, c: ElfClass, i: nat)
    requires i < |headers| && Loadable(headers[i]) && size < headers[i].offset + headers[i].filesz
    requires forall j :: 0 <= j < i && Loadable(headers[j]) ==> headers[j].offset + headers[j].filesz <= size
    ensures var sum := headers[i].offset + headers[i].filesz;
      var modulus := if c.Elf32? then 0x1_0000_0000 else 0x1_0000_0000_0000_0000;
      && Outcome(headers, size, c) == (if sum % modulus <= size then OutOfBounds else Aborted)
      && (sum % modulus <= size ==> modulus <= sum)
  {
    if i != 0 {
      FirstDecides(headers[1..], size, c, i - 1);
    }
  }

  /** The whole of `load_elf`: the table of headers is tested in 64-bit arithmetic, for both classes. */
  function LoadOutcome(elf: ElfFile): LoadResult {
    if |elf.bytes| < TableEnd(elf) % TWO_64 then HeadersTruncated
    else if |elf.bytes| < TableEnd(elf) then OutOfBounds
    else Outcome(elf.headers, |elf.bytes|, elf.elfClass)
  }

  /** The test of the header table, with headers of 32 or 56 bytes. */
  lemma TableDecides(elf: ElfFile)
    ensures var end := elf.phoff + |elf.headers| * (if elf.elfClass.Elf32? then 32 else 56);
      && (LoadOutcome(elf).HeadersTruncated? <==> |elf.bytes| < end % 0x1_0000_0000_0000_0000)
      && (LoadOutcome(elf).Loaded? ==> end <= |elf.bytes|)
      && (end <= |elf.bytes| ==> LoadOutcome(elf) == Outcome(elf.headers, |elf.bytes|, elf.elfClass))
  {
    hide Outcome;
    NotTruncated(elf.headers, |elf.bytes|, elf.elfClass);
    var end := TableEnd(elf);
    assert end % TWO_64 <= end;
  }

  lemma {:induction false} NotTruncated(headers: seq<ProgramHeader>, size: nat, c: ElfClass)
    ensures !Outcome(headers, size, c).HeadersTruncated?
  {
    if headers != [] {
      NotTruncated(headers[1..], size, c);
    }
  }

  /** The loader's globals. */
  class ElfLoader {
    var mems: map<uint64, seq<byte>>
    var sections: seq<(uint64, uint64)>
    var sectionIndex: nat

    ghost predicate Holds(segments: seq<Segment>)
      reads this
    {
      && mems == FirstWins(segments)
      && |sections| == |segments|
      && forall i :: 0 <= i < |segments| ==> sections[i].0 == segments[i].address
    }

    constructor ()
      ensures Holds([]) && sectionIndex == 0
    {
      mems, sections, sectionIndex := map[], [], 0;
    }

    /** `TbElfLoader::write` */
    method Write(address: uint64, len: nat, file: seq<byte>, at: nat)
      requires at + len <= |file|
      modifies this`mems
      ensures mems == if address in old(mems) then old(mems) else old(mems)[address := file[at..at + len]]
    {
      var mem: seq<byte> := [];
      for i := 0 to len
        invariant mem == file[at..at + i]
        invariant mems == old(mems)
      {
        mem := mem + [file[at + i]];
      }
      if address !in mems { mems := mems[address := mem]; }
    }

    /** `TbElfLoader::get_section` */
    method GetSection() returns (more: bool, address: uint64, len: nat)
      modifies this`sectionIndex
      ensures more == (old(sectionIndex) < |sections|)
      ensures more ==> address == sections[old(sectionIndex)].0 && sectionIndex == old(sectionIndex) + 1
      ensures more ==> len == if address in mems then |mems[address]| else 0
      ensures !more ==> sectionIndex == old(sectionIndex)
    {
      more, address, len := false, 0, 0;
      if sectionIndex < |sections| {
        address := sections[sectionIndex].0;
        len := if address in mems then |mems[address]| else 0;
        sectionIndex := sectionIndex + 1;
        more := true;
      }
    }

    /** `TbElfLoader::read_section_chunk` */
    method ReadSectionChunk(base: uint64, offset: int, buffer: array<byte>, len: int) returns (status: int)
      requires 0 <= len ==> len <= buffer.Length
      modifies buffer
      ensures status == if base in mems && 0 <= offset && 0 <= len && offset + len <= |mems[base]| then 0 else -1
      ensures buffer[..] ==
        if status == 0 then mems[base][offset..offset + len] + old(buffer[len..]) else old(buffer[..])
    {
      if base !in mems { return -1; }
      var mem := mems[base];
      if offset < 0 || len < 0 || offset + len > |mem| { return -1; }
      forall i | 0 <= i < len {
        buffer[i] := mem[offset + i];
      }
      return 0;
    }

    /** One program header (tb_elfloader.cpp:102-109). */
    method LoadHeader(h: ProgramHeader, bytes: seq<byte>, c: ElfClass, ghost segments: seq<Segment>)
      returns (result: LoadResult)
      requires Holds(segments)
      modifies this`mems, this`sections
      ensures result == Outcome([h], |bytes|, c)
      ensures result.Loaded? <==> (IsLoaded(h) ==> InFile(h, |bytes|))
      ensures result.Loaded? ==> Holds(segments + SegmentOf(h, bytes))
    {
      assert segments + [] == segments;
      if h.kind == PT_LOAD && h.memsz != 0 {
        if h.filesz != 0 {
          if |bytes| < (h.offset + h.filesz) % OffsetModulus(c) { return Aborted; }
          if |bytes| < h.offset + h.filesz { return OutOfBounds; }
          ghost var segment := Segment(h.paddr, bytes[h.offset..h.offset + h.filesz]);
          assert (segments + [segment])[..|segments|] == segments;
          sections := sections + [(h.paddr, h.memsz)];
          Write(h.paddr, h.filesz, bytes, h.offset);
        }
      }
      return Loaded;
    }

    /** The program-header loop of `load_elf` (tb_elfloader.cpp:81-116). */
    method LoadElf(elf: ElfFile) returns (result: LoadResult)
      requires Holds([])
      modifies this`mems, this`sections
      ensures result == LoadOutcome(elf)
      ensures result.HeadersTruncated? ==> Holds([])
      ensures result.Loaded? ==> AllInFile(elf.headers, |elf.bytes|) && Holds(Segments(elf.headers, elf.bytes))
    {
      if |elf.bytes| < TableEnd(elf) % TWO_64 { return HeadersTruncated; }
      if |elf.bytes| < TableEnd(elf) { return OutOfBounds; }
      assert Segments(elf.headers[..0], elf.bytes) == [] && elf.headers[0..] == elf.headers;
      hide Holds, Segments, SegmentOf, Outcome;
      for i := 0 to |elf.headers|
        invariant AllInFile(elf.headers[..i], |elf.bytes|)
        invariant Holds(Segments(elf.headers[..i], elf.bytes))
        invariant LoadOutcome(elf) == Outcome(elf.headers[i..], |elf.bytes|, elf.elfClass)
      {
        var h := elf.headers[i];
        assert elf.headers[..i + 1] == elf.headers[..i] + [h] && elf.headers[i..] == [h] + elf.headers[i + 1..];
        OutcomeStep(h, elf.headers[i + 1..], |elf.bytes|, elf.elfClass);
        result := LoadHeader(h, elf.bytes, elf.elfClass, Segments(elf.headers[..i], elf.bytes));
        if result != Loaded { return; }
        SegmentsSnoc(elf.headers[..i], h, elf.bytes);
      }
      assert elf.headers[..|elf.headers|] == elf.headers && elf.headers[|elf.headers|..] == [];
      NoHeaders(|elf.bytes|, elf.elfClass);
      return Loaded;
    }
  }

  lemma OutcomeStep(h: ProgramHeader, rest: seq<ProgramHeader>, size: nat, c: ElfClass)
    ensures Outcome([h] + rest, size, c) == if Outcome([h], size, c).Loaded? then Outcome(rest, size, c) else Outcome([h], size, c)
  {
    assert ([h] + rest)[1..] == rest && [h][1..] == [];
  }

  lemma NoHeaders(size: nat, c: ElfClass)
    ensures Outcome([], size, c) == Loaded
  {}

  // ---------- the SRAM

  /** `view` with `data` laid over it from `at` on, as far as it reaches. */
  function Overlay(view: seq<byte>, at: nat, data: seq<byte>): (r: seq<byte>)
    ensures |r| == |view|
  {
    seq(|view|, i requires 0 <= i < |view| => if at <= i < at + |data| then data[i - at] else view[i])
  }

  lemma OverlayNothing(view: seq<byte>, at: nat)
    ensures Overlay(view, at, []) == view
  {}

  lemma OverlayTwice(view: seq<byte>, at: nat, x: seq<byte>, y: seq<byte>)
    ensures Overlay(Overlay(view, at, x), at + |x|, y) == Overlay(view, at, x + y)
  {}

  function RoundDown(n: nat): nat { n / 8 * 8 }

  function RoundUp(n: nat): nat { (n + 7) / 8 * 8 }

  predicate WholeWords(n: nat) { n % 8 == 0 }

  lemma RoundUpBounds(n: nat)
    ensures WholeWords(RoundUp(n)) && n <= RoundUp(n) < n + 8
  {}

  lemma RoundUpSum(m: nat, n: nat)
    requires WholeWords(m)
    ensures RoundUp(m) == m && RoundUp(m + n) == m + RoundUp(n)
  {}

  lemma WholeSum(m: nat, n: nat)
    requires WholeWords(m)
    ensures WholeWords(m + n) <==> WholeWords(n)
    ensures 0 < m ==> 8 <= m && WholeWords(m - 8)
    ensures WholeWords(0) && WholeWords(8)
  {}

  function Zeros(n: nat): seq<byte> { seq(n, _ => 0) }

  /** Data as it is stored: zeros up to a whole number of words. */
  function Padded(data: seq<byte>): (r: seq<byte>)
    ensures |r| == RoundUp(|data|) && WholeWords(|r|)
  {
    data + Zeros(RoundUp(|data|) - |data|)
  }

  /** The word that byte `n` behind `addr` goes to: a 32-bit address, which wraps around, rounded down. */
  function WordPosition(addr: nat, n: nat): nat { RoundDown((addr + n) % TWO_32) }

  lemma PositionShift(addr: nat, m: nat, n: nat)
    ensures WordPosition(addr + m, n) == WordPosition(addr, m + n)
  {}

  lemma PositionCode(addr: nat, i: nat)
    ensures 8 * ((addr % TWO_32 + i) % TWO_32 / 8) == WordPosition(addr, i)
  {}

  lemma PositionFlat(addr: nat, n: nat)
    requires WholeWords(n) && RoundDown(addr) + n + 8 <= TWO_32
    ensures WordPosition(addr, n) == RoundDown(addr) + n
  {}

  /** Data stored word by word from `addr` on. */
  function StoreWords(view: seq<byte>, addr: nat, data: seq<byte>): (r: seq<byte>)
    requires WholeWords(|data|)
    ensures |r| == |view|
  {
    if data == [] then view
    else
      var n := |data| - 8;
      Overlay(StoreWords(view, addr, data[..n]), WordPosition(addr, n), data[n..])
  }

  lemma StoreNothing(view: seq<byte>, addr: nat)
    ensures StoreWords(view, addr, []) == view
  {}

  lemma StoreWord(view: seq<byte>, addr: nat, data: seq<byte>, word: seq<byte>)
    requires WholeWords(|data|) && |word| == 8
    ensures WholeWords(|data + word|)
    ensures StoreWords(view, addr, data + word)
         == Overlay(StoreWords(view, addr, data), WordPosition(addr, |data|), word)
  {
    hide WholeWords, WordPosition, Overlay;
    WholeSum(|data|, 8);
    assert (data + word)[..|data|] == data && (data + word)[|data|..] == word;
  }

  /**
   One word, byte by byte: it goes to its address modulo 2^32, rounded down to a word. With
   `StoreTwice` this says where all data goes.
   */
  lemma OneWord(view: seq<byte>, addr: nat, word: seq<byte>, p: nat)
    requires |word| == 8 && p < |view|
    ensures var at := addr % 0x1_0000_0000 / 8 * 8;
      StoreWords(view, addr, word)[p] == if at <= p < at + 8 then word[p - at] else view[p]
  {
    StoreNothing(view, addr);
    StoreWord(view, addr, [], word);
    assert [] + word == word;
  }

  /** Data is filled up to whole words with zeros. */
  lemma PaddedMeans(data: seq<byte>)
    ensures |Padded(data)| == (|data| + 7) / 8 * 8 && Padded(data)[..|data|] == data
    ensures forall i :: |data| <= i < |Padded(data)| ==> Padded(data)[i] == 0
  {}

  /** Storing can be split at any word. */
  lemma {:induction false} StoreTwice(view: seq<byte>, addr: nat, x: seq<byte>, y: seq<byte>)
    requires WholeWords(|x|) && WholeWords(|y|)
    ensures WholeWords(|x + y|)
    ensures StoreWords(StoreWords(view, addr, x), addr + |x|, y) == StoreWords(view, addr, x + y)
  {
    hide WholeWords, WordPosition, Overlay, StoreWords;
    WholeSum(|x|, |y|);
    WholeSum(|y|, 0);
    if y == [] {
      assert x + y == x;
      StoreNothing(StoreWords(view, addr, x), addr + |x|);
    } else {
      var z, word := y[..|y| - 8], y[|y| - 8..];
      assert y == z + word && x + y == (x + z) + word;
      StoreTwice(view, addr, x, z);
      StoreWord(StoreWords(view, addr, x), addr + |x|, z, word);
      StoreWord(view, addr, x + z, word);
      PositionShift(addr, |x|, |z|);
    }
  }

  /** Without wrap-around, the data ends up in one piece. */
  lemma {:induction false} StoreFlat(view: seq<byte>, addr: nat, data: seq<byte>)
    requires WholeWords(|data|) && RoundDown(addr) + |data| <= TWO_32
    ensures StoreWords(view, addr, data) == Overlay(view, RoundDown(addr), data)
  {
    hide WholeWords, WordPosition, Overlay, StoreWords, RoundDown;
    WholeSum(|data|, 0);
    if data == [] {
      OverlayNothing(view, RoundDown(addr));
      StoreNothing(view, addr);
    } else {
      var d, word := data[..|data| - 8], data[|data| - 8..];
      assert data == d + word;
      StoreFlat(view, addr, d);
      StoreWord(view, addr, d, word);
      PositionFlat(addr, |d|);
      OverlayTwice(view, RoundDown(addr), d, word);
    }
  }

  class Sram {
    const words: array<uint64>

    ghost function View(): (b: seq<byte>)
      reads words
      ensures |b| == 8 * words.Length
    {
      Bytes64(words[..])
    }

    constructor (words: array<uint64>)
      ensures this.words == words
    {
      this.words := words;
    }

    /** `tb_writetoSram`: one word, from its bytes; an index outside the array writes nothing. */
    method WriteToSram(addr: nat, val: seq<byte>)
      requires |val| == 8
      modifies words
      ensures View() == Overlay(old(View()), 8 * addr, val)
      ensures forall k :: 0 <= k < words.Length && k != addr ==> words[k] == old(words[k])
      ensures addr < words.Length ==>
        words[addr] == Little4(val[0], val[1], val[2], val[3]) + 0x1_0000_0000 * Little4(val[4], val[5], val[6], val[7])
    {
      EightBytes(val);
      WordSizes();
      if addr < words.Length {
        Update64(words[..], addr, FromBytes(val));
        BytesRoundTrip(val);
        hide Bytes64, ToBytes, FromBytes;
        ghost var view := View();
        words[addr] := FromBytes(val);
        assert View() == view[..8 * addr] + val + view[8 * addr + 8..];
      } else {
        hide Bytes64;
        assert View() == Overlay(View(), 8 * addr, val);
      }
    }

    /** One round of `tb_loadChunk` (tb_util.svh:38-40). */
    method LoadWord(addr: nat, chunk: array<byte>, i: nat)
      requires i + 8 <= chunk.Length
      modifies words
      ensures View() == Overlay(old(View()), WordPosition(addr, i), chunk[i..i + 8])
    {
      hide Sram.View, Overlay, WordPosition;
      var base_addr := addr % TWO_32;
      var w_addr := (base_addr + i) % TWO_32 / 8;
      var val := [chunk[i], chunk[i + 1], chunk[i + 2], chunk[i + 3], chunk[i + 4], chunk[i + 5], chunk[i + 6], chunk[i + 7]];
      assert val == chunk[i..i + 8];
      PositionCode(addr, i);
      WriteToSram(w_addr, val);
    }

    /**
     `tb_loadChunk`: 32-bit address arithmetic; a chunk at an unaligned address lands at the
     beginning of the word that the address points into.
     */
    method LoadChunk(addr: nat, chunk: array<byte>, effChunkLength: nat)
      requires effChunkLength <= SECTION_CHUNK_LENGTH <= chunk.Length && chunk as object != words
      modifies words
      ensures View() == StoreWords(old(View()), addr, chunk[..RoundUp(effChunkLength)])
    {
      hide Sram.View, Overlay, WordPosition, RoundUp, StoreWords;
      RoundUpBounds(effChunkLength);
      StoreNothing(View(), addr);
      ghost var view := View();
      var i := 0;
      while i < effChunkLength
        invariant WholeWords(i) && i <= RoundUp(effChunkLength)
        invariant View() == StoreWords(view, addr, chunk[..i])
      {
        ghost var stored, word := chunk[..i], chunk[i..i + 8];
        assert stored + word == chunk[..i + 8];
        StoreWord(view, addr, stored, word);
        LoadWord(addr, chunk, i);
        i := i + 8;
      }
    }
  }

  // ---------- the whole preload

  predicate Covers(segments: seq<Segment>, data: map<uint64, seq<byte>>) {
    forall i :: 0 <= i < |segments| ==> segments[i].address in data
  }

  /** SRAM contents after loading the segments in order; an address has the data of its first segment. */
  function Image(segments: seq<Segment>, data: map<uint64, seq<byte>>, view: seq<byte>): (r: seq<byte>)
    requires Covers(segments, data)
    ensures |r| == |view|
  {
    if segments == [] then view
    else
      var a := segments[|segments| - 1].address;
      StoreWords(Image(segments[..|segments| - 1], data, view), a, Padded(data[a]))
  }

  lemma {:induction false} FirstWinsCovers(segments: seq<Segment>)
    ensures Covers(segments, FirstWins(segments))
  {
    if segments != [] {
      var rest := segments[..|segments| - 1];
      FirstWinsCovers(rest);
      forall i | 0 <= i < |segments| ensures segments[i].address in FirstWins(segments) {
        if i < |rest| { assert segments[i] == rest[i]; }
      }
    }
  }

  /** The chunk buffer: cleared, then filled from the section (tb_sim_ctrl.cpp:216-223). */
  method FillChunk(loader: ElfLoader, secAddr: uint64, i: nat, chunkLen: nat, bf: array<byte>) returns (ok: bool)
    requires secAddr in loader.mems && i + chunkLen <= |loader.mems[secAddr]|
    requires chunkLen <= SECTION_CHUNK_LENGTH <= bf.Length
    modifies bf
    ensures ok
    ensures RoundUp(chunkLen) <= bf.Length && bf[..RoundUp(chunkLen)] == Padded(loader.mems[secAddr][i..i + chunkLen])
  {
    forall k | 0 <= k < SECTION_CHUNK_LENGTH { bf[k] := 0; }
    var status := loader.ReadSectionChunk(secAddr, i, bf, chunkLen);
    ok := status == 0;
  }

  /** One round of the chunk loop (tb_sim_ctrl.cpp:216-225). */
  method CopyChunk(loader: ElfLoader, sram: Sram, secAddr: uint64, i: nat, chunkLen: nat, bf: array<byte>) returns (ok: bool)
    requires secAddr in loader.mems && i + chunkLen <= |loader.mems[secAddr]|
    requires chunkLen <= SECTION_CHUNK_LENGTH <= bf.Length && bf as object != sram.words
    modifies sram.words, bf
    ensures ok
    ensures sram.View() == StoreWords(old(sram.View()), secAddr + i, Padded(loader.mems[secAddr][i..i + chunkLen]))
  {
    hide StoreWords, Bytes64;
    ok := FillChunk(loader, secAddr, i, chunkLen, bf);
    if !ok { return; }
    hide Padded, RoundUp;
    sram.LoadChunk(secAddr + i, bf, chunkLen);
  }

  /** The chunk loop for one section (tb_sim_ctrl.cpp:215-226). */
  method LoadSection(loader: ElfLoader, sram: Sram, secAddr: uint64, secLen: nat, bf: array<byte>) returns (ok: bool)
    requires secAddr in loader.mems && secLen == |loader.mems[secAddr]|
    requires SECTION_CHUNK_LENGTH <= bf.Length && bf as object != sram.words
    modifies sram.words, bf
    ensures ok
    ensures sram.View() == StoreWords(old(sram.View()), secAddr, Padded(loader.mems[secAddr]))
  {
    hide StoreWords, Bytes64, Padded, Sram.View;
    ghost var data, view0 := loader.mems[secAddr], sram.View();
    NothingLoaded(view0, secAddr, data);
    var i := 0;
    ghost var done: nat := 0;
    while i < secLen
      invariant 0 <= i && WholeWords(i)
      invariant done <= secLen && done == if i < secLen then i else secLen
      invariant sram.View() == StoreWords(view0, secAddr, Padded(data[..done]))
    {
      // the last chunk may be shorter
      var chunkLen := if SECTION_CHUNK_LENGTH < secLen - i then SECTION_CHUNK_LENGTH else secLen - i;
      MoreLoaded(view0, secAddr, data, i, chunkLen, sram.View());
      ok := CopyChunk(loader, sram, secAddr, i, chunkLen, bf);
      if !ok { return; }
      done := done + chunkLen;
      i := i + SECTION_CHUNK_LENGTH;
    }
    assert data[..done] == data;
    ok := true;
  }

  lemma NothingLoaded(view: seq<byte>, addr: nat, data: seq<byte>)
    ensures StoreWords(view, addr, Padded(data[..0])) == view
  {
    assert Padded(data[..0]) == [];
  }

  lemma MoreLoaded(view0: seq<byte>, addr: nat, data: seq<byte>, i: nat, n: nat, view: seq<byte>)
    requires WholeWords(i) && i + n <= |data| && view == StoreWords(view0, addr, Padded(data[..i]))
    ensures StoreWords(view, addr + i, Padded(data[i..i + n])) == StoreWords(view0, addr, Padded(data[..i + n]))
  {
    hide StoreWords;
    PaddedAppend(data, i, n);
    hide Padded;
    StoreTwice(view0, addr, Padded(data[..i]), Padded(data[i..i + n]));
  }

  lemma PaddedAppend(data: seq<byte>, i: nat, n: nat)
    requires WholeWords(i) && i + n <= |data|
    ensures |Padded(data[..i])| == i
    ensures Padded(data[..i]) + Padded(data[i..i + n]) == Padded(data[..i + n])
  {
    hide RoundUp, WholeWords;
    RoundUpSum(i, n);
    RoundUpBounds(n);
    assert data[..i] + data[i..i + n] == data[..i + n];
  }

  /** All sections, chunk by chunk (tb_sim_ctrl.cpp:213-227). */
  method LoadSections(loader: ElfLoader, sram: Sram, ghost segments: seq<Segment>) returns (ok: bool)
    requires loader.Holds(segments) && loader.sectionIndex == 0
    modifies loader`sectionIndex, sram.words
    ensures Covers(segments, loader.mems)
    ensures ok && sram.View() == Image(segments, loader.mems, old(sram.View()))
  {
    FirstWinsCovers(segments);
    hide Bytes64, Padded, StoreWords;
    ok := true;
    var bf := new byte[2048](_ => 0);
    ghost var n := 0;
    ghost var view0 := sram.View();
    assert segments[..0] == [];
    var more, secAddr, secLen := loader.GetSection();
    while more
      invariant 0 <= n <= |segments| && loader.sectionIndex == if more then n + 1 else n
      invariant more == (n < |segments|)
      invariant more ==> secAddr == segments[n].address && secLen == |loader.mems[secAddr]|
      invariant ok
      invariant sram.View() == Image(segments[..n], loader.mems, view0)
      decreases |segments| - n
    {
      ok := LoadSection(loader, sram, secAddr, secLen, bf);
      if !ok { return; }
      assert segments[..n + 1][..n] == segments[..n];
      n := n + 1;
      more, secAddr, secLen := loader.GetSection();
    }
    assert segments[..n] == segments;
  }

  // ---------- what ends up in memory

  /** The segments laid over memory in order, every one with its own data. */
  function Layers(segments: seq<Segment>, view: seq<byte>): (r: seq<byte>)
    ensures |r| == |view|
  {
    if segments == [] then view
    else
      var s := segments[|segments| - 1];
      Overlay(Layers(segments[..|segments| - 1], view), RoundDown(s.address), Padded(s.data))
  }

  /** Where a segment lies. */
  datatype Place = Place(address: uint64, size: nat)

  function PlaceOf(s: Segment): Place { Place(s.address, |s.data|) }

  function Places(segments: seq<Segment>): (places: seq<Place>)
    ensures |places| == |segments|
  {
    seq(|segments|, i requires 0 <= i < |segments| => PlaceOf(segments[i]))
  }

  predicate Apart(p: Place, q: Place) { p.address + p.size <= q.address || q.address + q.size <= p.address }

  /** Places in memory up to `top`, none of them empty, that do not overlap. */
  predicate Disjoint(places: seq<Place>, top: nat) {
    && (forall i :: 0 <= i < |places| ==> 0 < places[i].size && places[i].address + places[i].size <= top)
    && (forall i, j :: 0 <= i < j < |places| ==> Apart(places[i], places[j]))
  }

  /** Disjoint segments in the 32-bit address space. */
  predicate Placed(segments: seq<Segment>) { Disjoint(Places(segments), TWO_32) }

  lemma PlacedMeans(segments: seq<Segment>)
    ensures Placed(segments) ==>
      && (forall i :: 0 <= i < |segments| ==>
            segments[i].data != [] && segments[i].address + |segments[i].data| <= TWO_32)
      && (forall i, j :: 0 <= i < j < |segments| ==> Apart(PlaceOf(segments[i]), PlaceOf(segments[j])))
  {
    var places := Places(segments);
    assert forall i :: 0 <= i < |segments| ==> places[i] == PlaceOf(segments[i]);
  }

  predicate Aligned(segments: seq<Segment>) { forall i :: 0 <= i < |segments| ==> segments[i].address % 8 == 0 }

  /** Aligned segments that are apart stay apart when their ends are rounded up to whole words. */
  lemma WordsApart(s: Segment, t: Segment)
    requires Apart(PlaceOf(s), PlaceOf(t)) && s.address % 8 == 0 && t.address % 8 == 0
    ensures s.address + RoundUp(|s.data|) <= t.address || t.address + RoundUp(|t.data|) <= s.address
  {}

  /** Memory holds the segment from its address on, then zeros to the end of the word. */
  predicate Stored(s: Segment, view: seq<byte>) {
    forall p :: s.address <= p < s.address + RoundUp(|s.data|) && p < |view| ==>
      view[p] == if p - s.address < |s.data| then s.data[p - s.address] else 0
  }

  predicate Untouched(segments: seq<Segment>, view: seq<byte>, before: seq<byte>)
    requires |view| == |before|
  {
    forall p :: 0 <= p < |view| &&
      (forall i :: 0 <= i < |segments| ==> !(segments[i].address <= p < segments[i].address + RoundUp(|segments[i].data|)))
      ==> view[p] == before[p]
  }

  lemma PlacedInit(segments: seq<Segment>)
    requires Placed(segments) && segments != []
    ensures Placed(segments[..|segments| - 1]) && (Aligned(segments) ==> Aligned(segments[..|segments| - 1]))
  {
    assert Places(segments[..|segments| - 1]) == Places(segments)[..|segments| - 1];
  }

  lemma {:induction false} LayersExact(segments: seq<Segment>, view: seq<byte>)
    requires Placed(segments) && Aligned(segments)
    ensures forall i :: 0 <= i < |segments| ==> Stored(segments[i], Layers(segments, view))
    ensures Untouched(segments, Layers(segments, view), view)
  {
    if segments != [] {
      var init, s := segments[..|segments| - 1], segments[|segments| - 1];
      assert RoundDown(s.address) == s.address;
      PlacedInit(segments);
      PlacedMeans(segments);
      LayersExact(init, view);
      hide Overlay, Padded, Stored, Untouched, RoundDown, RoundUp, Placed, Apart;
      var below := Layers(init, view);
      StoredOnTop(s, below);
      forall i | 0 <= i < |init| ensures Stored(segments[i], Overlay(below, s.address, Padded(s.data))) {
        assert segments[i] == init[i] && Apart(PlaceOf(segments[i]), PlaceOf(s));
        WordsApart(segments[i], s);
        StoredBelow(init[i], s, below);
      }
      UntouchedMore(init, s, view, below);
      assert init + [s] == segments;
    }
  }

  lemma StoredOnTop(s: Segment, below: seq<byte>)
    ensures Stored(s, Overlay(below, s.address, Padded(s.data)))
  {}

  lemma StoredBelow(t: Segment, s: Segment, below: seq<byte>)
    requires t.address + RoundUp(|t.data|) <= s.address || s.address + RoundUp(|s.data|) <= t.address
    requires Stored(t, below)
    ensures Stored(t, Overlay(below, s.address, Padded(s.data)))
  {}

  lemma UntouchedMore(init: seq<Segment>, s: Segment, view: seq<byte>, below: seq<byte>)
    requires |below| == |view| && Untouched(init, below, view)
    ensures Untouched(init + [s], Overlay(below, s.address, Padded(s.data)), view)
  {
    var segments := init + [s];
    var top := Overlay(below, s.address, Padded(s.data));
    forall p | 0 <= p < |view| && forall i :: 0 <= i < |segments| ==>
        !(segments[i].address <= p < segments[i].address + RoundUp(|segments[i].data|))
      ensures top[p] == view[p]
    {
      assert segments[|init|] == s;
      assert forall i :: 0 <= i < |init| ==> segments[i] == init[i];
    }
  }

  lemma ApartDiffers(s: Segment, t: Segment)
    requires Apart(PlaceOf(s), PlaceOf(t)) && s.data != [] && t.data != []
    ensures s.address != t.address
  {}

  lemma LastDiffers(segments: seq<Segment>)
    requires Placed(segments) && segments != []
    ensures forall i :: 0 <= i < |segments| - 1 ==> segments[i].address != segments[|segments| - 1].address
  {
    PlacedMeans(segments);
    hide Placed, Apart;
    forall i | 0 <= i < |segments| - 1 ensures segments[i].address != segments[|segments| - 1].address {
      ApartDiffers(segments[i], segments[|segments| - 1]);
    }
  }

  lemma {:induction false} OwnData(segments: seq<Segment>)
    requires Placed(segments)
    ensures var m := FirstWins(segments);
      forall i :: 0 <= i < |segments| ==> segments[i].address in m && m[segments[i].address] == segments[i].data
    ensures forall a :: a in FirstWins(segments) ==> exists i :: 0 <= i < |segments| && segments[i].address == a
  {
    hide Placed;
    if segments != [] {
      var init := segments[..|segments| - 1];
      PlacedInit(segments);
      LastDiffers(segments);
      OwnData(init);
      assert forall i :: 0 <= i < |init| ==> segments[i] == init[i];
    }
  }

  lemma RoundingFits(address: nat, size: nat)
    requires address + size <= TWO_32
    ensures RoundDown(address) + RoundUp(size) <= TWO_32
  {}

  lemma {:induction false} ImageIsLayers(segments: seq<Segment>, data: map<uint64, seq<byte>>, view: seq<byte>)
    requires Placed(segments)
    requires forall i :: 0 <= i < |segments| ==> segments[i].address in data && data[segments[i].address] == segments[i].data
    ensures Image(segments, data, view) == Layers(segments, view)
  {
    hide RoundUp, RoundDown, Overlay, Padded, StoreWords, Placed;
    if segments != [] {
      var init, s := segments[..|segments| - 1], segments[|segments| - 1];
      PlacedInit(segments);
      ImageIsLayers(init, data, view);
      PlacedMeans(segments);
      RoundingFits(s.address, |s.data|);
      StoreFlat(Image(init, data, view), s.address, Padded(s.data));
    }
  }

  /** SRAM contents after the whole preload. */
  function Memory(segments: seq<Segment>, view: seq<byte>): (r: seq<byte>)
    ensures |r| == |view|
  {
    FirstWinsCovers(segments);
    Image(segments, FirstWins(segments), view)
  }

  lemma MemoryIsLayers(segments: seq<Segment>, view: seq<byte>)
    requires Placed(segments)
    ensures Memory(segments, view) == Layers(segments, view)
  {
    OwnData(segments);
    hide Placed;
    ImageIsLayers(segments, FirstWins(segments), view);
  }

  /** The segments are those of the loadable, non-empty program headers. */
  lemma {:induction false} SegmentsMeaning(headers: seq<ProgramHeader>, bytes: seq<byte>, s: Segment)
    requires AllInFile(headers, |bytes|)
    ensures s in Segments(headers, bytes) <==>
      exists i :: 0 <= i < |headers| && Loadable(headers[i]) && s.address == headers[i].paddr
        && s.data == bytes[headers[i].offset..headers[i].offset + headers[i].filesz]
  {
    if headers != [] {
      var init := headers[..|headers| - 1];
      SegmentsMeaning(init, bytes, s);
      assert forall i :: 0 <= i < |init| ==> headers[i] == init[i];
    }
  }

  // ---------- from headers to memory

  /** Loadable headers with 8-aligned, disjoint ranges inside the 32-bit address space. */
  predicate HeadersPlaced(headers: seq<ProgramHeader>) {
    && (forall i :: 0 <= i < |headers| && Loadable(headers[i]) ==>
          headers[i].paddr % 8 == 0 && headers[i].paddr + headers[i].filesz <= 0x1_0000_0000)
    && (forall i, j :: 0 <= i < j < |headers| && Loadable(headers[i]) && Loadable(headers[j]) ==>
          || headers[i].paddr + headers[i].filesz <= headers[j].paddr
          || headers[j].paddr + headers[j].filesz <= headers[i].paddr)
  }

  /** The end of the last word that a header reaches. */
  function WordEnd(h: ProgramHeader): nat { h.paddr + (h.filesz + 7) / 8 * 8 }

  /** Memory has the bytes of one header's range of the file, and zeros to the end of the last word. */
  predicate Arrived(h: ProgramHeader, bytes: seq<byte>, view: seq<byte>)
    requires h.offset + h.filesz <= |bytes|
  {
    && (forall p :: h.paddr <= p < h.paddr + h.filesz && p < |view| ==> view[p] == bytes[h.offset + (p - h.paddr)])
    && (forall p :: h.paddr + h.filesz <= p < WordEnd(h) && p < |view| ==> view[p] == 0)
  }

  /** Nothing changes where no loadable header reaches. */
  predicate KeptElsewhere(headers: seq<ProgramHeader>, view: seq<byte>, before: seq<byte>)
    requires |view| == |before|
  {
    forall p :: 0 <= p < |view| && (forall i :: 0 <= i < |headers| && Loadable(headers[i]) ==> !(headers[i].paddr <= p < WordEnd(headers[i])))
      ==> view[p] == before[p]
  }

  lemma SegmentIn(headers: seq<ProgramHeader>, bytes: seq<byte>, k: nat) returns (i: nat)
    requires AllInFile(headers, |bytes|) && k < |Segments(headers, bytes)|
    ensures i < |headers| && Loadable(headers[i]) && InFile(headers[i], |bytes|)
    ensures var s := Segments(headers, bytes)[k];
      s.address == headers[i].paddr && s.data == bytes[headers[i].offset..headers[i].offset + headers[i].filesz]
  {
    hide Segments;
    var s := Segments(headers, bytes)[k];
    SegmentsMeaning(headers, bytes, s);
    i :| 0 <= i < |headers| && Loadable(headers[i]) && s.address == headers[i].paddr
      && s.data == bytes[headers[i].offset..headers[i].offset + headers[i].filesz];
  }

  lemma PlacedMore(segments: seq<Segment>, s: Segment)
    requires Placed(segments) && Aligned(segments)
    requires s.data != [] && s.address % 8 == 0 && s.address + |s.data| <= TWO_32
    requires forall k :: 0 <= k < |segments| ==> Apart(PlaceOf(segments[k]), PlaceOf(s))
    ensures Placed(segments + [s]) && Aligned(segments + [s])
  {
    assert Places(segments + [s]) == Places(segments) + [PlaceOf(s)];
    forall k | 0 <= k < |segments| ensures Apart(Places(segments)[k], PlaceOf(s)) {
      assert Places(segments)[k] == PlaceOf(segments[k]);
    }
    hide Apart, PlaceOf, Places;
  }

  lemma {:induction false} HeadersToSegments(headers: seq<ProgramHeader>, bytes: seq<byte>)
    requires AllInFile(headers, |bytes|) && HeadersPlaced(headers)
    ensures Placed(Segments(headers, bytes)) && Aligned(Segments(headers, bytes))
  {
    hide Placed, Apart, Aligned, HeadersPlaced, Segments;
    if headers == [] {
      NothingPlaced();
      NoSegments(bytes);
    } else {
      var n := |headers| - 1;
      var init, h := headers[..n], headers[n];
      assert headers == init + [h];
      InitPlaced(headers);
      HeadersToSegments(init, bytes);
      SegmentsSnoc(init, h, bytes);
      if IsLoaded(h) {
        LastSegment(headers, bytes);
      } else {
        assert Segments(init, bytes) + [] == Segments(init, bytes);
      }
    }
  }

  lemma NoSegments(bytes: seq<byte>)
    ensures Segments([], bytes) == []
  {}

  lemma InitPlaced(headers: seq<ProgramHeader>)
    requires HeadersPlaced(headers) && headers != []
    ensures HeadersPlaced(headers[..|headers| - 1])
  {}

  lemma LastSegment(headers: seq<ProgramHeader>, bytes: seq<byte>)
    requires AllInFile(headers, |bytes|) && HeadersPlaced(headers) && headers != []
    requires var n := |headers| - 1;
      IsLoaded(headers[n]) && Placed(Segments(headers[..n], bytes)) && Aligned(Segments(headers[..n], bytes))
    ensures var n := |headers| - 1;
      var segments := Segments(headers[..n], bytes) + SegmentOf(headers[n], bytes);
      Placed(segments) && Aligned(segments)
  {
    hide Placed, Apart, Aligned, Segments;
    var n := |headers| - 1;
    var init, h := headers[..n], headers[n];
    var segments, s := Segments(init, bytes), Segment(h.paddr, bytes[h.offset..h.offset + h.filesz]);
    forall k | 0 <= k < |segments| ensures Apart(PlaceOf(segments[k]), PlaceOf(s)) {
      var i := SegmentIn(init, bytes, k);
      assert init[i] == headers[i];
      HeadersApart(headers, i, n, segments[k], s);
    }
    PlacedMore(segments, s);
  }

  lemma NothingPlaced()
    ensures Placed([]) && Aligned([])
  {}

  lemma HeadersApart(headers: seq<ProgramHeader>, i: nat, j: nat, s: Segment, t: Segment)
    requires HeadersPlaced(headers) && i < j < |headers| && Loadable(headers[i]) && Loadable(headers[j])
    requires s.address == headers[i].paddr && |s.data| == headers[i].filesz
    requires t.address == headers[j].paddr && |t.data| == headers[j].filesz
    ensures Apart(PlaceOf(s), PlaceOf(t))
  {}

  lemma StoredArrives(h: ProgramHeader, bytes: seq<byte>, s: Segment, view: seq<byte>)
    requires h.offset + h.filesz <= |bytes|
    requires s.address == h.paddr && s.data == bytes[h.offset..h.offset + h.filesz] && Stored(s, view)
    ensures Arrived(h, bytes, view)
  {
    RoundUpBounds(h.filesz);
    assert WordEnd(h) == h.paddr + RoundUp(h.filesz);
    hide RoundUp, WordEnd;
    forall p | h.paddr <= p < h.paddr + h.filesz && p < |view| ensures view[p] == bytes[h.offset + (p - h.paddr)] {
      assert s.data[p - s.address] == bytes[h.offset + (p - h.paddr)];
    }
  }

  lemma UntouchedKept(headers: seq<ProgramHeader>, bytes: seq<byte>, view: seq<byte>, before: seq<byte>)
    requires AllInFile(headers, |bytes|) && |view| == |before| && Untouched(Segments(headers, bytes), view, before)
    ensures KeptElsewhere(headers, view, before)
  {
    hide Segments;
    var segments := Segments(headers, bytes);
    forall p | 0 <= p < |view| && forall i :: 0 <= i < |headers| && Loadable(headers[i]) ==> !(headers[i].paddr <= p < WordEnd(headers[i]))
      ensures view[p] == before[p]
    {
      forall k | 0 <= k < |segments|
        ensures !(segments[k].address <= p < segments[k].address + RoundUp(|segments[k].data|))
      {
        var i := SegmentIn(headers, bytes, k);
        assert !(headers[i].paddr <= p < WordEnd(headers[i]));
      }
    }
  }

  /**
   The preload on headers alone: when the loadable ones are placed, every byte of every range of
   the file is at its address, the last words are filled with zeros, and nothing else changes.
   */
  lemma HeadersReachMemory(headers: seq<ProgramHeader>, bytes: seq<byte>, view: seq<byte>)
    requires AllInFile(headers, |bytes|) && HeadersPlaced(headers)
    ensures var memory := Memory(Segments(headers, bytes), view);
      && (forall i :: 0 <= i < |headers| && Loadable(headers[i]) ==>
            headers[i].offset + headers[i].filesz <= |bytes| && Arrived(headers[i], bytes, memory))
      && KeptElsewhere(headers, memory, view)
  {
    hide Memory, Segments, Placed, Aligned, Stored, Untouched, Arrived, KeptElsewhere, Layers, HeadersPlaced;
    HeadersToSegments(headers, bytes);
    var segments := Segments(headers, bytes);
    var memory := Memory(segments, view);
    MemoryIsLayers(segments, view);
    LayersExact(segments, view);
    UntouchedKept(headers, bytes, memory, view);
    forall i | 0 <= i < |headers| && Loadable(headers[i])
      ensures headers[i].offset + headers[i].filesz <= |bytes| && Arrived(headers[i], bytes, memory)
    {
      var h := headers[i];
      assert IsLoaded(h) && InFile(h, |bytes|);
      var s := Segment(h.paddr, bytes[h.offset..h.offset + h.filesz]);
      SegmentsMeaning(headers, bytes, s);
      assert s in segments;
      StoredArrives(h, bytes, s, memory);
    }
  }

  /**
   `TbSimCtrl::PreExec` in boot mode `force`. When the segments are aligned and apart, every byte of
   every segment is the byte of the file, the last word of a segment is filled up with zeros,
   and nothing else changes.
   */
  method PreExec(elf: ElfFile, sram: Sram, force: bool) returns (result: LoadResult)
    modifies sram.words
    ensures result == if force then LoadOutcome(elf) else Loaded
    ensures !force || !result.Loaded? ==> sram.View() == old(sram.View())
    ensures result.Loaded? && force ==>
      && AllInFile(elf.headers, |elf.bytes|)
      && var segments := Segments(elf.headers, elf.bytes);
      && sram.View() == Memory(segments, old(sram.View()))
      && (Placed(segments) && Aligned(segments) ==>
            && (forall i :: 0 <= i < |segments| ==> Stored(segments[i], sram.View()))
            && Untouched(segments, sram.View(), old(sram.View())))
    ensures result.Loaded? && force && HeadersPlaced(elf.headers) ==>
      && (forall i :: 0 <= i < |elf.headers| && Loadable(elf.headers[i]) ==>
            && elf.headers[i].offset + elf.headers[i].filesz <= |elf.bytes|
            && Arrived(elf.headers[i], elf.bytes, sram.View()))
      && KeptElsewhere(elf.headers, sram.View(), old(sram.View()))
  {
    hide Bytes64, Image, Segments, Placed, Aligned, Stored, Untouched, Outcome, HeadersPlaced, Arrived, KeptElsewhere;
    result := Loaded;
    if force {
      var loader := new ElfLoader();
      result := loader.LoadElf(elf);
      // an aborted load ends the program; after truncated headers there is no section to load
      if result.Loaded? {
        ghost var segments := Segments(elf.headers, elf.bytes);
        ghost var view0 := sram.View();
        var ok := LoadSections(loader, sram, segments);
        if Placed(segments) && Aligned(segments) {
          MemoryIsLayers(segments, view0);
          LayersExact(segments, view0);
        }
        if HeadersPlaced(elf.headers) { HeadersReachMemory(elf.headers, elf.bytes, view0); }
      }
    }
  }

  // ---------- alignment

  predicate LieAt(segments: seq<Segment>, places: seq<Place>) { Places(segments) == places }

  predicate Intact(segments: seq<Segment>, view: seq<byte>) {
    forall i :: 0 <= i < |segments| ==> IntactAt(segments[i], view)
  }

  predicate IntactAt(s: Segment, view: seq<byte>) {
    s.address + |s.data| <= |view| && view[s.address..s.address + |s.data|] == s.data
  }

  lemma LieApart(segments: seq<Segment>, places: seq<Place>, top: nat)
    requires LieAt(segments, places) && Disjoint(places, top) && top <= TWO_32
    ensures Placed(segments) && |segments| == |places|
    ensures forall i :: 0 <= i < |places| ==> segments[i].address == places[i].address && |segments[i].data| == places[i].size
  {
    assert forall i :: 0 <= i < |segments| ==> Places(segments)[i] == PlaceOf(segments[i]);
  }

  lemma StoredIsIntact(s: Segment, view: seq<byte>)
    requires Stored(s, view) && s.address + |s.data| <= |view|
    ensures IntactAt(s, view)
  {
    RoundUpBounds(|s.data|);
    hide RoundUp;
    forall k | 0 <= k < |s.data| ensures view[s.address + k] == s.data[k] {}
  }

  /** What a segment puts at position `p`: a byte of its own, a filling zero, or nothing. */
  function Contribution(s: Segment, p: nat): seq<byte> {
    var at := RoundDown(s.address);
    if at <= p < at + |Padded(s.data)| then [Padded(s.data)[p - at]] else []
  }

  lemma {:induction false} SameContributions(u: seq<Segment>, w: seq<Segment>, view: seq<byte>, p: nat)
    requires |u| == |w| && p < |view|
    requires forall i :: 0 <= i < |u| ==> Contribution(u[i], p) == Contribution(w[i], p)
    ensures Layers(u, view)[p] == Layers(w, view)[p]
  {
    if u != [] {
      var n := |u| - 1;
      SameContributions(u[..n], w[..n], view, p);
      assert Contribution(u[n], p) == Contribution(w[n], p);
      OverlayContributes(u[n], Layers(u[..n], view), p);
      OverlayContributes(w[n], Layers(w[..n], view), p);
    }
  }

  lemma OverlayContributes(s: Segment, below: seq<byte>, p: nat)
    requires p < |below|
    ensures Overlay(below, RoundDown(s.address), Padded(s.data))[p]
         == if Contribution(s, p) == [] then below[p] else Contribution(s, p)[0]
  {
    hide RoundDown, Padded;
  }

  /** All zeros, but for the last byte of segment `i`. */
  function Sample(places: seq<Place>, i: nat, last: byte): (segments: seq<Segment>)
    requires i < |places| && 0 < places[i].size
    ensures LieAt(segments, places) && |segments| == |places|
    ensures segments[i].data[places[i].size - 1] == last
  {
    seq(|places|, k requires 0 <= k < |places| =>
      Segment(places[k].address, if k == i then Zeros(places[k].size - 1) + [last] else Zeros(places[k].size)))
  }

  /** The last byte of an unaligned segment is shifted out of its place, and what is there does not depend on it. */
  lemma LastByteShifted(places: seq<Place>, i: nat, x: byte, y: byte, k: nat)
    requires i < |places| && k < |places| && 0 < places[i].size && places[i].address % 8 != 0
    ensures var p := places[i].address + places[i].size - 1;
      Contribution(Sample(places, i, x)[k], p) == Contribution(Sample(places, i, y)[k], p)
  {
    if k == i {
      var at, n := RoundDown(places[i].address), places[i].size;
      assert at + n <= places[i].address + n - 1;
    } else {
      assert Sample(places, i, x)[k] == Sample(places, i, y)[k];
    }
  }

  lemma PlaceInside(places: seq<Place>, top: nat, i: nat)
    requires Disjoint(places, top) && i < |places|
    ensures 0 < places[i].size && places[i].address + places[i].size <= top
  {}

  lemma UnalignedIsBroken(places: seq<Place>, view: seq<byte>, i: nat)
    requires |view| <= TWO_32 && Disjoint(places, |view|) && i < |places| && places[i].address % 8 != 0
    ensures 0 < places[i].size
    ensures !(Intact(Sample(places, i, 0), Memory(Sample(places, i, 0), view))
              && Intact(Sample(places, i, 1), Memory(Sample(places, i, 1), view)))
  {
    hide Contribution, Layers, Memory, Placed, Sample, LieAt, Disjoint, IntactAt;
    PlaceInside(places, |view|, i);
    var u, w := Sample(places, i, 0), Sample(places, i, 1);
    var a, n := places[i].address, places[i].size;
    var p := a + n - 1;
    forall k | 0 <= k < |u| ensures Contribution(u[k], p) == Contribution(w[k], p) {
      LastByteShifted(places, i, 0, 1, k);
    }
    SameContributions(u, w, view, p);
    LieApart(u, places, |view|);
    LieApart(w, places, |view|);
    MemoryIsLayers(u, view);
    MemoryIsLayers(w, view);
    LastByte(u[i], Memory(u, view));
    LastByte(w[i], Memory(w, view));
  }

  lemma LastByte(s: Segment, view: seq<byte>)
    requires s.data != []
    ensures IntactAt(s, view) ==> |s.data| + s.address <= |view| && view[s.address + |s.data| - 1] == s.data[|s.data| - 1]
  {
    if IntactAt(s, view) {
      assert view[s.address..s.address + |s.data|][|s.data| - 1] == view[s.address + |s.data| - 1];
    }
  }

  lemma AlignedIsIntact(places: seq<Place>, view: seq<byte>, segments: seq<Segment>)
    requires |view| <= TWO_32 && Disjoint(places, |view|) && LieAt(segments, places)
    requires forall i :: 0 <= i < |places| ==> places[i].address % 8 == 0
    ensures Intact(segments, Memory(segments, view))
  {
    LieApart(segments, places, |view|);
    assert Aligned(segments);
    hide Layers, Memory, Stored, Untouched, IntactAt, Aligned, Placed;
    MemoryIsLayers(segments, view);
    LayersExact(segments, view);
    forall i | 0 <= i < |segments| ensures IntactAt(segments[i], Memory(segments, view)) {
      StoredIsIntact(segments[i], Memory(segments, view));
    }
  }

  /**
   Alignment is what a preload needs: segments at disjoint places all arrive where they belong,
   whatever they contain, if and only if every address is a multiple of 8.
   */
  lemma AlignmentNeeded(places: seq<Place>, view: seq<byte>)
    requires |view| <= TWO_32 && Disjoint(places, |view|)
    ensures (forall segments: seq<Segment> :: LieAt(segments, places) ==> Intact(segments, Memory(segments, view)))
       <==> forall i :: 0 <= i < |places| ==> places[i].address % 8 == 0
  {
    hide Memory, Intact;
    if forall i :: 0 <= i < |places| ==> places[i].address % 8 == 0 {
      forall segments: seq<Segment> | LieAt(segments, places) ensures Intact(segments, Memory(segments, view)) {
        AlignedIsIntact(places, view, segments);
      }
    } else {
      var i :| 0 <= i < |places| && places[i].address % 8 != 0;
      UnalignedIsBroken(places, view, i);
    }
  }
}
