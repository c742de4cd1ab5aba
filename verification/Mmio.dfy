/**
 Copying byte blocks to and from a device that is accessed in aligned 32-bit words only
 (sw/device/lib/base/mmio.c, sw/device/lib/base/memory.c:22-27).
 */
module Mmio {
  import opened Text
  import opened Bytes

  /** A volatile access, at a byte offset into the region. */
  datatype Access = Read(offset: nat) | Write(offset: nat)

  /** A storage-like device: a read returns what was last written. */
  class Region {
    const words: array<uint32>
    /** Every access so far, in order. */
    var trace: seq<Access>

    ghost function View(): (b: seq<byte>)
      reads words
      ensures |b| == 4 * words.Length
    {
      Bytes32(words[..])
    }

    constructor (words: array<uint32>)
      ensures this.words == words && trace == []
    {
      this.words, this.trace := words, [];
    }

    /** `mmio_region_read32` */
    method Read32(offset: nat) returns (value: uint32)
      requires offset / 4 < words.Length
      modifies this`trace
      ensures value == words[offset / 4]
      ensures trace == old(trace) + [Read(offset)]
    {
      value := words[offset / 4];
      trace := trace + [Read(offset)];
    }

    /** `mmio_region_write32` */
    method Write32(offset: nat, value: uint32)
      requires offset / 4 < words.Length
      modifies this`trace, words
      ensures words[..] == old(words[..])[offset / 4 := value]
      ensures trace == old(trace) + [Write(offset)]
    {
      words[offset / 4] := value;
      trace := trace + [Write(offset)];
    }
  }

  /** `s` with the bytes from position `at` replaced by `t`. */
  function Patch(s: seq<byte>, at: nat, t: seq<byte>): (r: seq<byte>)
    requires at + |t| <= |s|
    ensures |r| == |s|
  {
    s[..at] + t + s[at + |t|..]
  }

  lemma PatchTwice(s: seq<byte>, at: nat, t: seq<byte>, u: seq<byte>)
    requires at + |t| + |u| <= |s|
    ensures Patch(Patch(s, at, t), at + |t|, u) == Patch(s, at, t + u)
  {}

  /** Patching inside one word, seen from the whole region. */
  lemma PatchInWord(s: seq<byte>, k: nat, skip: nat, t: seq<byte>)
    requires k + 4 <= |s| && skip + |t| <= 4
    ensures s[..k] + Patch(s[k..k + 4], skip, t) + s[k + 4..] == Patch(s, k + skip, t)
  {}

  /** `memcpy` between distinct arrays, with pointers into both. */
  method Memcpy(dest: array<byte>, d: nat, src: array<byte>, s: nat, len: nat)
    requires dest != src && d + len <= dest.Length && s + len <= src.Length
    modifies dest
    ensures dest[..] == Patch(old(dest[..]), d, src[s..s + len])
  {
    for i := 0 to len
      invariant dest[..] == Patch(old(dest[..]), d, src[s..s + i])
    {
      dest[d + i] := src[s + i];
    }
  }

  /** Bytes of the word that `offset` points into, from `offset` on, as far as `len` reaches. */
  function Portion(offset: nat, len: nat): nat { Min(4 - offset % 4, len) }

  lemma PortionBounds(offset: nat, len: nat)
    requires 0 < len
    ensures 0 < Portion(offset, len) <= len && offset % 4 + Portion(offset, len) <= 4
    ensures 0 <= offset - offset % 4 && (offset - offset % 4) % 4 == 0
  {}

  /** The accesses to one word: a word that is fully overwritten is not read. */
  function WordAccesses(offset: nat, full: bool, fromMmio: bool): seq<Access> {
    if fromMmio then [Read(offset)] else if full then [Write(offset)] else [Read(offset), Write(offset)]
  }

  /** The accesses of a copy of `len` bytes at `offset`, word by word. */
  function CopyTrace(offset: nat, len: nat, fromMmio: bool): seq<Access>
    decreases len
  {
    if len == 0 then []
    else
      var n := Portion(offset, len);
      WordAccesses(offset - offset % 4, n == 4, fromMmio) + CopyTrace(offset + n, len - n, fromMmio)
  }

  lemma ReadBytes(words: seq<uint32>, k: nat, skip: nat, n: nat)
    requires k < |words| && skip + n <= 4
    ensures ToBytes(words[k], 4)[skip..skip + n] == Bytes32(words)[4 * k + skip..4 * k + skip + n]
  {
    Word32At(words, k);
    hide Bytes32, ToBytes;
    assert Bytes32(words)[4 * k..4 * k + 4][skip..skip + n] == Bytes32(words)[4 * k + skip..4 * k + skip + n];
  }

  /** Writing back a patched word patches the region. When the whole word is patched, `before` does not matter. */
  lemma WriteBack(words: seq<uint32>, k: nat, skip: nat, t: seq<byte>, before: seq<byte>)
    requires k < |words| && skip + |t| <= 4 && |before| == 4
    requires |t| == 4 || before == ToBytes(words[k], 4)
    ensures FromBytes(Patch(before, skip, t)) < TWO_32
    ensures Bytes32(words[k := FromBytes(Patch(before, skip, t))]) == Patch(Bytes32(words), 4 * k + skip, t)
  {
    hide Bytes32, ToBytes, FromBytes;
    WordSizes();
    var after := Patch(before, skip, t);
    assert after == Patch(ToBytes(words[k], 4), skip, t);
    BytesRoundTrip(after);
    Word32At(words, k);
    Update32(words, k, FromBytes(after));
    PatchInWord(Bytes32(words), 4 * k, skip, t);
  }

  /**
   The part of a copy that lies in one word (mmio.c:55-67 and 79-99): bytes `skip .. skip + n`
   of the word at the aligned `offset`.
   */
  method CopyWord(region: Region, offset: nat, skip: nat, n: nat, buf: array<byte>, pos: nat, fromMmio: bool)
    requires offset % 4 == 0 && offset + 4 <= 4 * region.words.Length
    requires 0 < n && skip + n <= 4 && pos + n <= buf.Length
    requires buf as object != region.words
    modifies region`trace, region.words, buf
    ensures region.trace == old(region.trace) + WordAccesses(offset, n == 4, fromMmio)
    ensures region.View() ==
      if fromMmio then old(region.View()) else Patch(old(region.View()), offset + skip, old(buf[pos..pos + n]))
    ensures buf[..] ==
      if fromMmio then Patch(old(buf[..]), pos, old(region.View())[offset + skip..offset + skip + n]) else old(buf[..])
  {
    hide Bytes32, ToBytes, FromBytes, Patch;
    ghost var was := region.words[..];
    var current_word: uint32 := 0;
    // a word that is copied in full to the device need not be read
    if fromMmio || n != 4 {
      current_word := region.Read32(offset);
    }
    var current := ToArray(current_word);
    if fromMmio {
      ReadBytes(was, offset / 4, skip, n);
      Memcpy(buf, pos, current, skip, n);
    } else {
      WriteBack(was, offset / 4, skip, buf[pos..pos + n], ToBytes(current_word, 4));
      Memcpy(current, skip, buf, pos, n);
      region.Write32(offset, FromBytes(current[..]));
    }
  }

  /** The bytes of a word variable, as a `uint8_t *` cast shows them on a little-endian machine. */
  method ToArray(word: uint32) returns (a: array<byte>)
    ensures fresh(a) && a[..] == ToBytes(word, 4)
  {
    var b := ToBytes(word, 4);
    a := new byte[4](i requires 0 <= i < 4 => b[i]);
  }

  /** The state after `n` bytes of a copy of the first bytes of `buf0` to, or from, position `at` of `view0`. */
  ghost predicate Copied(view: seq<byte>, buf: seq<byte>, view0: seq<byte>, buf0: seq<byte>, at: nat, n: nat, fromMmio: bool)
    requires at + n <= |view0| && n <= |buf0|
  {
    if fromMmio then view == view0 && buf == Patch(buf0, 0, view0[at..at + n])
    else view == Patch(view0, at, buf0[..n]) && buf == buf0
  }

  /** Another `m` bytes, right behind the first `n`. */
  lemma CopiedMore(view: seq<byte>, buf: seq<byte>, view': seq<byte>, buf': seq<byte>, view0: seq<byte>, buf0: seq<byte>,
                   at: nat, n: nat, m: nat, fromMmio: bool)
    requires at + n + m <= |view0| && n + m <= |buf0|
    requires Copied(view, buf, view0, buf0, at, n, fromMmio)
    requires if fromMmio then view' == view && buf' == Patch(buf, n, view[at + n..at + n + m])
             else buf' == buf && view' == Patch(view, at + n, buf[n..n + m])
    ensures Copied(view', buf', view0, buf0, at, n + m, fromMmio)
  {
    if fromMmio {
      PatchTwice(buf0, 0, view0[at..at + n], view0[at + n..at + n + m]);
      assert view0[at..at + n] + view0[at + n..at + n + m] == view0[at..at + n + m];
    } else {
      PatchTwice(view0, at, buf0[..n], buf0[n..n + m]);
      assert buf0[..n] + buf0[n..n + m] == buf0[..n + m];
    }
  }

  lemma EmptyTrace(offset: nat, fromMmio: bool)
    ensures CopyTrace(offset, 0, fromMmio) == []
  {}

  lemma TraceStep(done: seq<Access>, offset: nat, len: nat, fromMmio: bool)
    requires 0 < len
    ensures var n := Portion(offset, len);
      done + CopyTrace(offset, len, fromMmio)
        == done + WordAccesses(offset - offset % 4, n == 4, fromMmio) + CopyTrace(offset + n, len - n, fromMmio)
  {}

  lemma CopiedNothing(view: seq<byte>, buf: seq<byte>, at: nat, fromMmio: bool)
    requires at <= |view|
    ensures Copied(view, buf, view, buf, at, 0, fromMmio)
  {}

  /** The part of a copy up to the next word boundary, or up to the end of the block. */
  method CopyPortion(region: Region, offset: nat, n: nat, buf: array<byte>, pos: nat, len: nat, fromMmio: bool)
    requires offset + len <= 4 * region.words.Length && pos + len <= buf.Length
    requires 0 < len && n == Portion(offset, len)
    requires buf as object != region.words
    modifies region`trace, region.words, buf
    ensures region.trace == old(region.trace) + WordAccesses(offset - offset % 4, n == 4, fromMmio)
    ensures region.View() ==
      if fromMmio then old(region.View()) else Patch(old(region.View()), offset, old(buf[pos..pos + n]))
    ensures buf[..] ==
      if fromMmio then Patch(old(buf[..]), pos, old(region.View())[offset..offset + n]) else old(buf[..])
  {
    hide Region.View, Patch, WordAccesses;
    PortionBounds(offset, len);
    hide Portion;
    CopyWord(region, offset - offset % 4, offset % 4, n, buf, pos, fromMmio);
  }

  /** A copy, with the state it started in. */
  datatype Job = Job(offset: nat, len: nat, fromMmio: bool, view: seq<byte>, buf: seq<byte>, trace: seq<Access>)

  /** The state when `n` bytes of the job are done: they are copied, and their accesses are made. */
  ghost predicate Done(job: Job, n: nat, view: seq<byte>, buf: seq<byte>, trace: seq<Access>)
    requires job.offset + job.len <= |job.view| && n <= job.len <= |job.buf|
  {
    && Copied(view, buf, job.view, job.buf, job.offset, n, job.fromMmio)
    && trace + CopyTrace(job.offset + n, job.len - n, job.fromMmio)
       == job.trace + CopyTrace(job.offset, job.len, job.fromMmio)
  }

  /** The next portion of a job. */
  method CopyNext(region: Region, offset: nat, n: nat, buf: array<byte>, pos: nat, len: nat, fromMmio: bool, ghost job: Job)
    requires offset + len <= 4 * region.words.Length && pos + len <= buf.Length
    requires 0 < len && n == Portion(offset, len)
    requires buf as object != region.words
    requires |job.view| == 4 * region.words.Length && |job.buf| == buf.Length && job.fromMmio == fromMmio
    requires job.offset + pos == offset && job.len == pos + len
    requires Done(job, pos, region.View(), buf[..], region.trace)
    modifies region`trace, region.words, buf
    ensures n <= len && Done(job, pos + n, region.View(), buf[..], region.trace)
  {
    hide Region.View, Copied, CopyTrace, WordAccesses, Patch;
    PortionBounds(offset, len);
    ghost var view, bytes := region.View(), buf[..];
    TraceStep(region.trace, offset, len, fromMmio);
    hide Portion;
    CopyPortion(region, offset, n, buf, pos, len, fromMmio);
    CopiedMore(view, bytes, region.View(), buf[..], job.view, job.buf, job.offset, pos, n, fromMmio);
  }

  /** `mmio_region_memcpy32` */
  method Memcpy32(region: Region, offset0: nat, buf: array<byte>, len0: nat, fromMmio: bool)
    requires offset0 + len0 <= 4 * region.words.Length <= TWO_32 && len0 <= buf.Length
    requires buf as object != region.words
    modifies region`trace, region.words, buf
    ensures region.trace == old(region.trace) + CopyTrace(offset0, len0, fromMmio)
    ensures Copied(region.View(), buf[..], old(region.View()), old(buf[..]), offset0, len0, fromMmio)
  {
    hide Region.View, Copied, CopyTrace, WordAccesses, Patch;
    var offset: nat, pos: nat, len: nat := offset0, 0, len0;
    ghost var job := Job(offset0, len0, fromMmio, region.View(), buf[..], region.trace);
    CopiedNothing(job.view, job.buf, offset0, fromMmio);
    EmptyTrace(offset0 + len0, fromMmio);
    if len == 0 { return; }
    // up to the first word boundary
    var misalignment := offset % 4;
    if misalignment != 0 {
      var realignment := 4 - misalignment;
      // a short block ends before the boundary
      if realignment > len { realignment := len; }
      CopyNext(region, offset, realignment, buf, pos, len, fromMmio, job);
      offset, pos, len := offset + realignment, pos + realignment, len - realignment;
    }
    while len > 0
      invariant pos + len == len0 && offset == offset0 + pos && (len > 0 ==> offset % 4 == 0)
      invariant Done(job, pos, region.View(), buf[..], region.trace)
    {
      // the last word may be partial
      var bytes_to_copy := 4;
      if bytes_to_copy > len { bytes_to_copy := len; }
      CopyNext(region, offset, bytes_to_copy, buf, pos, len, fromMmio, job);
      offset, pos, len := offset + bytes_to_copy, pos + bytes_to_copy, len - bytes_to_copy;
    }
  }

  method MemcpyFromMmio32(region: Region, offset: nat, dest: array<byte>, len: nat)
    requires offset + len <= 4 * region.words.Length <= TWO_32 && len <= dest.Length
    requires dest as object != region.words
    modifies region`trace, region.words, dest
    ensures region.trace == old(region.trace) + CopyTrace(offset, len, true)
    ensures region.View() == old(region.View()) && region.words[..] == old(region.words[..])
    ensures dest[..len] == region.View()[offset..offset + len] && dest[len..] == old(dest[len..])
  {
    ghost var words := region.words[..];
    Memcpy32(region, offset, dest, len, true);
    Bytes32Exact(region.words[..], words);
  }

  method MemcpyToMmio32(region: Region, offset: nat, src: array<byte>, len: nat)
    requires offset + len <= 4 * region.words.Length <= TWO_32 && len <= src.Length
    requires src as object != region.words
    modifies region`trace, region.words, src
    ensures region.trace == old(region.trace) + CopyTrace(offset, len, false)
    ensures src[..] == old(src[..])
    ensures region.View() == old(region.View())[..offset] + src[..len] + old(region.View())[offset + len..]
  {
    Memcpy32(region, offset, src, len, false);
  }

  /** A copy to the device followed by a copy back from the same place returns the same bytes. */
  method RoundTrip(region: Region, offset: nat, src: array<byte>, dest: array<byte>, len: nat)
    requires offset + len <= 4 * region.words.Length <= TWO_32 && len <= src.Length && len <= dest.Length
    requires src as object != region.words && dest as object != region.words && src != dest
    modifies region`trace, region.words, src, dest
    ensures dest[..len] == src[..len] == old(src[..len])
  {
    MemcpyToMmio32(region, offset, src, len);
    MemcpyFromMmio32(region, offset, dest, len);
  }

  // ---------- the access trace

  /** Whether the copied range covers the whole `i`-th word. */
  predicate Covers(offset: nat, len: nat, i: nat) { offset <= 4 * i && 4 * i + 4 <= offset + len }

  /** The accesses to words `start`, ..., `end - 1`, in this order, once per word. */
  function Sweep(start: nat, end: nat, offset: nat, len: nat, fromMmio: bool): seq<Access>
    requires start <= end
    decreases end - start
  {
    if start == end then []
    else WordAccesses(4 * start, Covers(offset, len, start), fromMmio) + Sweep(start + 1, end, offset, len, fromMmio)
  }

  /** One past the last word of a range. */
  function EndWord(offset: nat, len: nat): nat { (offset + len + 3) / 4 }

  lemma {:induction false} SweepFrame(start: nat, end: nat, o1: nat, l1: nat, o2: nat, l2: nat, fromMmio: bool)
    requires start <= end && o1 + l1 == o2 + l2 && o1 <= o2 <= 4 * start
    ensures Sweep(start, end, o1, l1, fromMmio) == Sweep(start, end, o2, l2, fromMmio)
    decreases end - start
  {
    if start != end {
      SweepFrame(start + 1, end, o1, l1, o2, l2, fromMmio);
    }
  }

  /** A copy visits exactly the words that overlap the range, in ascending order, each once. */
  lemma {:induction false} TraceIsSweep(offset: nat, len: nat, fromMmio: bool)
    requires 0 < len
    ensures offset / 4 < EndWord(offset, len) == offset / 4 + (offset % 4 + len + 3) / 4
    ensures CopyTrace(offset, len, fromMmio) == Sweep(offset / 4, EndWord(offset, len), offset, len, fromMmio)
    decreases len
  {
    hide WordAccesses;
    var n := Portion(offset, len);
    var i: nat := offset / 4;
    assert offset - offset % 4 == 4 * i;
    assert n == 4 <==> Covers(offset, len, i);
    if n < len {
      TraceIsSweep(offset + n, len - n, fromMmio);
      assert (offset + n) / 4 == i + 1;
      SweepFrame(i + 1, EndWord(offset, len), offset, len, offset + n, len - n, fromMmio);
    } else {
      assert EndWord(offset, len) == i + 1;
    }
  }

  function Reads(trace: seq<Access>): nat {
    if trace == [] then 0 else Reads(trace[1..]) + (if trace[0].Read? then 1 else 0)
  }

  lemma {:induction false} ReadsSum(s: seq<Access>, t: seq<Access>)
    ensures Reads(s + t) == Reads(s) + Reads(t)
  {
    if s == [] {
      assert s + t == t;
    } else {
      assert (s + t)[1..] == s[1..] + t;
      ReadsSum(s[1..], t);
    }
  }

  lemma {:induction false} SweepReads(start: nat, end: nat, offset: nat, len: nat)
    requires start <= end
    ensures Reads(Sweep(start, end, offset, len, true)) == end - start
    decreases end - start
  {
    if start != end {
      SweepReads(start + 1, end, offset, len);
      ReadsSum([Read(4 * start)], Sweep(start + 1, end, offset, len, true));
    }
  }

  /** Copying out reads every overlapping word once: at most `len / 4 + 2` reads. */
  lemma ReadsFromMmio(offset: nat, len: nat)
    requires 0 < len
    ensures Reads(CopyTrace(offset, len, true)) == (offset % 4 + len + 3) / 4 <= len / 4 + 2
  {
    TraceIsSweep(offset, len, true);
    SweepReads(offset / 4, EndWord(offset, len), offset, len);
  }

  lemma {:induction false} CoveredReads(start: nat, end: nat, offset: nat, len: nat)
    requires start <= end && offset <= 4 * start
    ensures Reads(Sweep(start, end, offset, len, false))
         == (if 4 * end <= offset + len || start == end then 0 else end - Max(start, (offset + len) / 4))
    decreases end - start
  {
    if start != end {
      CoveredReads(start + 1, end, offset, len);
      ReadsSum(WordAccesses(4 * start, Covers(offset, len, start), false), Sweep(start + 1, end, offset, len, false));
      assert Reads([Write(4 * start)]) == 0;
      assert [Read(4 * start), Write(4 * start)][1..] == [Write(4 * start)];
    }
  }

  /** Copying in reads only the partial words at the two ends. */
  lemma ReadsToMmio(offset: nat, len: nat)
    requires 0 < len
    ensures Reads(CopyTrace(offset, len, false))
         == (if Covers(offset, len, offset / 4) then 0 else 1)
          + (if (offset + len) % 4 == 0 || (offset + len) / 4 == offset / 4 then 0 else 1)
    ensures Reads(CopyTrace(offset, len, false)) <= 2
  {
    var i, end := offset / 4, EndWord(offset, len);
    TraceIsSweep(offset, len, false);
    var first := WordAccesses(4 * i, Covers(offset, len, i), false);
    ReadsSum(first, Sweep(i + 1, end, offset, len, false));
    assert Reads([Write(4 * i)]) == 0;
    assert [Read(4 * i), Write(4 * i)][1..] == [Write(4 * i)];
    CoveredReads(i + 1, end, offset, len);
  }

  lemma CountsAdd(s: seq<Access>, t: seq<Access>)
    ensures Reads(s + t) == Reads(s) + Reads(t) && |s + t| == |s| + |t|
  {
    ReadsSum(s, t);
  }

  lemma {:induction false} SweepWrites(start: nat, end: nat, offset: nat, len: nat, fromMmio: bool)
    requires start <= end
    ensures var t := Sweep(start, end, offset, len, fromMmio); |t| - Reads(t) == if fromMmio then 0 else end - start
    decreases end - start
  {
    if start != end {
      SweepWrites(start + 1, end, offset, len, fromMmio);
      var word := WordAccesses(4 * start, Covers(offset, len, start), fromMmio);
      CountsAdd(word, Sweep(start + 1, end, offset, len, fromMmio));
      assert [Read(4 * start), Write(4 * start)][1..] == [Write(4 * start)] && Reads([Write(4 * start)]) == 0;
      assert |word| - Reads(word) == if fromMmio then 0 else 1;
    }
  }

  /** Copying out writes nothing, and copying in writes every overlapping word once. */
  lemma WritesOf(offset: nat, len: nat, fromMmio: bool)
    requires 0 < len
    ensures var t := CopyTrace(offset, len, fromMmio);
      |t| - Reads(t) == if fromMmio then 0 else (offset % 4 + len + 3) / 4
  {
    TraceIsSweep(offset, len, fromMmio);
    hide Sweep, CopyTrace, Reads;
    SweepWrites(offset / 4, EndWord(offset, len), offset, len, fromMmio);
  }

  /** Aligned accesses in `[lo, hi)` in ascending order, where only a read and the write behind it share an offset. */
  predicate InOrder(t: seq<Access>, lo: nat, hi: nat) {
    && (forall k :: 0 <= k < |t| ==> t[k].offset % 4 == 0 && lo <= t[k].offset < hi)
    && (forall j, k :: 0 <= j < k < |t| ==>
          t[j].offset < t[k].offset || (t[j].offset == t[k].offset && t[j].Read? && t[k].Write?))
  }

  lemma InOrderJoin(s: seq<Access>, t: seq<Access>, lo: nat, mid: nat, hi: nat)
    requires lo <= mid <= hi && InOrder(s, lo, mid) && InOrder(t, mid, hi)
    ensures InOrder(s + t, lo, hi)
  {}

  lemma {:induction false} SweepOrder(start: nat, end: nat, offset: nat, len: nat, fromMmio: bool)
    requires start <= end
    ensures InOrder(Sweep(start, end, offset, len, fromMmio), 4 * start, 4 * end)
    decreases end - start
  {
    if start != end {
      SweepOrder(start + 1, end, offset, len, fromMmio);
      var word := WordAccesses(4 * start, Covers(offset, len, start), fromMmio);
      assert InOrder(word, 4 * start, 4 * (start + 1));
      InOrderJoin(word, Sweep(start + 1, end, offset, len, fromMmio), 4 * start, 4 * (start + 1), 4 * end);
    }
  }

  lemma {:induction false} SweepReaches(start: nat, end: nat, offset: nat, len: nat, fromMmio: bool, i: nat)
    requires start <= i < end
    ensures (if fromMmio then Read(4 * i) else Write(4 * i)) in Sweep(start, end, offset, len, fromMmio)
    decreases end - start
  {
    if start != i {
      SweepReaches(start + 1, end, offset, len, fromMmio, i);
    }
  }

  /**
   Every access is to an aligned word that overlaps the range; offsets ascend, and the only
   offset that occurs twice is that of a read followed by a write; every overlapping word is reached.
   */
  lemma TraceOrder(offset: nat, len: nat, fromMmio: bool)
    requires 0 < len
    ensures var t := CopyTrace(offset, len, fromMmio);
      && InOrder(t, offset / 4 * 4, EndWord(offset, len) * 4)
      && (forall b :: offset <= b < offset + len ==>
            (if fromMmio then Read(b / 4 * 4) else Write(b / 4 * 4)) in t)
  {
    TraceIsSweep(offset, len, fromMmio);
    hide CopyTrace, InOrder;
    SweepOrder(offset / 4, EndWord(offset, len), offset, len, fromMmio);
    forall b | offset <= b < offset + len
      ensures (if fromMmio then Read(b / 4 * 4) else Write(b / 4 * 4)) in CopyTrace(offset, len, fromMmio)
    {
      SweepReaches(offset / 4, EndWord(offset, len), offset, len, fromMmio, b / 4);
    }
  }
}
