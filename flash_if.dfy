/**
 * The flash programming layer: the address-to-sector map, the erase of a
 * byte range (rounded out to whole sectors) and the word-by-word program
 * loop. The flash controller is a `Flash` object: the 32-bit address
 * space as one byte array, the controller's lock bit, and the two HAL
 * calls (sector erase, word program) as methods whose success or failure
 * is given by the caller.
 */
module FlashIf {
  import opened BootProto
  import opened Wrappers

  /** First and last byte of the on-chip flash (the HAL's FLASH_BASE, FLASH_END). */
  const FLASH_BASE: u32 := 0x0800_0000
  const FLASH_END: u32 := 0x081F_FFFF

  /** Erased NOR flash reads as all ones. */
  const ERASED: u8 := 0xFF

  /** `a - b` on uint32_t. */
  function Sub32(a: u32, b: u32): (r: u32)
    ensures r as int == if a >= b then a - b else a - b + TWO_32
  {
    (a - b) % TWO_32
  }

  /**
   * The sector map as a table: sector k spans [SECTOR_START[k], SECTOR_START[k + 1]).
   * Bank 1 holds sectors 0..7, bank 2 sectors 8..15.
   */
  const SECTOR_START: seq<u32> :=
    [0x0800_0000, 0x0800_8000, 0x0801_0000, 0x0801_8000,
     0x0802_0000, 0x0804_0000, 0x0808_0000, 0x080C_0000,
     0x0810_0000, 0x0810_8000, 0x0811_0000, 0x0811_8000,
     0x0812_0000, 0x0814_0000, 0x0818_0000, 0x081C_0000,
     0x0820_0000]

  /** flash_get_sector: the comparison chain, bank 1 first. */
  function Sector(address: u32): (k: nat)
    ensures k < 16
  {
    if address < 0x0810_0000 then
      if address < 0x0800_8000 then 0
      else if address < 0x0801_0000 then 1
      else if address < 0x0801_8000 then 2
      else if address < 0x0802_0000 then 3
      else if address < 0x0804_0000 then 4
      else if address < 0x0808_0000 then 5
      else if address < 0x080C_0000 then 6
      else 7
    else
      if address < 0x0810_8000 then 8
      else if address < 0x0811_0000 then 9
      else if address < 0x0811_8000 then 10
      else if address < 0x0812_0000 then 11
      else if address < 0x0814_0000 then 12
      else if address < 0x0818_0000 then 13
      else if address < 0x081C_0000 then 14
      else 15
  }

  /** A higher address never maps to a lower sector. */
  lemma SectorMonotone(a: u32, b: u32)
    requires a <= b
    ensures Sector(a) <= Sector(b)
  {
  }

  /** Inside the flash, the comparison chain and the table agree, in both directions. */
  lemma SectorMatchesTable(a: u32, k: nat)
    requires FLASH_BASE <= a <= FLASH_END && k < 16
    ensures Sector(a) == k <==> SECTOR_START[k] <= a < SECTOR_START[k + 1]
  {
  }

  /** The table is strictly increasing and covers exactly [FLASH_BASE, FLASH_END]. */
  lemma SectorTableTiles()
    ensures |SECTOR_START| == 17
    ensures SECTOR_START[0] == FLASH_BASE && SECTOR_START[16] == FLASH_END + 1
    ensures forall k :: 0 <= k < 16 ==> SECTOR_START[k] < SECTOR_START[k + 1]
  {
  }

  /** `start_addr + length - 1U`, evaluated left to right on uint32_t. */
  function EndAddr(start: u32, length: u32): (e: u32)
    ensures 0 < length && start + length <= TWO_32 ==> e == start + length - 1
  {
    Sub32(Add32(start, length), 1)
  }

  /** The checks flash_erase_range makes before touching the controller: 0, -2 or -3. */
  function EraseCheck(start: u32, length: u32): (r: int)
    ensures r in {0, -2, -3}
    ensures r == -2 <==> length == 0
    ensures r == -3 <==> length != 0 && (start < FLASH_BASE || EndAddr(start, length) > FLASH_END)
  {
    if length == 0 then -2
    else if start < FLASH_BASE || EndAddr(start, length) > FLASH_END then -3
    else 0
  }

  /** erase.NbSectors = (last - first) + 1U, on uint32_t. */
  function SectorCount(start: u32, length: u32): (n: u32)
    ensures Sector(start) <= Sector(EndAddr(start, length)) ==>
              n == Sector(EndAddr(start, length)) - Sector(start) + 1
  {
    Add32(Sub32(Sector(EndAddr(start, length)), Sector(start)), 1)
  }

  /** A flash byte whose sector lies in [lo, hi). */
  predicate InSectors(a: int, lo: int, hi: int)
  {
    FLASH_BASE <= a <= FLASH_END && lo <= Sector(a) < hi
  }

  /** The sector at which a HAL erase of `nb` sectors from `first` stops. */
  function EraseStop(first: nat, nb: nat, failAt: Option<nat>): (stop: nat)
    ensures first <= stop <= first + nb
  {
    if failAt.Some? && first <= failAt.value < first + nb then failAt.value else first + nb
  }

  /** The byte offset from `base` to `a`, going up the 32-bit address space. */
  function Offset(a: u32, base: u32): (k: u32)
    ensures Add32(base, k) == a
  {
    Sub32(a, base)
  }

  /** Walking `k` bytes up from `base` and measuring back gives `k`. */
  lemma OffsetOfAdd(base: u32, k: u32)
    ensures Offset(Add32(base, k), base) == k
  {
  }

  /**
   * `after` is `before` with the first `count` bytes of `src` stored at
   * `dst`, `dst + 1`, ... (addresses taken modulo 2^32), and nothing else changed.
   */
  ghost predicate Programmed(before: seq<u8>, after: seq<u8>, dst: u32, src: seq<u8>, count: nat)
    requires count <= |src|
  {
    |before| == |after| == TWO_32
    && forall a :: 0 <= a < TWO_32 ==>
         after[a] == if Offset(a, dst) < count then src[Offset(a, dst)] else before[a]
  }

  /** `after` is `before` with every flash byte of the sectors in [lo, hi) erased, and nothing else changed. */
  ghost predicate ErasedSectors(before: seq<u8>, after: seq<u8>, lo: int, hi: int)
  {
    |before| == |after| == TWO_32
    && forall a :: 0 <= a < TWO_32 ==> after[a] == if InSectors(a, lo, hi) then ERASED else before[a]
  }

  /** The `n` bytes a pointer reads from `base` upward, the address wrapping at 2^32. */
  function Window(m: seq<u8>, base: u32, n: nat): (r: seq<u8>)
    requires |m| == TWO_32 && n <= TWO_32
    ensures |r| == n
  {
    seq(n, k requires 0 <= k < n => m[Add32(base, k)])
  }

  /** The word flash_write programs at byte i: src[i] | src[i+1] << 8 | src[i+2] << 16 | src[i+3] << 24. */
  function Word(src: seq<u8>, i: nat): u32
    requires i + 4 <= |src|
  {
    src[i] as int + src[i + 1] as int * 0x100 + src[i + 2] as int * 0x1_0000 + src[i + 3] as int * 0x100_0000
  }

  /** The word's little-endian bytes are the four source bytes it was built from. */
  lemma WordBytes(src: seq<u8>, i: nat)
    requires i + 4 <= |src|
    ensures LeBytes(Word(src, i), 4) == src[i..i + 4]
  {
    var s := src[i..i + 4];
    var b0: int, b1: int, b2: int, b3: int := src[i], src[i + 1], src[i + 2], src[i + 3];
    assert s[3..][1..] == [] && s[2..][1..] == s[3..] && s[1..][1..] == s[2..];
    assert LeValue(s[3..]) == b3;
    assert LeValue(s[2..]) == b2 + 256 * b3;
    assert LeValue(s[1..]) == b1 + 256 * (b2 + 256 * b3);
    assert LeValue(s) == b0 + 256 * (b1 + 256 * (b2 + 256 * b3));
    LeBytesOfValue(s);
  }

  /** Number of words flash_write programs: none when misaligned, up to the failing one otherwise. */
  function WordsWritten(dst: u32, len: u32, failAt: Option<nat>): (n: nat)
    ensures n <= len / 4
  {
    if dst % 4 != 0 || len % 4 != 0 then 0
    else if failAt.Some? && failAt.value < len / 4 then failAt.value
    else len / 4
  }

  /** flash_write's return value: -2 misaligned, -1 a word failed to program, 0 done. */
  function WriteResult(dst: u32, len: u32, failAt: Option<nat>): (r: int)
    ensures r in {0, -1, -2}
    ensures r == -2 <==> dst % 4 != 0 || len % 4 != 0
    ensures r == -1 <==> dst % 4 == 0 && len % 4 == 0 && failAt.Some? && failAt.value < len / 4
  {
    if dst % 4 != 0 || len % 4 != 0 then -2
    else if failAt.Some? && failAt.value < len / 4 then -1
    else 0
  }

  /** On success every word is written; on failure exactly the words before the failing one. */
  lemma WriteOutcome(dst: u32, len: u32, failAt: Option<nat>)
    ensures WriteResult(dst, len, failAt) == 0 ==> 4 * WordsWritten(dst, len, failAt) == len
    ensures WriteResult(dst, len, failAt) == -1 ==> WordsWritten(dst, len, failAt) == failAt.value
  {
  }

  class Flash {
    /** Every byte of the 32-bit address space. */
    const mem: array<u8>
    /** The controller's LOCK bit. */
    var locked: bool
    /** How many times the controller has been unlocked. */
    ghost var unlocks: nat

    ghost predicate Valid()
      reads this
    {
      mem.Length == TWO_32
    }

    /** The flash after reset: locked, with the given contents. */
    constructor (contents: seq<u8>)
      requires |contents| == TWO_32
      ensures Valid() && locked && unlocks == 0
      ensures fresh(mem) && mem[..] == contents
    {
      mem := new u8[TWO_32](a requires 0 <= a < TWO_32 => contents[a]);
      locked := true;
      unlocks := 0;
    }

    /** HAL_FLASH_Unlock. */
    method Unlock()
      modifies this
      ensures !locked && unlocks == old(unlocks) + 1
    {
      locked := false;
      unlocks := unlocks + 1;
    }

    /** HAL_FLASH_Lock. */
    method Lock()
      modifies this
      ensures locked && unlocks == old(unlocks)
    {
      locked := true;
    }

    /**
     * HAL_FLASHEx_Erase over sectors first .. first + nb - 1, in order;
     * `failAt` is the sector the hardware reports an error on, if any.
     * Sectors before it are erased and the loop stops there.
     */
    method HalErase(first: nat, nb: nat, failAt: Option<nat>) returns (ok: bool)
      requires Valid() && !locked
      modifies mem
      ensures ok == (EraseStop(first, nb, failAt) == first + nb)
      ensures ErasedSectors(old(mem[..]), mem[..], first, EraseStop(first, nb, failAt))
    {
      var stop := EraseStop(first, nb, failAt);
      forall a | 0 <= a < mem.Length && InSectors(a, first, stop) {
        mem[a] := ERASED;
      }
      ok := stop == first + nb;
    }

    /** HAL_FLASH_Program of one word at a word-aligned address; `fail` is the hardware's verdict. */
    method HalProgramWord(addr: u32, w: u32, fail: bool) returns (ok: bool)
      requires Valid() && !locked && addr % 4 == 0
      modifies mem
      ensures ok == !fail
      ensures forall a :: 0 <= a < TWO_32 ==>
                mem[a] == if ok && addr <= a < addr + 4 then LeBytes(w, 4)[a - addr] else old(mem[a])
    {
      ok := !fail;
      if ok {
        var b := LeBytes(w, 4);
        mem[addr], mem[addr + 1], mem[addr + 2], mem[addr + 3] := b[0], b[1], b[2], b[3];
      }
    }

    /**
     * flash_erase_range: reject an empty or out-of-flash range before
     * touching the controller, else erase the inclusive sector span of its
     * first and last byte and relock. `failAt` is the HAL's failing sector.
     */
    method EraseRange(start: u32, length: u32, failAt: Option<nat>) returns (r: int)
      requires Valid()
      modifies this, mem
      ensures Valid()
      ensures EraseCheck(start, length) != 0 ==> r == EraseCheck(start, length)
      ensures EraseCheck(start, length) != 0 ==>
                locked == old(locked) && unlocks == old(unlocks) && mem[..] == old(mem[..])
      ensures EraseCheck(start, length) == 0 ==>
                var first, nb := Sector(start), SectorCount(start, length);
                && locked && unlocks == old(unlocks) + 1
                && r == (if EraseStop(first, nb, failAt) == first + nb then 0 else -1)
                && ErasedSectors(old(mem[..]), mem[..], first, EraseStop(first, nb, failAt))
    {
      if length == 0 {
        return -2;
      }
      var endAddr := EndAddr(start, length);
      if start < FLASH_BASE || endAddr > FLASH_END {
        return -3;
      }
      var first := Sector(start);
      var last := Sector(endAddr);
      var nb := Add32(Sub32(last, first), 1);
      Unlock();
      var ok := HalErase(first, nb, failAt);
      Lock();
      r := if ok then 0 else -1;
    }

    /**
     * flash_write: reject a misaligned destination or length before
     * touching the controller, else program `len / 4` little-endian words
     * in ascending order, stopping at the first one the hardware rejects
     * (`failAt`, a word index), and relock on every path.
     */
    method Write(dst: u32, src: seq<u8>, len: u32, failAt: Option<nat>) returns (r: int)
      requires Valid() && len <= |src|
      modifies this, mem
      ensures Valid()
      ensures r == WriteResult(dst, len, failAt)
      ensures r == -2 ==> locked == old(locked) && unlocks == old(unlocks)
      ensures r != -2 ==> locked && unlocks == old(unlocks) + 1
      ensures Programmed(old(mem[..]), mem[..], dst, src, 4 * WordsWritten(dst, len, failAt))
    {
      if dst % 4 != 0 || len % 4 != 0 {
        r := -2;
        ProgrammedNothing(mem[..], dst, src);
        return;
      }
      Unlock();
      ghost var before := mem[..];
      ProgrammedNothing(before, dst, src);
      var i: int := 0;
      while i < len
        invariant 0 <= i <= len && i % 4 == 0
        invariant Valid() && !locked && unlocks == old(unlocks) + 1
        invariant failAt.None? || failAt.value >= i / 4
        invariant Programmed(before, mem[..], dst, src, i)
      {
        ghost var prev := mem[..];
        var addr := Add32(dst, i);
        var ok := HalProgramWord(addr, Word(src, i), failAt == Some(i / 4));
        if !ok {
          Lock();
          return -1;
        }
        WordBytes(src, i);
        ProgrammedStep(before, prev, mem[..], dst, src, i);
        i := i + 4;
      }
      Lock();
      r := 0;
    }
  }

  lemma ProgrammedNothing(m: seq<u8>, dst: u32, src: seq<u8>)
    requires |m| == TWO_32
    ensures Programmed(m, m, dst, src, 0)
  {
  }

  /** Programming the word at byte i extends the programmed prefix from i to i + 4 bytes. */
  lemma ProgrammedStep(before: seq<u8>, prev: seq<u8>, after: seq<u8>, dst: u32, src: seq<u8>, i: nat)
    requires dst % 4 == 0 && i % 4 == 0 && i + 4 <= |src| && i + 4 < TWO_32
    requires Programmed(before, prev, dst, src, i)
    requires |after| == TWO_32
    requires forall a :: 0 <= a < TWO_32 ==>
               after[a] == if Add32(dst, i) <= a < Add32(dst, i) + 4
                           then LeBytes(Word(src, i), 4)[a - Add32(dst, i)] else prev[a]
    requires LeBytes(Word(src, i), 4) == src[i..i + 4]
    ensures Programmed(before, after, dst, src, i + 4)
  {
    var addr := Add32(dst, i);
    forall a | 0 <= a < TWO_32
      ensures after[a] == if Offset(a, dst) < i + 4 then src[Offset(a, dst)] else before[a]
    {
      if addr <= a < addr + 4 {
        assert Offset(a, dst) == i + (a - addr);
      } else {
        assert !(i <= Offset(a, dst) < i + 4);
      }
    }
  }

  /** The -2 and -3 checks reject exactly the ranges the erase path would not handle. */
  lemma EraseChecksFirst(start: u32, length: u32)
    ensures EraseCheck(start, length) == 0 <==>
              length != 0 && FLASH_BASE <= start && EndAddr(start, length) <= FLASH_END
  {
  }

  /**
   * When the range does not wrap past 2^32, every byte of it lies in a
   * sector of the span flash_erase_range asks the HAL to erase, and that
   * span is exactly the sectors from the first byte's to the last byte's.
   */
  lemma EraseCovers(start: u32, length: u32, a: int)
    requires EraseCheck(start, length) == 0 && start + length <= TWO_32
    requires start <= a < start + length
    ensures InSectors(a, Sector(start), Sector(start) + SectorCount(start, length))
    ensures Sector(start) + SectorCount(start, length) == Sector(EndAddr(start, length)) + 1
  {
    SectorMonotone(start, EndAddr(start, length));
    SectorMonotone(start, a);
    SectorMonotone(a, EndAddr(start, length));
  }

  /**
   * An erase that starts at 0x08040000 and is at most 0xC0000 bytes long
   * passes both checks and asks for sectors within 5..7 only, so the
   * sectors 0..4 below 0x08040000 are never erased.
   */
  lemma ApplicationEraseSectors(length: u32)
    requires 0 < length <= 0xC_0000
    ensures EraseCheck(0x0804_0000, length) == 0
    ensures Sector(0x0804_0000) == 5
    ensures 5 + SectorCount(0x0804_0000, length) <= 8
    ensures forall a: u32 :: 5 <= Sector(a) < 5 + SectorCount(0x0804_0000, length) ==> 0x0804_0000 <= a < 0x0810_0000
  {
    SectorMonotone(EndAddr(0x0804_0000, length), 0x080F_FFFF);
  }

  /**
   * The end address is computed on uint32_t, so a length that wraps past
   * 2^32 can pass both checks with the last byte's sector below the
   * first's: (7 - 8) + 1 asks the HAL for zero sectors and the call reports
   * success with nothing erased.
   */
  lemma EraseWrapErasesNothing()
    ensures EraseCheck(0x0810_0000, 0xFFFF_FFF0) == 0
    ensures Sector(0x0810_0000) == 8 && Sector(EndAddr(0x0810_0000, 0xFFFF_FFF0)) == 7
    ensures SectorCount(0x0810_0000, 0xFFFF_FFF0) == 0
    ensures forall a: u32 :: !(8 <= Sector(a) < 8 + SectorCount(0x0810_0000, 0xFFFF_FFF0))
  {
  }
}
