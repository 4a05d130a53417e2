/**
 * The index of the database image: 12-byte blocks (start address, end address, packed
 * pointer) from `firstIndexPtr` on, and the binary search of `MemorySearch` over them.
 */
module Index {
  import opened Bytes

  /** The size of one index block in bytes (main.go:16). */
  const IndexBlockLength: int := 12

  /**
   * How the search loop ends: it matched `block` and read its packed pointer `ptr`, it ran
   * out of range (`l > h`), or reading `block` went past the end of the image (a Go panic).
   */
  datatype Probe = Hit(block: int, ptr: int) | Miss | OutOfImage(block: int)

  /** The byte offset of index block `k`: `firstIndexPtr + k*indexBlockLength`. */
  function BlockOffset(first: int, k: int): int
  {
    first + IndexBlockLength * k
  }

  /** All 12 bytes of block `k` lie inside the image. */
  predicate BlockReadable(img: seq<byte>, first: int, k: int)
  {
    0 <= BlockOffset(first, k) && BlockOffset(first, k) + IndexBlockLength <= |img|
  }

  function StartIP(img: seq<byte>, first: int, k: int): int
    requires BlockReadable(img, first, k)
  {
    GetLong(img, BlockOffset(first, k))
  }

  function EndIP(img: seq<byte>, first: int, k: int): int
    requires BlockReadable(img, first, k)
  {
    GetLong(img, BlockOffset(first, k) + 4)
  }

  function BlockPointer(img: seq<byte>, first: int, k: int): int
    requires BlockReadable(img, first, k)
  {
    GetLong(img, BlockOffset(first, k) + 8)
  }

  /** Block `k` is readable and its range `[startIP, endIP]` holds `ip`. */
  predicate Covers(img: seq<byte>, first: int, k: int, ip: int)
  {
    BlockReadable(img, first, k) && StartIP(img, first, k) <= ip <= EndIP(img, first, k)
  }

  /**
   * A well-formed index of `total` blocks: every block lies in the image, and the ranges are
   * non-empty, ascending and pairwise disjoint.
   */
  predicate SortedIndex(img: seq<byte>, first: int, total: int)
  {
    (forall k :: 0 <= k < total ==>
       BlockReadable(img, first, k) && StartIP(img, first, k) <= EndIP(img, first, k)) &&
    (forall j, k :: 0 <= j < k < total ==>
       BlockReadable(img, first, j) && BlockReadable(img, first, k) &&
       EndIP(img, first, j) < StartIP(img, first, k))
  }

  /**
   * The search loop of `MemorySearch` from bounds `l`, `h`: while `l <= h`, probe the middle
   * block and continue below or above it, or stop.
   */
  function Search(img: seq<byte>, first: int, ip: int, l: int, h: int): Probe
    decreases h - l + 1, 1
  {
    if l > h then Miss else ProbeMiddle(img, first, ip, l, h)
  }

  /**
   * One round of the loop with `l <= h`, at block `m = (l+h)>>1` (the floor of the half, which
   * Dafny's `/ 2` also is): go below it when `ip < startIP`, above it when `ip > endIP`, and
   * stop at it otherwise, reading its pointer. Each `getLong` is guarded as Go's bounds check
   * guards it; a failed check ends the search with `OutOfImage(m)`.
   */
  function ProbeMiddle(img: seq<byte>, first: int, ip: int, l: int, h: int): Probe
    requires l <= h
    decreases h - l + 1, 0
  {
    var m := (l + h) / 2;
    var p := BlockOffset(first, m);
    if !CanReadLong(img, p) then OutOfImage(m)
    else if ip < GetLong(img, p) then Search(img, first, ip, l, m - 1)
    else if !CanReadLong(img, p + 4) then OutOfImage(m)
    else if ip > GetLong(img, p + 4) then Search(img, first, ip, m + 1, h)
    else if !CanReadLong(img, p + 8) then OutOfImage(m)
    else Hit(m, GetLong(img, p + 8))
  }

  /** A hit is a block inside the image that covers the address, with its own pointer. */
  lemma {:induction false} SearchHitCovers(img: seq<byte>, first: int, ip: int, l: int, h: int)
    requires Search(img, first, ip, l, h).Hit?
    ensures var r := Search(img, first, ip, l, h);
      Covers(img, first, r.block, ip) && r.ptr == BlockPointer(img, first, r.block)
    decreases h - l + 1
  {
    var m := (l + h) / 2;
    var p := BlockOffset(first, m);
    if ip < GetLong(img, p) {
      SearchHitCovers(img, first, ip, l, m - 1);
    } else if ip > GetLong(img, p + 4) {
      SearchHitCovers(img, first, ip, m + 1, h);
    }
  }

  /**
   * In a sorted index, the search from any bounds around a covering block `k` (with `h` at
   * most the block count, as the source starts it) stops at `k`.
   */
  lemma {:induction false} SearchFindsCoveringBlock(img: seq<byte>, first: int, total: int, ip: int, k: int, l: int, h: int)
    requires SortedIndex(img, first, total)
    requires 0 <= k < total && Covers(img, first, k, ip)
    requires 0 <= l <= k <= h <= total
    ensures Search(img, first, ip, l, h) == Hit(k, BlockPointer(img, first, k))
    decreases h - l + 1
  {
    var m := (l + h) / 2;
    assert m < total;
    assert BlockReadable(img, first, m);
    if m < k {
      assert EndIP(img, first, m) < StartIP(img, first, k);
      SearchFindsCoveringBlock(img, first, total, ip, k, m + 1, h);
    } else if m > k {
      assert EndIP(img, first, k) < StartIP(img, first, m);
      SearchFindsCoveringBlock(img, first, total, ip, k, l, m - 1);
    }
  }

  /** In a sorted index, an address below the first block's start is not found. */
  lemma {:induction false} SearchBelowFirst(img: seq<byte>, first: int, total: int, ip: int, h: int)
    requires SortedIndex(img, first, total) && total >= 1
    requires ip < StartIP(img, first, 0)
    requires h <= total
    ensures Search(img, first, ip, 0, h) == Miss
    decreases h + 1
  {
    if 0 <= h {
      var m := h / 2;
      assert m < total;
      if m > 0 {
        assert EndIP(img, first, 0) < StartIP(img, first, m);
      }
      SearchBelowFirst(img, first, total, ip, m - 1);
    }
  }

  /**
   * In a sorted index, an address that no block covers is not matched to any real block, and
   * no real block is read out of bounds: the result is a miss, or it concerns block `total`,
   * the one past the last, which the search probes when the address lies above every block.
   */
  lemma {:induction false} SearchUncovered(img: seq<byte>, first: int, total: int, ip: int, l: int, h: int)
    requires SortedIndex(img, first, total)
    requires forall k :: 0 <= k < total ==> !Covers(img, first, k, ip)
    requires 0 <= l && h <= total
    ensures var r := Search(img, first, ip, l, h);
      r.Miss? || r.block == total
    decreases h - l + 1
  {
    if l <= h {
      var m := (l + h) / 2;
      var p := BlockOffset(first, m);
      if m == total {
        assert l == total && h == total;
        assert Search(img, first, ip, total, total - 1) == Miss;
        assert Search(img, first, ip, total + 1, total) == Miss;
      } else {
        assert BlockReadable(img, first, m) && !Covers(img, first, m, ip);
        if ip < GetLong(img, p) {
          SearchUncovered(img, first, total, ip, l, m - 1);
        } else {
          SearchUncovered(img, first, total, ip, m + 1, h);
        }
      }
    }
  }

  /**
   * Every block the search from `l`, `h` stops at lies in `[l, h]`; with `h` at most `total`,
   * block `total` is reached only by the probe with `l == h == total`, so a search that
   * ends there is the search from those bounds.
   */
  lemma {:induction false} SearchBlockInRange(img: seq<byte>, first: int, total: int, ip: int, l: int, h: int)
    requires 0 <= l && h <= total
    ensures var r := Search(img, first, ip, l, h);
      !r.Miss? ==> l <= r.block <= h && (r.block == total ==> r == Search(img, first, ip, total, total))
    decreases h - l + 1
  {
    if l <= h {
      var m := (l + h) / 2;
      var p := BlockOffset(first, m);
      if m == total {
        assert l == total && h == total;
        assert Search(img, first, ip, total, total - 1) == Miss;
        assert Search(img, first, ip, total + 1, total) == Miss;
      } else if CanReadLong(img, p) && ip < GetLong(img, p) {
        SearchBlockInRange(img, first, total, ip, l, m - 1);
      } else if CanReadLong(img, p) && CanReadLong(img, p + 4) && ip > GetLong(img, p + 4) {
        SearchBlockInRange(img, first, total, ip, m + 1, h);
      }
    }
  }

  /**
   * The loop of `MemorySearch` (lines 84-102) with `l = 0` and `h = totalBlocks`. The block it
   * stops at lies in `[0, total]`, and it stops at block `total`, one past the last, only as the
   * search from `l == h == total` does.
   */
  method FindBlock(img: seq<byte>, first: int, total: int, ip: int) returns (probe: Probe)
    ensures probe == Search(img, first, ip, 0, total)
    ensures probe.Hit? ==> Covers(img, first, probe.block, ip) && probe.ptr == BlockPointer(img, first, probe.block)
    ensures !probe.Miss? ==> 0 <= probe.block <= total
    ensures !probe.Miss? && probe.block == total ==> probe == Search(img, first, ip, total, total)
  {
    var l, h := 0, total;
    probe := Miss;
    while l <= h
      invariant 0 <= l && h <= total
      invariant Search(img, first, ip, l, h) == Search(img, first, ip, 0, total)
      invariant probe == Miss
      decreases h - l
    {
      var m := (l + h) / 2;
      assert 0 <= m <= total && (m == total ==> l == h == total);
      var p := BlockOffset(first, m);
      if !CanReadLong(img, p) {
        probe := OutOfImage(m);
        break;
      }
      var sip := GetLong(img, p);
      if ip < sip {
        h := m - 1;
      } else {
        if !CanReadLong(img, p + 4) {
          probe := OutOfImage(m);
          break;
        }
        var eip := GetLong(img, p + 4);
        if ip > eip {
          l := m + 1;
        } else {
          if !CanReadLong(img, p + 8) {
            probe := OutOfImage(m);
            break;
          }
          probe := Hit(m, GetLong(img, p + 8));
          break;
        }
      }
    }
    if probe.Hit? {
      SearchHitCovers(img, first, ip, 0, total);
    }
    if 0 <= total {
      SearchBlockInRange(img, first, total, ip, 0, total);
    }
  }
}
