/**
 * `IP2Region`: the database image loaded lazily on the first lookup, and `MemorySearch`, which
 * resolves an address text to its region record.
 */
module Region {
  import opened Bytes
  import opened Outcomes
  import opened Address
  import opened Record
  import opened Index
  import opened Text

  /**
   * Go's `/` on integers, which truncates toward zero (Dafny's `/` is Euclidean): the
   * remainder `a - q*d` takes the sign of the dividend and is smaller than the divisor.
   */
  function TruncDiv(a: int, d: int): (q: int)
    requires d > 0
    ensures var r := a - q * d; (a >= 0 ==> 0 <= r < d) && (a < 0 ==> -d < r <= 0)
  {
    if a >= 0 then a / d else -((-a) / d)
  }

  /**
   * The number of index blocks the header gives (main.go:76): the blocks from the first index
   * offset to the last, counted with Go's truncating division.
   */
  function BlockCount(first: int, last: int): int
  {
    TruncDiv(last - first, IndexBlockLength) + 1
  }

  /** The fields of `IP2Region` that lookups use: the image and the three header values. */
  datatype Db = Db(image: seq<byte>, first: int, last: int, total: int)

  /** The state of a fresh `IP2Region` (Go's zero values). */
  const Unloaded: Db := Db([], 0, 0, 0)

  /**
   * Lines 67-77 of `MemorySearch`: when `totalBlocks` is 0, the file is read into the image
   * and the header decoded; otherwise nothing changes. A file shorter than 8 bytes makes a
   * header `getLong` panic after the fields before it were assigned (see `LoadPanics`).
   */
  function LoadedDb(file: seq<byte>, db: Db): (r: Db)
  {
    if db.total != 0 then db
    else if |file| < 4 then db.(image := file)
    else if |file| < 8 then db.(image := file, first := GetLong(file, 0))
    else
      var first := GetLong(file, 0);
      var last := GetLong(file, 4);
      Db(file, first, last, BlockCount(first, last))
  }

  /** Whether the header load of `LoadedDb` panics. */
  predicate LoadPanics(file: seq<byte>, db: Db)
  {
    db.total == 0 && |file| < 8
  }

  /**
   * Lines 79-110 of `MemorySearch` on a loaded state: parse the address, search the index from
   * `l = 0`, `h = totalBlocks`, and decode the record of a non-zero pointer.
   */
  function Resolve(db: Db, ipStr: string): Result<IPInfo>
  {
    match ParseAddress(ipStr)
    case Failure(e) => Failure(e)
    case Success(ip) =>
      match Search(db.image, db.first, ip, 0, db.total)
      case OutOfImage(_) => Failure(RuntimePanic)
      case Miss => Failure(NotFound)
      case Hit(_, ptr) => if ptr == 0 then Failure(NotFound) else DecodeRecord(db.image, ptr)
  }

  /** `IP2Region`, without its file handle: the file's contents are passed to each lookup. */
  class IP2Region {
    var dbBinStr: seq<byte>
    var firstIndexPtr: int
    var lastIndexPtr: int
    var totalBlocks: int

    function State(): Db
      reads this
    {
      Db(dbBinStr, firstIndexPtr, lastIndexPtr, totalBlocks)
    }

    /** `New`: a handle with nothing loaded yet. */
    constructor ()
      ensures State() == Unloaded
    {
      dbBinStr, firstIndexPtr, lastIndexPtr, totalBlocks := [], 0, 0, 0;
    }

    /** Lines 67-77: the lazy load; `ok` is false where a header read panics. */
    method Load(file: seq<byte>) returns (ok: bool)
      modifies this
      ensures State() == LoadedDb(file, old(State()))
      ensures ok == !LoadPanics(file, old(State()))
    {
      if totalBlocks == 0 {
        dbBinStr := file;
        if |dbBinStr| < 4 {
          return false;
        }
        firstIndexPtr := GetLong(dbBinStr, 0);
        if |dbBinStr| < 8 {
          return false;
        }
        lastIndexPtr := GetLong(dbBinStr, 4);
        totalBlocks := TruncDiv(lastIndexPtr - firstIndexPtr, IndexBlockLength) + 1;
      }
      return true;
    }

    /**
     * `MemorySearch(ipStr)`, where `file` is what reading the database file would give. The
     * load happens before the address is parsed, so it happens for a malformed address too.
     */
    method MemorySearch(ipStr: string, file: seq<byte>) returns (r: Result<IPInfo>)
      modifies this
      ensures State() == LoadedDb(file, old(State()))
      ensures LoadPanics(file, old(State())) ==> r == Failure(RuntimePanic)
      ensures !LoadPanics(file, old(State())) ==> r == Resolve(State(), ipStr)
    {
      var ok := Load(file);
      if !ok {
        return Failure(RuntimePanic);
      }
      var parsed := Ip2Long(ipStr);
      if parsed.Failure? {
        return Failure(parsed.error);
      }
      var probe := FindBlock(dbBinStr, firstIndexPtr, totalBlocks, parsed.value);
      if probe.OutOfImage? {
        return Failure(RuntimePanic);
      }
      var dataPtr := if probe.Hit? then probe.ptr else 0;
      if dataPtr == 0 {
        return Failure(NotFound);
      }
      var dataLen := DataLength(dataPtr);
      dataPtr := DataOffset(dataPtr);
      if !CanReadLong(dbBinStr, dataPtr) {
        return Failure(RuntimePanic);
      }
      var cityID := GetLong(dbBinStr, dataPtr);
      if !(dataPtr + 4 <= dataPtr + dataLen <= |dbBinStr|) {
        return Failure(RuntimePanic);
      }
      var info := GetIPInfo(cityID, dbBinStr[dataPtr + 4..dataPtr + dataLen]);
      return Success(info);
    }
  }

  /**
   * Once a load has left `totalBlocks` non-zero, later calls neither read the file again nor
   * change the header, whatever the file then holds, and resolve every address the same way.
   */
  lemma LoadedOnce(file: seq<byte>, later: seq<byte>, db: Db, ipStr: string)
    requires LoadedDb(file, db).total != 0
    ensures !LoadPanics(later, LoadedDb(file, db))
    ensures LoadedDb(later, LoadedDb(file, db)) == LoadedDb(file, db)
    ensures Resolve(LoadedDb(later, LoadedDb(file, db)), ipStr) == Resolve(LoadedDb(file, db), ipStr)
  {
  }

  /**
   * A header whose last index pointer lies 12 to 23 bytes below the first gives a block count
   * of 0, so the next call reads the file again.
   */
  lemma ZeroBlockCountReloads(file: seq<byte>, later: seq<byte>)
    requires |file| >= 8
    requires -24 < GetLong(file, 4) - GetLong(file, 0) <= -12
    ensures LoadedDb(file, Unloaded).total == 0
    ensures LoadedDb(later, LoadedDb(file, Unloaded)).image == later
  {
  }

  /** A malformed address fails with a format error, whatever the database holds. */
  lemma ResolveMalformedAddress(db: Db, ipStr: string)
    requires Count(ipStr, '.') != 3
    ensures Resolve(db, ipStr) == Failure(AddressFormat)
  {
    FormatErrorIffNotThreeDots(ipStr);
  }

  /**
   * In a sorted index, an address that block `k` covers resolves to the record its pointer
   * designates (when that pointer is not 0).
   */
  lemma ResolveCoveredAddress(db: Db, ipStr: string, k: int)
    requires ParseAddress(ipStr).Success?
    requires SortedIndex(db.image, db.first, db.total)
    requires 0 <= k < db.total && Covers(db.image, db.first, k, ParseAddress(ipStr).value)
    requires BlockPointer(db.image, db.first, k) != 0
    ensures Resolve(db, ipStr) == DecodeRecord(db.image, BlockPointer(db.image, db.first, k))
  {
    SearchFindsCoveringBlock(db.image, db.first, db.total, ParseAddress(ipStr).value, k, 0, db.total);
  }

  /** In a sorted index, an address below the first block is not found. */
  lemma ResolveBelowFirstBlock(db: Db, ipStr: string)
    requires ParseAddress(ipStr).Success?
    requires SortedIndex(db.image, db.first, db.total) && db.total >= 1
    requires ParseAddress(ipStr).value < StartIP(db.image, db.first, 0)
    ensures Resolve(db, ipStr) == Failure(NotFound)
  {
    SearchBelowFirst(db.image, db.first, db.total, ParseAddress(ipStr).value, db.total);
  }

  /**
   * In a sorted index, an address no block covers resolves to no real block's record: the
   * lookup fails, or what it returns comes from the 12 bytes after the last index block.
   */
  lemma ResolveUncoveredAddress(db: Db, ipStr: string)
    requires ParseAddress(ipStr).Success?
    requires SortedIndex(db.image, db.first, db.total)
    requires forall k :: 0 <= k < db.total ==> !Covers(db.image, db.first, k, ParseAddress(ipStr).value)
    ensures var probe := Search(db.image, db.first, ParseAddress(ipStr).value, 0, db.total);
      Resolve(db, ipStr).Success? ==> probe.Hit? && probe.block == db.total
  {
    SearchUncovered(db.image, db.first, db.total, ParseAddress(ipStr).value, 0, db.total);
  }

  /**
   * The smallest database: an 8-byte header, one record (city id and text) at offset 8, and
   * one index block right after it, mapping `[start, end]` to that record. The index is the
   * end of the image.
   */
  function SingleBlockImage(start: int, end: int, cityID: int, text: seq<byte>): seq<byte>
    requires 0 <= start < TwoPow32 && 0 <= end < TwoPow32 && 0 <= cityID < TwoPow32
    requires 4 + |text| < TwoPow8
  {
    var index := 12 + |text|;
    LE32(index) + LE32(index) + LE32(cityID) + text
      + LE32(start) + LE32(end) + LE32(PackPointer(4 + |text|, 8))
  }

  /** What reading `SingleBlockImage` gives: its header, its one index block and its record. */
  lemma SingleBlockLayout(start: int, end: int, cityID: int, text: seq<byte>)
    requires 0 <= start < TwoPow32 && 0 <= end < TwoPow32 && 0 <= cityID < TwoPow32
    requires 4 + |text| < TwoPow8
    ensures var img := SingleBlockImage(start, end, cityID, text);
      var index := 12 + |text|;
      var ptr := PackPointer(4 + |text|, 8);
      |img| == index + 12 &&
      GetLong(img, 0) == index && GetLong(img, 4) == index &&
      GetLong(img, index) == start && GetLong(img, index + 4) == end && GetLong(img, index + 8) == ptr &&
      ptr != 0 && DecodeRecord(img, ptr) == Success(RecordInfo(cityID, text))
  {
    SingleBlockHeader(start, end, cityID, text);
    SingleBlockIndex(start, end, cityID, text);
    SingleBlockRecord(start, end, cityID, text);
  }

  /** The header of `SingleBlockImage` reads back as the index offset, twice. */
  lemma SingleBlockHeader(start: int, end: int, cityID: int, text: seq<byte>)
    requires 0 <= start < TwoPow32 && 0 <= end < TwoPow32 && 0 <= cityID < TwoPow32
    requires 4 + |text| < TwoPow8
    ensures var img := SingleBlockImage(start, end, cityID, text);
      |img| == 24 + |text| && GetLong(img, 0) == 12 + |text| && GetLong(img, 4) == 12 + |text|
  {
    var img := SingleBlockImage(start, end, cityID, text);
    var index := 12 + |text|;
    var rest := img[8..];
    assert img == [] + LE32(index) + (LE32(index) + rest);
    GetLongOfLE32(index, [], LE32(index) + rest);
    assert img == LE32(index) + LE32(index) + rest;
    GetLongOfLE32(index, LE32(index), rest);
  }

  /** The index block at the end of `SingleBlockImage` reads back as its three words. */
  lemma SingleBlockIndex(start: int, end: int, cityID: int, text: seq<byte>)
    requires 0 <= start < TwoPow32 && 0 <= end < TwoPow32 && 0 <= cityID < TwoPow32
    requires 4 + |text| < TwoPow8
    ensures var img := SingleBlockImage(start, end, cityID, text);
      var i := 12 + |text|;
      |img| == i + 12 && GetLong(img, i) == start && GetLong(img, i + 4) == end &&
      GetLong(img, i + 8) == PackPointer(4 + |text|, 8)
  {
    var img := SingleBlockImage(start, end, cityID, text);
    var ptr := PackPointer(4 + |text|, 8);
    var front := img[..12 + |text|];
    assert img == front + LE32(start) + (LE32(end) + LE32(ptr));
    GetLongOfLE32(start, front, LE32(end) + LE32(ptr));
    assert img == front + LE32(start) + LE32(end) + (LE32(ptr) + []);
    GetLongOfLE32(end, front + LE32(start), LE32(ptr));
    assert img == front + LE32(start) + LE32(end) + LE32(ptr) + [];
    GetLongOfLE32(ptr, front + LE32(start) + LE32(end), []);
  }

  /** The packed pointer of `SingleBlockImage`'s block decodes to its record. */
  lemma SingleBlockRecord(start: int, end: int, cityID: int, text: seq<byte>)
    requires 0 <= start < TwoPow32 && 0 <= end < TwoPow32 && 0 <= cityID < TwoPow32
    requires 4 + |text| < TwoPow8
    ensures var img := SingleBlockImage(start, end, cityID, text);
      var ptr := PackPointer(4 + |text|, 8);
      ptr != 0 && DecodeRecord(img, ptr) == Success(RecordInfo(cityID, text))
  {
    var img := SingleBlockImage(start, end, cityID, text);
    var head := img[..8];
    var tail := img[12 + |text|..];
    assert img == head + LE32(cityID) + text + tail;
    UnpackPacked(4 + |text|, 8);
    DecodeStoredRecord(head, cityID, text, tail);
  }

  /**
   * Loading `SingleBlockImage` gives one block, and every address inside `[start, end]`
   * resolves to the record's city id and fields.
   */
  lemma SingleBlockResolves(start: int, end: int, cityID: int, text: seq<byte>, ipStr: string)
    requires 0 <= start < TwoPow32 && 0 <= end < TwoPow32 && 0 <= cityID < TwoPow32
    requires 4 + |text| < TwoPow8
    requires ParseAddress(ipStr).Success? && start <= ParseAddress(ipStr).value <= end
    ensures LoadedDb(SingleBlockImage(start, end, cityID, text), Unloaded).total == 1
    ensures Resolve(LoadedDb(SingleBlockImage(start, end, cityID, text), Unloaded), ipStr)
         == Success(RecordInfo(cityID, text))
  {
    var img := SingleBlockImage(start, end, cityID, text);
    var index := 12 + |text|;
    SingleBlockLayout(start, end, cityID, text);
    assert LoadedDb(img, Unloaded) == Db(img, index, index, 1);
    assert Search(img, index, ParseAddress(ipStr).value, 0, 1)
        == Hit(0, PackPointer(4 + |text|, 8));
  }

  /** An address below `start` is not found. */
  lemma SingleBlockBelowStart(start: int, end: int, cityID: int, text: seq<byte>, ipStr: string)
    requires 0 <= start < TwoPow32 && 0 <= end < TwoPow32 && 0 <= cityID < TwoPow32
    requires 4 + |text| < TwoPow8
    requires ParseAddress(ipStr).Success? && ParseAddress(ipStr).value < start
    ensures Resolve(LoadedDb(SingleBlockImage(start, end, cityID, text), Unloaded), ipStr) == Failure(NotFound)
  {
    var img := SingleBlockImage(start, end, cityID, text);
    var index := 12 + |text|;
    SingleBlockLayout(start, end, cityID, text);
    assert LoadedDb(img, Unloaded) == Db(img, index, index, 1);
    assert Search(img, index, ParseAddress(ipStr).value, 0, -1) == Miss;
  }

  /**
   * An address above `end` makes the search probe block 1, one past the only block, with
   * `l == h == totalBlocks`; the index ends the image, so that read is out of range.
   */
  lemma SingleBlockAboveEnd(start: int, end: int, cityID: int, text: seq<byte>, ipStr: string)
    requires 0 <= start < TwoPow32 && 0 <= end < TwoPow32 && 0 <= cityID < TwoPow32
    requires 4 + |text| < TwoPow8 && start <= end
    requires ParseAddress(ipStr).Success? && ParseAddress(ipStr).value > end
    ensures Resolve(LoadedDb(SingleBlockImage(start, end, cityID, text), Unloaded), ipStr) == Failure(RuntimePanic)
  {
    var img := SingleBlockImage(start, end, cityID, text);
    var index := 12 + |text|;
    var ip := ParseAddress(ipStr).value;
    SingleBlockLayout(start, end, cityID, text);
    assert LoadedDb(img, Unloaded) == Db(img, index, index, 1);
    assert Search(img, index, ip, 1, 1) == OutOfImage(1);
    assert Search(img, index, ip, 0, 1) == OutOfImage(1);
  }
}
