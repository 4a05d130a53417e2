/** Data records: the packed pointer of an index block and the record it points to. */
module Record {
  import opened Bytes
  import opened Text
  import opened Outcomes

  /** The field separator of the record text, '|'. */
  const Pipe: byte := 0x7C

  /** `IPInfo`: the resolved record. The text fields are the record's bytes, as Go strings are. */
  datatype IPInfo = IPInfo(cityID: int, country: seq<byte>, region: seq<byte>,
                           province: seq<byte>, city: seq<byte>, isp: seq<byte>)

  /**
   * `dataPtr >> 24 & 0xFF`: the record length kept in the pointer's high byte. Go's
   * arithmetic shift and mask are floor division and a non-negative remainder, as Dafny's
   * `/` and `%` are, for any sign.
   */
  function DataLength(ptr: int): (n: int)
    ensures 0 <= n < TwoPow8
  {
    ptr / TwoPow24 % TwoPow8
  }

  /** `dataPtr & 0x00FFFFFF`: the record offset kept in the pointer's low 24 bits. */
  function DataOffset(ptr: int): (o: int)
    ensures 0 <= o < TwoPow24
  {
    ptr % TwoPow24
  }

  /** The packed pointer of a record of `len` bytes at `off`: the partner of the two decoders. */
  function PackPointer(len: int, off: int): (ptr: int)
    requires 0 <= len < TwoPow8 && 0 <= off < TwoPow24
    ensures 0 <= ptr < TwoPow32
  {
    len * TwoPow24 + off
  }

  /** Decoding a packed pointer gives back its length and offset. */
  lemma UnpackPacked(len: int, off: int)
    requires 0 <= len < TwoPow8 && 0 <= off < TwoPow24
    ensures DataLength(PackPointer(len, off)) == len
    ensures DataOffset(PackPointer(len, off)) == off
  {
    var ptr := PackPointer(len, off);
    assert ptr / TwoPow24 == len;
  }

  /** Every 32-bit pointer is the packing of its decoded length and offset. */
  lemma PackUnpacked(ptr: int)
    requires 0 <= ptr < TwoPow32
    ensures PackPointer(DataLength(ptr), DataOffset(ptr)) == ptr
  {
    assert ptr / TwoPow24 < TwoPow8;
  }

  /** Piece `k` of the split record text, or "" when there are not that many pieces. */
  function Field(pieces: seq<seq<byte>>, k: nat): seq<byte>
  {
    if k < |pieces| then pieces[k] else []
  }

  /**
   * What `getIPInfo(cityID, line)` returns: the city id as given, and the first five
   * '|'-separated pieces of the text as country, region, province, city and ISP.
   */
  function RecordInfo(cityID: int, line: seq<byte>): IPInfo
  {
    var pieces := Split(line, Pipe);
    IPInfo(cityID, Field(pieces, 0), Field(pieces, 1), Field(pieces, 2), Field(pieces, 3), Field(pieces, 4))
  }

  /**
   * `getIPInfo`, with the padding loop of the source. The loop runs `6 - length` times when
   * there are fewer than five pieces, one more than needed; the extra piece is never read.
   */
  method GetIPInfo(cityID: int, line: seq<byte>) returns (info: IPInfo)
    ensures info == RecordInfo(cityID, line)
  {
    var pieces := Split(line, Pipe);
    var lineSlice := pieces;
    var length := |lineSlice|;
    if length < 5 {
      var i := 0;
      while i <= 5 - length
        invariant 0 <= i <= 6 - length
        invariant |lineSlice| == length + i
        invariant lineSlice[..length] == pieces
        invariant forall j :: length <= j < |lineSlice| ==> lineSlice[j] == []
      {
        lineSlice := lineSlice + [[]];
        i := i + 1;
      }
    }
    assert forall k :: 0 <= k < 5 ==> lineSlice[k] == Field(pieces, k) by {
      forall k | 0 <= k < 5
        ensures lineSlice[k] == Field(pieces, k)
      {
        if k < length {
          assert lineSlice[k] == lineSlice[..length][k];
        }
      }
    }
    info := IPInfo(cityID, lineSlice[0], lineSlice[1], lineSlice[2], lineSlice[3], lineSlice[4]);
  }

  /** A record written as five '|'-free fields joined by '|' reads back as those fields. */
  lemma RecordInfoOfFields(cityID: int, country: seq<byte>, region: seq<byte>,
                           province: seq<byte>, city: seq<byte>, isp: seq<byte>)
    requires Pipe !in country && Pipe !in region && Pipe !in province && Pipe !in city && Pipe !in isp
    ensures RecordInfo(cityID, Join([country, region, province, city, isp], Pipe))
         == IPInfo(cityID, country, region, province, city, isp)
  {
    SplitJoin([country, region, province, city, isp], Pipe);
  }

  /**
   * A text with fewer than four '|' still decodes: the fields after the last piece are "".
   * (So "China|Beijing" has empty province, city and ISP.)
   */
  lemma ShortRecordPadded(cityID: int, line: seq<byte>)
    ensures var info := RecordInfo(cityID, line);
      var n := Count(line, Pipe);
      (n < 4 ==> info.isp == []) && (n < 3 ==> info.city == []) &&
      (n < 2 ==> info.province == []) && (n < 1 ==> info.region == [])
  {
    SplitLength(line, Pipe);
  }

  /** Once the text has five pieces, whatever follows a further '|' is ignored. */
  lemma ExtraPiecesIgnored(cityID: int, line: seq<byte>, extra: seq<byte>)
    requires Count(line, Pipe) >= 4
    ensures RecordInfo(cityID, line + [Pipe] + extra) == RecordInfo(cityID, line)
  {
    SplitLength(line, Pipe);
    SplitAppend(line, extra, Pipe);
  }

  /** No decoded field contains the separator. */
  lemma FieldsFreeOfPipe(cityID: int, line: seq<byte>)
    ensures var info := RecordInfo(cityID, line);
      Pipe !in info.country && Pipe !in info.region && Pipe !in info.province &&
      Pipe !in info.city && Pipe !in info.isp
  {
    SplitPiecesFree(line, Pipe);
  }

  /**
   * Lines 107-109 of `MemorySearch`: the record a non-zero packed pointer designates. The
   * city id is the 4 bytes at the offset; the text runs from offset + 4 to offset + length,
   * so the length byte counts the city id. A read or slice outside the image panics.
   */
  function DecodeRecord(img: seq<byte>, ptr: int): (r: Result<IPInfo>)
    ensures r.Success? <==> 4 <= DataLength(ptr) && DataOffset(ptr) + DataLength(ptr) <= |img|
    ensures r.Failure? ==> r.error == RuntimePanic
  {
    var len := DataLength(ptr);
    var off := DataOffset(ptr);
    if !CanReadLong(img, off) || !(off + 4 <= off + len <= |img|) then Failure(RuntimePanic)
    else Success(RecordInfo(GetLong(img, off), img[off + 4..off + len]))
  }

  /**
   * A record stored as its little-endian city id followed by its text, at an offset below
   * 2^24 and with 4 + |text| < 256, decodes from its packed pointer to that id and text.
   */
  lemma DecodeStoredRecord(prefix: seq<byte>, cityID: int, text: seq<byte>, suffix: seq<byte>)
    requires 0 <= cityID < TwoPow32
    requires |prefix| < TwoPow24 && 4 + |text| < TwoPow8
    ensures var img := prefix + LE32(cityID) + text + suffix;
      DecodeRecord(img, PackPointer(4 + |text|, |prefix|)) == Success(RecordInfo(cityID, text))
  {
    var img := prefix + LE32(cityID) + text + suffix;
    var k := |prefix|;
    UnpackPacked(4 + |text|, k);
    assert img == prefix + LE32(cityID) + (text + suffix);
    GetLongOfLE32(cityID, prefix, text + suffix);
    assert img[k + 4..k + 4 + |text|] == text;
  }
}
