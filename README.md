# ip2region lookup core in Dafny

This is a model of the lookup core of the `ip2region` HTTP service (`main.go`). The service
resolves an IPv4 address text to a region record. It uses one flat database file:

- An 8-byte header holds two little-endian 32-bit values: the offsets of the first and the last
  index block.
- The index is a run of 12-byte blocks: start address, end address, and a packed data pointer.
  The pointer's high byte is the record length and its low 24 bits are the record offset.
- Each data record is a 4-byte city id followed by `|`-separated text. The text holds country,
  region, province, city and ISP.

The modules follow the functions of `main.go`:

- `Bytes`: `getLong`, the little-endian 32-bit read, and its inverse `LE32`.
- `Text`: Go's `strings.Split` on one separator, with `Join` as its partner.
- `Address`: `ip2long` as the method `Ip2Long`, with its loop. It is proved equal to the
  function `ParseAddress`, and dotted quads are proved to round-trip through it.
- `Record`: packed-pointer decoding, and `getIPInfo` as the method `GetIPInfo`, with its
  padding loop.
- `Index`: the binary-search loop of `MemorySearch` as the method `FindBlock`. It is proved
  equal to the recursive reference `Search`. On a sorted index, `Search` is proved to find the
  covering block, and to find no real block when none covers the address.
- `Region`: the `IP2Region` class, with its lazy load and `MemorySearch`. A lookup is proved
  equal to the function `Resolve` on the loaded state. A one-block database shows the three
  outcomes of a lookup: found, not found, and the probe past the end.

Go's run-time panics are modelled as the error `RuntimePanic`. These are an index or slice out
of range inside `getLong` or in the record slice. In the service, `net/http` recovers such a
panic in the handler, and the state assigned before the panic stays. The model keeps that state
too.

Behaviour of the code worth knowing:

- **Probe past the end.** The search starts with `h = totalBlocks`, so an address above every
  block probes block `totalBlocks`, one past the last. If the index ends the file, that read
  panics (`SingleBlockAboveEnd`). Otherwise it reads whatever 12 bytes follow
  the index (`ResolveUncoveredAddress`).
- **Reloading.** The file is not read only once. Loading happens whenever `totalBlocks` is 0, and
  a header can yield a block count of 0 (`ZeroBlockCountReloads`).
- **Error results.** On an error, the source returns an empty `IPInfo` together with the error.
  The model returns only the error.

## Model

| member | source | states |
|---|---|---|
| Bytes.GetLong | main.go:113-120 | the value read at an offset with four bytes available is an unsigned 32-bit integer |
| Bytes.GetLongBytes | main.go:113-120 | the value is `b[off] + 2^8 b[off+1] + 2^16 b[off+2] + 2^24 b[off+3]`, the OR of the shifted bytes |
| Bytes.GetLongOfLE32 | main.go:113-120 | reading back the four little-endian bytes of any 32-bit value, wherever they sit, gives the value |
| Bytes.LE32OfGetLong | main.go:113-120 | encoding a value read from the image gives back the four bytes it was read from, so the read is injective |
| Text.Split | main.go:123 | splitting never gives an empty list of pieces |
| Text.SplitLength | main.go:123-124 | the number of pieces is one more than the number of separators |
| Text.SplitPiecesFree | main.go:123 | no piece contains the separator |
| Text.JoinSplit | main.go:123 | joining the pieces with the separator gives back the text |
| Text.SplitJoin | main.go:138 | splitting pieces that are free of the separator, once joined, gives back those pieces |
| Text.SplitAppend | main.go:138 | splitting `s + [sep] + t` gives the pieces of `s` followed by those of `t` |
| Text.SplitWithoutSeparator | main.go:138 | a text without the separator is a single piece |
| Address.ParseDecimal | main.go:130 | `strconv.ParseInt` with its error ignored: text that is not a signed decimal gives 0, and unsigned digits give a non-negative value |
| Address.ParseDecimalOfDecimalString | main.go:130 | parsing the decimal spelling of a natural number gives the number |
| Address.Ip2Long | main.go:122-135 | the loop returns a format error unless the text splits into four parts; otherwise it returns the parts' values shifted by 24, 16, 8 and 0 bits and summed |
| Address.FormatErrorIffNotThreeDots | main.go:123-126 | `ip2long` fails, with the format error, exactly when the text does not have three dots |
| Address.DottedQuadRoundTrip | main.go:122-135 | every dotted quad `a.b.c.d` parses to `a*2^24 + b*2^16 + c*2^8 + d`, without a range check on the parts |
| Record.DataLength | main.go:107 | the record length taken from a packed pointer is a byte |
| Record.DataOffset | main.go:108 | the record offset taken from a packed pointer is below 2^24 |
| Record.PackPointer | main.go:107-108 | a length byte and a 24-bit offset pack into a 32-bit pointer |
| Record.UnpackPacked | main.go:107-108 | decoding a packed pointer gives back its length and offset |
| Record.PackUnpacked | main.go:107-108 | every 32-bit pointer is the packing of its decoded length and offset |
| Record.GetIPInfo | main.go:137-154 | the padding loop yields the city id and the first five pipe-separated pieces as the five fields, with missing pieces empty |
| Record.RecordInfoOfFields | main.go:137-154 | five fields free of the pipe character, joined with it, decode to exactly those fields |
| Record.ShortRecordPadded | main.go:140-152 | with fewer than 4, 3, 2 or 1 separators, the ISP, city, province or region field is empty |
| Record.ExtraPiecesIgnored | main.go:138-152 | text after a fifth piece does not change the record |
| Record.FieldsFreeOfPipe | main.go:138-152 | no decoded field contains the pipe character |
| Record.DecodeRecord | main.go:107-109 | the record decodes exactly when its length is at least 4 and it lies inside the image; otherwise the read or slice panics |
| Record.DecodeStoredRecord | main.go:107-109 | a record stored as a little-endian city id plus text decodes, from its packed pointer, to that id and that text's fields |
| Index.FindBlock | main.go:84-102 | the loop from `l = 0`, `h = totalBlocks` gives the reference search's result; a hit covers the address and carries that block's pointer; the block the loop stops at lies in `[0, totalBlocks]`, and it is block `totalBlocks` only as the search from `l == h == totalBlocks` ends |
| Index.SearchBlockInRange | main.go:86-101 | the search from `l`, `h` stops only at a block in `[l, h]`; with `h` at most the block count, it reaches block `totalBlocks` only through the probe with `l == h == totalBlocks` |
| Index.SearchHitCovers | main.go:86-100 | a block the search stops at lies in the image, its range holds the address, and the pointer is that block's |
| Index.SearchFindsCoveringBlock | main.go:84-102 | in a sorted, disjoint index, the search stops at the block that covers the address |
| Index.SearchBelowFirst | main.go:84-105 | in a sorted index, an address below the first block's start is a miss |
| Index.SearchUncovered | main.go:84-102 | in a sorted index, an address no block covers is a miss or ends at block `totalBlocks`, one past the last, and never at a real block |
| Region.TruncDiv | main.go:76 | Go's integer division: the remainder `a - q*d` has the dividend's sign and is smaller in size than the divisor |
| Region.IP2Region.constructor | main.go:46-56 | a new handle has nothing loaded: empty image and zero header fields |
| Region.IP2Region.Load | main.go:67-77 | with `totalBlocks` 0, the file becomes the image and the header is decoded; otherwise nothing changes; the load fails exactly when a header read panics |
| Region.IP2Region.MemorySearch | main.go:64-111 | the new state is the loaded state; a panicking load gives a panic; otherwise the result is `Resolve` on the loaded state (format error, not found, panic, or the decoded record) |
| Region.LoadedOnce | main.go:67-77 | after a load that leaves `totalBlocks` non-zero, later calls neither reload nor change the result for any address |
| Region.ZeroBlockCountReloads | main.go:67-77 | a last index pointer 12 to 23 bytes below the first gives 0 blocks, so the next call reads the file again |
| Region.ResolveMalformedAddress | main.go:79-82 | an address without exactly three dots fails with the format error, whatever the database |
| Region.ResolveCoveredAddress | main.go:84-110 | in a sorted index, an address covered by a block with a non-zero pointer resolves to that pointer's record |
| Region.ResolveBelowFirstBlock | main.go:84-105 | in a sorted index, an address below the first block is not found |
| Region.ResolveUncoveredAddress | main.go:84-110 | in a sorted index, an uncovered address that resolves at all does so through block `totalBlocks`, past the last block |
| Region.SingleBlockLayout | main.go:74-76 | the one-block image has the index offset in both header words, its block's three words, and a record its pointer decodes |
| Region.SingleBlockResolves | main.go:64-110 | loading the one-block image gives one block, and every address in its range resolves to its record |
| Region.SingleBlockBelowStart | main.go:84-105 | in the one-block image, an address below the range is not found |
| Region.SingleBlockAboveEnd | main.go:84-94 | in the one-block image, an address above the range makes the search read past the end of the image and panic |

## Left out

- `Close` and the file handle of `New` are left out, because they are I/O. The failure of
  `os.Open` in `New` is left out too.
- The path `dbFile` is not modelled. The contents `ioutil.ReadFile` returns for it are passed to
  `MemorySearch` as the parameter `file`. The read's error path (lines 69-72) is not modelled,
  because it is I/O.
- `IPHander`, `main`, the HTTP server, JSON encoding and logging are left out: they are the
  service around the core.
- The package-level `region` shared by concurrent HTTP handlers is not modelled. Nor is the race
  on the first load.
- The fields `headerSip`, `headerPtr` and `headerLen`, and the constant `totalHeaderLength`,
  are left out because the lookup never uses them.
- Error values are the three kinds of `Error` rather than Go error strings. On an error the empty
  `IPInfo` returned beside it is dropped.
- Address.ParseDecimal: does not model `strconv.ParseInt`'s clamping of values beyond int64;
  the value is the unbounded integer.
- Address.ParseAddress: does not model int64 wrap-around of `bit << uint(24-8*i)` and of the sum
  for parts too large for it; the sum is the unbounded integer. Header, index and pointer
  arithmetic stays far inside int64, because every value read is below 2^32.
- Record.DecodeRecord: a slice end beyond the image's length but within its capacity is treated
  as a panic. In Go the slice would reach into the spare capacity that `ReadFile` leaves.
- Region.IP2Region.MemorySearch: the same capacity case is treated as a panic.
- The address text is a Dafny `string` of characters, while Go splits and parses its bytes. The
  results agree because '.', '+', '-' and the ASCII digits never occur inside a multi-byte UTF-8
  sequence.
