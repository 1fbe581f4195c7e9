# Verified models of framing, byte order, buffering and time

The repository is a set of services that talk in protobuf messages over libevent, with the
headers of libevent and of the MySQL client beside them. This project models in Dafny, and
proves what it is for: the message framing of `XMsgEvent`, which puts frames together again
from whatever pieces the network delivers, and the code with bodies in those headers, that
is the scan for trailing spaces, the byte-order codecs, the inline paths of the buffered
file cache, and the fixed-point time arithmetic.

| file | models |
|---|---|
| `Machine.dfy` | fixed-width integers as reductions of mathematical integers; `&`, `|`, `~` bit by bit; exact division facts |
| `Sequences.dfy` | concatenation and slices of sequences, shared |
| `LittleEndian.dfy` | the reference: one recursive value and one recursive encoder of any length; words in the memory of a little- or big-endian host; writes into memory |
| `ByteOrder.dfy` | `uintNkorr`, `sintNkorr`, `intNstore` of all three headers |
| `Records.dfy` | lists of fields of mixed widths stored and loaded at consecutive offsets |
| `HostFormat.dfy` | float/double and host-format accessors of both endian headers; `MB2`, `MY_PUT_MB2` |
| `Align.dfy` | `MY_ALIGN`, `ALIGN_SIZE` and rounding by division |
| `TrailingSpace.dfy` | both `skip_trailing_space` |
| `IoCache.dfy` | `my_b_read`, `my_b_get`, `my_b_write`, `my_b_tell`, `my_b_bytes_in_cache` |
| `Timeval.dfy` | `evutil_timeradd`, `evutil_timersub`, `evutil_timercmp`, `evutil_timerisset`, `evutil_timerclear` |
| `Timespec.dfy` | `set_timespec_nsec`, `set_timespec`, `cmp_timespec`, `diff_timespec`, both forms |
| `XMsgFraming.dfy` | `XMsgEvent::RecvMsg` and the read callback as a state machine on values; which splits of the byte stream frames survive; the frame `SendMsg` writes |
| `XMsgEvent.dfy` | `XMsg` and `XMsgEvent` as objects, each method proved to be a step of that machine |

How the sources are rendered:

- Memory is an `array<byte>` (a `seq<byte>` where it is only read) and a pointer an offset
  into it. The scan for trailing spaces also has the address of its buffer, so alignment is
  a real quantity and a word read needs a word boundary and bytes inside the buffer.
- Every cast, shift and sum is reduced as C reduces it. Signed operations that C leaves
  undefined on overflow wrap in two's complement; where that matters the theorem says
  exactly when no wrap occurs.
- The host's byte order, the build (x86 or portable header), sizeof(int), the pointer width,
  and the width of `long` are parameters, so every result holds for each of them.
- Clock readings are parameters.
- `read_function`, `_my_b_get` and `write_function` have no bodies in the repository. What
  they do enters as assumptions, each marked in `IoCache.dfy`: `ReadContract`,
  `GetContract` and `WriteContract` for calls that succeed, from
  `include/mysql5.7/my_sys.h:358-393` and `include/mysql5.7/my_sys.h:410-423`;
  `FailedTransfer` for the error left by calls that fail, from
  `include/mysql5.7/my_sys.h:455-457`; and that a call works in the buffer the cache has, a
  read leaving the file alone. The bodies given to them in the class are stand-ins that
  show the assumptions can be met.
- A bufferevent is two byte queues: a read takes at most the number of bytes asked for from
  the front of one (`include/event2/bufferevent.h:403-414`), a write appends to the other or
  fails (`include/event2/bufferevent.h:372-387`), and which writes fail is a parameter.
  Parsing and serialising a header are parameters; only `SentFrameValid` needs them to be inverse. A handler is the
  record of what it was called with.

Results that differ from what a reader of the sources might expect:

- `MY_ALIGN` gives 0 when `A + L - 1` overflows; no correct answer is representable then
  (`Align.MyAlignCorrect`). `ALIGN_SIZE` of an operand wider than `size_t` loses its upper
  bits (`Align.AlignSizeCorrect`).
- On hardware with mixed word order, `float8store` does not write the machine-independent
  format, except for doubles whose two words are equal
  (`LittleEndianHost.MixedFloat8storeIsPortable`).
- `MB2` for i386 moves the low byte up by addition: the two builds agree exactly for codes
  whose third byte is zero (`WideChar.Mb2Portable`).
- The comment above `skip_trailing_space` calls the result "the last non-space character";
  the code returns the address after it. The model follows the code.
- `evutil_timercmp` compares the microseconds only when the seconds are equal. It agrees
  with the totals, for all its operators, if and only if the microseconds of the earlier
  second do not outweigh the seconds between (`Timeval.CmpExact`); all values with
  microseconds at a given distance are safe exactly below a second
  (`Timeval.CmpExactByDistance`). Addition and subtraction keep the order only as far as the
  seconds do not wrap (`Timeval.AddPreservesCmp`, `Timeval.CmpBySubtraction`).
- `XMsgEvent::Clear` keeps `pb_head_`. Once any header has been parsed, a read that ends
  behind the size and before the end of a later header makes the callback dispatch the
  previous header again, with type 0 and an empty body, and drop the bytes of the new one
  (`XMsgFraming.HeaderCutRedispatches`).
- A read that ends inside the four bytes of a size is not resumed: those bytes are taken for
  a whole size, the missing ones being zero, or dropped if that is not within the limit
  (`XMsgFraming.SizeCutLost`); what size it is, `XMsgFraming.SizeTaken` says. These two are the only ways to
  lose a frame by splitting the stream (`XMsgFraming.FramesSurviveSplits`).
- The size in front of a frame is in the host's byte order, so hosts of different order
  understand each other only for sizes that read the same backwards
  (`XMsgFraming.SizeNeedsSameOrder`).
- `SendMsg` does not check the limit of 100,000,000 bytes its receiver sets
  (`XMsgFraming.SentFrameValid`), and notices an empty header only when its size, 0, is
  already written. When a write is refused, the parts of the frame in front of it stay in
  the queue (`XMsgEventObject.XMsgEvent.SendMsg`).

The sources of `XMsgEvent` (`src/xplatform/xmsg_event.cpp`, `src/xplatform/xmsg.h`,
`src/xplatform/xcom_task.cpp`) are encoded in GBK; the line numbers below count their lines
as they stand.

## Model

| member | source | states |
|---|---|---|
| TrailingSpace.SkipTrailingSpaceAligned | include/mysql5.7/m_string.h:277-307 | for every address, length, contents, byte order, word size 4 or 8 and pointer width: returns the address after the text; the three loops together step over exactly the trailing spaces; for more than 20 bytes the tail and final loops take fewer steps than a word has bytes |
| TrailingSpace.SkipAlignedZones | include/mysql5.7/m_string.h:290-303 | only spaces lie behind the returned address and fewer than a word's worth remain in front of it |
| TrailingSpace.WordZone | include/mysql5.7/m_string.h:292-297 | the word zone lies inside the buffer, within a word of each end, on word boundaries, and is not empty: the assertion holds and the test of line 300 on it never fails |
| TrailingSpace.ZoneBoundaries | include/mysql5.7/m_string.h:292-295 | the casts through a signed pointer-sized integer and unsigned long long do no harm: both boundaries are the plain roundings of the addresses, also of sign-extended ones |
| TrailingSpace.ScanWords | include/mysql5.7/m_string.h:301-302 | stops at the start of the zone or at a word that is not all spaces; every word read is on a word boundary inside the buffer |
| TrailingSpace.ScanBytes | include/mysql5.7/m_string.h:298-299 | stops at the limit or at a byte that is not a space, having stepped over spaces only; also the loops of lines 304-305 and 323-324 |
| TrailingSpace.SkipTrailingSpaceUnaligned | include/mysql5.7/m_string.h:314-326 | returns the address after the text in either build; of t trailing spaces exactly t/8 word steps and t%8 byte steps; reads only inside the buffer |
| TrailingSpace.VariantsAgree | include/mysql5.7/m_string.h:276-327 | the two variants return the same address on every buffer, and it is the only address that meets the specification |
| TrailingSpace.TextEndUnique | include/mysql5.7/m_string.h:243-275 | the end of the text (only spaces follow, start of buffer or non-space before) exists, is unique, and is what the byte-by-byte scan finds |
| TrailingSpace.WordInBuffer | include/mysql5.7/m_string.h:301-319 | a word loaded in either byte order, or through uint8korr, equals the word of spaces if and only if each of its bytes is a space |
| ByteOrderGeneric.Uint2korr | include/mysql5.7/byte_order_generic.h:38-44 | the little-endian value of two bytes |
| ByteOrderGeneric.Uint4korr | include/mysql5.7/byte_order_generic.h:46-54 | the little-endian value of four bytes |
| ByteOrderGeneric.Uint8korr | include/mysql5.7/byte_order_generic.h:56-69 | the little-endian value of eight bytes, from two 32-bit sums |
| ByteOrderGeneric.Sint2korr | include/mysql5.7/byte_order_generic.h:20-26 | the two's-complement reading of two bytes |
| ByteOrderGeneric.Sint4korr | include/mysql5.7/byte_order_generic.h:28-36 | the two's-complement reading of four bytes |
| ByteOrderGeneric.Sint8korr | include/mysql5.7/byte_order_generic.h:71-74 | the two's-complement reading of eight bytes |
| Memory.ShiftSum32 | include/mysql5.7/byte_order_generic.h:49-52 | the four-term 32-bit sum equals the unreduced sum: no partial sum wraps |
| Memory.SignedTop | include/mysql5.7/byte_order_generic.h:28-36 | only the shift of the top byte can leave the range of int; it wraps to that byte's signed weight and no addition overflows |
| ByteOrderGeneric.Int2store | include/mysql5.7/byte_order_generic.h:76-81 | memory becomes the old memory with the two wire bytes at the offset, nothing else changed |
| ByteOrderGeneric.Int4store | include/mysql5.7/byte_order_generic.h:83-89 | the same for four bytes |
| ByteOrderGeneric.Int8store | include/mysql5.7/byte_order_generic.h:91-97 | the same for eight bytes, by two 32-bit stores |
| ByteOrderX86.Uint2korr | include/mysql5.7/byte_order_generic_x86.h:28-29 | a little-endian machine word is the little-endian value, as in the portable header |
| ByteOrderX86.Uint4korr | include/mysql5.7/byte_order_generic_x86.h:31-32 | the same for four bytes |
| ByteOrderX86.Uint8korr | include/mysql5.7/byte_order_generic_x86.h:34-35 | the same for eight bytes |
| ByteOrderX86.Sint2korr | include/mysql5.7/byte_order_generic_x86.h:22-23 | the two's-complement reading, as in the portable header |
| ByteOrderX86.Sint4korr | include/mysql5.7/byte_order_generic_x86.h:25-26 | the same for four bytes |
| ByteOrderX86.Sint8korr | include/mysql5.7/byte_order_generic_x86.h:37-38 | the same for eight bytes |
| ByteOrderX86.Int2store | include/mysql5.7/byte_order_generic_x86.h:40-44 | one machine store writes the bytes the portable store writes |
| ByteOrderX86.Int4store | include/mysql5.7/byte_order_generic_x86.h:46-50 | the same for four bytes |
| ByteOrderX86.Int8store | include/mysql5.7/byte_order_generic_x86.h:52-56 | the same for eight bytes |
| MyByteorder.Sint3korr | include/mysql5.7/my_byteorder.h:31-43 | the test of the top bit and the two `|` chains give the two's-complement reading of three bytes |
| MyByteorder.Uint3korr | include/mysql5.7/my_byteorder.h:45-52 | the little-endian value of three bytes |
| MyByteorder.Uint5korr | include/mysql5.7/my_byteorder.h:54-63 | the little-endian value of five bytes |
| MyByteorder.Uint6korr | include/mysql5.7/my_byteorder.h:65-75 | the little-endian value of six bytes |
| MyByteorder.Int3store | include/mysql5.7/my_byteorder.h:77-82 | memory becomes the old memory with the three wire bytes at the offset |
| MyByteorder.Int5store | include/mysql5.7/my_byteorder.h:84-91 | the same for five bytes |
| MyByteorder.Int6store | include/mysql5.7/my_byteorder.h:93-101 | the same for six bytes |
| MyByteorder.UintKorr | include/mysql5.7/my_byteorder.h:25-75 | every unsigned load of every width is the same little-endian value in both builds |
| MyByteorder.SintKorr | include/mysql5.7/my_byteorder.h:25-43 | every signed load is the same two's-complement reading in both builds |
| MyByteorder.IntStore | include/mysql5.7/my_byteorder.h:25-101 | every store, after conversion of its argument to the parameter type, writes the same wire bytes in both builds |
| Records.RecordRoundTrip | include/mysql5.7/my_byteorder.h:45-101 | any list of fields of widths 2, 3, 4, 5, 6, 8 written at consecutive offsets (StoreFields, which the stores of either build carry out: StoreRecord) loads back, in either build, as each value modulo 256^width; bytes outside are unchanged |
| Records.StoreRecord | include/mysql5.7/my_byteorder.h:45-101 | the stores of either build, one after another over any list of fields, leave memory as StoreFields says |
| Records.LoadThenStore | include/mysql5.7/my_byteorder.h:45-101 | writing back what any list of loads of either build returned restores memory exactly |
| Records.UnsignedRoundTrip | include/mysql5.7/my_byteorder.h:45-101 | an unsigned load returns the stored integer if and only if it fits in n bytes |
| Records.SignedRoundTrip | include/mysql5.7/my_byteorder.h:31-43 | a signed load returns the stored integer if and only if it is in the signed range of n bytes |
| LittleEndian.EncodeValue | include/mysql5.7/my_byteorder.h:20-24 | in the reference format, decoding then encoding restores any byte string |
| LittleEndian.ValueEncode | include/mysql5.7/my_byteorder.h:20-24 | encoding then decoding keeps any number modulo 256^n |
| LittleEndian.WordRoundTrip | include/mysql5.7/byte_order_generic_x86.h:16-21 | words written and read by a host of either byte order are inverse in both directions |
| BigEndianHost.Float4store | include/mysql5.7/big_endian.h:21-25 | writes the little-endian bytes of the bit pattern, nothing else changed |
| BigEndianHost.Float4get | include/mysql5.7/big_endian.h:27-33 | builds the float whose pattern is the little-endian value of the bytes |
| BigEndianHost.Float8store | include/mysql5.7/big_endian.h:35-43 | writes the little-endian bytes of the bit pattern, nothing else changed |
| BigEndianHost.Float8get | include/mysql5.7/big_endian.h:45-55 | builds the double whose pattern is the little-endian value of the bytes |
| BigEndianHost.Ushortget | include/mysql5.7/big_endian.h:57-59 | the byte-wise load is the host's word load |
| BigEndianHost.Shortget | include/mysql5.7/big_endian.h:60-62 | its two's-complement reading |
| BigEndianHost.Longget | include/mysql5.7/big_endian.h:63-69 | the two's-complement reading of the host's four-byte word |
| BigEndianHost.Ulongget | include/mysql5.7/big_endian.h:70-76 | the host's four-byte word |
| BigEndianHost.Shortstore | include/mysql5.7/big_endian.h:77-80 | writes the bytes of the host's word for the value, also for negative ones |
| BigEndianHost.Longstore | include/mysql5.7/big_endian.h:81-85 | the same for four bytes, through arithmetic right shifts |
| LittleEndianHost.Float4store | include/mysql5.7/little_endian.h:29-32 | the copy writes the same bytes as the big-endian host |
| LittleEndianHost.Float4get | include/mysql5.7/little_endian.h:24-27 | the copy reads the same pattern as the big-endian host |
| LittleEndianHost.Float8store | include/mysql5.7/little_endian.h:39-42 | the copy writes the same bytes as the big-endian host |
| LittleEndianHost.Float8get | include/mysql5.7/little_endian.h:34-37 | the copy reads the same pattern as the big-endian host |
| LittleEndianHost.Shortget | include/mysql5.7/little_endian.h:78 | sint2korr is the two's-complement reading of the host's word |
| LittleEndianHost.Longget | include/mysql5.7/little_endian.h:79 | sint4korr is the two's-complement reading of the host's word |
| LittleEndianHost.Ushortget | include/mysql5.7/little_endian.h:77 | uint2korr is the host's word |
| LittleEndianHost.Ulongget | include/mysql5.7/little_endian.h:80 | uint4korr is the host's word |
| LittleEndianHost.Shortstore | include/mysql5.7/little_endian.h:81 | int2store writes the host's word, also for negative values |
| LittleEndianHost.Longstore | include/mysql5.7/little_endian.h:82 | int4store writes the host's word, also for negative values |
| LittleEndianHost.MixedDoublestore | include/mysql5.7/little_endian.h:49-57 | on hardware with swapped words doublestore writes the machine-independent bytes |
| LittleEndianHost.MixedDoubleget | include/mysql5.7/little_endian.h:58-68 | the caller's double gets the eight bytes with their words exchanged |
| LittleEndianHost.MixedIsSwapped | include/mysql5.7/little_endian.h:47-68 | the exchange turns such a double into its machine-independent bytes and back |
| LittleEndianHost.MixedFloat8storeIsPortable | include/mysql5.7/little_endian.h:39-42 | there float8store writes the machine-independent bytes if and only if the two words of the double are equal |
| HostFormat.FloatAcrossHosts | include/mysql5.7/my_byteorder.h:183-192 | a float or double stored on a host of either byte order and loaded on a host of either byte order is the same bit pattern, and its wire bytes do not depend on the writer |
| HostFormat.NativeRoundTrip | include/mysql5.7/big_endian.h:57-85 | a number reduced to n bytes and written as a host word reads back as its residue: as itself exactly in the unsigned range, and by the signed reading exactly in the signed range |
| HostFormat.ShortAcrossMemory | include/mysql5.7/big_endian.h:57-85 | shortstore, then shortget and ushortget of the same place, on a host of either byte order and build: the value, its unsigned conversion, and nothing else in memory changed |
| HostFormat.LongAcrossMemory | include/mysql5.7/big_endian.h:57-85 | the same for longstore, longget and ulongget |
| WideChar.PutMb2 | include/mysql5.7/m_ctype.h:48-54 | which two bytes each build puts, and no others |
| WideChar.Mb2Portable | include/mysql5.7/m_ctype.h:48-54 | the two builds put the same bytes for a 32-bit code if and only if its third byte is zero; those of the portable build are its big-endian word |
| Align.MyAlignCorrect | include/mysql5.7/my_global.h:450 | for every width and power of two: the result is the least multiple not below A if and only if A + L - 1 does not overflow; it then equals rounding by division, and otherwise is 0 while no representable multiple exists |
| Align.MyAlignIdempotent | include/mysql5.7/my_global.h:450 | aligning an aligned value changes nothing, for every operand, also where the sum overflows |
| Align.MyAlignMonotone | include/mysql5.7/my_global.h:450 | for A <= B the results are in the same order if and only if B + L - 1 does not overflow, or A is 0, or A + L - 1 overflows too |
| Align.RoundUpIsLeast | include/mysql5.7/m_string.h:294-295 | the division used for start_words gives the least multiple, and only that is least |
| Align.AlignSizeCorrect | include/mysql5.7/my_global.h:451 | ALIGN_SIZE of an operand of any width is right if and only if the rounded size fits in size_t |
| IoCacheRuns.ReadingIsSequential | include/mysql5.7/my_sys.h:499-517 | over any run of successful my_b_read and my_b_get the delivered bytes are the file from the starting position on, and my_b_tell is the offset of the next undelivered byte |
| IoCacheRuns.ReadStepDelivers | include/mysql5.7/my_sys.h:499-514 | one call on either path delivers the bytes of the file at the position and keeps the buffer a window of the file |
| IoCacheRuns.ReadSplitIrrelevant | include/mysql5.7/my_sys.h:499-514 | two runs over one file from one position deliver the same bytes, one a prefix of the other, however the reads are split and buffered |
| IoCacheRuns.WritingIsSequential | include/mysql5.7/my_sys.h:505-517 | over any run of my_b_write flushed bytes followed by buffered bytes are the earlier contents followed by all data written; my_b_tell is their length |
| IoCacheRuns.FastWriteExtends | include/mysql5.7/my_sys.h:505-508 | the inline path appends exactly its data, leaves the file and the buffer from write_end on alone, and keeps my_b_tell + my_b_bytes_in_cache |
| IoCacheRuns.FastRunKeepsCapacity | include/mysql5.7/my_sys.h:505-530 | between slow-path calls my_b_tell + my_b_bytes_in_cache is constant, nothing reaches the file, and no more is accepted than the cache had room for |
| IoCacheRuns.WriteThenRead | include/mysql5.7/my_sys.h:499-517 | what was written through one cache and has reached the file is what another cache reads back, however both sides are split |
| IoCacheRuns.RecordThroughFile | include/mysql5.7/my_sys.h:499-517 | a record of integer fields encoded, written in any pieces, read back in any pieces and decoded returns each value modulo 256^width |
| IoCacheObject.IoCache.MyBRead | include/mysql5.7/my_sys.h:499-503 | 0 means the file's bytes at my_b_tell are in the caller's buffer and my_b_tell moved past them, by a step of the read machine; up to my_b_bytes_in_cache bytes are always delivered, and then that many fewer remain; bytes behind Count are untouched; after a failure error is -1 or, as assumed of the slow path, the part transferred |
| IoCacheObject.IoCache.MyBGet | include/mysql5.7/my_sys.h:511-514 | returns the byte of the file at my_b_tell and moves past it, or my_b_EOF, which equals no byte and is never returned while my_b_bytes_in_cache is positive |
| IoCacheObject.IoCache.MyBWrite | include/mysql5.7/my_sys.h:505-509 | 0 means the data follows everything written before, by a step of the write machine, and my_b_tell is the length of all of it; up to my_b_bytes_in_cache bytes are always accepted without touching the file, and then that many fewer fit; after a failure error is -1 or, as assumed of the slow path, the part transferred |
| IoCacheObject.IoCache.NextBytesInCache | include/mysql5.7/my_sys.h:516-530 | in a read cache the my_b_bytes_in_cache bytes from read_pos on are those of the file from my_b_tell on |
| IoCacheObject.IoCache.WrittenSoFar | include/mysql5.7/my_sys.h:516-530 | in a write cache my_b_tell is the number of bytes written, flushed or not, and my_b_bytes_in_cache the room up to write_end |
| Timeval.TimerAdd | include/event2/util.h:532-540 | under every aliasing of the three variables the result is Add of the values before the call |
| Timeval.TimerSub | include/event2/util.h:541-549 | under every aliasing of the three variables the result is Sub of the values before the call |
| Timeval.WrapIsTwosComplement | include/event2/util.h:534-547 | what a sum or difference leaves in a field is the two's-complement reading of its low bits |
| Timeval.AddExact | include/event2/util.h:532-540 | for all fields the total in microseconds is the exact sum if and only if no field overflows; then the result is normalised if and only if the microseconds add up to less than two seconds |
| Timeval.SubExact | include/event2/util.h:541-549 | for all fields the total is the exact difference if and only if no field overflows; then it is normalised if and only if the difference of the microseconds is at least minus one second and below one second |
| Timeval.AddSubInverse | include/event2/util.h:532-549 | on normalised values each operation undoes the other, even where the seconds wrap |
| Timeval.AccumulateExact | include/event2/util.h:532-540 | accumulating any list of normalised intervals is normalised for every list and width of the seconds, has the microseconds of the exact sum and its seconds wrapped, and is exact if and only if the seconds of the exact sum fit |
| Timeval.AccumulateInPlace | include/event2/util.h:532-540 | the macro run over any list of variables with its result variable as its first argument accumulates their values |
| Timeval.AccumulateAnyFields | include/event2/util.h:532-540 | for fields of any size the total is the exact sum modulo 2^N, N the width of the fields; all partial sums are exact if and only if no step overflows a field |
| Timeval.CmpIsTotalOrder | include/event2/util.h:559-564 | each of ==, <=, <, >=, > holds of two values if and only if it holds of their totals, whenever the microseconds are less than a second apart |
| Timeval.CmpExact | include/event2/util.h:559-564 | for any two values all five operators agree with the totals if and only if neither value's microseconds outweigh the seconds by which it is behind |
| Timeval.CmpExactByDistance | include/event2/util.h:559-564 | all values whose microseconds are d apart are compared correctly if and only if d is more than minus a second and less than a second |
| Timeval.AddPreservesCmp | include/event2/util.h:532-564 | adding one interval to both of two normalised values preserves every comparison if and only if both sums overflow or neither does |
| Timeval.CmpBySubtraction | include/event2/util.h:541-569 | of normalised values, a == b if and only if evutil_timerisset fails for a - b; a < b agrees with a - b having negative seconds if and only if the difference does not overflow |
| Timeval.IsSetIsNotZero | include/event2/util.h:559-569 | evutil_timerisset holds exactly of the values evutil_timercmp does not call equal to zero, and, for microseconds below a second, exactly of those with a total other than zero |
| Timeval.Timeval.Clear | include/event2/util.h:555 | both fields become zero, so evutil_timerisset fails |
| Timespec.DeadlineExact | include/mysql5.7/my_global.h:699-709 | the struct form is always normalised, and is exactly clock*100 + nsec nanoseconds if and only if the ticks do not overflow 64 bits; otherwise it is the wrapped ticks and the nanoseconds within a tick |
| Timespec.StructTimespec.SetTimespecNsec | include/mysql5.7/my_global.h:699-709 | the variable becomes that deadline, exact if and only if the ticks do not overflow |
| Timespec.StructTimespec.SetTimespec | include/mysql5.7/my_global.h:723-726 | the deadline in whole seconds, exact if and only if neither the product nor the ticks overflow |
| Timespec.SecondsExact | include/mysql5.7/my_global.h:725 | the product by 10^9 is exact if and only if it is below 2^64 |
| Timespec.CmpTimespec | include/mysql5.7/my_global.h:735-743 | on normalised values cmp_timespec is 1, 0 or -1 exactly as the total is greater, equal or less |
| Timespec.CmpIsTotalOrder | include/mysql5.7/my_global.h:735-743 | it is positive exactly for the greater total, antisymmetric, 0 only on equal values, and transitive |
| Timespec.DiffIsResidue | include/mysql5.7/my_global.h:753-757 | diff_timespec, with all its conversions, is the exact difference modulo 2^64 |
| Timespec.DiffExact | include/mysql5.7/my_global.h:753-757 | it is the exact difference if and only if that is neither negative nor 2^64 or more |
| Timespec.DeadlinesKeepDifference | include/mysql5.7/my_global.h:699-757 | two deadlines set from one clock reading without overflow are ordered as the requests; diff_timespec is the difference of the requests if and only if that is not negative |
| Timespec.FtIsFloor | include/mysql5.7/my_global.h:710-720 | the FILETIME deadline is the struct deadline rounded down to 100 ns if and only if it fits in 63 bits, and always has the low 64 bits of the sum |
| Timespec.FileTimespec.SetTimespecNsec | include/mysql5.7/my_global.h:710-720 | the variable becomes that deadline; the longest wait is the whole milliseconds of the request, or 2^31 - 1 if they are more |
| Timespec.FtCmpNeverReverses | include/mysql5.7/my_global.h:735-749 | the FILETIME comparison equals the struct one or merges deadlines of the same tick, and merges exactly those |
| Timespec.FtDiffWithinTick | include/mysql5.7/my_global.h:753-760 | for any two requests that do not overflow, the FILETIME difference is within 100 ns of the difference of the requests if and only if their ticks are not in reverse order, and is then a multiple of 100 ns |
| Timespec.FtDiffIsResidue | include/mysql5.7/my_global.h:758-760 | the FILETIME difference of any two deadlines is their exact difference in nanoseconds modulo 2^64 |
| Timespec.FtDiffValue | include/mysql5.7/my_global.h:753-760 | it is the difference of the ticks modulo 2^64 ns, and so that difference itself if and only if it is not negative; the signed product on the way stays in its type if and only if 63 bits hold it |
| XMsgFraming.FramesSurviveSplits | src/xplatform/xmsg_event.cpp:44-197 | for any valid frames and any way of splitting their bytes into reads: after every read callback exactly the messages of the complete frames have been dispatched, in order, and every byte of the incomplete one is kept, if and only if every read ends at the boundary or behind the header of a frame or, before any header was ever parsed, behind the size |
| XMsgFraming.AllMessagesDispatched | src/xplatform/xmsg_event.cpp:44-197 | so a whole stream split at such places dispatches all its messages, the same however it is split, and leaves nothing behind |
| XMsgFraming.CallbackStep | src/xplatform/xmsg_event.cpp:44-87 | one callback that takes the stream from any good place to any other place: in step with the stream if that place is good, something lost or dispatched too much if not |
| XMsgFraming.FrameToEnd | src/xplatform/xmsg_event.cpp:94-197 | from any state a good read leaves, the rest of the frame makes RecvMsg return the whole header and body and leave what follows |
| XMsgFraming.HeaderCutRedispatches | src/xplatform/xmsg_event.cpp:44-152 | a read that ends inside a later header dispatches the previous header with an empty body and loses the bytes read |
| XMsgFraming.SizeCutLost | src/xplatform/xmsg_event.cpp:101-117 | a read that ends inside a size does what the whole size made of those bytes and zeros would do, or, if that is not within the limit, leaves the state as it was; the bytes themselves are gone |
| XMsgFraming.SizeAlone | src/xplatform/xmsg_event.cpp:94-129 | a size and nothing else is kept for the header to come, or, once a header has been parsed, makes the callback dispatch that one again and forget the size |
| XMsgFraming.SizeTaken | src/xplatform/xmsg_event.cpp:101-107 | of a size cut after k bytes a little-endian host takes the low k digits for the size, a big-endian host the high k digits with zeros behind them |
| XMsgFraming.BadHeaderDropped | src/xplatform/xmsg_event.cpp:134-171 | a header that does not parse, or announces a negative size or one above the limit, is not dispatched: in however many parts it came, the callback stops with both buffers cleared and leaves what follows unread |
| XMsgFraming.BadFrameDropped | src/xplatform/xmsg_event.cpp:44-171 | the same from the size in front of such a header on |
| XMsgFraming.BadSizeDropped | src/xplatform/xmsg_event.cpp:101-116 | a size that is not positive or above the limit costs its four bytes, dispatches nothing and leaves what follows unread |
| XMsgFraming.SentFrameValid | src/xplatform/xmsg_event.cpp:224-263 | a sent frame is one the receiver accepts if and only if its header is not empty and both parts are within the limit; its message is the header with the body's size, and the body |
| XMsgFraming.SizeNeedsSameOrder | src/xplatform/xmsg_event.cpp:101-107 | the receiver's size field is the size that was sent if and only if the hosts agree in byte order or the four bytes are the same backwards |
| XMsgEventObject.XMsgEvent.ReadCB | src/xplatform/xmsg_event.cpp:44-87 | the callback leaves state, unread bytes and dispatched messages as the machine does, and buffers that are the old ones, new or none |
| XMsgEventObject.XMsgEvent.ReadPieces | src/xplatform/xmsg_event.cpp:44-197 | one callback per piece that arrives, over any list of pieces, is the machine's run over them, so what FramesSurviveSplits says of runs holds of the object |
| XMsgEventObject.XMsgEvent.ReadOnce | src/xplatform/xmsg_event.cpp:52-85 | one round of its loop keeps the outcome the machine has for the whole callback, and one that goes on has read something |
| XMsgEventObject.XMsgEvent.RecvMsg | src/xplatform/xmsg_event.cpp:94-197 | the receipt of a size, a header and a body, each in as many parts as it comes, is the machine's step |
| XMsgEventObject.XMsgEvent.RecvHeader | src/xplatform/xmsg_event.cpp:118-175 | its second part either ends in the machine's result or leaves the body to come |
| XMsgEventObject.XMsgEvent.ParseHeader | src/xplatform/xmsg_event.cpp:137-174 | the parsed header sets up an empty body, space for the body, or a failure |
| XMsgEventObject.XMsgEvent.RecvRest | src/xplatform/xmsg_event.cpp:177-196 | its third part adds the bytes there are, up to the body's end |
| XMsgEventObject.XMsgEvent.Clear | src/xplatform/xmsg_event.cpp:218-222 | head_ and msg_ are empty, and pb_head_ is kept |
| XMsgEventObject.XMsgEvent.Read | include/event2/bufferevent.h:403-414 | XComTask::Read (`src/xplatform/xcom_task.cpp:176-187`): takes the bytes at the front of the queue, at most as many as asked for, and none without a connection |
| XMsgEventObject.XMsgEvent.Write | include/event2/bufferevent.h:372-387 | XComTask::Write (`src/xplatform/xcom_task.cpp:245-253`): appends the bytes, unless there are none or the connection refuses them |
| XMsgEventObject.XMsgEvent.SendMsg | src/xplatform/xmsg_event.cpp:224-263 | the size of the body is set in the caller's header; true if and only if there is a connection, the header is not empty and each of the two or three writes succeeds, and the whole frame has then been appended; otherwise exactly the parts in front of the first refused write, or of an empty header, have been; nothing is written for a null header |
| XMsgEventObject.XMsg.Alloc | src/xplatform/xmsg.h:68-84 | succeeds exactly for sizes from 1 to the limit, with fresh space and nothing received; otherwise nothing changes |
| XMsgEventObject.XMsg.Clear | src/xplatform/xmsg.h:94-102 | all fields are zero again |

## Left out

- The APIs that are only declared (evbuffer, bufferevent, the event loop, evdns, evhttp, evrpc, evtag, decimal, key cache, MEM_ROOT, charset and collation handlers, the XML parser): there are no bodies to model.
- The bodies of `read_function`, `_my_b_get`, `write_function`, `setup_io_cache` and `my_b_flush_io_cache`, with SEQ_READ_APPEND, shared caches, locking and async I/O: they are not in the repository.
- IoCacheRuns.ReadingIsSequential: runs of successful calls only, because nothing in the repository says what a failed call leaves in the cache beside its error.
- IoCacheObject.IoCache.MyBRead: pointers are offsets into the buffer, so the sum of a pointer and a count near the top of the address space is not modelled; file offsets are unbounded.
- The cap on seconds at `include/mysql5.7/my_global.h:704-707`: inactive in this configuration (SIZEOF_TIME_T is 8), and the cap changes the seconds without the nanoseconds.
- Floating-point meaning: floats are bit patterns. `floatget`, `floatstore`, `longlongget`, `longlongstore` and `doubleget`/`doublestore` on hosts of pure byte order are plain memory copies.
- The `char *` overloads of `include/mysql5.7/my_byteorder.h:103-211`: casts to the functions modelled.
- Thread, sleep, file, socket and string wrappers of the C library: foreign calls.
- Handlers that drop or close the connection during a message, the table of handlers and types without one (`src/xplatform/xmsg_event.cpp:27-41`), the release of memory, byte counters and logging.
- Most of `src`: the services, the MySQL wrapper, configuration, windows, thread pool, log, authentication, SSL and file helpers, whose work is calls to foreign libraries.
