/** Loads and stores of fixed-width integers in the machine-independent format.
    Memory is an array of bytes; a pointer argument is an offset p into it.  Loads
    take the contents of memory as a sequence. */

/** Facts and primitives both implementations share. */
module Memory {
  import opened Machine
  import opened LittleEndian

  // Operators of the sources, with the reduction C performs.
  function Add32(x: uint32, y: uint32): (r: uint32)
    ensures x as int + y as int < 0x1_0000_0000 ==> r == x as int + y as int
  {
    ToU32(x as int + y as int)
  }

  function Add64(x: uint64, y: uint64): (r: uint64)
    ensures x as int + y as int < 0x1_0000_0000_0000_0000 ==> r == x as int + y as int
  {
    ToU64(x as int + y as int)
  }

  // `int` arithmetic; a sum or shift that leaves the range wraps.
  function AddInt(x: int32, y: int32): (r: int32)
    ensures -0x8000_0000 <= x as int + y as int < 0x8000_0000 ==> r == x as int + y as int
  {
    ToS32(x as int + y as int)
  }

  predicate IsShift(k: nat) { k in {8, 16, 24, 32, 40} }

  /** `x << k`, before the reduction to the operand's type. */
  function Shl(x: nat, k: nat): nat
    requires IsShift(k)
  {
    match k
    case 8 => x * 0x100
    case 16 => x * 0x1_0000
    case 24 => x * 0x100_0000
    case 32 => x * 0x1_0000_0000
    case _ => x * 0x100_0000_0000
  }

  function Shl32(x: uint32, k: nat): (r: uint32)
    requires IsShift(k)
    ensures Shl(x, k) < 0x1_0000_0000 ==> r == Shl(x, k)
  {
    ToU32(Shl(x, k))
  }

  function Shl64(x: uint64, k: nat): (r: uint64)
    requires IsShift(k)
    ensures Shl(x, k) < 0x1_0000_0000_0000_0000 ==> r == Shl(x, k)
  {
    ToU64(Shl(x, k))
  }

  function ShlInt(x: byte, k: nat): (r: int32)
    requires IsShift(k)
    ensures Shl(x, k) < 0x8000_0000 ==> r == Shl(x, k)
  {
    ToS32(Shl(x, k))
  }

  /** a + b<<8 + c<<16 + d<<24, computed without any reduction. */
  function Sum(a: int, b: int, c: int, d: int): int
  {
    a + 0x100 * b + 0x1_0000 * c + 0x100_0000 * d
  }

  /** Shifts and casts take a sum apart again, whatever the sign of its top digit. */
  lemma SumDigits(a: byte, b: byte, c: byte, d: int)
    ensures var s := Sum(a, b, c, d);
      && s % 0x100 == a && s / 0x100 % 0x100 == b && s / 0x1_0000 % 0x100 == c
      && s / 0x1_0000 == c as int + 0x100 * d && s / 0x100_0000 == d
  {
    var s := Sum(a, b, c, d);
    var s1, s2 := b as int + 0x100 * (c as int) + 0x1_0000 * d, c as int + 0x100 * d;
    DivModUnique(s, 0x100, s1, a);
    DivModUnique(s1, 0x100, s2, b);
    DivModUnique(s2, 0x100, d, c);
    DivModUnique(s, 0x1_0000, s2, a as int + 0x100 * (b as int));
    DivModUnique(s, 0x100_0000, d, a as int + 0x100 * (b as int) + 0x1_0000 * (c as int));
  }

  /** The four-byte sum of the portable loads, in 32-bit arithmetic. */
  function ShiftSum32(a: byte, b: byte, c: byte, d: byte): (r: uint32)
    ensures r == Sum(a, b, c, d)
  {
    var x := Add32(a, Shl32(b, 8));
    assert x == Sum(a, b, 0, 0);
    var y := Add32(x, Shl32(c, 16));
    assert y == Sum(a, b, c, 0);
    Add32(y, Shl32(d, 24))
  }

  /** Only the shift of the top byte can leave the range of `int`; what it wraps to
      is the two's-complement weight of that byte, and the sum stays in range. */
  lemma SignedTop(low: nat, d: byte)
    requires low < 0x100_0000
    ensures var top := if d < 128 then d as int else d as int - 256;
      && ShlInt(d, 24) == top * 0x100_0000
      && AddInt(low, ShlInt(d, 24)) == low + top * 0x100_0000
      && TwosComplement(0x1_0000_0000, low + 0x100_0000 * (d as int)) == low + top * 0x100_0000
  {
    TopShift(d);
    TopReading(low, d);
  }

  lemma TopShift(d: byte)
    ensures ShlInt(d, 24) == (if d < 128 then d as int else d as int - 256) * 0x100_0000
  {
  }

  lemma TopReading(low: nat, d: byte)
    requires low < 0x100_0000
    ensures var x := low + 0x100_0000 * (d as int);
      TwosComplement(0x1_0000_0000, x) == if d < 128 then x else x - 0x1_0000_0000
  {
    DivModUnique(low + 0x100_0000 * (d as int), 0x1_0000_0000, 0, low + 0x100_0000 * (d as int));
  }

  /** The same sum in `int` arithmetic. */
  function SignedSum32(a: byte, b: byte, c: byte, d: byte): (r: int32)
    ensures r == TwosComplement(0x1_0000_0000, Sum(a, b, c, d))
  {
    TopOfSum(LowSum(a, b, c), a, b, c, d);
    AddInt(LowSum(a, b, c), ShlInt(d, 24))
  }

  lemma TopOfSum(low: nat, a: byte, b: byte, c: byte, d: byte)
    requires low == Sum(a, b, c, 0) && low < 0x100_0000
    ensures AddInt(low, ShlInt(d, 24)) == TwosComplement(0x1_0000_0000, Sum(a, b, c, d))
  {
    assert Sum(a, b, c, d) == low + 0x100_0000 * (d as int);
    SignedTop(low, d);
  }

  function LowSum(a: byte, b: byte, c: byte): (r: int32)
    ensures r == Sum(a, b, c, 0) && 0 <= r < 0x100_0000
  {
    var x := AddInt(a, ShlInt(b, 8));
    assert x == Sum(a, b, 0, 0);
    AddInt(x, ShlInt(c, 16))
  }

  /** Setting the eight bits above a negative 24-bit number extends its sign. */
  lemma SignExtend24(v: nat)
    requires v < 0x100_0000
    ensures TwosComplement(0x100_0000, v) == ToS32(if v < 0x80_0000 then v else 0xFF00_0000 + v)
  {
  }

  lemma Pow2Bytes()
    ensures Pow2(7) == 0x80 && Pow2(8) == 0x100 && Pow2(16) == 0x1_0000 && Pow2(24) == 0x100_0000
  {
  }

  lemma Value2(m: seq<byte>, p: nat)
    requires p + 2 <= |m|
    ensures Value(m[p..p + 2]) == Sum(m[p], m[p + 1], 0, 0)
  {
    ValueStep(m, p, p + 2);
    ValueStep(m, p + 1, p + 2);
    ValueEmpty(m, p + 2);
  }

  lemma Value3(m: seq<byte>, p: nat)
    requires p + 3 <= |m|
    ensures Value(m[p..p + 3]) == Sum(m[p], m[p + 1], m[p + 2], 0)
  {
    ValueStep(m, p, p + 3);
    Value2(m, p + 1);
  }

  lemma Value4(m: seq<byte>, p: nat)
    requires p + 4 <= |m|
    ensures Value(m[p..p + 4]) == Sum(m[p], m[p + 1], m[p + 2], m[p + 3])
  {
    ValueStep(m, p, p + 4);
    Value3(m, p + 1);
  }

  lemma ValueSplit4(m: seq<byte>, p: nat, n: nat)
    requires p + 4 + n <= |m|
    ensures Value(m[p..p + 4 + n]) == Value(m[p..p + 4]) + 0x1_0000_0000 * Value(m[p + 4..p + 4 + n])
  {
    Pow256Values();
    ValueAppend(m[p..p + 4], m[p + 4..p + 4 + n]);
    assert m[p..p + 4 + n] == m[p..p + 4] + m[p + 4..p + 4 + n];
  }

  lemma Encode4(v: nat)
    ensures Encode(4, v) == [v % 256, v / 0x100 % 256, v / 0x1_0000 % 256, v / 0x100_0000 % 256]
    ensures High(v, 4) == v / 0x1_0000_0000
  {
    Half(v);
    Shifts(v);
    var a, b, c := v / 0x100, v / 0x1_0000, v / 0x100_0000;
    assert Encode(1, c) == [c % 256] + Encode(0, c / 256);
    assert Encode(2, b) == [b % 256] + Encode(1, c);
    assert Encode(3, a) == [a % 256] + Encode(2, b);
    assert Encode(4, v) == [v % 256] + Encode(3, a);
  }

  lemma Shifts(v: nat)
    ensures v / 0x100 / 256 == v / 0x1_0000 && v / 0x1_0000 / 256 == v / 0x100_0000
  {
  }

  lemma Encode3(v: nat)
    ensures Encode(3, v) == [v % 256, v / 0x100 % 256, v / 0x1_0000 % 256]
  {
    Encode4(v);
    EncodeSplit(3, 1, v);
    assert Encode(3, v) == Encode(4, v)[..3];
  }

  lemma Encode6(v: nat)
    ensures Encode(6, v) == Encode(4, v) + [v / 0x1_0000_0000 % 256, v / 0x100_0000_0000 % 256]
    ensures Encode(5, v) == Encode(4, v) + [v / 0x1_0000_0000 % 256]
  {
    var h := High(v, 4);
    assert h == v / 0x1_0000_0000 by { Encode4(v); }
    DivScale(v, 0x1_0000_0000, 0x100);
    EncodeSplit(4, 2, v);
    EncodeSplit(4, 1, v);
    Encode2(h);
    EncodeOne(h);
  }

  /** The low 32 bits have the low four bytes; shifting them out leaves the others. */
  lemma Half(v: nat)
    ensures Encode(4, ToU32(v)) == Encode(4, v) && High(v, 4) == v / 0x1_0000_0000
  {
    Pow256Values();
    EncodeLow(4, v);
    HighIsQuotient(v, 4);
  }

  /** The eight bytes of a 64-bit number are those of its two halves. */
  lemma Encode8(v: uint64)
    ensures Encode(8, v) == Encode(4, ToU32(v)) + Encode(4, ToU32(v / 0x1_0000_0000))
  {
    Half(v);
    Half(v / 0x1_0000_0000);
    EncodeSplit(4, 4, v);
  }

  lemma Encode2(v: nat)
    ensures Encode(2, v) == [v % 256, v / 0x100 % 256]
  {
  }

  /** A word access by the host's own load instruction, at any offset. */
  function LoadWord(h: Host, n: nat, m: seq<byte>, p: nat): nat
    requires p + n <= |m|
  {
    WordValue(h, m[p..p + n])
  }

  /** memcpy of a byte string into memory. */
  method CopyTo(T: array<byte>, p: nat, bs: seq<byte>)
    requires p + |bs| <= T.Length
    modifies T
    ensures T[..] == Put(old(T[..]), p, bs)
  {
    forall i | 0 <= i < |bs| {
      T[p + i] := bs[i];
    }
    assert forall i :: 0 <= i < |bs| ==> T[..][p + i] == bs[i];
    PutUnique(old(T[..]), p, bs, T[..]);
  }

  /** A word access by the host's own store instruction, at any offset. */
  method StoreWord(h: Host, n: nat, T: array<byte>, p: nat, v: nat)
    requires p + n <= T.Length
    modifies T
    ensures T[..] == Put(old(T[..]), p, WordBytes(h, n, v))
  {
    CopyTo(T, p, WordBytes(h, n, v));
  }

  /** A load that meets the wire format at one window of memory. */
  lemma LoadWordLittle(n: nat, m: seq<byte>, p: nat)
    requires p + n <= |m|
    ensures LoadWord(Little, n, m, p) == Value(m[p..p + n])
  {
    WordValueIsValue(Little, m[p..p + n]);
  }
}

/** byte_order_generic.h: shifts and sums, for any host. */
module ByteOrderGeneric {
  import opened Machine
  import opened LittleEndian
  import opened Memory

  function Sint2korr(m: seq<byte>, p: nat): (r: int16)
    requires p + 2 <= |m|
    ensures r == TwosComplement(0x1_0000, Value(m[p..p + 2]))
  {
    Value2(m, p);
    ToS16(AddInt(m[p], ShlInt(m[p + 1], 8)))
  }

  function Sint4korr(m: seq<byte>, p: nat): (r: int32)
    requires p + 4 <= |m|
    ensures r == TwosComplement(0x1_0000_0000, Value(m[p..p + 4]))
  {
    Value4(m, p);
    SignedSum32(m[p], m[p + 1], m[p + 2], m[p + 3])
  }

  function Uint2korr(m: seq<byte>, p: nat): (r: uint16)
    requires p + 2 <= |m|
    ensures r == Value(m[p..p + 2])
  {
    Value2(m, p);
    ToU16(AddInt(m[p], ShlInt(m[p + 1], 8)))
  }

  function Uint4korr(m: seq<byte>, p: nat): (r: uint32)
    requires p + 4 <= |m|
    ensures r == Value(m[p..p + 4])
  {
    Value4(m, p);
    ShiftSum32(m[p], m[p + 1], m[p + 2], m[p + 3])
  }

  function Uint8korr(m: seq<byte>, p: nat): (r: uint64)
    requires p + 8 <= |m|
    ensures r == Value(m[p..p + 8])
  {
    Value4(m, p);
    Value4(m, p + 4);
    ValueSplit4(m, p, 4);
    var low := ShiftSum32(m[p], m[p + 1], m[p + 2], m[p + 3]);
    var high := ShiftSum32(m[p + 4], m[p + 5], m[p + 6], m[p + 7]);
    Add64(low, Shl64(high, 32))
  }

  function Sint8korr(m: seq<byte>, p: nat): (r: int64)
    requires p + 8 <= |m|
    ensures r == TwosComplement(0x1_0000_0000_0000_0000, Value(m[p..p + 8]))
  {
    ToS64(Uint8korr(m, p))
  }

  method Int2store(T: array<byte>, p: nat, A: uint16)
    requires p + 2 <= T.Length
    modifies T
    ensures T[..] == Put(old(T[..]), p, Encode(2, A))
  {
    var defTemp: uint32 := A;
    T[p] := ToByte(defTemp);
    T[p + 1] := ToByte(defTemp / 0x100);
    Encode2(A);
    PutUnique(old(T[..]), p, Encode(2, A), T[..]);
  }

  method Int4store(T: array<byte>, p: nat, A: uint32)
    requires p + 4 <= T.Length
    modifies T
    ensures T[..] == Put(old(T[..]), p, Encode(4, A))
  {
    T[p] := ToByte(A);
    T[p + 1] := ToByte(A / 0x100);
    T[p + 2] := ToByte(A / 0x1_0000);
    T[p + 3] := ToByte(A / 0x100_0000);
    Encode4(A);
    PutUnique(old(T[..]), p, Encode(4, A), T[..]);
  }

  method Int8store(T: array<byte>, p: nat, A: uint64)
    requires p + 8 <= T.Length
    modifies T
    ensures T[..] == Put(old(T[..]), p, Encode(8, A))
  {
    var defTemp := ToU32(A);
    var defTemp2 := ToU32(A / 0x1_0000_0000);
    Int4store(T, p, defTemp);
    Int4store(T, p + 4, defTemp2);
    Encode8(A);
    PutAdjacent(old(T[..]), p, Encode(4, defTemp), Encode(4, defTemp2));
  }
}

/** byte_order_generic_x86.h: one access by the machine's own load or store. */
module ByteOrderX86 {
  import opened Machine
  import opened LittleEndian
  import opened Memory

  function Sint2korr(m: seq<byte>, p: nat): (r: int16)
    requires p + 2 <= |m|
    ensures r == TwosComplement(0x1_0000, Value(m[p..p + 2]))
  {
    LoadWordLittle(2, m, p);
    ToS16(LoadWord(Little, 2, m, p))
  }

  function Sint4korr(m: seq<byte>, p: nat): (r: int32)
    requires p + 4 <= |m|
    ensures r == TwosComplement(0x1_0000_0000, Value(m[p..p + 4]))
  {
    LoadWordLittle(4, m, p);
    ToS32(LoadWord(Little, 4, m, p))
  }

  function Uint2korr(m: seq<byte>, p: nat): (r: uint16)
    requires p + 2 <= |m|
    ensures r == Value(m[p..p + 2])
  {
    LoadWordLittle(2, m, p);
    Value2(m, p);
    LoadWord(Little, 2, m, p)
  }

  function Uint4korr(m: seq<byte>, p: nat): (r: uint32)
    requires p + 4 <= |m|
    ensures r == Value(m[p..p + 4])
  {
    LoadWordLittle(4, m, p);
    Value4(m, p);
    LoadWord(Little, 4, m, p)
  }

  function Uint8korr(m: seq<byte>, p: nat): (r: uint64)
    requires p + 8 <= |m|
    ensures r == Value(m[p..p + 8])
  {
    LoadWordLittle(8, m, p);
    ValueBound(m[p..p + 8]);
    Pow256Values();
    LoadWord(Little, 8, m, p)
  }

  function Sint8korr(m: seq<byte>, p: nat): (r: int64)
    requires p + 8 <= |m|
    ensures r == TwosComplement(0x1_0000_0000_0000_0000, Value(m[p..p + 8]))
  {
    LoadWordLittle(8, m, p);
    ToS64(LoadWord(Little, 8, m, p))
  }

  method Int2store(T: array<byte>, p: nat, A: uint16)
    requires p + 2 <= T.Length
    modifies T
    ensures T[..] == Put(old(T[..]), p, Encode(2, A))
  {
    StoreWord(Little, 2, T, p, A);
    WordBytesIsEncode(Little, 2, A);
  }

  method Int4store(T: array<byte>, p: nat, A: uint32)
    requires p + 4 <= T.Length
    modifies T
    ensures T[..] == Put(old(T[..]), p, Encode(4, A))
  {
    StoreWord(Little, 4, T, p, A);
    WordBytesIsEncode(Little, 4, A);
  }

  method Int8store(T: array<byte>, p: nat, A: uint64)
    requires p + 8 <= T.Length
    modifies T
    ensures T[..] == Put(old(T[..]), p, Encode(8, A))
  {
    StoreWord(Little, 8, T, p, A);
    WordBytesIsEncode(Little, 8, A);
  }
}

/** my_byteorder.h: selects one of the two implementations, and adds the widths
    for which there is no machine word. */
module MyByteorder {
  import opened Machine
  import opened LittleEndian
  import opened Memory
  import Generic = ByteOrderGeneric
  import X86 = ByteOrderX86

  /** Which of the two headers the build includes. */
  datatype Build = UsesX86 | UsesGeneric

  lemma OrShifted(hi: nat, lo: nat)
    ensures lo < 0x100 ==> BitOr(hi * 0x100, lo) == hi * 0x100 + lo
    ensures lo < 0x1_0000 ==> BitOr(hi * 0x1_0000, lo) == hi * 0x1_0000 + lo
    ensures lo < 0x100_0000 ==> BitOr(hi * 0x100_0000, lo) == hi * 0x100_0000 + lo
  {
    Pow2Bytes();
    if lo < 0x100 {
      OrIsSum(8, hi, lo);
    }
    if lo < 0x1_0000 {
      OrIsSum(16, hi, lo);
    }
    if lo < 0x100_0000 {
      OrIsSum(24, hi, lo);
    }
  }

  lemma Sint3Negative(a: byte, b: byte, c: byte)
    ensures BitOr(BitOr(BitOr(Shl32(255, 24), Shl32(c, 16)), Shl32(b, 8)), a) == Sum(a, b, c, 255)
  {
    var x: int, y: int, z: int := a, b, c;
    var top := BitOr(Shl32(255, 24), Shl32(c, 16));
    assert top == (255 * 0x100 + z) * 0x1_0000 by {
      OrShifted(255, z * 0x1_0000);
    }
    var mid := BitOr(top, Shl32(b, 8));
    assert mid == (255 * 0x1_0000 + z * 0x100 + y) * 0x100 by {
      OrShifted(255 * 0x100 + z, y * 0x100);
    }
    OrShifted(255 * 0x1_0000 + z * 0x100 + y, x);
  }

  lemma Sint3Positive(a: byte, b: byte, c: byte)
    ensures BitOr(BitOr(Shl32(c, 16), Shl32(b, 8)), a) == Sum(a, b, c, 0)
  {
    var x: int, y: int, z: int := a, b, c;
    OrShifted(z, y * 0x100);
    OrShifted(z * 0x100 + y, x);
  }

  lemma TopBit(x: byte)
    ensures BitAnd(x, 128) != 0 <==> x >= 128
  {
    Pow2Bytes();
    HighMask(8, 7, x);
    RoundToTop(x);
  }

  lemma RoundToTop(x: byte)
    ensures RoundDown(x % 256, 128) == if x >= 128 then 128 else 0
  {
  }

  function Sint3korr(m: seq<byte>, p: nat): (r: int32)
    requires p + 3 <= |m|
    ensures r == TwosComplement(0x100_0000, Value(m[p..p + 3]))
  {
    Value3(m, p);
    TopBit(m[p + 2]);
    Sint3Negative(m[p], m[p + 1], m[p + 2]);
    Sint3Positive(m[p], m[p + 1], m[p + 2]);
    SignExtend24(Value(m[p..p + 3]));
    ToS32(if BitAnd(m[p + 2], 128) != 0
          then BitOr(BitOr(BitOr(Shl32(255, 24), Shl32(m[p + 2], 16)), Shl32(m[p + 1], 8)), m[p])
          else BitOr(BitOr(Shl32(m[p + 2], 16), Shl32(m[p + 1], 8)), m[p]))
  }

  function Uint3korr(m: seq<byte>, p: nat): (r: uint32)
    requires p + 3 <= |m|
    ensures r == Value(m[p..p + 3])
  {
    Value3(m, p);
    Add32(Add32(m[p], Shl32(m[p + 1], 8)), Shl32(m[p + 2], 16))
  }

  function Uint5korr(m: seq<byte>, p: nat): (r: uint64)
    requires p + 5 <= |m|
    ensures r == Value(m[p..p + 5])
  {
    Value4(m, p);
    ValueSplit4(m, p, 1);
    ValueStep(m, p + 4, p + 5);
    ValueEmpty(m, p + 5);
    var low := ShiftSum32(m[p], m[p + 1], m[p + 2], m[p + 3]);
    Add64(low, Shl64(m[p + 4], 32))
  }

  function Uint6korr(m: seq<byte>, p: nat): (r: uint64)
    requires p + 6 <= |m|
    ensures r == Value(m[p..p + 6])
  {
    Value4(m, p);
    ValueSplit4(m, p, 2);
    Value2(m, p + 4);
    var low := ShiftSum32(m[p], m[p + 1], m[p + 2], m[p + 3]);
    Add64(Add64(low, Shl64(m[p + 4], 32)), Shl64(m[p + 5], 40))
  }

  method Int3store(T: array<byte>, p: nat, A: uint32)
    requires p + 3 <= T.Length
    modifies T
    ensures T[..] == Put(old(T[..]), p, Encode(3, A))
  {
    T[p] := ToByte(A);
    T[p + 1] := ToByte(A / 0x100);
    T[p + 2] := ToByte(A / 0x1_0000);
    Encode3(A);
    PutUnique(old(T[..]), p, Encode(3, A), T[..]);
  }

  method Int5store(T: array<byte>, p: nat, A: uint64)
    requires p + 5 <= T.Length
    modifies T
    ensures T[..] == Put(old(T[..]), p, Encode(5, A))
  {
    T[p] := ToByte(A);
    T[p + 1] := ToByte(A / 0x100);
    T[p + 2] := ToByte(A / 0x1_0000);
    T[p + 3] := ToByte(A / 0x100_0000);
    T[p + 4] := ToByte(A / 0x1_0000_0000);
    Encode4(A);
    Encode6(A);
    PutUnique(old(T[..]), p, Encode(5, A), T[..]);
  }

  method Int6store(T: array<byte>, p: nat, A: uint64)
    requires p + 6 <= T.Length
    modifies T
    ensures T[..] == Put(old(T[..]), p, Encode(6, A))
  {
    T[p] := ToByte(A);
    T[p + 1] := ToByte(A / 0x100);
    T[p + 2] := ToByte(A / 0x1_0000);
    T[p + 3] := ToByte(A / 0x100_0000);
    T[p + 4] := ToByte(A / 0x1_0000_0000);
    T[p + 5] := ToByte(A / 0x100_0000_0000);
    Encode4(A);
    Encode6(A);
    PutUnique(old(T[..]), p, Encode(6, A), T[..]);
  }

  // ----- every width at once

  predicate IsWidth(n: nat) { n in {2, 3, 4, 5, 6, 8} }

  /** The unsigned load of width n in a given build. */
  function UintKorr(b: Build, n: nat, m: seq<byte>, p: nat): (r: nat)
    requires IsWidth(n) && p + n <= |m|
    ensures r == Value(m[p..p + n])
  {
    match n
    case 2 => if b == UsesX86 then X86.Uint2korr(m, p) else Generic.Uint2korr(m, p)
    case 3 => Uint3korr(m, p)
    case 4 => if b == UsesX86 then X86.Uint4korr(m, p) else Generic.Uint4korr(m, p)
    case 5 => Uint5korr(m, p)
    case 6 => Uint6korr(m, p)
    case _ => if b == UsesX86 then X86.Uint8korr(m, p) else Generic.Uint8korr(m, p)
  }

  predicate IsSignedWidth(n: nat) { n in {2, 3, 4, 8} }

  /** The signed load of width n in a given build. */
  function SintKorr(b: Build, n: nat, m: seq<byte>, p: nat): (r: int)
    requires IsSignedWidth(n) && p + n <= |m|
    ensures Pow256(n) > 0 && r == TwosComplement(Pow256(n), Value(m[p..p + n]))
  {
    Pow256Values();
    match n
    case 2 => if b == UsesX86 then X86.Sint2korr(m, p) else Generic.Sint2korr(m, p)
    case 3 => Sint3korr(m, p)
    case 4 => if b == UsesX86 then X86.Sint4korr(m, p) else Generic.Sint4korr(m, p)
    case _ => if b == UsesX86 then X86.Sint8korr(m, p) else Generic.Sint8korr(m, p)
  }

  /** The store of width n in a given build; the argument is converted to the
      parameter type of that store, as C does at the call. */
  method IntStore(b: Build, n: nat, T: array<byte>, p: nat, v: int)
    requires IsWidth(n) && p + n <= T.Length
    modifies T
    ensures T[..] == Put(old(T[..]), p, EncodeInt(n, v))
  {
    Pow256Values();
    StoredDigits(n, v);
    match n
    case 2 => if b == UsesX86 { X86.Int2store(T, p, ToU16(v)); } else { Generic.Int2store(T, p, ToU16(v)); }
    case 3 => Int3store(T, p, ToU32(v));
    case 4 => if b == UsesX86 { X86.Int4store(T, p, ToU32(v)); } else { Generic.Int4store(T, p, ToU32(v)); }
    case 5 => Int5store(T, p, ToU64(v));
    case 6 => Int6store(T, p, ToU64(v));
    case _ => if b == UsesX86 { X86.Int8store(T, p, ToU64(v)); } else { Generic.Int8store(T, p, ToU64(v)); }
  }

  /** The wire bytes of a signed or unsigned number of width n. */
  function EncodeInt(n: nat, v: int): (bs: seq<byte>)
    ensures |bs| == n && Value(bs) == Residue(n, v)
  {
    ValueEncodeSmall(n, Residue(n, v));
    Encode(n, Residue(n, v))
  }

  /** Converting to a k-byte parameter first does not change the low n <= k bytes. */
  lemma StoredLow(n: nat, k: nat, v: int)
    requires n <= k
    ensures Pow256(k) > 0 && v % Pow256(k) >= 0
    ensures Encode(n, v % Pow256(k)) == EncodeInt(n, v)
  {
    Pow256Positive(n);
    Pow256Positive(k);
    Pow256Positive(k - n);
    ModRange(v, Pow256(k));
    EncodeLow(n, v % Pow256(k));
    Pow256Add(n, k - n);
    ModOfMod(v, Pow256(n), Pow256(k - n));
  }

  lemma StoredDigits(n: nat, v: int)
    requires IsWidth(n)
    ensures n <= 2 ==> Encode(n, ToU16(v)) == EncodeInt(n, v)
    ensures n <= 4 ==> Encode(n, ToU32(v)) == EncodeInt(n, v)
    ensures n <= 8 ==> Encode(n, ToU64(v)) == EncodeInt(n, v)
  {
    Pow256Values();
    if n <= 2 {
      StoredLow(n, 2, v);
    }
    if n <= 4 {
      StoredLow(n, 4, v);
    }
    StoredLow(n, 8, v);
  }
}
