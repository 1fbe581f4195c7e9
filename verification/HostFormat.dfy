/** big_endian.h and little_endian.h.  Floats are bit patterns: a float or double
    object of pattern v on host h occupies the bytes WordBytes(h, 4 or 8, v).  The
    `float4`/`float8` functions use the machine-independent format, the others the
    format of the host. */

module BigEndianHost {
  import opened Machine
  import opened LittleEndian
  import opened Memory

  method Float4store(T: array<byte>, p: nat, A: uint32)
    requires p + 4 <= T.Length
    modifies T
    ensures T[..] == Put(old(T[..]), p, Encode(4, A))
  {
    var obj := WordBytes(Big, 4, A);
    T[p] := obj[3];
    T[p + 1] := obj[2];
    T[p + 2] := obj[1];
    T[p + 3] := obj[0];
    ReversedObject(4, A);
    PutUnique(old(T[..]), p, Encode(4, A), T[..]);
  }

  method Float4get(M: seq<byte>, p: nat) returns (V: nat)
    requires p + 4 <= |M|
    ensures V == Value(M[p..p + 4])
  {
    var defTemp := new byte[4];
    defTemp[0] := M[p + 3];
    defTemp[1] := M[p + 2];
    defTemp[2] := M[p + 1];
    defTemp[3] := M[p];
    V := WordValue(Big, defTemp[..]);
    ReversedWindow(M[p..p + 4], defTemp[..]);
  }

  method Float8store(T: array<byte>, p: nat, V: uint64)
    requires p + 8 <= T.Length
    modifies T
    ensures T[..] == Put(old(T[..]), p, Encode(8, V))
  {
    var obj := WordBytes(Big, 8, V);
    T[p] := obj[7];
    T[p + 1] := obj[6];
    T[p + 2] := obj[5];
    T[p + 3] := obj[4];
    T[p + 4] := obj[3];
    T[p + 5] := obj[2];
    T[p + 6] := obj[1];
    T[p + 7] := obj[0];
    ReversedObject(8, V);
    PutUnique(old(T[..]), p, Encode(8, V), T[..]);
  }

  method Float8get(M: seq<byte>, p: nat) returns (V: nat)
    requires p + 8 <= |M|
    ensures V == Value(M[p..p + 8])
  {
    var defTemp := new byte[8];
    defTemp[0] := M[p + 7];
    defTemp[1] := M[p + 6];
    defTemp[2] := M[p + 5];
    defTemp[3] := M[p + 4];
    defTemp[4] := M[p + 3];
    defTemp[5] := M[p + 2];
    defTemp[6] := M[p + 1];
    defTemp[7] := M[p];
    V := WordValue(Big, defTemp[..]);
    ReversedWindow(M[p..p + 8], defTemp[..]);
  }

  /** Byte i of the wire form of v is byte n-1-i of the object on this host. */
  lemma ReversedObject(n: nat, v: nat)
    ensures forall i :: 0 <= i < n ==> Encode(n, v)[i] == WordBytes(Big, n, v)[n - 1 - i]
  {
  }

  /** An object filled with the wire bytes in reverse order holds their value. */
  lemma ReversedWindow(wire: seq<byte>, obj: seq<byte>)
    requires |wire| == |obj|
    requires forall i :: 0 <= i < |wire| ==> obj[i] == wire[|wire| - 1 - i]
    ensures WordValue(Big, obj) == Value(wire)
  {
  }

  lemma BigWord2(bs: seq<byte>)
    requires |bs| == 2
    ensures WordValue(Big, bs) == 0x100 * (bs[0] as int) + bs[1] as int
  {
    assert bs[..1][..0] == [];
    assert WordValue(Big, bs[..1]) == WordValue(Big, []) * 256 + bs[0] as int;
  }

  method Ushortget(pM: seq<byte>, p: nat) returns (V: uint16)
    requires p + 2 <= |pM|
    ensures V == LoadWord(Big, 2, pM, p)
  {
    V := ToU16(AddInt(pM[p + 1], ShlInt(pM[p], 8)));
    BigWord2(pM[p..p + 2]);
  }

  method Shortget(pM: seq<byte>, p: nat) returns (V: int16)
    requires p + 2 <= |pM|
    ensures V == TwosComplement(0x1_0000, LoadWord(Big, 2, pM, p))
  {
    BigWord2(pM[p..p + 2]);
    V := ToS16(AddInt(pM[p + 1], ShlInt(pM[p], 8)));
  }

  method Ulongget(pM: seq<byte>, p: nat) returns (V: nat)
    requires p + 4 <= |pM|
    ensures V == LoadWord(Big, 4, pM, p)
  {
    var defTemp := new byte[4];
    defTemp[0] := pM[p];
    defTemp[1] := pM[p + 1];
    defTemp[2] := pM[p + 2];
    defTemp[3] := pM[p + 3];
    V := WordValue(Big, defTemp[..]);
    assert defTemp[..] == pM[p..p + 4];
  }

  method Longget(pM: seq<byte>, p: nat) returns (V: int32)
    requires p + 4 <= |pM|
    ensures V == TwosComplement(0x1_0000_0000, LoadWord(Big, 4, pM, p))
  {
    var word := Ulongget(pM, p);
    V := ToS32(word);
  }

  /** Shifting a negative `int` right and keeping the low byte gives the byte of its
      unsigned conversion. */
  lemma SignedBytes(A: int32)
    ensures ToByte(A) == ToU32(A) % 256 == ToU16(A) % 256
    ensures ToByte(A / 0x100) == ToU32(A) / 0x100 % 256 == ToU16(A) / 0x100 % 256
    ensures ToByte(A / 0x1_0000) == ToU32(A) / 0x1_0000 % 256
    ensures ToByte(A / 0x100_0000) == ToU32(A) / 0x100_0000 % 256
  {
    DigitOfResidue(A, 1, 0x100, 0x100_0000);
    DigitOfResidue(A, 1, 0x100, 0x100);
    DigitOfResidue(A, 0x100, 0x100, 0x1_0000);
    DigitOfResidue(A, 0x100, 0x100, 1);
    DigitOfResidue(A, 0x1_0000, 0x100, 0x100);
    DigitOfResidue(A, 0x100_0000, 0x100, 1);
  }

  method Shortstore(T: array<byte>, p: nat, A: int16)
    requires p + 2 <= T.Length
    modifies T
    ensures T[..] == Put(old(T[..]), p, WordBytes(Big, 2, ToU16(A)))
  {
    var defTemp := ToU32(A);
    T[p + 1] := ToByte(defTemp);
    T[p] := ToByte(defTemp / 0x100);
    SignedBytes(A);
    Encode2(ToU16(A));
    ReversedObject(2, ToU16(A));
    PutUnique(old(T[..]), p, WordBytes(Big, 2, ToU16(A)), T[..]);
  }

  lemma LongObject(A: int32)
    ensures WordBytes(Big, 4, ToU32(A))
         == [ToByte(A / 0x100_0000), ToByte(A / 0x1_0000), ToByte(A / 0x100), ToByte(A)]
  {
    SignedBytes(A);
    BigObject4(ToU32(A));
  }

  lemma BigObject4(v: uint32)
    ensures WordBytes(Big, 4, v) == [v / 0x100_0000 % 256, v / 0x1_0000 % 256, v / 0x100 % 256, v % 256]
  {
    Encode4(v);
    ReversedObject(4, v);
  }

  method Longstore(T: array<byte>, p: nat, A: int32)
    requires p + 4 <= T.Length
    modifies T
    ensures T[..] == Put(old(T[..]), p, WordBytes(Big, 4, ToU32(A)))
  {
    T[p + 3] := ToByte(A);
    T[p + 2] := ToByte(A / 0x100);
    T[p + 1] := ToByte(A / 0x1_0000);
    T[p] := ToByte(A / 0x100_0000);
    LongObject(A);
    PutUnique(old(T[..]), p, WordBytes(Big, 4, ToU32(A)), T[..]);
  }
}

module LittleEndianHost {
  import opened Machine
  import opened LittleEndian
  import opened Memory
  import opened MyByteorder

  method Float4store(V: array<byte>, p: nat, M: uint32)
    requires p + 4 <= V.Length
    modifies V
    ensures V[..] == Put(old(V[..]), p, Encode(4, M))
  {
    CopyTo(V, p, WordBytes(Little, 4, M));
    WordBytesIsEncode(Little, 4, M);
  }

  method Float4get(M: seq<byte>, p: nat) returns (V: nat)
    requires p + 4 <= |M|
    ensures V == Value(M[p..p + 4])
  {
    V := WordValue(Little, M[p..p + 4]);
    WordValueIsValue(Little, M[p..p + 4]);
  }

  method Float8store(V: array<byte>, p: nat, M: uint64)
    requires p + 8 <= V.Length
    modifies V
    ensures V[..] == Put(old(V[..]), p, Encode(8, M))
  {
    CopyTo(V, p, WordBytes(Little, 8, M));
    WordBytesIsEncode(Little, 8, M);
  }

  method Float8get(M: seq<byte>, p: nat) returns (V: nat)
    requires p + 8 <= |M|
    ensures V == Value(M[p..p + 8])
  {
    V := WordValue(Little, M[p..p + 8]);
    WordValueIsValue(Little, M[p..p + 8]);
  }

  method Ushortget(b: Build, pM: seq<byte>, p: nat) returns (V: nat)
    requires p + 2 <= |pM|
    ensures V == LoadWord(Little, 2, pM, p)
  {
    V := UintKorr(b, 2, pM, p);
    LoadWordLittle(2, pM, p);
  }

  method Shortget(b: Build, pM: seq<byte>, p: nat) returns (V: int)
    requires p + 2 <= |pM|
    ensures V == TwosComplement(0x1_0000, LoadWord(Little, 2, pM, p))
  {
    V := SintKorr(b, 2, pM, p);
    LoadWordLittle(2, pM, p);
    Pow256Values();
  }

  method Ulongget(b: Build, pM: seq<byte>, p: nat) returns (V: nat)
    requires p + 4 <= |pM|
    ensures V == LoadWord(Little, 4, pM, p)
  {
    V := UintKorr(b, 4, pM, p);
    LoadWordLittle(4, pM, p);
  }

  method Longget(b: Build, pM: seq<byte>, p: nat) returns (V: int)
    requires p + 4 <= |pM|
    ensures V == TwosComplement(0x1_0000_0000, LoadWord(Little, 4, pM, p))
  {
    V := SintKorr(b, 4, pM, p);
    LoadWordLittle(4, pM, p);
    Pow256Values();
  }

  method Shortstore(b: Build, T: array<byte>, p: nat, V: int16)
    requires p + 2 <= T.Length
    modifies T
    ensures T[..] == Put(old(T[..]), p, WordBytes(Little, 2, ToU16(V)))
  {
    IntStore(b, 2, T, p, V);
    StoredDigits(2, V);
    WordBytesIsEncode(Little, 2, ToU16(V));
  }

  method Longstore(b: Build, T: array<byte>, p: nat, V: int32)
    requires p + 4 <= T.Length
    modifies T
    ensures T[..] == Put(old(T[..]), p, WordBytes(Little, 4, ToU32(V)))
  {
    IntStore(b, 4, T, p, V);
    StoredDigits(4, V);
    WordBytesIsEncode(Little, 4, ToU32(V));
  }

  // ----- hardware with little-endian integers and big-endian word order in doubles

  /** The two words of an eight-byte string exchanged. */
  function SwapWords(bs: seq<byte>): (r: seq<byte>)
    requires |bs| == 8
    ensures |r| == 8
  {
    bs[4..] + bs[..4]
  }

  /** The bytes of a double of pattern v on such hardware: high word first, each
      word low byte first. */
  function MixedObject(v: uint64): (bs: seq<byte>)
    ensures |bs| == 8
  {
    Encode(4, ToU32(v / 0x1_0000_0000)) + Encode(4, ToU32(v))
  }

  method MixedDoublestore(T: array<byte>, p: nat, V: uint64)
    requires p + 8 <= T.Length
    modifies T
    ensures T[..] == Put(old(T[..]), p, Encode(8, V))
  {
    var obj := MixedObject(V);
    T[p] := obj[4];
    T[p + 1] := obj[5];
    T[p + 2] := obj[6];
    T[p + 3] := obj[7];
    T[p + 4] := obj[0];
    T[p + 5] := obj[1];
    T[p + 6] := obj[2];
    T[p + 7] := obj[3];
    MixedIsSwapped(V);
    var wire := SwapWords(obj);
    assert wire == [obj[4], obj[5], obj[6], obj[7], obj[0], obj[1], obj[2], obj[3]];
    PutUnique(old(T[..]), p, wire, T[..]);
  }

  /** The bytes left in the caller's double. */
  method MixedDoubleget(M: seq<byte>, p: nat) returns (obj: seq<byte>)
    requires p + 8 <= |M|
    ensures obj == SwapWords(M[p..p + 8])
  {
    var defTemp := new byte[8];
    defTemp[0] := M[p + 4];
    defTemp[1] := M[p + 5];
    defTemp[2] := M[p + 6];
    defTemp[3] := M[p + 7];
    defTemp[4] := M[p];
    defTemp[5] := M[p + 1];
    defTemp[6] := M[p + 2];
    defTemp[7] := M[p + 3];
    obj := defTemp[..];
  }

  /** On such hardware `doublestore` writes the machine-independent bytes and
      `doubleget` rebuilds the same double from them. */
  lemma MixedIsSwapped(v: uint64)
    ensures SwapWords(MixedObject(v)) == Encode(8, v)
    ensures SwapWords(Encode(8, v)) == MixedObject(v)
  {
    Encode8(v);
  }

  /** There `float8store`, a plain copy, writes the machine-independent bytes only
      of the doubles whose two words are equal. */
  lemma MixedFloat8storeIsPortable(v: uint64)
    ensures MixedObject(v) == Encode(8, v) <==> v / 0x1_0000_0000 == v % 0x1_0000_0000
  {
    var hi, lo := ToU32(v / 0x1_0000_0000), ToU32(v);
    assert hi == v / 0x1_0000_0000;
    Encode8(v);
    Pow256Values();
    ValueEncodeSmall(4, hi);
    ValueEncodeSmall(4, lo);
    assert MixedObject(v)[..4] == Encode(4, hi);
    assert Encode(8, v)[..4] == Encode(4, lo);
  }
}

/** The selection made by WORDS_BIGENDIAN, and what it leaves unchanged. */
module HostFormat {
  import opened Machine
  import opened LittleEndian
  import opened MyByteorder
  import Be = BigEndianHost
  import Le = LittleEndianHost

  /** The wire bytes of a float or double do not depend on the host that writes them. */
  method FloatStore(h: Host, n: nat, T: array<byte>, p: nat, bits: nat)
    requires n == 4 || n == 8
    requires bits < Pow256(n) && p + n <= T.Length
    modifies T
    ensures T[..] == Put(old(T[..]), p, Encode(n, bits))
  {
    Pow256Values();
    if n == 4 {
      if h == Big { Be.Float4store(T, p, bits); } else { Le.Float4store(T, p, bits); }
    } else {
      if h == Big { Be.Float8store(T, p, bits); } else { Le.Float8store(T, p, bits); }
    }
  }

  /** What a host reads does not depend on the host either. */
  method FloatGet(h: Host, n: nat, M: seq<byte>, p: nat) returns (bits: nat)
    requires n == 4 || n == 8
    requires p + n <= |M|
    ensures bits == Value(M[p..p + n])
  {
    if n == 4 {
      if h == Big { bits := Be.Float4get(M, p); } else { bits := Le.Float4get(M, p); }
    } else {
      if h == Big { bits := Be.Float8get(M, p); } else { bits := Le.Float8get(M, p); }
    }
  }

  /** A float written on one host and read on any other is the same float. */
  method FloatAcrossHosts(writer: Host, reader: Host, n: nat, T: array<byte>, p: nat, bits: nat)
    returns (got: nat)
    requires n == 4 || n == 8
    requires bits < Pow256(n) && p + n <= T.Length
    modifies T
    ensures got == bits
    ensures T[..] == Put(old(T[..]), p, Encode(n, bits))
  {
    ghost var before := T[..];
    FloatStore(writer, n, T, p, bits);
    PutEffect(before, p, Encode(n, bits));
    got := FloatGet(reader, n, T[..], p);
    ValueEncodeSmall(n, bits);
  }

  /** Host words are inverse exactly on the values in range, signed or not. */
  lemma NativeRoundTrip(h: Host, n: nat, v: int)
    requires n in {2, 4, 8}
    ensures Pow256(n) > 0
    ensures var word := WordValue(h, WordBytes(h, n, Residue(n, v)));
      && word == Residue(n, v)
      && (word == v <==> 0 <= v < Pow256(n))
      && (TwosComplement(Pow256(n), word) == v <==> -(Pow256(n) / 2) <= v < Pow256(n) / 2)
  {
    WordRoundTrip(h, n, Residue(n, v), []);
    ModRange(Residue(n, v), Pow256(n));
    ResidueSmall(n, v);
    ResidueSigned(n, v);
  }

  /** shortstore, then shortget and ushortget, on a host of either byte order: every
      short comes back, and its unsigned conversion; nothing else is written. */
  method ShortAcrossMemory(h: Host, b: Build, T: array<byte>, p: nat, A: int16)
    returns (signed: int, unsigned: int)
    requires p + 2 <= T.Length
    modifies T
    ensures signed == A && unsigned == ToU16(A)
    ensures T[..] == Put(old(T[..]), p, WordBytes(h, 2, ToU16(A)))
  {
    ghost var before := T[..];
    Pow256Values();
    NativeRoundTrip(h, 2, A);
    PutEffect(before, p, WordBytes(h, 2, ToU16(A)));
    if h == Big {
      Be.Shortstore(T, p, A);
      signed := Be.Shortget(T[..], p);
      unsigned := Be.Ushortget(T[..], p);
    } else {
      Le.Shortstore(b, T, p, A);
      signed := Le.Shortget(b, T[..], p);
      unsigned := Le.Ushortget(b, T[..], p);
    }
  }

  /** The same for longstore, longget and ulongget. */
  method LongAcrossMemory(h: Host, b: Build, T: array<byte>, p: nat, A: int32)
    returns (signed: int, unsigned: int)
    requires p + 4 <= T.Length
    modifies T
    ensures signed == A && unsigned == ToU32(A)
    ensures T[..] == Put(old(T[..]), p, WordBytes(h, 4, ToU32(A)))
  {
    ghost var before := T[..];
    Pow256Values();
    NativeRoundTrip(h, 4, A);
    PutEffect(before, p, WordBytes(h, 4, ToU32(A)));
    if h == Big {
      Be.Longstore(T, p, A);
      signed := Be.Longget(T[..], p);
      unsigned := Be.Ulongget(T[..], p);
    } else {
      Le.Longstore(b, T, p, A);
      signed := Le.Longget(b, T[..], p);
      unsigned := Le.Ulongget(b, T[..], p);
    }
  }
}

/** m_ctype.h: two-byte character codes kept high byte first. */
module WideChar {
  import opened Machine
  import opened LittleEndian
  import opened Memory

  /** MB2 */
  function Mb2(i386: bool, x: uint32): uint32
  {
    if i386 then ToU32(x / 0x100 + (x % 0x100) * 0x100) else x
  }

  /** MY_PUT_MB2 */
  method PutMb2(i386: bool, s: array<byte>, p: nat, code: uint32)
    requires p + 2 <= s.Length
    modifies s
    ensures s[..] == Put(old(s[..]), p, if i386 then Encode(2, ToU16(code)) else Mb2Bytes(code))
  {
    if i386 {
      StoreWord(Little, 2, s, p, ToU16(code));
      WordBytesIsEncode(Little, 2, ToU16(code));
    } else {
      s[p] := ToByte(code / 0x100);
      s[p + 1] := ToByte(code % 0x100);
      PutUnique(old(s[..]), p, Mb2Bytes(code), s[..]);
    }
  }

  /** Second-lowest byte, then lowest byte. */
  function Mb2Bytes(x: uint32): (bs: seq<byte>)
    ensures |bs| == 2
  {
    [x / 0x100 % 0x100, x % 0x100]
  }

  /** Both builds put the same two bytes exactly for the codes whose third byte is
      zero.  The bytes of the portable build are the big-endian word of the code. */
  lemma Mb2Portable(x: uint32)
    ensures Encode(2, ToU16(Mb2(true, x))) == Mb2Bytes(Mb2(false, x)) <==> x / 0x1_0000 % 0x100 == 0
    ensures Mb2Bytes(x) == WordBytes(Big, 2, x)
  {
    Encode2(ToU16(Mb2(true, x)));
    SwappedBytes(x);
    Encode2(x);
    WordBytesIsEncode(Big, 2, x);
    assert Encode(2, x)[1..] == [x / 0x100 % 256];
  }

  /** The i386 form moves the lowest byte up by addition, so the third byte is
      carried into it. */
  lemma SwappedBytes(x: uint32)
    ensures ToU16(Mb2(true, x)) % 256 == x / 0x100 % 256
    ensures ToU16(Mb2(true, x)) / 0x100 % 256 == (x % 256 + x / 0x1_0000) % 256
    ensures (x % 256 + x / 0x1_0000) % 256 == x % 256 <==> x / 0x1_0000 % 256 == 0
  {
    DivScale(x, 0x100, 0x100);
    DivModIdentity(x / 0x100, 0x100);
    MoveUp(x % 0x100, x / 0x100 % 0x100, x / 0x1_0000);
    CarryIntoByte(x % 0x100, x / 0x1_0000);
    MovedUp(x);
  }

  lemma MovedUp(x: uint32)
    ensures Mb2(true, x) == x / 0x100 + (x % 0x100) * 0x100
  {
  }

  lemma MoveUp(a: byte, b: byte, c: nat)
    ensures ToU16(b as int + 0x100 * (a as int + c)) % 0x100 == b
    ensures ToU16(b as int + 0x100 * (a as int + c)) / 0x100 % 0x100 == (a as int + c) % 0x100
  {
    var s := a as int + c;
    var low := b as int + 0x100 * (s % 0x100);
    DivModUnique(b as int + 0x100 * s, 0x1_0000, s / 0x100, low);
    SumDigits(b, s % 0x100, 0, 0);
  }

  lemma CarryIntoByte(a: nat, c: nat)
    requires a < 0x100
    ensures (a + c) % 0x100 == a <==> c % 0x100 == 0
  {
  }
}
