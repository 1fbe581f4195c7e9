/** The machine-independent wire format: low byte first.  One recursive value
    function and one recursive encoder, of any length, are the reference every
    load and store of the byte-order headers is proved against; the layout of a
    word in the memory of a little- or big-endian host is defined separately. */
module LittleEndian {
  import opened Machine

  function Pow256(n: nat): nat
  {
    if n == 0 then 1 else 256 * Pow256(n - 1)
  }

  /** The number whose base-256 digits, low digit first, are `bs`. */
  function Value(bs: seq<byte>): nat
  {
    if bs == [] then 0 else bs[0] + 256 * Value(bs[1..])
  }

  /** The low n base-256 digits of v, low digit first. */
  function Encode(n: nat, v: nat): (bs: seq<byte>)
    ensures |bs| == n
  {
    if n == 0 then [] else [v % 256] + Encode(n - 1, v / 256)
  }

  /** `v >> 8*n`: the digits of v from position n on. */
  function High(v: nat, n: nat): nat
  {
    if n == 0 then v else High(v / 256, n - 1)
  }

  lemma {:induction false} Pow256Positive(n: nat)
    ensures Pow256(n) > 0
  {
    if n != 0 {
      Pow256Positive(n - 1);
    }
  }

  lemma {:induction false} Pow256Add(m: nat, n: nat)
    ensures Pow256(m + n) == Pow256(m) * Pow256(n)
  {
    if m == 0 {
    } else {
      Pow256Add(m - 1, n);
      var p, q := Pow256(m - 1), Pow256(n);
      assert Pow256(m + n) == 256 * Pow256(m - 1 + n);
      assert 256 * (p * q) == (256 * p) * q;
    }
  }

  lemma Pow256Values()
    ensures Pow256(0) == 1 && Pow256(1) == 0x100 && Pow256(2) == 0x1_0000 && Pow256(3) == 0x100_0000
    ensures Pow256(4) == 0x1_0000_0000 && Pow256(5) == 0x100_0000_0000
    ensures Pow256(6) == 0x1_0000_0000_0000 && Pow256(7) == 0x100_0000_0000_0000
    ensures Pow256(8) == 0x1_0000_0000_0000_0000
  {
  }

  lemma {:induction false} ValueBound(bs: seq<byte>)
    ensures Value(bs) < Pow256(|bs|)
  {
    if bs != [] {
      ValueBound(bs[1..]);
    }
  }

  /** Decoding then encoding restores the exact bytes. */
  lemma {:induction false} EncodeValue(bs: seq<byte>)
    ensures Encode(|bs|, Value(bs)) == bs
  {
    if bs != [] {
      EncodeValue(bs[1..]);
      DivModUnique(Value(bs), 256, Value(bs[1..]), bs[0]);
      assert bs == [bs[0]] + bs[1..];
    }
  }

  /** Encoding then decoding keeps the value modulo 256^n. */
  lemma {:induction false} ValueEncode(n: nat, v: nat)
    ensures Pow256(n) > 0
    ensures Value(Encode(n, v)) == v % Pow256(n)
  {
    Pow256Positive(n);
    if n == 0 {
    } else {
      var rest := Encode(n - 1, v / 256);
      assert Encode(n, v)[1..] == rest;
      ValueEncode(n - 1, v / 256);
      DivScale(v, 256, Pow256(n - 1));
    }
  }

  /** What n bytes can carry of an integer: its residue modulo 256^n. */
  function Residue(n: nat, v: int): (r: nat)
    ensures r < Pow256(n)
  {
    Pow256Positive(n);
    ModRange(v, Pow256(n));
    v % Pow256(n)
  }

  lemma ModRange(v: int, d: int)
    requires d > 0
    ensures 0 <= v % d < d
    ensures 0 <= v < d ==> v % d == v
  {
  }

  /** Encoding a number of n digits loses nothing. */
  lemma ValueEncodeSmall(n: nat, v: nat)
    requires v < Pow256(n)
    ensures Value(Encode(n, v)) == v
  {
  }

  lemma ResidueSmall(n: nat, v: int)
    ensures Residue(n, v) == v <==> 0 <= v < Pow256(n)
  {
    ModRange(v, Pow256(n));
  }

  /** The signed reading of a residue is the number exactly when it is in range. */
  lemma ResidueSigned(n: nat, v: int)
    requires n > 0
    ensures Pow256(n) > 0
    ensures TwosComplement(Pow256(n), Residue(n, v)) == v <==> -(Pow256(n) / 2) <= v < Pow256(n) / 2
  {
    Pow256Even(n);
    SignedReading(Pow256(n), v);
  }

  lemma Pow256Even(n: nat)
    requires n > 0
    ensures Pow256(n) > 0 && Pow256(n) % 2 == 0
  {
    Pow256Positive(n);
    DivModUnique(Pow256(n), 2, 128 * Pow256(n - 1), 0);
  }

  lemma SignedReading(m: nat, v: int)
    requires m > 0 && m % 2 == 0
    ensures TwosComplement(m, v % m) == v <==> -(m / 2) <= v < m / 2
  {
    ModRange(v, m);
    ModRange(v % m, m);
    if -(m / 2) <= v < m / 2 {
      TwosComplementUnique(m, v % m, v);
    }
  }

  /** Equal-length byte strings with equal values are equal. */
  lemma ValueInjective(a: seq<byte>, b: seq<byte>)
    requires |a| == |b| && Value(a) == Value(b)
    ensures a == b
  {
  }

  lemma {:induction false} ValueAppend(a: seq<byte>, b: seq<byte>)
    ensures Value(a + b) == Value(a) + Pow256(|a|) * Value(b)
  {
    if a == [] {
      assert a + b == b;
    } else {
      ValueAppend(a[1..], b);
      assert (a + b)[1..] == a[1..] + b;
      MulAssociative(256, Pow256(|a| - 1), Value(b));
    }
  }

  lemma ValueSnoc(a: seq<byte>, x: byte)
    ensures Value(a + [x]) == Value(a) + x * Pow256(|a|)
  {
    assert [x][1..] == [] && Value([x]) == x;
    ValueAppend(a, [x]);
    MulCommutes(x, Pow256(|a|));
  }

  lemma MulCommutes(x: int, y: int)
    ensures x * y == y * x
  {
  }

  /** Shifting by whole bytes is dividing by a power of 256. */
  lemma {:induction false} HighIsQuotient(v: nat, n: nat)
    ensures Pow256(n) > 0 && High(v, n) == v / Pow256(n)
  {
    Pow256Positive(n);
    if n != 0 {
      HighIsQuotient(v / 256, n - 1);
      DivScale(v, 256, Pow256(n - 1));
    }
  }

  /** The digits of v split at position m. */
  lemma {:induction false} EncodeSplit(m: nat, n: nat, v: nat)
    ensures Encode(m + n, v) == Encode(m, v) + Encode(n, High(v, m))
  {
    if m != 0 {
      EncodeSplit(m - 1, n, v / 256);
    }
  }

  lemma EncodeOne(v: nat)
    ensures Encode(1, v) == [v % 256]
  {
  }

  /** Only v modulo 256^n reaches the low n digits. */
  lemma EncodeLow(n: nat, v: nat)
    ensures Pow256(n) > 0
    ensures Encode(n, v % Pow256(n)) == Encode(n, v)
  {
    ValueEncode(n, v);
    EncodeValue(Encode(n, v));
  }

  /** Unfolds the value of a window of memory by one byte. */
  lemma ValueStep(m: seq<byte>, p: nat, q: nat)
    requires p < q <= |m|
    ensures Value(m[p..q]) == m[p] + 256 * Value(m[p + 1..q])
  {
  }

  lemma ValueEmpty(m: seq<byte>, p: nat)
    requires p <= |m|
    ensures Value(m[p..p]) == 0
  {
  }

  function Reverse(s: seq<byte>): (r: seq<byte>)
    ensures |r| == |s|
  {
    if s == [] then [] else Reverse(s[1..]) + [s[0]]
  }

  lemma {:induction false} ReverseSnoc(s: seq<byte>, x: byte)
    ensures Reverse(s + [x]) == [x] + Reverse(s)
  {
    if s == [] {
      assert s + [x] == [x];
    } else {
      ReverseSnoc(s[1..], x);
      assert (s + [x])[1..] == s[1..] + [x];
    }
  }

  lemma {:induction false} ReverseTwice(s: seq<byte>)
    ensures Reverse(Reverse(s)) == s
  {
    if s != [] {
      ReverseTwice(s[1..]);
      ReverseSnoc(Reverse(s[1..]), s[0]);
    }
  }

  // ----- words in the memory of a host

  /** The value of the word a host reads from the bytes `bs` at rising addresses:
      on a little-endian host the byte at offset i has weight 256^i, on a
      big-endian host every further byte is less significant. */
  function WordValue(h: Host, bs: seq<byte>): nat
  {
    if bs == [] then 0 else
      var n := |bs| - 1;
      match h
      case Little => WordValue(h, bs[..n]) + bs[n] * Pow256(n)
      case Big => WordValue(h, bs[..n]) * 256 + bs[n]
  }

  /** The n bytes a host puts at rising addresses when it writes the word v. */
  function WordBytes(h: Host, n: nat, v: nat): (bs: seq<byte>)
    ensures |bs| == n
  {
    if n == 0 then [] else
      match h
      case Little =>
        WordBytes(h, n - 1, v) + [High(v, n - 1) % 256]
      case Big => WordBytes(h, n - 1, v / 256) + [v % 256]
  }

  lemma {:induction false} LittleWordIsValue(bs: seq<byte>)
    ensures WordValue(Little, bs) == Value(bs)
  {
    if bs != [] {
      var n := |bs| - 1;
      LittleWordIsValue(bs[..n]);
      ValueSnoc(bs[..n], bs[n]);
      assert bs == bs[..n] + [bs[n]];
    }
  }

  lemma {:induction false} BigWordIsReversedValue(bs: seq<byte>)
    ensures WordValue(Big, bs) == Value(Reverse(bs))
  {
    if bs != [] {
      var n := |bs| - 1;
      BigWordIsReversedValue(bs[..n]);
      ReverseSnoc(bs[..n], bs[n]);
      assert bs == bs[..n] + [bs[n]];
      assert Reverse(bs)[1..] == Reverse(bs[..n]);
    }
  }

  lemma WordValueIsValue(h: Host, bs: seq<byte>)
    ensures WordValue(h, bs) == if h == Little then Value(bs) else Value(Reverse(bs))
  {
    match h
    case Little => LittleWordIsValue(bs);
    case Big => BigWordIsReversedValue(bs);
  }

  lemma {:induction false} WordBytesIsEncode(h: Host, n: nat, v: nat)
    ensures WordBytes(h, n, v) == if h == Little then Encode(n, v) else Reverse(Encode(n, v))
  {
    if n != 0 {
      match h
      case Little =>
        WordBytesIsEncode(h, n - 1, v);
        EncodeSplit(n - 1, 1, v);
        EncodeOne(High(v, n - 1));
      case Big =>
        WordBytesIsEncode(h, n - 1, v / 256);
        assert Encode(n, v)[1..] == Encode(n - 1, v / 256);
    }
  }

  /** On either host a word written and read back is the word modulo its size, and
      the bytes of a word that is read are the bytes the host would write for it. */
  lemma WordRoundTrip(h: Host, n: nat, v: nat, bs: seq<byte>)
    ensures Pow256(n) > 0 && WordValue(h, WordBytes(h, n, v)) == v % Pow256(n)
    ensures WordBytes(h, |bs|, WordValue(h, bs)) == bs
    ensures WordValue(h, bs) < Pow256(|bs|)
  {
    WordBytesIsEncode(h, n, v);
    WordValueIsValue(h, WordBytes(h, n, v));
    ReverseTwice(Encode(n, v));
    ValueEncode(n, v);
    WordValueIsValue(h, bs);
    WordBytesIsEncode(h, |bs|, WordValue(h, bs));
    EncodeValue(bs);
    EncodeValue(Reverse(bs));
    ReverseTwice(bs);
    ValueBound(bs);
    ValueBound(Reverse(bs));
  }

  // ----- writing a run of bytes into memory

  /** Memory m with the bytes bs written at offset p. */
  function Put(m: seq<byte>, p: nat, bs: seq<byte>): (r: seq<byte>)
    requires p + |bs| <= |m|
    ensures |r| == |m|
  {
    m[..p] + bs + m[p + |bs|..]
  }

  /** A write leaves its bytes in their place and every other byte alone. */
  lemma PutEffect(m: seq<byte>, p: nat, bs: seq<byte>)
    requires p + |bs| <= |m|
    ensures Put(m, p, bs)[p..p + |bs|] == bs
    ensures forall i :: 0 <= i < p || p + |bs| <= i < |m| ==> Put(m, p, bs)[i] == m[i]
  {
  }

  /** A write is determined by what it must contain and what it must leave alone. */
  lemma PutUnique(m: seq<byte>, p: nat, bs: seq<byte>, r: seq<byte>)
    requires p + |bs| <= |m| == |r|
    requires forall i :: 0 <= i < |bs| ==> r[p + i] == bs[i]
    requires forall i :: 0 <= i < p || p + |bs| <= i < |m| ==> r[i] == m[i]
    ensures r == Put(m, p, bs)
  {
  }

  /** Two adjacent writes are one write of the concatenation. */
  lemma PutAdjacent(m: seq<byte>, p: nat, a: seq<byte>, b: seq<byte>)
    requires p + |a| + |b| <= |m|
    ensures Put(Put(m, p, a), p + |a|, b) == Put(m, p, a + b)
  {
  }
}
