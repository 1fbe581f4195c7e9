/** skip_trailing_space of m_string.h.  A buffer is its address ptr and its
    contents s; the byte at address a is s[a - ptr], so that a read outside the
    buffer, or a word read off a word boundary, does not verify. */
module TrailingSpace {
  import opened Machine
  import opened LittleEndian
  import opened Memory
  import opened MyByteorder
  import opened Align

  const SPACE: byte := 0x20

  // ----- the byte-by-byte specification

  predicate Spaces(s: seq<byte>, lo: nat, hi: nat)
    requires hi <= |s|
  {
    forall i :: lo <= i < hi ==> s[i] == SPACE
  }

  /** The end of the text of s: only spaces follow it, and it is the start of the
      buffer or follows a byte that is not a space. */
  predicate IsTextEnd(s: seq<byte>, e: nat)
  {
    e <= |s| && Spaces(s, e, |s|) && (e == 0 || s[e - 1] != SPACE)
  }

  /** One byte at a time. */
  function TextEnd(s: seq<byte>): (e: nat)
    ensures e <= |s|
  {
    if s == [] || s[|s| - 1] != SPACE then |s| else TextEnd(s[..|s| - 1])
  }

  /** The specification has exactly one solution, and the simple scan finds it. */
  lemma {:induction false} TextEndUnique(s: seq<byte>, e: nat)
    ensures IsTextEnd(s, e) <==> e == TextEnd(s)
    decreases |s|
  {
    if s != [] && s[|s| - 1] == SPACE {
      TextEndUnique(s[..|s| - 1], e);
    }
  }

  // ----- words of spaces

  /** SPACE_INT for a word of W bytes. */
  function SpaceWord(W: nat): nat
    requires W == 4 || W == 8
  {
    if W == 4 then 0x2020_2020 else 0x2020_2020_2020_2020
  }

  lemma SpaceWordValue(W: nat)
    requires W == 4 || W == 8
    ensures Value(seq(W, i => SPACE)) == SpaceWord(W)
  {
    var s: seq<byte> := seq(W, i => SPACE);
    Value4(s, 0);
    assert s[0..W] == s;
    if W == 8 {
      Value4(s, 4);
      ValueSplit4(s, 0, 4);
    }
  }

  /** A word, loaded low byte first or high byte first, equals the word of spaces
      exactly when each of its bytes is a space. */
  lemma WordOfSpaces(h: Host, bs: seq<byte>)
    requires |bs| == 4 || |bs| == 8
    ensures Value(bs) == SpaceWord(|bs|) <==> Spaces(bs, 0, |bs|)
    ensures WordValue(h, bs) == SpaceWord(|bs|) <==> Spaces(bs, 0, |bs|)
  {
    ValueOfSpaces(bs);
    ValueOfSpaces(Reverse(bs));
    WordValueIsValue(h, bs);
    if Spaces(bs, 0, |bs|) {
      ReverseSpaces(bs);
    }
    if Spaces(Reverse(bs), 0, |bs|) {
      ReverseSpaces(Reverse(bs));
      ReverseTwice(bs);
    }
  }

  lemma ValueOfSpaces(bs: seq<byte>)
    requires |bs| == 4 || |bs| == 8
    ensures Value(bs) == SpaceWord(|bs|) <==> Spaces(bs, 0, |bs|)
  {
    var spaces: seq<byte> := seq(|bs|, i => SPACE);
    SpaceWordValue(|bs|);
    if Value(bs) == SpaceWord(|bs|) {
      ValueInjective(bs, spaces);
    }
    if Spaces(bs, 0, |bs|) {
      assert bs == spaces;
    }
  }

  lemma ReverseSpaces(bs: seq<byte>)
    requires Spaces(bs, 0, |bs|)
    ensures Spaces(Reverse(bs), 0, |bs|)
  {
  }

  /** The same for a word inside a buffer, as the loops of both variants test it. */
  lemma WordInBuffer(h: Host, W: nat, s: seq<byte>, e: nat)
    requires (W == 4 || W == 8) && W <= e <= |s|
    ensures Value(s[e - W..e]) == SpaceWord(W) <==> Spaces(s, e - W, e)
    ensures LoadWord(h, W, s, e - W) == SpaceWord(W) <==> Spaces(s, e - W, e)
  {
    var bs := s[e - W..e];
    WordOfSpaces(h, bs);
    assert s[e - W..e - W + W] == bs;
    assert forall i :: 0 <= i < W ==> bs[i] == s[e - W + i];
    if Spaces(bs, 0, W) {
      forall i | e - W <= i < e
        ensures s[i] == SPACE
      {
        assert bs[i - (e - W)] == SPACE;
      }
    }
  }

  /** What a scan from the end knows at offset e about the text it looks for. */
  lemma ScanPosition(s: seq<byte>, e: nat)
    requires e <= |s| && Spaces(s, e, |s|)
    ensures TextEnd(s) <= e
    ensures e == 0 || s[e - 1] != SPACE ==> e == TextEnd(s)
  {
  }

  /** A group of bytes that are not all spaces ends the run of spaces within it. */
  lemma GroupStops(s: seq<byte>, e: nat, n: nat)
    requires n <= e <= |s| && Spaces(s, e, |s|) && !Spaces(s, e - n, e)
    ensures e - n < TextEnd(s) <= e
  {
    ScanPosition(s, e);
    TextEndUnique(s, TextEnd(s));
  }

  /** The loop `while (end > stop && end[-1] == 0x20) end--`, which both variants run;
      also counts its steps. */
  method ScanBytes(ptr: nat, s: seq<byte>, from: nat, stop: nat) returns (end: nat, ghost steps: nat)
    requires ptr <= stop <= from <= ptr + |s| && Spaces(s, from - ptr, |s|)
    ensures stop <= end <= from && steps == from - end
    ensures Spaces(s, end - ptr, |s|) && TextEnd(s) <= end - ptr
    ensures end == stop || s[end - 1 - ptr] != SPACE
    ensures end == ptr || s[end - 1 - ptr] != SPACE ==> end == ptr + TextEnd(s)
  {
    end, steps := from, 0;
    while end > stop && s[end - 1 - ptr] == SPACE
      invariant stop <= end <= from && steps == from - end
      invariant Spaces(s, end - ptr, |s|)
      decreases end
    {
      end := end - 1;
      steps := steps + 1;
    }
    ScanPosition(s, end - ptr);
  }

  // ----- every platform except sparc

  /** Eight bytes at a time, at any alignment.  Returns the address after the text;
      of the t trailing spaces, t / 8 steps skip eight each and t % 8 skip one. */
  method SkipTrailingSpaceUnaligned(b: Build, ptr: nat, s: seq<byte>)
    returns (end: nat, ghost wordSteps: nat, ghost byteSteps: nat)
    ensures end == ptr + TextEnd(s)
    ensures wordSteps == (|s| - TextEnd(s)) / 8
    ensures byteSteps == (|s| - TextEnd(s)) % 8
  {
    end := ptr + |s|;
    wordSteps, byteSteps := 0, 0;
    while end - ptr >= 8
      invariant ptr <= end <= ptr + |s|
      invariant Spaces(s, end - ptr, |s|)
      invariant ptr + |s| - end == 8 * wordSteps
      decreases end
    {
      var e := end - ptr;
      WordInBuffer(Little, 8, s, e);
      if UintKorr(b, 8, s, e - 8) != 0x2020_2020_2020_2020 {
        GroupStops(s, e, 8);
        break;
      }
      end := end - 8;
      wordSteps := wordSteps + 1;
    }
    ScanPosition(s, end - ptr);
    assert end - ptr - TextEnd(s) < 8;
    end, byteSteps := ScanBytes(ptr, s, end, ptr);
    DivModUnique(|s| - TextEnd(s), 8, wordSteps, byteSteps);
  }

  // ----- sparc

  /** The machine: byte order, sizeof(int), and the width of a pointer in bits. */
  datatype Sparc = Sparc(host: Host, W: nat, pointerBits: nat)
  {
    predicate Valid()
    {
      (W == 4 || W == 8) && (pointerBits == 32 || pointerBits == 64)
    }

    /** Word boundaries: the multiples of W. */
    predicate OnBoundary(a: nat)
      requires Valid()
    {
      if W == 4 then a % 4 == 0 else a % 8 == 0
    }

    /** The bytes of n words: W * n. */
    function Span(n: nat): nat
      requires Valid()
    {
      if W == 4 then 4 * n else 8 * n
    }

    function Addresses(): nat
      requires Valid()
    {
      if pointerBits == 32 then 0x1_0000_0000 else 0x1_0000_0000_0000_0000
    }

    /** `(ulonglong)(intptr) p`: intptr is signed, so a 32-bit address in the upper
        half is sign-extended. */
    function ToUlonglong(p: nat): uint64
      requires Valid() && p < Addresses()
    {
      ToU64(TwosComplement(Addresses(), p))
    }

    /** `(const uchar *)(intptr) u` */
    function ToPointer(u: uint64): nat
      requires Valid()
    {
      u % Addresses()
    }

    function EndWords(end: nat): nat
      requires Valid() && end < Addresses()
    {
      ToPointer(ToU64(RoundDown(ToUlonglong(end), W)))
    }

    function StartWords(ptr: nat): nat
      requires Valid() && ptr < Addresses()
    {
      ToPointer(ToU64(RoundDown(ToU64(ToUlonglong(ptr) as int + W - 1), W)))
    }
  }

  /** The casts do no harm: both zone boundaries are the plain roundings of the
      addresses, also for sign-extended ones. */
  lemma ZoneBoundaries(m: Sparc, a: nat)
    requires m.Valid() && a < m.Addresses()
    ensures m.EndWords(a) == RoundDown(a, m.W)
    ensures a + m.W - 1 < m.Addresses() ==> m.StartWords(a) == RoundUp(a, m.W)
  {
    var extension := SignExtension(m, a);
    RoundShifted(m, a, extension);
    if a + m.W - 1 < m.Addresses() {
      RoundShifted(m, a + m.W - 1, extension);
    }
  }

  /** What sign extension adds to an address. */
  lemma SignExtension(m: Sparc, a: nat) returns (extension: nat)
    requires m.Valid() && a < m.Addresses()
    ensures m.ToUlonglong(a) == a + extension
    ensures extension == 0 || (m.pointerBits == 32 && extension == 0xFFFF_FFFF_0000_0000)
  {
    if m.pointerBits == 32 {
      extension := if a >= 0x8000_0000 then 0xFFFF_FFFF_0000_0000 else 0;
      Extend32(a);
    } else {
      extension := 0;
      Extend64(a);
    }
  }

  lemma Extend32(a: uint32)
    ensures ToU64(TwosComplement(0x1_0000_0000, a)) == if a >= 0x8000_0000 then a as int + 0xFFFF_FFFF_0000_0000 else a
  {
  }

  lemma Extend64(a: uint64)
    ensures ToU64(TwosComplement(0x1_0000_0000_0000_0000, a)) == a
  {
  }

  /** Rounding an address down and truncating it removes what sign extension added. */
  lemma RoundShifted(m: Sparc, x: nat, extension: nat)
    requires m.Valid() && x < m.Addresses()
    requires extension == 0 || (m.pointerBits == 32 && extension == 0xFFFF_FFFF_0000_0000)
    ensures ToU64(x + extension) == x + extension
    ensures m.ToPointer(ToU64(RoundDown(x + extension, m.W))) == RoundDown(x, m.W)
  {
    RoundDownBounds(x, m.W);
    if extension == 0 {
      InRange(m, RoundDown(x, m.W), 0);
    } else {
      TruncateExtension(m.W, x);
      InRange(m, RoundDown(x, m.W), extension);
    }
  }

  /** An extended address truncates to the address. */
  lemma InRange(m: Sparc, r: nat, extension: nat)
    requires m.Valid() && r < m.Addresses()
    requires extension == 0 || (m.pointerBits == 32 && extension == 0xFFFF_FFFF_0000_0000)
    ensures ToU64(r + extension) == r + extension && m.ToPointer(r + extension) == r
  {
    DivModUnique(r + extension, 0x1_0000_0000_0000_0000, 0, r + extension);
    DivModUnique(r + extension, m.Addresses(), if extension == 0 then 0 else 0xFFFF_FFFF, r);
  }

  lemma TruncateExtension(W: nat, x: nat)
    requires W == 4 || W == 8
    ensures RoundDown(x + 0xFFFF_FFFF_0000_0000, W) == RoundDown(x, W) + 0xFFFF_FFFF_0000_0000
  {
    RoundDownShift(x, W, 0xFFFF_FFFF_0000_0000);
  }

  /** Adding a multiple of d shifts the rounding by as much. */
  lemma RoundDownShift(x: int, d: nat, k: int)
    requires d > 0 && k % d == 0
    ensures RoundDown(x + k, d) == RoundDown(x, d) + k
  {
    DivModIdentity(x, d);
    DivModIdentity(k, d);
    DivModUnique(x + k, d, x / d + k / d, x % d);
  }

  lemma ZoneBounds(m: Sparc, ptr: nat, end: nat)
    requires m.Valid()
    ensures ptr <= RoundUp(ptr, m.W) < ptr + m.W && m.OnBoundary(RoundUp(ptr, m.W))
    ensures end - m.W < RoundDown(end, m.W) <= end && RoundDown(end, m.W) >= 0
    ensures m.OnBoundary(RoundDown(end, m.W))
  {
    RoundDownBounds(end, m.W);
    RoundDownBounds(ptr + m.W - 1, m.W);
  }

  /** The boundaries of the middle zone.  For more than 20 bytes it is not empty and
      lies inside the buffer: the assertion `end_words > ptr` holds and the test
      `start_words < end_words` never fails. */
  method WordZone(m: Sparc, ptr: nat, len: nat) returns (startWords: nat, endWords: nat)
    requires m.Valid() && ptr + len < m.Addresses() && len > 20
    ensures ptr <= startWords < ptr + m.W && ptr + len - m.W < endWords <= ptr + len
    ensures m.OnBoundary(startWords) && m.OnBoundary(endWords)
    ensures ptr < endWords && startWords < endWords
  {
    endWords := m.EndWords(ptr + len);
    startWords := m.StartWords(ptr);
    ZoneBoundaries(m, ptr + len);
    ZoneBoundaries(m, ptr);
    ZoneBounds(m, ptr, ptr + len);
  }

  /** Reads the word that ends at address end, as `((unsigned *) end)[-1]`; allowed
      only on a word boundary and inside the buffer. */
  function WordBefore(m: Sparc, ptr: nat, s: seq<byte>, end: nat): nat
    requires m.Valid()
    requires m.OnBoundary(end)
    requires ptr + m.W <= end <= ptr + |s|
  {
    LoadWord(m.host, m.W, s, end - m.W - ptr)
  }

  lemma NextBoundary(m: Sparc, stop: nat, end: nat)
    requires m.Valid() && m.OnBoundary(stop) && m.OnBoundary(end) && stop <= end
    ensures end > stop ==> stop + m.W <= end && m.OnBoundary(end - m.W)
  {
    if end > stop {
      if m.W == 4 { Next4(stop, end); } else { Next8(stop, end); }
    }
  }

  lemma Next4(stop: nat, end: nat)
    requires stop % 4 == 0 && end % 4 == 0 && end > stop
    ensures stop + 4 <= end && (end - 4) % 4 == 0
  {
  }

  lemma Next8(stop: nat, end: nat)
    requires stop % 8 == 0 && end % 8 == 0 && end > stop
    ensures stop + 8 <= end && (end - 8) % 8 == 0
  {
  }

  /** One test of the loop over whole words: it reads a word inside the buffer, and
      succeeds exactly if the run of spaces goes on. */
  lemma WordTest(m: Sparc, ptr: nat, s: seq<byte>, stop: nat, end: nat)
    requires m.Valid() && m.OnBoundary(stop) && m.OnBoundary(end)
    requires ptr <= stop < end <= ptr + |s| && Spaces(s, end - ptr, |s|)
    ensures stop + m.W <= end && m.OnBoundary(end - m.W)
    ensures if WordBefore(m, ptr, s, end) == SpaceWord(m.W) then Spaces(s, end - m.W - ptr, |s|)
            else end - m.W - ptr < TextEnd(s)
  {
    NextBoundary(m, stop, end);
    var e := end - ptr;
    WordInBuffer(m.host, m.W, s, e);
    assert WordBefore(m, ptr, s, end) == LoadWord(m.host, m.W, s, e - m.W);
    GroupOrSpaces(s, e, m.W);
  }

  lemma GroupOrSpaces(s: seq<byte>, e: nat, n: nat)
    requires n <= e <= |s| && Spaces(s, e, |s|)
    ensures if Spaces(s, e - n, e) then Spaces(s, e - n, |s|) else e - n < TextEnd(s)
  {
    if !Spaces(s, e - n, e) {
      GroupStops(s, e, n);
    }
  }

  /** The loop over whole words of the middle zone: stops at its start or at a word
      that is not all spaces. */
  method ScanWords(m: Sparc, ptr: nat, s: seq<byte>, from: nat, stop: nat) returns (end: nat, ghost steps: nat)
    requires m.Valid() && m.OnBoundary(stop) && m.OnBoundary(from)
    requires ptr <= stop <= from <= ptr + |s| && Spaces(s, from - ptr, |s|)
    ensures stop <= end <= from && m.Span(steps) == from - end
    ensures Spaces(s, end - ptr, |s|) && TextEnd(s) <= end - ptr
    ensures end == stop || end - ptr - m.W < TextEnd(s)
  {
    end, steps := from, 0;
    if end > stop { WordTest(m, ptr, s, stop, end); }
    while end > stop && WordBefore(m, ptr, s, end) == SpaceWord(m.W)
      invariant stop <= end <= from && m.OnBoundary(end)
      invariant end > stop ==> stop + m.W <= end
      invariant Spaces(s, end - ptr, |s|)
      invariant m.Span(steps) == from - end
      decreases end
    {
      WordTest(m, ptr, s, stop, end);
      end := end - m.W;
      if end > stop { WordTest(m, ptr, s, stop, end); }
      steps := steps + 1;
    }
    ScanPosition(s, end - ptr);
    if end > stop {
      WordTest(m, ptr, s, stop, end);
    }
  }

  /** The part for more than 20 bytes: the tail zone byte by byte, then, if all of it
      was spaces, whole words.  At most W-1 spaces are left before the returned end. */
  method SkipAlignedZones(m: Sparc, ptr: nat, s: seq<byte>)
    returns (end: nat, ghost tailSteps: nat, ghost wordSteps: nat)
    requires m.Valid() && ptr + |s| < m.Addresses() && |s| > 20
    ensures ptr <= end <= ptr + |s| && Spaces(s, end - ptr, |s|)
    ensures TextEnd(s) <= end - ptr < TextEnd(s) + m.W
    ensures tailSteps + m.Span(wordSteps) == ptr + |s| - end && tailSteps < m.W
  {
    end, wordSteps := ptr + |s|, 0;
    var startWords, endWords := WordZone(m, ptr, |s|);
    assert endWords > ptr;      // DBUG_ASSERT
    end, tailSteps := ScanBytes(ptr, s, end, endWords);
    if s[end - 1 - ptr] == SPACE && startWords < endWords {
      end, wordSteps := ScanWords(m, ptr, s, end, startWords);
    }
  }

  /** Three zones.  Besides the address after the text, counts the steps taken in the
      tail zone, over whole words, and in the final byte loop. */
  method SkipTrailingSpaceAligned(m: Sparc, ptr: nat, s: seq<byte>)
    returns (end: nat, ghost tailSteps: nat, ghost wordSteps: nat, ghost finalSteps: nat)
    requires m.Valid() && ptr + |s| < m.Addresses()
    ensures end == ptr + TextEnd(s)
    ensures tailSteps + m.Span(wordSteps) + finalSteps == |s| - TextEnd(s)
    ensures |s| > 20 ==> tailSteps < m.W && finalSteps < m.W
    ensures |s| <= 20 ==> tailSteps == wordSteps == 0
  {
    end := ptr + |s|;
    tailSteps, wordSteps := 0, 0;
    if |s| > 20 {
      end, tailSteps, wordSteps := SkipAlignedZones(m, ptr, s);
    }
    end, finalSteps := ScanBytes(ptr, s, end, ptr);
  }

  /** What the two variants promise together: on every buffer, at every address, in
      every build and on every sparc, they return the same address. */
  method VariantsAgree(b: Build, m: Sparc, ptr: nat, s: seq<byte>) returns (end: nat)
    requires m.Valid() && ptr + |s| < m.Addresses()
    ensures ptr <= end <= ptr + |s| && IsTextEnd(s, end - ptr)
    ensures forall e: nat :: IsTextEnd(s, e) ==> end == ptr + e
  {
    ghost var wordSteps, byteSteps, tailSteps, finalSteps;
    var aligned;
    end, wordSteps, byteSteps := SkipTrailingSpaceUnaligned(b, ptr, s);
    aligned, tailSteps, wordSteps, finalSteps := SkipTrailingSpaceAligned(m, ptr, s);
    assert aligned == end;
    TextEndUnique(s, end - ptr);
    forall e: nat | IsTextEnd(s, e)
      ensures end == ptr + e
    {
      TextEndUnique(s, e);
    }
  }
}
