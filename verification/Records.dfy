/** Records: fields of mixed widths stored one after the other and loaded back. */
module Records {
  import opened Machine
  import opened LittleEndian
  import opened MyByteorder
  import opened Sequences

  datatype Field = Field(width: nat, value: int)

  ghost predicate ValidFields(fs: seq<Field>)
  {
    forall f :: f in fs ==> IsWidth(f.width)
  }

  ghost predicate ValidWidths(ws: seq<nat>)
  {
    forall w :: w in ws ==> IsWidth(w)
  }

  function Widths(fs: seq<Field>): (ws: seq<nat>)
    ensures |ws| == |fs|
  {
    if fs == [] then [] else [fs[0].width] + Widths(fs[1..])
  }

  function Size(ws: seq<nat>): nat
  {
    if ws == [] then 0 else ws[0] + Size(ws[1..])
  }

  /** The memory after one store per field, in order, at consecutive offsets. */
  function StoreFields(m: seq<byte>, p: nat, fs: seq<Field>): (r: seq<byte>)
    requires p + Size(Widths(fs)) <= |m|
    ensures |r| == |m|
    decreases |fs|
  {
    if fs == [] then m else
      StoreFields(Put(m, p, EncodeInt(fs[0].width, fs[0].value)), p + fs[0].width, fs[1..])
  }

  /** The values of one load per width, in order, at consecutive offsets. */
  function LoadFields(b: Build, m: seq<byte>, p: nat, ws: seq<nat>): (vs: seq<int>)
    requires ValidWidths(ws) && p + Size(ws) <= |m|
    ensures |vs| == |ws|
    decreases |ws|
  {
    if ws == [] then [] else [UintKorr(b, ws[0], m, p)] + LoadFields(b, m, p + ws[0], ws[1..])
  }

  /** The wire bytes of a whole record. */
  function EncodeFields(fs: seq<Field>): (bs: seq<byte>)
    ensures |bs| == Size(Widths(fs))
    decreases |fs|
  {
    if fs == [] then [] else
      EncodeInt(fs[0].width, fs[0].value) + EncodeFields(fs[1..])
  }

  /** What a record can carry: each value modulo 256^width. */
  function Reduced(fs: seq<Field>): (vs: seq<int>)
    ensures |vs| == |fs|
  {
    if fs == [] then [] else [Residue(fs[0].width, fs[0].value)] + Reduced(fs[1..])
  }

  /** A run of field stores writes exactly the record's bytes and nothing else. */
  lemma {:induction false} StoreFieldsIsOneWrite(m: seq<byte>, p: nat, fs: seq<Field>)
    requires p + Size(Widths(fs)) <= |m|
    ensures StoreFields(m, p, fs) == Put(m, p, EncodeFields(fs))
    decreases |fs|
  {
    if fs == [] {
    } else {
      WidthsTail(fs);
      var first, q := EncodeInt(fs[0].width, fs[0].value), p + fs[0].width;
      var m' := Put(m, p, first);
      StoreFieldsIsOneWrite(m', q, fs[1..]);
      WriteFirst(m, p, first, m', q, EncodeFields(fs[1..]), EncodeFields(fs));
    }
  }

  /** A first write and one write of the rest are one write. */
  lemma WriteFirst(m: seq<byte>, p: nat, first: seq<byte>, m': seq<byte>, q: nat, rest: seq<byte>, all: seq<byte>)
    requires q == p + |first| && q + |rest| <= |m| && m' == Put(m, p, first) && all == first + rest
    ensures Put(m', q, rest) == Put(m, p, all)
  {
    PutAdjacent(m, p, first, rest);
  }

  lemma WidthsTail(fs: seq<Field>)
    requires fs != []
    ensures Widths(fs) == [fs[0].width] + Widths(fs[1..])
    ensures Size(Widths(fs)) == fs[0].width + Size(Widths(fs[1..]))
  {
  }

  /** The values that lie in memory at the given widths. */
  function ValuesAt(m: seq<byte>, p: nat, ws: seq<nat>): (vs: seq<int>)
    requires p + Size(ws) <= |m|
    ensures |vs| == |ws|
    decreases |ws|
  {
    if ws == [] then [] else [Value(m[p..p + ws[0]])] + ValuesAt(m, p + ws[0], ws[1..])
  }

  /** Loads of either build deliver them. */
  lemma {:induction false} LoadsValuesAt(b: Build, m: seq<byte>, p: nat, ws: seq<nat>)
    requires ValidWidths(ws) && p + Size(ws) <= |m|
    ensures LoadFields(b, m, p, ws) == ValuesAt(m, p, ws)
    decreases |ws|
  {
    if ws != [] {
      LoadsValuesAt(b, m, p + ws[0], ws[1..]);
    }
  }

  /** Wherever the record's bytes lie in memory, loading its widths gives its values. */
  lemma LoadEncoded(b: Build, m: seq<byte>, p: nat, fs: seq<Field>)
    requires ValidFields(fs) && p + Size(Widths(fs)) <= |m|
    requires m[p..p + Size(Widths(fs))] == EncodeFields(fs)
    ensures ValidWidths(Widths(fs)) && LoadFields(b, m, p, Widths(fs)) == Reduced(fs)
  {
    WidthsValid(fs);
    LoadsValuesAt(b, m, p, Widths(fs));
    EncodedValues(m, p, fs);
  }

  lemma {:induction false} EncodedValues(m: seq<byte>, p: nat, fs: seq<Field>)
    requires p + Size(Widths(fs)) <= |m|
    requires m[p..p + Size(Widths(fs))] == EncodeFields(fs)
    ensures ValuesAt(m, p, Widths(fs)) == Reduced(fs)
    decreases |fs|
  {
    if fs == [] {
    } else {
      var first, rest := EncodeInt(fs[0].width, fs[0].value), EncodeFields(fs[1..]);
      var q, r := p + fs[0].width, p + Size(Widths(fs));
      WidthsTail(fs);
      WindowSplit(m, p, q, r, first, rest, EncodeFields(fs));
      EncodedValues(m, q, fs[1..]);
      FirstValue(m, p, q, fs[0], Widths(fs[1..]), Widths(fs));
    }
  }

  lemma FirstValue(m: seq<byte>, p: nat, q: nat, f: Field, rest: seq<nat>, ws: seq<nat>)
    requires q == p + f.width && q + Size(rest) <= |m| && ws == [f.width] + rest
    requires m[p..q] == EncodeInt(f.width, f.value)
    ensures p + Size(ws) <= |m| && ValuesAt(m, p, ws) == [Residue(f.width, f.value)] + ValuesAt(m, q, rest)
  {
    assert ws[1..] == rest;
  }

  lemma {:induction false} WidthsValid(fs: seq<Field>)
    requires ValidFields(fs)
    ensures ValidWidths(Widths(fs))
  {
    if fs != [] {
      TailValid(fs);
      WidthsValid(fs[1..]);
      WidthsTail(fs);
    }
  }

  lemma TailValid(fs: seq<Field>)
    requires ValidFields(fs) && fs != []
    ensures IsWidth(fs[0].width) && ValidFields(fs[1..])
  {
    assert fs[0] in fs;
  }

  lemma WindowSplit(m: seq<byte>, p: nat, q: nat, r: nat, first: seq<byte>, rest: seq<byte>, all: seq<byte>)
    requires q == p + |first| && r == q + |rest| && r <= |m|
    requires m[p..r] == all == first + rest
    ensures m[p..q] == first && m[q..r] == rest
  {
    assert m[p..q] == m[p..r][..|first|];
    assert m[q..r] == m[p..r][|first|..];
  }

  /** Main result on records: stored and loaded back, in either build, a record
      returns every value modulo 256^width, and no other byte of memory changes. */
  lemma RecordRoundTrip(b: Build, m: seq<byte>, p: nat, fs: seq<Field>)
    requires ValidFields(fs) && p + Size(Widths(fs)) <= |m|
    ensures ValidWidths(Widths(fs))
    ensures LoadFields(b, StoreFields(m, p, fs), p, Widths(fs)) == Reduced(fs)
    ensures forall i :: 0 <= i < p || p + Size(Widths(fs)) <= i < |m| ==> StoreFields(m, p, fs)[i] == m[i]
  {
    StoreFieldsIsOneWrite(m, p, fs);
    PutEffect(m, p, EncodeFields(fs));
    LoadEncoded(b, StoreFields(m, p, fs), p, fs);
  }

  /** The stores themselves, one IntStore per field in either build, are StoreFields;
      so RecordRoundTrip holds of the code. */
  method StoreRecord(b: Build, T: array<byte>, p: nat, fs: seq<Field>)
    requires ValidFields(fs) && p + Size(Widths(fs)) <= T.Length
    modifies T
    ensures T[..] == StoreFields(old(T[..]), p, fs)
    decreases |fs|
  {
    if fs != [] {
      IntStore(b, fs[0].width, T, p, fs[0].value);
      StoreRecord(b, T, p + fs[0].width, fs[1..]);
    }
  }

  function Zip(ws: seq<nat>, vs: seq<int>): (fs: seq<Field>)
    requires |ws| == |vs|
    ensures |fs| == |ws| && Widths(fs) == ws
  {
    if ws == [] then [] else
      var fs := [Field(ws[0], vs[0])] + Zip(ws[1..], vs[1..]);
      assert fs[1..] == Zip(ws[1..], vs[1..]);
      fs
  }

  /** The fields of the given widths that lie in memory from p on. */
  function FieldsAt(m: seq<byte>, p: nat, ws: seq<nat>): (fs: seq<Field>)
    requires p + Size(ws) <= |m|
    ensures |fs| == |ws| && Widths(fs) == ws
  {
    Zip(ws, ValuesAt(m, p, ws))
  }

  /** Encoding what lies in memory gives the bytes that are there. */
  lemma {:induction false} EncodeFieldsAt(m: seq<byte>, p: nat, ws: seq<nat>)
    requires p + Size(ws) <= |m|
    ensures EncodeFields(FieldsAt(m, p, ws)) == m[p..p + Size(ws)]
    decreases |ws|
  {
    if ws != [] {
      var q, r := p + ws[0], p + Size(ws);
      assert r == q + Size(ws[1..]);
      calc {
        EncodeFields(FieldsAt(m, p, ws));
        { EncodeHead(m, p, ws); }
        m[p..q] + EncodeFields(FieldsAt(m, q, ws[1..]));
        { EncodeFieldsAt(m, q, ws[1..]); }
        m[p..q] + m[q..r];
        { SliceSplit(m, p, q, r); }
        m[p..r];
      }
    }
  }

  /** The first field's bytes, then those of the fields behind it. */
  lemma EncodeHead(m: seq<byte>, p: nat, ws: seq<nat>)
    requires ws != [] && p + Size(ws) <= |m|
    ensures EncodeFields(FieldsAt(m, p, ws)) ==
      m[p..p + ws[0]] + EncodeFields(FieldsAt(m, p + ws[0], ws[1..]))
  {
    EncodeWindow(m[p..p + ws[0]]);
    assert ValuesAt(m, p, ws)[1..] == ValuesAt(m, p + ws[0], ws[1..]);
    assert FieldsAt(m, p, ws)[1..] == FieldsAt(m, p + ws[0], ws[1..]);
  }

  lemma EncodeWindow(bs: seq<byte>)
    ensures EncodeInt(|bs|, Value(bs)) == bs
  {
    EncodeValue(bs);
    ValueBound(bs);
    ResidueSmall(|bs|, Value(bs));
  }

  /** The other direction: storing back what was loaded leaves memory as it was. */
  lemma LoadThenStore(b: Build, m: seq<byte>, p: nat, ws: seq<nat>)
    requires ValidWidths(ws) && p + Size(ws) <= |m|
    ensures StoreFields(m, p, Zip(ws, LoadFields(b, m, p, ws))) == m
  {
    var fs := Zip(ws, LoadFields(b, m, p, ws));
    LoadsValuesAt(b, m, p, ws);
    EncodeFieldsAt(m, p, ws);
    StoreFieldsIsOneWrite(m, p, fs);
    PutUnique(m, p, EncodeFields(fs), m);
  }

  /** An unsigned load returns what was stored exactly when it fits in n bytes. */
  lemma UnsignedRoundTrip(b: Build, n: nat, m: seq<byte>, p: nat, v: int)
    requires IsWidth(n) && p + n <= |m|
    ensures UintKorr(b, n, Put(m, p, EncodeInt(n, v)), p) == v <==> 0 <= v < Pow256(n)
  {
    PutEffect(m, p, EncodeInt(n, v));
    ResidueSmall(n, v);
  }

  /** A signed load returns what was stored exactly when it fits in n signed bytes. */
  lemma SignedRoundTrip(b: Build, n: nat, m: seq<byte>, p: nat, v: int)
    requires IsSignedWidth(n) && p + n <= |m|
    ensures SintKorr(b, n, Put(m, p, EncodeInt(n, v)), p) == v
       <==> -(Pow256(n) / 2) <= v < Pow256(n) / 2
  {
    PutEffect(m, p, EncodeInt(n, v));
    ResidueSigned(n, v);
  }
}
