/** IO_CACHE of my_sys.h.  The inline paths of my_b_read, my_b_get and my_b_write are
    modelled as written; what they fall back to has no body in the repository, so it
    enters as assumptions, each marked ASSUMPTION below: ReadContract, GetContract and
    WriteContract for calls that succeed, FailedTransfer for calls that fail, and that a
    slow path works in the buffer the cache has, a read leaving the file alone. */

/** The cache as a state machine on values, and what holds over whole runs. */
module IoCacheRuns {
  import opened Machine
  import opened LittleEndian
  import opened MyByteorder
  import opened Records
  import opened Sequences

  // ----- reading

  /** The fields a read uses.  Pointers are offsets into the buffer. */
  datatype ReadFields = ReadFields(posInFile: nat, requestPos: nat, readPos: nat, readEnd: nat, buffer: seq<byte>)
  {
    predicate PointersInOrder()
    {
      requestPos <= readPos <= readEnd <= |buffer|
    }

    /** my_b_tell */
    function Tell(): nat
      requires PointersInOrder()
    {
      posInFile + (readPos - requestPos)
    }
  }

  type ReadState = v: ReadFields | v.PointersInOrder() witness ReadFields(0, 0, 0, 0, [])

  /** The buffer holds the bytes of file f from posInFile on, up to readEnd. */
  ghost predicate Window(f: seq<byte>, v: ReadState)
  {
    var n := v.readEnd - v.requestPos;
    v.posInFile + n <= |f| && v.buffer[v.requestPos..v.readEnd] == f[v.posInFile..v.posInFile + n]
  }

  /** One successful call, with what it delivered. */
  datatype ReadEvent = Read(bytes: seq<byte>) | Get(c: byte)

  function Delivered(e: ReadEvent): seq<byte>
  {
    match e
    case Read(bytes) => bytes
    case Get(c) => [c]
  }

  /** ASSUMPTION on a successful read_function: it delivers the bytes at the current
      position and leaves a buffer that is a window of the file after them. */
  ghost predicate ReadContract(f: seq<byte>, v: ReadState, bytes: seq<byte>, v': ReadState)
  {
    && v.Tell() + |bytes| <= |f| && bytes == f[v.Tell()..v.Tell() + |bytes|]
    && Window(f, v') && v'.Tell() == v.Tell() + |bytes|
  }

  /** ASSUMPTION on a successful _my_b_get: the same for one byte. */
  ghost predicate GetContract(f: seq<byte>, v: ReadState, c: byte, v': ReadState)
  {
    && v.Tell() < |f| && c == f[v.Tell()]
    && Window(f, v') && v'.Tell() == v.Tell() + 1
  }

  /** One successful my_b_read or my_b_get. */
  ghost predicate ReadStep(f: seq<byte>, v: ReadState, e: ReadEvent, v': ReadState)
  {
    match e
    case Read(bytes) =>
      if v.readPos + |bytes| <= v.readEnd then
        && bytes == v.buffer[v.readPos..v.readPos + |bytes|]
        && v' == v.(readPos := v.readPos + |bytes|)
      else
        ReadContract(f, v, bytes, v')
    case Get(c) =>
      if v.readPos != v.readEnd then
        && c == v.buffer[v.readPos]
        && v' == v.(readPos := v.readPos + 1)
      else
        GetContract(f, v, c, v')
  }

  /** A run of successful calls through the states vs. */
  ghost predicate ReadRun(f: seq<byte>, vs: seq<ReadState>, es: seq<ReadEvent>)
  {
    && |vs| == |es| + 1 && Window(f, vs[0])
    && forall i :: 0 <= i < |es| ==> ReadStep(f, vs[i], es[i], vs[i + 1])
  }

  function AllDelivered(es: seq<ReadEvent>): seq<byte>
  {
    if es == [] then [] else AllDelivered(es[..|es| - 1]) + Delivered(es[|es| - 1])
  }

  /** One step delivers the bytes of the file at the current position, whichever path
      it took, and moves the position past them. */
  lemma ReadStepDelivers(f: seq<byte>, v: ReadState, e: ReadEvent, v': ReadState)
    requires Window(f, v) && ReadStep(f, v, e, v')
    ensures Window(f, v') && v'.Tell() == v.Tell() + |Delivered(e)| <= |f|
    ensures Delivered(e) == f[v.Tell()..v'.Tell()]
  {
    match e
    case Read(bytes) =>
      if v.readPos + |bytes| <= v.readEnd {
        BufferedBytes(f, v, |bytes|);
      }
    case Get(c) =>
      if v.readPos != v.readEnd {
        WindowByte(f, v, v.readPos);
      }
      assert [f[v.Tell()]] == f[v.Tell()..v.Tell() + 1];
  }

  /** The unread bytes of the buffer are those of the file at the position. */
  lemma BufferedBytes(f: seq<byte>, v: ReadState, n: nat)
    requires Window(f, v) && v.readPos + n <= v.readEnd
    ensures v.Tell() + n <= |f| && v.buffer[v.readPos..v.readPos + n] == f[v.Tell()..v.Tell() + n]
  {
    var a, b := v.buffer[v.readPos..v.readPos + n], f[v.Tell()..v.Tell() + n];
    forall j | 0 <= j < n
      ensures a[j] == b[j]
    {
      WindowByte(f, v, v.readPos + j);
    }
  }

  lemma WindowByte(f: seq<byte>, v: ReadState, i: nat)
    requires Window(f, v) && v.requestPos <= i < v.readEnd
    ensures v.posInFile + (i - v.requestPos) < |f|
    ensures v.buffer[i] == f[v.posInFile + (i - v.requestPos)]
  {
  }

  lemma ReadRunPrefix(f: seq<byte>, vs: seq<ReadState>, es: seq<ReadEvent>)
    requires ReadRun(f, vs, es) && es != []
    ensures ReadRun(f, vs[..|es|], es[..|es| - 1])
    ensures ReadStep(f, vs[|es| - 1], es[|es| - 1], vs[|es|])
  {
  }

  /** Main result on reading: over any run that mixes reads of any sizes and single
      gets, what has been delivered is the file read sequentially from the starting
      position, and my_b_tell is the offset of the next undelivered byte. */
  lemma {:induction false} ReadingIsSequential(f: seq<byte>, vs: seq<ReadState>, es: seq<ReadEvent>)
    requires ReadRun(f, vs, es)
    ensures Window(f, vs[|es|]) && vs[0].Tell() <= vs[|es|].Tell() <= |f|
    ensures vs[|es|].Tell() == vs[0].Tell() + |AllDelivered(es)|
    ensures AllDelivered(es) == f[vs[0].Tell()..vs[|es|].Tell()]
    decreases |es|
  {
    if es == [] {
      assert f[vs[0].Tell()..vs[0].Tell()] == [];
    } else {
      var n := |es| - 1;
      ReadRunPrefix(f, vs, es);
      ReadingIsSequential(f, vs[..n + 1], es[..n]);
      ReadStepDelivers(f, vs[n], es[n], vs[n + 1]);
      SliceSplit(f, vs[0].Tell(), vs[n].Tell(), vs[n + 1].Tell());
    }
  }

  /** How reads are split, which path each took and how large the buffers were does
      not matter: of two runs over one file from one position, the one that has
      delivered less has delivered a prefix of the other. */
  lemma ReadSplitIrrelevant(f: seq<byte>, vs: seq<ReadState>, es: seq<ReadEvent>,
                            vs2: seq<ReadState>, es2: seq<ReadEvent>)
    requires ReadRun(f, vs, es) && ReadRun(f, vs2, es2)
    requires vs[0].Tell() == vs2[0].Tell()
    ensures |AllDelivered(es)| <= |AllDelivered(es2)| ==> AllDelivered(es) <= AllDelivered(es2)
    ensures |AllDelivered(es)| == |AllDelivered(es2)| ==>
      AllDelivered(es) == AllDelivered(es2) && vs[|es|].Tell() == vs2[|es2|].Tell()
  {
    ReadingIsSequential(f, vs, es);
    ReadingIsSequential(f, vs2, es2);
  }

  // ----- writing

  /** The fields a write uses, with the contents of the file behind the cache. */
  datatype WriteFields = WriteFields(posInFile: nat, requestPos: nat, writePos: nat, writeEnd: nat,
                                     buffer: seq<byte>, file: seq<byte>)
  {
    predicate PointersInOrder()
    {
      requestPos <= writePos <= writeEnd <= |buffer| && posInFile <= |file|
    }

    /** my_b_tell */
    function Tell(): nat
      requires PointersInOrder()
    {
      posInFile + (writePos - requestPos)
    }

    /** my_b_bytes_in_cache */
    function BytesInCache(): nat
      requires PointersInOrder()
    {
      writeEnd - writePos
    }

    /** Everything before the current position: flushed bytes, then buffered bytes. */
    function Logical(): seq<byte>
      requires PointersInOrder()
    {
      file[..posInFile] + buffer[requestPos..writePos]
    }
  }

  type WriteState = v: WriteFields | v.PointersInOrder() witness WriteFields(0, 0, 0, 0, [], [])

  /** ASSUMPTION on a successful write_function: nothing written before is lost or
      changed, and the new data follows it. */
  ghost predicate WriteContract(v: WriteState, data: seq<byte>, v': WriteState)
  {
    v'.Logical() == v.Logical() + data
  }

  /** ASSUMPTION on a failed slow path of count bytes: error is -1 after a hard error, or
      the number of bytes that were transferred. */
  predicate FailedTransfer(error: int, count: nat)
  {
    error == -1 || 0 <= error < count
  }

  predicate FastWrite(v: WriteState, data: seq<byte>)
  {
    v.writePos + |data| <= v.writeEnd
  }

  /** One successful my_b_write. */
  ghost predicate WriteStep(v: WriteState, data: seq<byte>, v': WriteState)
  {
    if FastWrite(v, data) then
      v' == v.(buffer := Put(v.buffer, v.writePos, data), writePos := v.writePos + |data|)
    else
      WriteContract(v, data, v')
  }

  ghost predicate WriteRun(vs: seq<WriteState>, ds: seq<seq<byte>>)
  {
    && |vs| == |ds| + 1
    && forall i :: 0 <= i < |ds| ==> WriteStep(vs[i], ds[i], vs[i + 1])
  }

  /** A write that fits extends the logical contents by its data without touching the
      file or any byte of the buffer at or behind write_end. */
  lemma FastWriteExtends(v: WriteState, data: seq<byte>, v': WriteState)
    requires FastWrite(v, data) && WriteStep(v, data, v')
    ensures v'.Logical() == v.Logical() + data
    ensures v'.file == v.file && v'.posInFile == v.posInFile && v'.writeEnd == v.writeEnd
    ensures v'.buffer[v.writeEnd..] == v.buffer[v.writeEnd..]
    ensures v'.Tell() + v'.BytesInCache() == v.Tell() + v.BytesInCache()
  {
  }

  /** Main result on writing: over any run, flushed bytes followed by buffered bytes
      are what was there before followed by everything written, in order; my_b_tell is
      the length of that. */
  lemma {:induction false} WritingIsSequential(vs: seq<WriteState>, ds: seq<seq<byte>>)
    requires WriteRun(vs, ds)
    ensures vs[|ds|].Logical() == vs[0].Logical() + Concat(ds)
    ensures vs[|ds|].Tell() == |vs[|ds|].Logical()| == vs[0].Tell() + |Concat(ds)|
    decreases |ds|
  {
    if ds == [] {
      Associate(vs[0].Logical(), [], []);
    } else {
      var n := |ds| - 1;
      WriteRunPrefix(vs, ds);
      WritingIsSequential(vs[..n + 1], ds[..n]);
      WriteStepExtends(vs[n], ds[n], vs[n + 1]);
      Associate(vs[0].Logical(), Concat(ds[..n]), ds[n]);
    }
  }

  lemma WriteStepExtends(v: WriteState, data: seq<byte>, v': WriteState)
    requires WriteStep(v, data, v')
    ensures v'.Logical() == v.Logical() + data && v'.Tell() == |v'.Logical()| == v.Tell() + |data|
  {
  }

  lemma WriteRunPrefix(vs: seq<WriteState>, ds: seq<seq<byte>>)
    requires WriteRun(vs, ds) && ds != []
    ensures WriteRun(vs[..|ds|], ds[..|ds| - 1])
    ensures WriteStep(vs[|ds| - 1], ds[|ds| - 1], vs[|ds|])
  {
  }

  /** Between two slow-path calls my_b_tell + my_b_bytes_in_cache is constant and
      nothing reaches the file. */
  lemma {:induction false} FastRunKeepsCapacity(vs: seq<WriteState>, ds: seq<seq<byte>>)
    requires WriteRun(vs, ds)
    requires forall i :: 0 <= i < |ds| ==> FastWrite(vs[i], ds[i])
    ensures vs[|ds|].Tell() + vs[|ds|].BytesInCache() == vs[0].Tell() + vs[0].BytesInCache()
    ensures vs[|ds|].file == vs[0].file && vs[|ds|].posInFile == vs[0].posInFile
    ensures |Concat(ds)| <= vs[0].BytesInCache()
    decreases |ds|
  {
    if ds != [] {
      var n := |ds| - 1;
      WriteRunPrefix(vs, ds);
      FastRunKeepsCapacity(vs[..n + 1], ds[..n]);
      FastWriteExtends(vs[n], ds[n], vs[n + 1]);
    }
    WritingIsSequential(vs, ds);
  }

  // ----- both directions

  /** What is written through one cache and has reached the file is what is read back
      through another, however either side is split into calls. */
  lemma WriteThenRead(ws: seq<WriteState>, ds: seq<seq<byte>>, f: seq<byte>,
                      rs: seq<ReadState>, es: seq<ReadEvent>)
    requires WriteRun(ws, ds) && ws[|ds|].Logical() <= f
    requires ReadRun(f, rs, es) && rs[0].Tell() == ws[0].Tell()
    requires |AllDelivered(es)| == |Concat(ds)|
    ensures AllDelivered(es) == Concat(ds)
    ensures rs[|es|].Tell() == ws[|ds|].Tell()
  {
    WritingIsSequential(ws, ds);
    ReadingIsSequential(f, rs, es);
    var a, l := ws[0].Tell(), ws[|ds|].Logical();
    assert |ws[0].Logical()| == a;
    assert f[..|l|] == l;
    assert f[a..|l|] == f[..|l|][a..] == Concat(ds);
  }

  /** End to end: a record of integer fields, encoded, written in any pieces, read back
      in any pieces and decoded, returns every value modulo 256^width. */
  lemma RecordThroughFile(b: Build, fs: seq<Field>, ws: seq<WriteState>, ds: seq<seq<byte>>, f: seq<byte>,
                          rs: seq<ReadState>, es: seq<ReadEvent>)
    requires ValidFields(fs) && Concat(ds) == EncodeFields(fs)
    requires WriteRun(ws, ds) && ws[|ds|].Logical() <= f
    requires ReadRun(f, rs, es) && rs[0].Tell() == ws[0].Tell()
    requires |AllDelivered(es)| == |Concat(ds)|
    ensures ValidWidths(Widths(fs)) && |AllDelivered(es)| == Size(Widths(fs))
    ensures LoadFields(b, AllDelivered(es), 0, Widths(fs)) == Reduced(fs)
  {
    WriteThenRead(ws, ds, f, rs, es);
    var m := AllDelivered(es);
    assert m[0..0 + Size(Widths(fs))] == m;
    LoadEncoded(b, m, 0, fs);
  }
}

/** The cache as the object whose fields the macros update. */
module IoCacheObject {
  import opened Machine
  import opened LittleEndian
  import opened Memory
  import opened IoCacheRuns

  datatype CacheType = ReadCache | WriteCache

  /** my_b_EOF, which is INT_MIN and so differs from every byte. */
  const MY_B_EOF: int := -0x8000_0000

  /** A copy to the start of an array sets its prefix and leaves the rest. */
  lemma CopiedPrefix(m: seq<byte>, bytes: seq<byte>)
    requires |bytes| <= |m|
    ensures Put(m, 0, bytes)[..|bytes|] == bytes && Put(m, 0, bytes)[|bytes|..] == m[|bytes|..]
  {
  }

  class IoCache {
    var posInFile: nat
    var requestPos: nat
    var readPos: nat
    var readEnd: nat
    var buffer: array<byte>
    var writePos: nat
    var writeEnd: nat
    var writeBuffer: array<byte>
    const cacheType: CacheType
    var error: int
    /** Contents of the file behind the descriptor. */
    var file: seq<byte>

    constructor (kind: CacheType, size: nat, contents: seq<byte>, offset: nat)
      requires offset <= |contents|
      ensures cacheType == kind && file == contents && MyBTell() == offset
      ensures kind == ReadCache ==> Readable()
      ensures kind == WriteCache ==> Writable() && WriteView().Logical() == contents[..offset]
      ensures fresh(buffer) && fresh(writeBuffer)
    {
      cacheType, file, error := kind, contents, 0;
      posInFile, requestPos, readPos, readEnd, writePos, writeEnd := offset, 0, 0, 0, 0, size;
      buffer := new byte[size];
      writeBuffer := new byte[size];
    }

    /** `*current_pos`: write_pos in a WRITE_CACHE, read_pos otherwise. */
    function CurrentPos(): nat
      reads this
    {
      if cacheType == WriteCache then writePos else readPos
    }

    /** `*current_end` */
    function CurrentEnd(): nat
      reads this
    {
      if cacheType == WriteCache then writeEnd else readEnd
    }

    /** my_b_tell */
    function MyBTell(): int
      reads this
    {
      posInFile + (CurrentPos() - requestPos)
    }

    /** my_b_bytes_in_cache */
    function MyBBytesInCache(): int
      reads this
    {
      CurrentEnd() - CurrentPos()
    }

    function ReadView(): ReadFields
      reads this, buffer
    {
      ReadFields(posInFile, requestPos, readPos, readEnd, buffer[..])
    }

    function WriteView(): WriteFields
      reads this, writeBuffer
    {
      WriteFields(posInFile, requestPos, writePos, writeEnd, writeBuffer[..], file)
    }

    ghost predicate Readable()
      reads this, buffer
    {
      cacheType == ReadCache && ReadView().PointersInOrder() && Window(file, ReadView())
    }

    ghost predicate Writable()
      reads this, writeBuffer
    {
      cacheType == WriteCache && WriteView().PointersInOrder()
    }

    /** my_b_read.  Returns 0 after a step of the read machine whose delivered bytes are
        in Buffer; bytes of Buffer behind Count are not touched.  Data wholly in the
        cache is always delivered. */
    method MyBRead(Buffer: array<byte>, Count: nat) returns (rc: int)
      requires Readable() && Count <= Buffer.Length && Buffer != buffer
      modifies this, buffer, Buffer
      ensures file == old(file) && buffer == old(buffer)
      ensures Buffer[Count..] == old(Buffer[Count..])
      ensures rc == 0 ==> Readable() && ReadStep(file, old(ReadView()), Read(Buffer[..Count]), ReadView())
      ensures rc == 0 ==> MyBTell() == old(MyBTell()) + Count <= |file|
      ensures rc == 0 ==> Buffer[..Count] == file[old(MyBTell())..MyBTell()]
      ensures Count <= old(MyBBytesInCache()) ==>
        rc == 0 && MyBBytesInCache() == old(MyBBytesInCache()) - Count && error == old(error)
      ensures rc != 0 ==> FailedTransfer(error, Count)
    {
      if readPos + Count <= readEnd {
        CopyOut(Buffer, Count);
        rc := 0;
      } else {
        rc := ReadFunction(Buffer, Count);
      }
    }

    /** The inline branch of my_b_read: memcpy, then advance read_pos. */
    method CopyOut(Buffer: array<byte>, Count: nat)
      requires Readable() && Count <= Buffer.Length && Buffer != buffer
      requires readPos + Count <= readEnd
      modifies this`readPos, Buffer
      ensures Readable() && buffer[..] == old(buffer[..]) && readPos == old(readPos) + Count
      ensures Buffer[..Count] == buffer[old(readPos)..readPos] && Buffer[Count..] == old(Buffer[Count..])
      ensures MyBTell() == old(MyBTell()) + Count <= |file|
      ensures Buffer[..Count] == file[old(MyBTell())..MyBTell()]
    {
      var bytes := buffer[readPos..readPos + Count];
      CopyTo(Buffer, 0, bytes);
      readPos := readPos + Count;
      CopiedPrefix(old(Buffer[..]), bytes);
      ReadStepDelivers(file, old(ReadView()), Read(bytes), ReadView());
    }

    /** my_b_get.  Returns the next byte, or my_b_EOF, which no byte equals. */
    method MyBGet() returns (c: int)
      requires Readable()
      modifies this, buffer
      ensures file == old(file) && buffer == old(buffer)
      ensures c == MY_B_EOF || 0 <= c < 0x100
      ensures c != MY_B_EOF ==> Readable() && ReadStep(file, old(ReadView()), Get(c), ReadView())
      ensures c != MY_B_EOF ==> MyBTell() == old(MyBTell()) + 1 <= |file| && c == file[old(MyBTell())]
      ensures old(MyBBytesInCache()) > 0 ==>
        c != MY_B_EOF && MyBBytesInCache() == old(MyBBytesInCache()) - 1 && error == old(error)
      ensures c == MY_B_EOF ==> FailedTransfer(error, 1)
    {
      if readPos != readEnd {
        readPos := readPos + 1;
        c := buffer[readPos - 1];
      } else {
        c := GetFunction();
      }
      if c != MY_B_EOF {
        ReadStepDelivers(file, old(ReadView()), Get(c), ReadView());
      }
    }

    /** my_b_write.  Returns 0 after a step of the write machine. */
    method MyBWrite(Buffer: array<byte>, Count: nat) returns (rc: int)
      requires Writable() && Count <= Buffer.Length && Buffer != writeBuffer
      modifies this, writeBuffer
      ensures writeBuffer == old(writeBuffer) && Buffer[..] == old(Buffer[..])
      ensures rc == 0 ==> Writable() && WriteStep(old(WriteView()), Buffer[..Count], WriteView())
      ensures rc == 0 ==> WriteView().Logical() == old(WriteView().Logical()) + Buffer[..Count]
      ensures rc == 0 ==> MyBTell() == |WriteView().Logical()| == old(MyBTell()) + Count
      ensures Count <= old(MyBBytesInCache()) ==>
        && rc == 0 && file == old(file) && error == old(error)
        && MyBBytesInCache() == old(MyBBytesInCache()) - Count
      ensures rc != 0 ==> FailedTransfer(error, Count)
    {
      if writePos + Count <= writeEnd {
        CopyTo(writeBuffer, writePos, Buffer[..Count]);
        writePos := writePos + Count;
        rc := 0;
        FastWriteExtends(old(WriteView()), Buffer[..Count], WriteView());
      } else {
        rc := WriteFunction(Buffer, Count);
      }
    }

    /** my_b_tell and my_b_bytes_in_cache of a read cache: the next bytes of the file, and
        no others, are in the cache, from read_pos on. */
    lemma NextBytesInCache()
      requires Readable()
      ensures 0 <= MyBTell() && 0 <= MyBBytesInCache() && MyBTell() + MyBBytesInCache() <= |file|
      ensures buffer[readPos..readEnd] == file[MyBTell()..MyBTell() + MyBBytesInCache()]
    {
      BufferedBytes(file, ReadView(), readEnd - readPos);
    }

    /** Of a write cache: my_b_tell is the length of all that was written, flushed or not,
        and my_b_bytes_in_cache what the cache takes without a flush. */
    lemma WrittenSoFar()
      requires Writable()
      ensures MyBTell() == |WriteView().Logical()| && MyBBytesInCache() == writeEnd - writePos
    {
    }

    // ASSUMPTION: the slow paths behave as the contracts below say.  Their bodies are
    // not the repository's; they pick behaviours the contracts allow, which shows that
    // the contracts can be met.

    /** Loads any window of the file at offset pos. */
    method Refill(pos: nat)
      requires cacheType == ReadCache && pos <= |file|
      modifies this, buffer
      ensures Readable() && ReadView().Tell() == pos
      ensures file == old(file) && buffer == old(buffer)
    {
      var n: nat :| n <= buffer.Length && pos + n <= |file|;
      forall i | 0 <= i < n {
        buffer[i] := file[pos + i];
      }
      posInFile, requestPos, readPos, readEnd := pos, 0, 0, n;
      assert buffer[0..n] == file[pos..pos + n];
    }

    /** `*read_function`, called when the data is not wholly in the cache. */
    method ReadFunction(Buffer: array<byte>, Count: nat) returns (rc: int)
      requires Readable() && Count <= Buffer.Length && Buffer != buffer
      requires readPos + Count > readEnd
      modifies this, buffer, Buffer
      ensures file == old(file) && buffer == old(buffer)
      ensures Buffer[Count..] == old(Buffer[Count..])
      ensures rc == 0 ==> Readable() && ReadContract(file, old(ReadView()), Buffer[..Count], ReadView())
      ensures rc != 0 ==> FailedTransfer(error, Count)
    {
      var pos := ReadView().Tell();
      var hardError: bool := *;
      if hardError {
        error, rc := -1, 1;
      } else if pos + Count > |file| {
        error, rc := |file| - pos, 1;
      } else {
        var bytes := file[pos..pos + Count];
        CopyTo(Buffer, 0, bytes);
        Refill(pos + Count);
        rc := 0;
        CopiedPrefix(old(Buffer[..]), bytes);
      }
    }

    /** `_my_b_get`, called at the end of the window. */
    method GetFunction() returns (c: int)
      requires Readable() && readPos == readEnd
      modifies this, buffer
      ensures file == old(file) && buffer == old(buffer)
      ensures c == MY_B_EOF || 0 <= c < 0x100
      ensures c != MY_B_EOF ==> Readable() && GetContract(file, old(ReadView()), c, ReadView())
      ensures c == MY_B_EOF ==> FailedTransfer(error, 1)
    {
      var pos := ReadView().Tell();
      var hardError: bool := *;
      if hardError {
        error, c := -1, MY_B_EOF;
      } else if pos >= |file| {
        error, c := 0, MY_B_EOF;
      } else {
        c := file[pos];
        Refill(pos + 1);
      }
    }

    /** `*write_function`, called when the data does not fit. */
    method WriteFunction(Buffer: array<byte>, Count: nat) returns (rc: int)
      requires Writable() && Count <= Buffer.Length && Buffer != writeBuffer
      requires writePos + Count > writeEnd
      modifies this, writeBuffer
      ensures writeBuffer == old(writeBuffer) && Buffer[..] == old(Buffer[..])
      ensures rc == 0 ==> Writable() && WriteContract(old(WriteView()), Buffer[..Count], WriteView())
      ensures rc != 0 ==> FailedTransfer(error, Count)
    {
      var hardError: bool, partial: bool := *, *;
      if hardError {
        error, rc := -1, 1;
      } else if partial {
        var written: nat :| written < Count;
        error, rc := written, 1;
      } else {
        var all := WriteView().Logical() + Buffer[..Count];
        var limit: nat :| limit <= writeBuffer.Length;
        file, posInFile := all, |all|;
        requestPos, writePos, writeEnd := 0, 0, limit;
        assert WriteView().Logical() == all;
        rc := 0;
      }
    }
  }
}
