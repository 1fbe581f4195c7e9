/** Message framing of XMsgEvent: a frame is a four-byte header size in the byte order of
    the host, the serialised header, and a body whose size the header holds.  The state
    machine that puts frames together again from whatever pieces the network delivers,
    on values, and what survives which splits of the byte stream. */
module XMsgFraming {
  import opened Machine
  import opened LittleEndian
  import opened Sequences

  const MAX_MSG_SIZE := 100_000_000

  datatype Option<+T> = None | Some(value: T)

  /** XMsgHead: the two fields the framing uses, and the others. */
  datatype Head = Head(msgSize: int32, msgType: int, others: seq<byte>)

  /** The host, and protobuf's ParseFromArray (with what it leaves in the header object
      when it fails) and SerializeAsString. */
  datatype Codec = Codec(host: Host, parse: seq<byte> -> (bool, Head), serialize: Head -> seq<byte>)
  {
    ghost predicate RoundTrips()
    {
      forall h :: parse(serialize(h)) == (true, h)
    }
  }

  /** XMsg: the announced size, the type, and the bytes received so far. */
  datatype Msg = Msg(size: int, msgType: int, got: seq<byte>)
  {
    predicate Recved() { size >= 0 && |got| == size }

    predicate Valid() { if size == 0 then got == [] else 0 < size <= MAX_MSG_SIZE && |got| <= size }
  }

  const EMPTY := Msg(0, 0, [])

  /** head_, msg_ and *pb_head_. */
  datatype State = State(head: Msg, msg: Msg, pbHead: Option<Head>)
  {
    /** Nothing of a body is there before its header is. */
    predicate Valid()
    {
      && head.Valid() && msg.Valid()
      && (head.size == 0 || !head.Recved() ==> msg.size == 0)
    }

    /** XMsgEvent::Clear, which keeps pb_head_. */
    function Clear(): State { State(EMPTY, EMPTY, pbHead) }
  }

  /** What a handler is called with: *pb_head_, and type and data of msg_. */
  datatype Message = Message(head: Head, msgType: int, body: seq<byte>)

  /** Outcome of RecvMsg.  Its caller clears the state after a failure, so that is the
      state given here. */
  datatype Received = Received(ok: bool, s: State, rest: seq<byte>)

  function Min(a: nat, b: nat): nat { if a < b then a else b }

  /** The value of head_.size after `got` was read over its zero bytes. */
  function SizeField(h: Host, got: seq<byte>): int32
    requires |got| <= 4
  {
    ToS32(WordValue(h, got + Zeros(4 - |got|)))
  }

  function Zeros(n: nat): (z: seq<byte>)
    ensures |z| == n
  {
    seq(n, i => 0)
  }

  function RecvMsg(c: Codec, s: State, buf: seq<byte>): (r: Received)
    requires s.Valid()
    ensures r.s.Valid() && |r.rest| <= |buf|
    ensures r.ok && s.head.size == 0 ==> |r.rest| < |buf|
  {
    if s.head.size == 0 then
      var got := buf[..Min(4, |buf|)];
      var rest := buf[|got|..];
      var size := SizeField(c.host, got);
      if got == [] || size <= 0 || size > MAX_MSG_SIZE then
        Received(false, s.Clear(), rest)
      else
        RecvHead(c, s.(head := Msg(size, s.head.msgType, [])), rest)
    else
      RecvHead(c, s, buf)
  }

  function RecvHead(c: Codec, s: State, buf: seq<byte>): (r: Received)
    requires s.Valid() && s.head.size != 0
    ensures r.s.Valid() && |r.rest| <= |buf|
  {
    if s.head.Recved() then RecvBody(s, buf) else
      var n := Min(s.head.size - |s.head.got|, |buf|);
      var h := s.head.(got := s.head.got + buf[..n]);
      var rest := buf[n..];
      if n == 0 || !h.Recved() then
        Received(true, s.(head := h), rest)
      else
        ParseHead(c, s.(head := h), rest)
  }

  /** The header is whole. */
  function ParseHead(c: Codec, s: State, buf: seq<byte>): (r: Received)
    requires s.Valid() && s.head.size != 0 && s.head.Recved() && s.msg.size == 0
    ensures r.s.Valid() && |r.rest| <= |buf|
  {
    var (ok, pb) := c.parse(s.head.got);
    if !ok then
      Received(false, State(EMPTY, EMPTY, Some(pb)), buf)
    else if pb.msgSize == 0 then
      Received(true, State(s.head, Msg(0, pb.msgType, []), Some(pb)), buf)
    else if pb.msgSize < 0 || pb.msgSize > MAX_MSG_SIZE then
      Received(false, State(EMPTY, EMPTY, Some(pb)), buf)
    else
      RecvBody(State(s.head, Msg(pb.msgSize, pb.msgType, []), Some(pb)), buf)
  }

  function RecvBody(s: State, buf: seq<byte>): (r: Received)
    requires s.Valid() && s.head.size != 0 && s.head.Recved()
    ensures r.s.Valid() && |r.rest| <= |buf|
  {
    if s.msg.Recved() then Received(true, s, buf) else
      var n := Min(s.msg.size - |s.msg.got|, |buf|);
      Received(true, s.(msg := s.msg.(got := s.msg.got + buf[..n])), buf[n..])
  }

  /** State after a read callback, bytes left unread, and the messages dispatched. */
  datatype Outcome = Outcome(s: State, rest: seq<byte>, sent: seq<Message>)

  /** XMsgEvent::ReadCB(): receive and dispatch until there is no whole message. */
  function ReadCB(c: Codec, s: State, buf: seq<byte>): (o: Outcome)
    requires s.Valid()
    ensures o.s.Valid()
    decreases |buf|, if s.head.size == 0 then 0 else 1
  {
    var r := RecvMsg(c, s, buf);
    if !r.ok || r.s.pbHead.None? || !r.s.msg.Recved() then
      Outcome(r.s, r.rest, [])
    else
      var o := ReadCB(c, r.s.Clear(), r.rest);
      Outcome(o.s, o.rest, [Message(r.s.pbHead.value, r.s.msg.msgType, r.s.msg.got)] + o.sent)
  }

  /** In a read callback that will end in `all`: `done` has been dispatched, and from the
      state s with the bytes buf it goes on, or not. */
  ghost predicate Progress(c: Codec, all: Outcome, again: bool, s: State, buf: seq<byte>, done: seq<Message>)
    requires s.Valid()
  {
    if again then
      var o := ReadCB(c, s, buf);
      all == o.(sent := done + o.sent)
    else
      all == Outcome(s, buf, done)
  }

  /** One round of the callback keeps where it will end. */
  lemma Round(c: Codec, all: Outcome, s: State, buf: seq<byte>, done: seq<Message>)
    requires s.Valid() && Progress(c, all, true, s, buf, done)
    ensures var r := RecvMsg(c, s, buf);
      if !r.ok || r.s.pbHead.None? || !r.s.msg.Recved() then
        Progress(c, all, false, r.s, r.rest, done)
      else
        Progress(c, all, true, r.s.Clear(), r.rest, done + [Message(r.s.pbHead.value, r.s.msg.msgType, r.s.msg.got)])
  {
    var r := RecvMsg(c, s, buf);
    if r.ok && r.s.pbHead.Some? && r.s.msg.Recved() {
      var m, o := Message(r.s.pbHead.value, r.s.msg.msgType, r.s.msg.got), ReadCB(c, r.s.Clear(), r.rest);
      assert done + ([m] + o.sent) == done + [m] + o.sent;
    }
  }

  /** One read callback per piece that arrives; what was left unread comes first. */
  function Run(c: Codec, s: State, pieces: seq<seq<byte>>): (o: Outcome)
    requires s.Valid()
    ensures o.s.Valid()
  {
    if pieces == [] then Outcome(s, [], []) else
      var n := |pieces| - 1;
      var before := Run(c, s, pieces[..n]);
      var o := ReadCB(c, before.s, before.rest + pieces[n]);
      Outcome(o.s, o.rest, before.sent + o.sent)
  }

  /** o is what a run over the pieces leaves, behind messages dispatched before it. */
  predicate RunSoFar(c: Codec, s: State, before: seq<Message>, pieces: seq<seq<byte>>, o: Outcome)
    requires s.Valid()
  {
    var run := Run(c, s, pieces);
    o == run.(sent := before + run.sent)
  }

  /** A callback for one more piece goes on where the run was. */
  lemma OnePiece(c: Codec, s: State, before: seq<Message>, pieces: seq<seq<byte>>, i: nat, o: Outcome)
    requires s.Valid() && i < |pieces| && RunSoFar(c, s, before, pieces[..i], o)
    ensures var next := ReadCB(c, o.s, o.rest + pieces[i]);
      RunSoFar(c, s, before, pieces[..i + 1], next.(sent := o.sent + next.sent))
  {
    assert pieces[..i + 1][..i] == pieces[..i] && pieces[..i + 1][i] == pieces[i];
    var run := Run(c, s, pieces[..i]);
    Associate(before, run.sent, ReadCB(c, o.s, o.rest + pieces[i]).sent);
  }

  // ----- frames

  datatype Frame = Frame(head: seq<byte>, body: seq<byte>)

  /** What SendMsg writes. */
  function Wire(c: Codec, f: Frame): (bs: seq<byte>)
    ensures |bs| == 4 + |f.head| + |f.body|
  {
    WordBytes(c.host, 4, |f.head|) + f.head + f.body
  }

  /** A frame the receiver accepts: sizes within its limits, a header that parses, and
      the size of the body in it. */
  predicate ValidFrame(c: Codec, f: Frame)
  {
    && 0 < |f.head| <= MAX_MSG_SIZE && |f.body| <= MAX_MSG_SIZE
    && c.parse(f.head).0 && c.parse(f.head).1.msgSize == |f.body|
  }

  function MessageOf(c: Codec, f: Frame): Message
  {
    var pb := c.parse(f.head).1;
    Message(pb, pb.msgType, f.body)
  }

  function WireAll(c: Codec, fs: seq<Frame>): seq<byte>
  {
    if fs == [] then [] else Wire(c, fs[0]) + WireAll(c, fs[1..])
  }

  /** The messages whose frames lie wholly in the first n bytes of the stream. */
  function Complete(c: Codec, fs: seq<Frame>, n: nat): seq<Message>
  {
    if fs == [] || n < |Wire(c, fs[0])| then [] else
      [MessageOf(c, fs[0])] + Complete(c, fs[1..], n - |Wire(c, fs[0])|)
  }

  /** The bytes among the first n that belong to a frame not yet complete. */
  function Partial(c: Codec, fs: seq<Frame>, n: nat): seq<byte>
  {
    if fs == [] then [] else
      var w := Wire(c, fs[0]);
      if n < |w| then w[..n] else Partial(c, fs[1..], n - |w|)
  }

  /** The wire bytes of the current frame that the state has kept. */
  function Held(c: Codec, s: State): seq<byte>
    requires s.Valid()
  {
    if s.head.size == 0 then [] else WordBytes(c.host, 4, s.head.size) + s.head.got + s.msg.got
  }

  /** Conservation after the first n bytes of the stream: exactly the complete messages
      have been dispatched, and every byte of the incomplete one is still there. */
  predicate Conserved(c: Codec, o: Outcome, fs: seq<Frame>, n: nat)
    requires o.s.Valid()
  {
    o.sent == Complete(c, fs, n) && Held(c, o.s) + o.rest == Partial(c, fs, n)
  }

  /** Where the stream may be cut between two reads: at a frame boundary, or behind the
      header of a frame; before the end of a header only if no header was ever parsed
      before (first), and then not inside the size field. */
  predicate GoodCut(c: Codec, fs: seq<Frame>, n: nat, first: bool)
  {
    if fs == [] then true else
      var w := |Wire(c, fs[0])|;
      if n < w then GoodCutInFrame(fs[0], n, first) else GoodCut(c, fs[1..], n - w, false)
  }

  predicate GoodCutInFrame(f: Frame, n: nat, first: bool)
  {
    n == 0 || n >= 4 + |f.head| || (first && n >= 4)
  }

  // ----- the state a good cut leaves

  predicate InFrame(c: Codec, s: State, f: Frame, n: nat, first: bool)
    requires n < |Wire(c, f)|
  {
    var pb := c.parse(f.head).1;
    if n == 0 then s.head == EMPTY && s.msg == EMPTY && s.pbHead.None? == first
    else if n < 4 then false
    else if n < 4 + |f.head| then first && s == State(Msg(|f.head|, 0, f.head[..n - 4]), EMPTY, None)
    else s == State(Msg(|f.head|, 0, f.head), Msg(|f.body|, pb.msgType, f.body[..n - 4 - |f.head|]), Some(pb))
  }

  predicate InSync(c: Codec, s: State, fs: seq<Frame>, n: nat, first: bool)
    requires n <= |WireAll(c, fs)|
  {
    if fs == [] then s.head == EMPTY && s.msg == EMPTY && s.pbHead.None? == first else
      var w := |Wire(c, fs[0])|;
      if n < w then InFrame(c, s, fs[0], n, first) else InSync(c, s, fs[1..], n - w, false)
  }

  lemma InFrameHeld(c: Codec, s: State, f: Frame, n: nat, first: bool)
    requires s.Valid() && n < |Wire(c, f)| && InFrame(c, s, f, n, first)
    ensures Held(c, s) == Wire(c, f)[..n]
  {
  }

  lemma {:induction false} InSyncHeld(c: Codec, s: State, fs: seq<Frame>, n: nat, first: bool)
    requires s.Valid() && n <= |WireAll(c, fs)| && InSync(c, s, fs, n, first)
    ensures Held(c, s) == Partial(c, fs, n)
    decreases |fs|
  {
    if fs != [] {
      if n < |Wire(c, fs[0])| {
        InFrameHeld(c, s, fs[0], n, first);
      } else {
        InSyncHeld(c, s, fs[1..], n - |Wire(c, fs[0])|, false);
      }
    }
  }

  // ----- one frame, received to its end

  lemma SizeFieldWhole(c: Codec, n: nat, buf: seq<byte>)
    requires n <= MAX_MSG_SIZE && |buf| >= 4 && buf[..4] == WordBytes(c.host, 4, n)
    ensures SizeField(c.host, buf[..4]) == n
  {
    var got := buf[..4];
    assert got + Zeros(0) == got;
    WordRoundTrip(c.host, 4, n, []);
    Pow256Values();
    ModRange(n, Pow256(4));
    TwosComplementUnique(0x1_0000_0000, n, n);
  }

  /** A whole size field is read and its header space allocated. */
  lemma SizeThenHead(c: Codec, s: State, n: nat, tail: seq<byte>)
    requires s.Valid() && s.head == EMPTY && s.msg == EMPTY && 0 < n <= MAX_MSG_SIZE
    ensures RecvMsg(c, s, WordBytes(c.host, 4, n) + tail)
         == RecvHead(c, State(Msg(n, 0, []), EMPTY, s.pbHead), tail)
  {
    var buf := WordBytes(c.host, 4, n) + tail;
    assert buf[..4] == WordBytes(c.host, 4, n) && buf[4..] == tail;
    SizeFieldWhole(c, n, buf);
  }

  lemma BodyToEnd(s: State, body: seq<byte>, k: nat, rest: seq<byte>)
    requires s.Valid() && s.head.size != 0 && s.head.Recved()
    requires k < |body| && s.msg.size == |body| && s.msg.got == body[..k]
    ensures RecvBody(s, body[k..] + rest) == Received(true, s.(msg := s.msg.(got := body)), rest)
  {
    var buf := body[k..] + rest;
    assert buf[..|body| - k] == body[k..] && buf[|body| - k..] == rest;
    assert body[..k] + body[k..] == body;
  }

  lemma HeadToEnd(c: Codec, s: State, f: Frame, k: nat, rest: seq<byte>)
    requires s.Valid() && ValidFrame(c, f) && k < |f.head|
    requires s.head == Msg(|f.head|, 0, f.head[..k]) && s.msg == EMPTY
    ensures var pb := c.parse(f.head).1;
      RecvHead(c, s, f.head[k..] + f.body + rest)
      == Received(true, State(Msg(|f.head|, 0, f.head), Msg(|f.body|, pb.msgType, f.body), Some(pb)), rest)
  {
    var pb := c.parse(f.head).1;
    var buf := f.head[k..] + f.body + rest;
    assert buf[..|f.head| - k] == f.head[k..] && buf[|f.head| - k..] == f.body + rest;
    assert f.head[..k] + f.head[k..] == f.head;
    if |f.body| > 0 {
      BodyToEnd(State(Msg(|f.head|, 0, f.head), Msg(|f.body|, pb.msgType, []), Some(pb)), f.body, 0, rest);
      assert f.body[0..] == f.body;
    } else {
      assert f.body + rest == rest;
    }
  }

  /** From any state in sync, the rest of the frame completes its message. */
  lemma FrameToEnd(c: Codec, s: State, f: Frame, n: nat, first: bool, rest: seq<byte>)
    requires s.Valid() && ValidFrame(c, f) && n < |Wire(c, f)| && InFrame(c, s, f, n, first)
    ensures var pb := c.parse(f.head).1;
      RecvMsg(c, s, Wire(c, f)[n..] + rest)
      == Received(true, State(Msg(|f.head|, 0, f.head), Msg(|f.body|, pb.msgType, f.body), Some(pb)), rest)
  {
    if n == 0 {
      FromStart(c, s, f, rest);
    } else if n < 4 + |f.head| {
      assert Wire(c, f)[n..] + rest == f.head[n - 4..] + f.body + rest;
      HeadToEnd(c, s, f, n - 4, rest);
    } else {
      assert Wire(c, f)[n..] + rest == f.body[n - 4 - |f.head|..] + rest;
      BodyToEnd(s, f.body, n - 4 - |f.head|, rest);
    }
  }

  lemma FromStart(c: Codec, s: State, f: Frame, rest: seq<byte>)
    requires s.Valid() && ValidFrame(c, f) && s.head == EMPTY && s.msg == EMPTY
    ensures var pb := c.parse(f.head).1;
      RecvMsg(c, s, Wire(c, f)[0..] + rest)
      == Received(true, State(Msg(|f.head|, 0, f.head), Msg(|f.body|, pb.msgType, f.body), Some(pb)), rest)
  {
    var tail := f.head[0..] + f.body + rest;
    assert Wire(c, f)[0..] + rest == WordBytes(c.host, 4, |f.head|) + tail;
    SizeThenHead(c, s, |f.head|, tail);
    HeadToEnd(c, State(Msg(|f.head|, 0, f.head[..0]), EMPTY, s.pbHead), f, 0, rest);
  }

  /** So the callback dispatches it and goes on behind it with a cleared state. */
  lemma FrameDispatched(c: Codec, s: State, f: Frame, n: nat, first: bool, rest: seq<byte>)
    requires s.Valid() && ValidFrame(c, f) && n < |Wire(c, f)| && InFrame(c, s, f, n, first)
    ensures var pb := c.parse(f.head).1;
      var o := ReadCB(c, State(EMPTY, EMPTY, Some(pb)), rest);
      ReadCB(c, s, Wire(c, f)[n..] + rest) == Outcome(o.s, o.rest, [MessageOf(c, f)] + o.sent)
  {
    FrameToEnd(c, s, f, n, first, rest);
  }

  // ----- what the receiver refuses

  /** A header RecvMsg goes on with: it parses, and a body of its size is within the
      limit. */
  predicate GoodHeader(c: Codec, head: seq<byte>)
  {
    c.parse(head).0 && 0 <= c.parse(head).1.msgSize <= MAX_MSG_SIZE
  }

  /** Any other header, complete after the next bytes, is never dispatched: the callback
      stops there with both buffers cleared, and leaves what follows unread. */
  lemma BadHeaderDropped(c: Codec, s: State, head: seq<byte>, k: nat, tail: seq<byte>)
    requires s.Valid() && k < |head| && s.head == Msg(|head|, 0, head[..k]) && s.msg == EMPTY
    requires !GoodHeader(c, head)
    ensures ReadCB(c, s, head[k..] + tail) == Outcome(State(EMPTY, EMPTY, Some(c.parse(head).1)), tail, [])
  {
    var buf := head[k..] + tail;
    assert buf[..|head| - k] == head[k..] && buf[|head| - k..] == tail;
    assert head[..k] + head[k..] == head;
  }

  /** The same for its whole frame. */
  lemma BadFrameDropped(c: Codec, s: State, head: seq<byte>, tail: seq<byte>)
    requires s.Valid() && s.head == EMPTY && s.msg == EMPTY
    requires 0 < |head| <= MAX_MSG_SIZE && !GoodHeader(c, head)
    ensures ReadCB(c, s, WordBytes(c.host, 4, |head|) + (head + tail))
         == Outcome(State(EMPTY, EMPTY, Some(c.parse(head).1)), tail, [])
  {
    var s' := State(Msg(|head|, 0, head[..0]), EMPTY, s.pbHead);
    SizeThenHead(c, s, |head|, head + tail);
    assert head[0..] == head;
    BadHeaderDropped(c, s', head, 0, tail);
  }

  /** A size that is not positive or above the limit: its four bytes are dropped, nothing
      is dispatched, and what follows is left unread. */
  lemma BadSizeDropped(c: Codec, s: State, size: seq<byte>, tail: seq<byte>)
    requires s.Valid() && s.head == EMPTY && s.msg == EMPTY && |size| == 4
    requires var n := TwosComplement(0x1_0000_0000, WordValue(c.host, size)); n <= 0 || n > MAX_MSG_SIZE
    ensures ReadCB(c, s, size + tail) == Outcome(s, tail, [])
  {
    var buf := size + tail;
    assert buf[..4] == size && buf[4..] == tail;
    assert size + Zeros(0) == size;
  }

  // ----- one frame, cut before its end

  lemma ReadNothing(c: Codec, s: State)
    requires s.Valid() && s.head == EMPTY && s.msg == EMPTY
    ensures ReadCB(c, s, []) == Outcome(s, [], [])
  {
  }

  /** A cut in the header of the first frame ever, or in a body, keeps every byte. */
  lemma GoodCutKept(c: Codec, s: State, f: Frame, n: nat, n': nat, first: bool)
    requires s.Valid() && ValidFrame(c, f) && n <= n' < |Wire(c, f)| && InFrame(c, s, f, n, first)
    requires GoodCutInFrame(f, n', first)
    ensures var o := ReadCB(c, s, Wire(c, f)[n..n']);
      o.rest == [] && o.sent == [] && InFrame(c, o.s, f, n', first)
  {
    var buf := Wire(c, f)[n..n'];
    if n' == 0 {
      ReadNothing(c, s);
    } else if n' < 4 + |f.head| {
      HeadCut(c, s, f, n, n', first);
    } else {
      BodyCut(c, s, f, n, n', first);
    }
  }

  /** What RecvMsg makes of a cut behind the size field and before the header's end. */
  lemma HeadCut(c: Codec, s: State, f: Frame, n: nat, n': nat, first: bool)
    requires s.Valid() && ValidFrame(c, f) && n <= n' < |Wire(c, f)| && InFrame(c, s, f, n, first)
    requires 4 <= n' < 4 + |f.head|
    ensures RecvMsg(c, s, Wire(c, f)[n..n'])
         == Received(true, State(Msg(|f.head|, 0, f.head[..n' - 4]), EMPTY, s.pbHead), [])
  {
    var buf := Wire(c, f)[n..n'];
    if n == 0 {
      assert buf == WordBytes(c.host, 4, |f.head|) + f.head[0..n' - 4];
      SizeThenHead(c, s, |f.head|, f.head[0..n' - 4]);
      HeadPartial(c, State(Msg(|f.head|, 0, f.head[..0]), EMPTY, s.pbHead), f, 0, n' - 4);
    } else {
      MiddleSlice(WordBytes(c.host, 4, |f.head|), f.head, f.body, n, n');
      HeadPartial(c, s, f, n - 4, n' - 4);
    }
  }

  lemma MiddleSlice(a: seq<byte>, b: seq<byte>, c: seq<byte>, n: nat, n': nat)
    requires |a| <= n <= n' <= |a| + |b|
    ensures (a + b + c)[n..n'] == b[n - |a|..n' - |a|]
  {
  }

  lemma HeadPartial(c: Codec, s: State, f: Frame, i: nat, j: nat)
    requires s.Valid() && ValidFrame(c, f) && i <= j < |f.head|
    requires s.head == Msg(|f.head|, 0, f.head[..i]) && s.msg == EMPTY
    ensures RecvHead(c, s, f.head[i..j]) == Received(true, s.(head := Msg(|f.head|, 0, f.head[..j])), [])
  {
    var buf := f.head[i..j];
    assert buf[..j - i] == buf && f.head[..i] + buf == f.head[..j];
  }

  lemma BodyCut(c: Codec, s: State, f: Frame, n: nat, n': nat, first: bool)
    requires s.Valid() && ValidFrame(c, f) && n <= n' < |Wire(c, f)| && InFrame(c, s, f, n, first)
    requires 4 + |f.head| <= n'
    ensures var pb := c.parse(f.head).1;
      RecvMsg(c, s, Wire(c, f)[n..n']) == Received(true,
        State(Msg(|f.head|, 0, f.head), Msg(|f.body|, pb.msgType, f.body[..n' - 4 - |f.head|]), Some(pb)), [])
  {
    var w, k := Wire(c, f), n' - 4 - |f.head|;
    var buf, b := w[n..n'], f.body[..k];
    if n == 0 {
      assert buf == WordBytes(c.host, 4, |f.head|) + (f.head[0..] + b);
      SizeThenHead(c, s, |f.head|, f.head[0..] + b);
      HeadThenCut(c, State(Msg(|f.head|, 0, f.head[..0]), EMPTY, s.pbHead), f, 0, k);
    } else if n < 4 + |f.head| {
      assert buf == f.head[n - 4..] + b;
      HeadThenCut(c, s, f, n - 4, k);
    } else {
      var j := n - 4 - |f.head|;
      assert buf == f.body[j..k] && f.body[..j] + f.body[j..k] == b;
    }
  }

  lemma HeadThenCut(c: Codec, s: State, f: Frame, i: nat, k: nat)
    requires s.Valid() && ValidFrame(c, f) && i < |f.head| && k < |f.body|
    requires s.head == Msg(|f.head|, 0, f.head[..i]) && s.msg == EMPTY
    ensures var pb := c.parse(f.head).1;
      RecvHead(c, s, f.head[i..] + f.body[..k])
      == Received(true, State(Msg(|f.head|, 0, f.head), Msg(|f.body|, pb.msgType, f.body[..k]), Some(pb)), [])
  {
    var buf := f.head[i..] + f.body[..k];
    assert buf[..|f.head| - i] == f.head[i..] && buf[|f.head| - i..] == f.body[..k];
    assert f.head[..i] + f.head[i..] == f.head;
    assert [] + f.body[..k] == f.body[..k];
  }

  /** A cut before the end of a header, once a header has been parsed: the previous header
      is dispatched again, with an empty body, and the bytes of the new one are lost. */
  lemma HeaderCutRedispatches(c: Codec, s: State, f: Frame, n': nat)
    requires s.Valid() && ValidFrame(c, f) && s.head == EMPTY && s.msg == EMPTY && s.pbHead.Some?
    requires 4 <= n' < 4 + |f.head|
    ensures ReadCB(c, s, Wire(c, f)[..n']) == Outcome(s, [], [Message(s.pbHead.value, 0, [])])
  {
    HeadCut(c, s, f, 0, n', false);
    assert Wire(c, f)[0..n'] == Wire(c, f)[..n'];
    ReadNothing(c, s);
  }

  /** A cut inside a size field: the bytes read are taken for a whole size, whatever
      follows, or dropped if they make none within the limit. */
  lemma SizeCutLost(c: Codec, s: State, f: Frame, n': nat)
    requires s.Valid() && ValidFrame(c, f) && s.head == EMPTY && s.msg == EMPTY && 0 < n' < 4
    ensures var size := SizeField(c.host, Wire(c, f)[..n']);
      ReadCB(c, s, Wire(c, f)[..n']) ==
      if 0 < size <= MAX_MSG_SIZE then ReadCB(c, s, WordBytes(c.host, 4, size)) else Outcome(s, [], [])
  {
    var buf := Wire(c, f)[..n'];
    var size := SizeField(c.host, buf);
    assert buf[..n'] == buf && buf[n'..] == [];
    if 0 < size <= MAX_MSG_SIZE {
      SizeThenHead(c, s, size, []);
      assert WordBytes(c.host, 4, size) + [] == WordBytes(c.host, 4, size);
    }
  }

  /** The size that is taken when only the first k of its four bytes are read: its low
      digits on a little-endian host, its high digits on a big-endian one. */
  lemma SizeTaken(h: Host, n: nat, k: nat)
    requires n <= MAX_MSG_SIZE && 0 < k < 4
    ensures Pow256(k) > 0 && Pow256(4 - k) > 0
    ensures SizeField(h, WordBytes(h, 4, n)[..k]) ==
      if h == Little then n % Pow256(k) else n - n % Pow256(4 - k)
  {
    match h
    case Little => LowTaken(n, k);
    case Big => HighTaken(n, k);
  }

  lemma LowTaken(n: nat, k: nat)
    requires n <= MAX_MSG_SIZE && 0 < k < 4
    ensures Pow256(k) > 0 && SizeField(Little, WordBytes(Little, 4, n)[..k]) == n % Pow256(k)
  {
    var got := WordBytes(Little, 4, n)[..k];
    var v := LowValue(n, k);
    ZerosBehind(Little, got, 4 - k);
    SizeIs(Little, got, v);
  }

  lemma LowValue(n: nat, k: nat) returns (v: nat)
    requires 0 < k < 4
    ensures v == WordValue(Little, WordBytes(Little, 4, n)[..k])
    ensures Pow256(k) > 0 && v == n % Pow256(k) && v <= n
  {
    FirstBytes(Little, 4, n, k);
    WordRoundTrip(Little, k, n, []);
    v := WordValue(Little, WordBytes(Little, k, n));
    AtMost(n, Pow256(k), v);
  }

  lemma AtMost(n: nat, d: nat, r: nat)
    requires d > 0 && r == n % d
    ensures r <= n
  {
    DivModIdentity(n, d);
    if r > n {
      DivModUnique(n, d, 0, n);
    }
  }

  lemma HighTaken(n: nat, k: nat)
    requires n <= MAX_MSG_SIZE && 0 < k < 4
    ensures Pow256(4 - k) > 0 && SizeField(Big, WordBytes(Big, 4, n)[..k]) == n - n % Pow256(4 - k)
  {
    var got := WordBytes(Big, 4, n)[..k];
    var v := HighValue(n, k);
    ZerosBehind(Big, got, 4 - k);
    SizeIs(Big, got, WordValue(Big, got + Zeros(4 - k)));
  }

  lemma HighValue(n: nat, k: nat) returns (v: nat)
    requires n <= MAX_MSG_SIZE && 0 < k < 4
    ensures v == WordValue(Big, WordBytes(Big, 4, n)[..k])
    ensures Pow256(4 - k) > 0 && v * Pow256(4 - k) == n - n % Pow256(4 - k)
    ensures v * Pow256(4 - k) <= MAX_MSG_SIZE
  {
    var h := High(n, 4 - k);
    FirstBytes(Big, 4, n, k);
    HighIsQuotient(n, 4 - k);
    WordRoundTrip(Big, k, h, []);
    HighPart(n, k);
    v := h;
  }

  lemma SizeIs(h: Host, got: seq<byte>, v: nat)
    requires |got| <= 4 && v <= MAX_MSG_SIZE && WordValue(h, got + Zeros(4 - |got|)) == v
    ensures SizeField(h, got) == v
  {
    SmallSigned(v, v);
  }

  /** The quotient by the weight of the missing bytes fits in k bytes. */
  lemma HighPart(n: nat, k: nat)
    requires n <= MAX_MSG_SIZE && 0 < k < 4
    ensures var p := Pow256(4 - k);
      && p > 0 && Pow256(k) > 0 && n / p % Pow256(k) == n / p
      && 0 <= n / p * p == n - n % p <= MAX_MSG_SIZE
  {
    Pow256Values();
    if k == 1 { Quotient(n, 0x100_0000, 0x100); }
    if k == 2 { Quotient(n, 0x1_0000, 0x1_0000); }
    if k == 3 { Quotient(n, 0x100, 0x100_0000); }
  }

  lemma Quotient(n: nat, p: nat, q: nat)
    requires p > 0 && q > 0 && n < p * q
    ensures n / p % q == n / p && 0 <= n / p * p == n - n % p <= n
  {
    DivModIdentity(n, p);
    if n / p >= q {
      MulMonotone(p, q, n / p);
    }
    ModRange(n / p, q);
    MulCommutes(n / p, p);
  }

  /** The first k of n bytes of a word. */
  lemma {:induction false} FirstBytes(h: Host, n: nat, v: nat, k: nat)
    requires k <= n
    ensures WordBytes(h, n, v)[..k] == WordBytes(h, k, if h == Little then v else High(v, n - k))
  {
    if k < n {
      FirstBytes(h, n - 1, if h == Little then v else v / 256, k);
    }
  }

  /** Zeros behind the bytes of a word. */
  lemma {:induction false} ZerosBehind(h: Host, bs: seq<byte>, k: nat)
    ensures WordValue(h, bs + Zeros(k)) == if h == Little then WordValue(h, bs) else WordValue(h, bs) * Pow256(k)
  {
    var all := bs + Zeros(k);
    if k == 0 {
      assert all == bs;
    } else {
      ZerosBehind(h, bs, k - 1);
      assert all[..|all| - 1] == bs + Zeros(k - 1) && all[|all| - 1] == 0;
    }
  }

  /** A whole size and nothing else is kept, but for what a stale header makes of it. */
  lemma SizeAlone(c: Codec, s: State, size: nat)
    requires s.Valid() && s.head == EMPTY && s.msg == EMPTY && 0 < size <= MAX_MSG_SIZE
    ensures ReadCB(c, s, WordBytes(c.host, 4, size)) ==
      if s.pbHead.None? then Outcome(State(Msg(size, 0, []), EMPTY, None), [], [])
      else Outcome(s, [], [Message(s.pbHead.value, 0, [])])
  {
    var s' := State(Msg(size, 0, []), EMPTY, s.pbHead);
    assert WordBytes(c.host, 4, size) + [] == WordBytes(c.host, 4, size);
    SizeThenHead(c, s, size, []);
    ReadNothing(c, s'.Clear());
  }

  /** No other cut is conserved. */
  lemma BadCutNotConserved(c: Codec, s: State, f: Frame, n: nat, n': nat, first: bool)
    requires s.Valid() && ValidFrame(c, f) && n <= n' < |Wire(c, f)| && InFrame(c, s, f, n, first)
    requires !GoodCutInFrame(f, n', first)
    ensures var o := ReadCB(c, s, Wire(c, f)[n..n']);
      o.sent == [] ==> Held(c, o.s) + o.rest != Wire(c, f)[..n']
  {
    assert Wire(c, f)[0..n'] == Wire(c, f)[..n'];
    if n' < 4 {
      SizeCutLost(c, s, f, n');
      var size := SizeField(c.host, Wire(c, f)[..n']);
      if 0 < size <= MAX_MSG_SIZE {
        SizeAlone(c, s, size);
      }
    } else {
      HeaderCutRedispatches(c, s, f, n');
    }
  }

  // ----- one callback

  /** What a callback that takes the stream from byte n to byte n' leaves: sync and
      conservation if n' is a good cut, no conservation if it is not. */
  ghost predicate StepResult(c: Codec, o: Outcome, fs: seq<Frame>, n: nat, n': nat, first: bool)
    requires o.s.Valid() && n <= n' <= |WireAll(c, fs)|
  {
    if GoodCut(c, fs, n', first) then
      o.rest == [] && Complete(c, fs, n) + o.sent == Complete(c, fs, n') && InSync(c, o.s, fs, n', first)
    else
      !(Complete(c, fs, n) + o.sent == Complete(c, fs, n') && Held(c, o.s) + o.rest == Partial(c, fs, n'))
  }

  ghost predicate AllValid(c: Codec, fs: seq<Frame>)
  {
    forall f :: f in fs ==> ValidFrame(c, f)
  }

  /** A callback that starts in sync has that result. */
  lemma {:induction false} CallbackStep(c: Codec, s: State, buf: seq<byte>, fs: seq<Frame>, n: nat, n': nat, first: bool)
    requires s.Valid() && AllValid(c, fs)
    requires n <= n' <= |WireAll(c, fs)| && buf == WireAll(c, fs)[n..n'] && InSync(c, s, fs, n, first)
    ensures StepResult(c, ReadCB(c, s, buf), fs, n, n', first)
    decreases |fs|, 1
  {
    if fs == [] {
      ReadNothing(c, s);
    } else if n >= |Wire(c, fs[0])| {
      CallbackBehind(c, s, buf, fs, n, n', first);
    } else {
      AllValidTail(c, fs);
      if n' < |Wire(c, fs[0])| {
        StepInside(c, s, fs, n, n', first);
      } else {
        CallbackAcross(c, s, buf, fs, n, n', first);
      }
    }
  }

  lemma {:induction false} CallbackBehind(c: Codec, s: State, buf: seq<byte>, fs: seq<Frame>, n: nat, n': nat, first: bool)
    requires s.Valid() && AllValid(c, fs) && fs != [] && |Wire(c, fs[0])| <= n
    requires n <= n' <= |WireAll(c, fs)| && buf == WireAll(c, fs)[n..n'] && InSync(c, s, fs, n, first)
    ensures StepResult(c, ReadCB(c, s, buf), fs, n, n', first)
    decreases |fs|, 0
  {
    var w := |Wire(c, fs[0])|;
    BehindFirst(c, s, fs, n, n', first);
    CallbackStep(c, s, buf, fs[1..], n - w, n' - w, false);
    StepBehind(c, ReadCB(c, s, buf), fs, n, n', first);
  }

  lemma BehindFirst(c: Codec, s: State, fs: seq<Frame>, n: nat, n': nat, first: bool)
    requires AllValid(c, fs) && fs != [] && |Wire(c, fs[0])| <= n <= n' <= |WireAll(c, fs)|
    requires InSync(c, s, fs, n, first)
    ensures var w := |Wire(c, fs[0])|;
      && AllValid(c, fs[1..]) && n' - w <= |WireAll(c, fs[1..])|
      && WireAll(c, fs)[n..n'] == WireAll(c, fs[1..])[n - w..n' - w]
      && InSync(c, s, fs[1..], n - w, false)
  {
    AllValidTail(c, fs);
    SliceBehind(Wire(c, fs[0]), WireAll(c, fs[1..]), n, n');
  }

  lemma {:induction false} CallbackAcross(c: Codec, s: State, buf: seq<byte>, fs: seq<Frame>, n: nat, n': nat, first: bool)
    requires s.Valid() && AllValid(c, fs) && fs != [] && n < |Wire(c, fs[0])| <= n'
    requires n' <= |WireAll(c, fs)| && buf == WireAll(c, fs)[n..n'] && InSync(c, s, fs, n, first)
    ensures StepResult(c, ReadCB(c, s, buf), fs, n, n', first)
    decreases |fs|, 0
  {
    var w := |Wire(c, fs[0])|;
    var s' := State(EMPTY, EMPTY, Some(c.parse(fs[0].head).1));
    var rest := WireAll(c, fs[1..])[0..n' - w];
    FirstDispatched(c, s, fs, n, n', first, s');
    CallbackStep(c, s', rest, fs[1..], 0, n' - w, false);
    StepAcross(c, ReadCB(c, s', rest), fs, n, n', first);
  }

  lemma FirstDispatched(c: Codec, s: State, fs: seq<Frame>, n: nat, n': nat, first: bool, s': State)
    requires s.Valid() && AllValid(c, fs) && fs != [] && n < |Wire(c, fs[0])| <= n' <= |WireAll(c, fs)|
    requires InSync(c, s, fs, n, first) && s' == State(EMPTY, EMPTY, Some(c.parse(fs[0].head).1))
    ensures var w := |Wire(c, fs[0])|;
      var o := ReadCB(c, s', WireAll(c, fs[1..])[0..n' - w]);
      && AllValid(c, fs[1..]) && InSync(c, s', fs[1..], 0, false)
      && ReadCB(c, s, WireAll(c, fs)[n..n']) == Outcome(o.s, o.rest, [MessageOf(c, fs[0])] + o.sent)
  {
    AllValidTail(c, fs);
    ClearInSync(c, s', fs[1..], false);
    SliceAcross(Wire(c, fs[0]), WireAll(c, fs[1..]), n, n');
    FrameDispatched(c, s, fs[0], n, first, WireAll(c, fs[1..])[0..n' - |Wire(c, fs[0])|]);
  }

  lemma AllValidTail(c: Codec, fs: seq<Frame>)
    requires AllValid(c, fs) && fs != []
    ensures ValidFrame(c, fs[0]) && AllValid(c, fs[1..])
  {
  }

  lemma SliceBehind(a: seq<byte>, b: seq<byte>, n: nat, n': nat)
    requires |a| <= n <= n' <= |a| + |b|
    ensures (a + b)[n..n'] == b[n - |a|..n' - |a|]
  {
  }

  lemma SliceAcross(a: seq<byte>, b: seq<byte>, n: nat, n': nat)
    requires n <= |a| <= n' <= |a| + |b|
    ensures (a + b)[n..n'] == a[n..] + b[0..n' - |a|]
  {
  }

  /** The callback is behind the first frame. */
  lemma StepBehind(c: Codec, o: Outcome, fs: seq<Frame>, n: nat, n': nat, first: bool)
    requires o.s.Valid() && fs != [] && |Wire(c, fs[0])| <= n <= n' <= |WireAll(c, fs)|
    requires StepResult(c, o, fs[1..], n - |Wire(c, fs[0])|, n' - |Wire(c, fs[0])|, false)
    ensures StepResult(c, o, fs, n, n', first)
  {
    var k := n' - |Wire(c, fs[0])|;
    CompleteBehind(c, o, fs, n, n');
    if GoodCut(c, fs[1..], k, false) {
      assert InSync(c, o.s, fs, n', first);
    } else {
      assert Partial(c, fs, n') == Partial(c, fs[1..], k);
    }
  }

  lemma CompleteBehind(c: Codec, o: Outcome, fs: seq<Frame>, n: nat, n': nat)
    requires fs != [] && |Wire(c, fs[0])| <= n <= n'
    ensures var w := |Wire(c, fs[0])|;
      Complete(c, fs, n) + o.sent == Complete(c, fs, n')
      <==> Complete(c, fs[1..], n - w) + o.sent == Complete(c, fs[1..], n' - w)
  {
    var w := |Wire(c, fs[0])|;
    Prepend(MessageOf(c, fs[0]), Complete(c, fs[1..], n - w), o.sent, Complete(c, fs[1..], n' - w));
  }

  lemma Prepend(m: Message, a: seq<Message>, b: seq<Message>, r: seq<Message>)
    ensures ([m] + a) + b == [m] + r <==> a + b == r
    ensures a == [] ==> ([m] + b == [m] + r <==> a + b == r)
  {
    assert ([m] + a) + b == [m] + (a + b);
    assert ([m] + (a + b))[1..] == a + b && ([m] + r)[1..] == r;
    assert a == [] ==> a + b == b;
  }

  /** The callback ends inside the first frame. */
  lemma StepInside(c: Codec, s: State, fs: seq<Frame>, n: nat, n': nat, first: bool)
    requires s.Valid() && fs != [] && ValidFrame(c, fs[0]) && n <= n' < |Wire(c, fs[0])|
    requires InFrame(c, s, fs[0], n, first)
    ensures n' <= |WireAll(c, fs)| && StepResult(c, ReadCB(c, s, WireAll(c, fs)[n..n']), fs, n, n', first)
  {
    assert WireAll(c, fs)[n..n'] == Wire(c, fs[0])[n..n'];
    if GoodCutInFrame(fs[0], n', first) {
      GoodCutKept(c, s, fs[0], n, n', first);
    } else {
      BadCutNotConserved(c, s, fs[0], n, n', first);
    }
  }

  /** The callback completes the first frame; o is what it does behind it. */
  lemma StepAcross(c: Codec, o: Outcome, fs: seq<Frame>, n: nat, n': nat, first: bool)
    requires o.s.Valid() && fs != [] && n < |Wire(c, fs[0])| <= n' <= |WireAll(c, fs)|
    requires StepResult(c, o, fs[1..], 0, n' - |Wire(c, fs[0])|, false)
    ensures StepResult(c, Outcome(o.s, o.rest, [MessageOf(c, fs[0])] + o.sent), fs, n, n', first)
  {
    var k := n' - |Wire(c, fs[0])|;
    CompleteAcross(c, o, fs, n, n');
    if GoodCut(c, fs[1..], k, false) {
      assert InSync(c, o.s, fs, n', first);
    } else {
      assert Partial(c, fs, n') == Partial(c, fs[1..], k);
    }
  }

  lemma CompleteAcross(c: Codec, o: Outcome, fs: seq<Frame>, n: nat, n': nat)
    requires fs != [] && n < |Wire(c, fs[0])| <= n'
    ensures var w, m := |Wire(c, fs[0])|, MessageOf(c, fs[0]);
      Complete(c, fs, n) + ([m] + o.sent) == Complete(c, fs, n')
      <==> Complete(c, fs[1..], 0) + o.sent == Complete(c, fs[1..], n' - w)
  {
    var m := MessageOf(c, fs[0]);
    assert Complete(c, fs, n) == [] && Complete(c, fs[1..], 0) == [];
    Prepend(m, [], o.sent, Complete(c, fs[1..], n' - |Wire(c, fs[0])|));
    assert [] + ([m] + o.sent) == [m] + o.sent;
  }

  lemma ClearInSync(c: Codec, s: State, fs: seq<Frame>, first: bool)
    requires s.head == EMPTY && s.msg == EMPTY && s.pbHead.None? == first
    ensures InSync(c, s, fs, 0, first) && Complete(c, fs, 0) == [] && GoodCut(c, fs, 0, first)
  {
  }

  // ----- whole runs

  ghost predicate AllCutsGood(c: Codec, fs: seq<Frame>, pieces: seq<seq<byte>>, first: bool)
  {
    forall i :: 0 <= i <= |pieces| ==> GoodCut(c, fs, |Concat(pieces[..i])|, first)
  }

  ghost predicate AlwaysConserved(c: Codec, s: State, fs: seq<Frame>, pieces: seq<seq<byte>>)
    requires s.Valid()
  {
    forall i :: 0 <= i <= |pieces| ==> Conserved(c, Run(c, s, pieces[..i]), fs, |Concat(pieces[..i])|)
  }

  ghost predicate Delivery(c: Codec, s: State, fs: seq<Frame>, pieces: seq<seq<byte>>)
  {
    && s.head == EMPTY && s.msg == EMPTY
    && AllValid(c, fs)
    && Concat(pieces) <= WireAll(c, fs)
  }

  lemma DeliveryPrefix(c: Codec, s: State, fs: seq<Frame>, pieces: seq<seq<byte>>)
    requires Delivery(c, s, fs, pieces) && pieces != []
    ensures Delivery(c, s, fs, pieces[..|pieces| - 1])
  {
    var n := |pieces| - 1;
    assert Concat(pieces[..n]) <= Concat(pieces);
  }

  /** What a run leaves: sync if its last cut is good, no conservation if it is not. */
  ghost predicate RunResult(c: Codec, s: State, fs: seq<Frame>, pieces: seq<seq<byte>>)
    requires s.Valid() && Concat(pieces) <= WireAll(c, fs)
  {
    var o, n, first := Run(c, s, pieces), |Concat(pieces)|, s.pbHead.None?;
    if GoodCut(c, fs, n, first) then
      o.rest == [] && o.sent == Complete(c, fs, n) && InSync(c, o.s, fs, n, first)
    else
      !Conserved(c, o, fs, n)
  }

  /** While all cuts are good the run stays in sync, and the first bad one shows. */
  lemma {:induction false} RunStep(c: Codec, s: State, fs: seq<Frame>, pieces: seq<seq<byte>>)
    requires Delivery(c, s, fs, pieces)
    requires pieces != [] ==> AllCutsGood(c, fs, pieces[..|pieces| - 1], s.pbHead.None?)
    ensures RunResult(c, s, fs, pieces)
    decreases |pieces|
  {
    if pieces == [] {
      ClearInSync(c, s, fs, s.pbHead.None?);
    } else {
      var k := |pieces| - 1;
      var before := pieces[..k];
      DeliveryPrefix(c, s, fs, pieces);
      assert before[..k] == before;
      if k > 0 {
        AllCutsGoodPrefix(c, fs, before, s.pbHead.None?);
      }
      RunStep(c, s, fs, before);
      OnePieceMore(c, s, fs, pieces);
    }
  }

  lemma LastPiece(stream: seq<byte>, pieces: seq<seq<byte>>)
    requires pieces != [] && Concat(pieces) <= stream
    ensures var before := pieces[..|pieces| - 1];
      && |Concat(before)| <= |Concat(pieces)|
      && stream[|Concat(before)|..|Concat(pieces)|] == pieces[|pieces| - 1]
  {
    var m, n := |Concat(pieces[..|pieces| - 1])|, |Concat(pieces)|;
    assert stream[m..n] == Concat(pieces)[m..];
  }

  lemma OnePieceMore(c: Codec, s: State, fs: seq<Frame>, pieces: seq<seq<byte>>)
    requires Delivery(c, s, fs, pieces) && pieces != []
    requires var before := pieces[..|pieces| - 1];
      && Concat(before) <= WireAll(c, fs) && RunResult(c, s, fs, before)
      && GoodCut(c, fs, |Concat(before)|, s.pbHead.None?)
    ensures RunResult(c, s, fs, pieces)
  {
    var before, piece := pieces[..|pieces| - 1], pieces[|pieces| - 1];
    var m, n := |Concat(before)|, |Concat(pieces)|;
    var o := Run(c, s, before);
    LastPiece(WireAll(c, fs), pieces);
    CallbackStep(c, o.s, piece, fs, m, n, s.pbHead.None?);
    LastCallback(c, s, fs, pieces);
  }

  lemma LastCallback(c: Codec, s: State, fs: seq<Frame>, pieces: seq<seq<byte>>)
    requires s.Valid() && pieces != [] && Concat(pieces) <= WireAll(c, fs)
    requires var before, piece := pieces[..|pieces| - 1], pieces[|pieces| - 1];
      var o, m, n := Run(c, s, before), |Concat(before)|, |Concat(pieces)|;
      && m <= n && o.rest == [] && o.sent == Complete(c, fs, m)
      && StepResult(c, ReadCB(c, o.s, piece), fs, m, n, s.pbHead.None?)
    ensures RunResult(c, s, fs, pieces)
  {
    assert [] + pieces[|pieces| - 1] == pieces[|pieces| - 1];
  }

  lemma AllCutsGoodPrefix(c: Codec, fs: seq<Frame>, pieces: seq<seq<byte>>, first: bool)
    requires AllCutsGood(c, fs, pieces, first) && pieces != []
    ensures AllCutsGood(c, fs, pieces[..|pieces| - 1], first)
  {
    var k := |pieces| - 1;
    forall i | 0 <= i <= k
      ensures GoodCut(c, fs, |Concat(pieces[..k][..i])|, first)
    {
      assert pieces[..k][..i] == pieces[..i];
    }
  }

  /** Main result on framing.  For any valid frames and any way the network splits their
      bytes into reads: after every read callback exactly the complete messages have been
      dispatched and no byte of the incomplete one is lost, if and only if every split
      lies where GoodCut allows one. */
  lemma FramesSurviveSplits(c: Codec, s: State, fs: seq<Frame>, pieces: seq<seq<byte>>)
    requires Delivery(c, s, fs, pieces)
    ensures AlwaysConserved(c, s, fs, pieces) <==> AllCutsGood(c, fs, pieces, s.pbHead.None?)
  {
    if AllCutsGood(c, fs, pieces, s.pbHead.None?) {
      GoodCutsConserve(c, s, fs, pieces);
    } else {
      BadCutShows(c, s, fs, pieces);
    }
  }

  lemma GoodCutsConserve(c: Codec, s: State, fs: seq<Frame>, pieces: seq<seq<byte>>)
    requires Delivery(c, s, fs, pieces) && AllCutsGood(c, fs, pieces, s.pbHead.None?)
    ensures AlwaysConserved(c, s, fs, pieces)
  {
    forall i | 0 <= i <= |pieces|
      ensures Conserved(c, Run(c, s, pieces[..i]), fs, |Concat(pieces[..i])|)
    {
      TakePieces(c, s, fs, pieces, i);
      GoodRunConserves(c, s, fs, pieces[..i]);
    }
  }

  lemma {:induction false} TakePieces(c: Codec, s: State, fs: seq<Frame>, pieces: seq<seq<byte>>, i: nat)
    requires Delivery(c, s, fs, pieces) && AllCutsGood(c, fs, pieces, s.pbHead.None?) && i <= |pieces|
    ensures Delivery(c, s, fs, pieces[..i]) && AllCutsGood(c, fs, pieces[..i], s.pbHead.None?)
    decreases |pieces|
  {
    if i == |pieces| {
      assert pieces[..i] == pieces;
    } else {
      DeliveryPrefix(c, s, fs, pieces);
      AllCutsGoodPrefix(c, fs, pieces, s.pbHead.None?);
      TakePieces(c, s, fs, pieces[..|pieces| - 1], i);
      assert pieces[..|pieces| - 1][..i] == pieces[..i];
    }
  }

  lemma GoodRunConserves(c: Codec, s: State, fs: seq<Frame>, pieces: seq<seq<byte>>)
    requires Delivery(c, s, fs, pieces) && AllCutsGood(c, fs, pieces, s.pbHead.None?)
    ensures Conserved(c, Run(c, s, pieces), fs, |Concat(pieces)|)
  {
    var o, n := Run(c, s, pieces), |Concat(pieces)|;
    if pieces != [] {
      AllCutsGoodPrefix(c, fs, pieces, s.pbHead.None?);
    }
    RunStep(c, s, fs, pieces);
    assert pieces[..|pieces|] == pieces;
    InSyncHeld(c, o.s, fs, n, s.pbHead.None?);
    assert Held(c, o.s) + [] == Held(c, o.s);
  }

  lemma {:induction false} BadCutShows(c: Codec, s: State, fs: seq<Frame>, pieces: seq<seq<byte>>)
    requires Delivery(c, s, fs, pieces) && !AllCutsGood(c, fs, pieces, s.pbHead.None?)
    ensures !AlwaysConserved(c, s, fs, pieces)
    decreases |pieces|
  {
    var first, k := s.pbHead.None?, |pieces|;
    assert pieces[..k] == pieces;
    if pieces == [] {
      ClearInSync(c, s, fs, first);
    } else {
      DeliveryPrefix(c, s, fs, pieces);
      var before := pieces[..k - 1];
      if AllCutsGood(c, fs, before, first) {
        LastCutBad(c, fs, pieces, first);
        RunStep(c, s, fs, pieces);
        ConservedBefore(c, s, fs, pieces);
      } else {
        BadCutShows(c, s, fs, before);
        ConservedBefore(c, s, fs, pieces);
      }
    }
  }

  lemma ConservedBefore(c: Codec, s: State, fs: seq<Frame>, pieces: seq<seq<byte>>)
    requires s.Valid() && pieces != []
    ensures AlwaysConserved(c, s, fs, pieces) ==> AlwaysConserved(c, s, fs, pieces[..|pieces| - 1])
    ensures AlwaysConserved(c, s, fs, pieces) ==> Conserved(c, Run(c, s, pieces), fs, |Concat(pieces)|)
  {
    var before := pieces[..|pieces| - 1];
    assert pieces[..|pieces|] == pieces;
    assert forall i :: 0 <= i <= |before| ==> before[..i] == pieces[..i];
  }

  lemma LastCutBad(c: Codec, fs: seq<Frame>, pieces: seq<seq<byte>>, first: bool)
    requires pieces != [] && !AllCutsGood(c, fs, pieces, first)
    requires AllCutsGood(c, fs, pieces[..|pieces| - 1], first)
    ensures !GoodCut(c, fs, |Concat(pieces)|, first)
  {
    if GoodCut(c, fs, |Concat(pieces)|, first) {
      AllCutsGoodExtend(c, fs, pieces, first);
    }
  }

  lemma AllCutsGoodExtend(c: Codec, fs: seq<Frame>, pieces: seq<seq<byte>>, first: bool)
    requires pieces != [] && AllCutsGood(c, fs, pieces[..|pieces| - 1], first)
    requires GoodCut(c, fs, |Concat(pieces)|, first)
    ensures AllCutsGood(c, fs, pieces, first)
  {
    var k := |pieces|;
    forall i | 0 <= i <= k
      ensures GoodCut(c, fs, |Concat(pieces[..i])|, first)
    {
      if i < k {
        assert pieces[..k - 1][..i] == pieces[..i];
      } else {
        assert pieces[..k] == pieces;
      }
    }
  }

  /** So two ways of splitting a whole stream at good places dispatch the same messages:
      all of them, in order. */
  lemma AllMessagesDispatched(c: Codec, s: State, fs: seq<Frame>, pieces: seq<seq<byte>>)
    requires Delivery(c, s, fs, pieces) && Concat(pieces) == WireAll(c, fs)
    requires AllCutsGood(c, fs, pieces, s.pbHead.None?)
    ensures Run(c, s, pieces).sent == Messages(c, fs)
    ensures Run(c, s, pieces).rest == [] && Held(c, Run(c, s, pieces).s) == []
  {
    GoodCutsConserve(c, s, fs, pieces);
    assert pieces[..|pieces|] == pieces;
    WholeStream(c, fs);
  }

  function Messages(c: Codec, fs: seq<Frame>): seq<Message>
  {
    if fs == [] then [] else [MessageOf(c, fs[0])] + Messages(c, fs[1..])
  }

  lemma {:induction false} WholeStream(c: Codec, fs: seq<Frame>)
    ensures Complete(c, fs, |WireAll(c, fs)|) == Messages(c, fs)
    ensures Partial(c, fs, |WireAll(c, fs)|) == []
  {
    if fs != [] {
      WholeStream(c, fs[1..]);
    }
  }

  // ----- the sender

  /** The frame SendMsg makes of a header and a body: it first puts the size of the body
      into the header. */
  function FrameOf(c: Codec, h: Head, body: seq<byte>): Frame
    requires |body| < 0x8000_0000
  {
    Frame(c.serialize(h.(msgSize := |body|)), body)
  }

  /** The receiver accepts such a frame if and only if the header is not empty and both
      parts are within its limit, which the sender does not check; it then dispatches
      the header, with its size field set, and the body. */
  lemma SentFrameValid(c: Codec, h: Head, body: seq<byte>)
    requires c.RoundTrips() && |body| < 0x8000_0000
    ensures var f := FrameOf(c, h, body);
      && (ValidFrame(c, f) <==> 0 < |f.head| <= MAX_MSG_SIZE && |body| <= MAX_MSG_SIZE)
      && MessageOf(c, f) == Message(h.(msgSize := |body|), h.msgType, body)
  {
    var h' := h.(msgSize := |body|);
    assert c.parse(c.serialize(h')) == (true, h');
  }

  /** The size field is in host order: hosts of different byte order read another size
      unless its four bytes are the same backwards. */
  lemma SizeNeedsSameOrder(sender: Host, receiver: Host, n: nat)
    requires n <= MAX_MSG_SIZE
    ensures SizeField(receiver, WordBytes(sender, 4, n)) == n
       <==> sender == receiver || Reverse(Encode(4, n)) == Encode(4, n)
  {
    SizeIsWord(receiver, WordBytes(sender, 4, n), n);
    WordNeedsSameOrder(sender, receiver, n);
  }

  lemma SizeIsWord(h: Host, bs: seq<byte>, n: nat)
    requires |bs| == 4 && n <= MAX_MSG_SIZE
    ensures SizeField(h, bs) == n <==> WordValue(h, bs) == n
  {
    assert bs + Zeros(0) == bs;
    Pow256Values();
    WordRoundTrip(h, 4, 0, bs);
    SmallSigned(WordValue(h, bs), n);
  }

  lemma SmallSigned(v: nat, n: nat)
    requires v < 0x1_0000_0000 && n < 0x8000_0000
    ensures ToS32(v) == n <==> v == n
  {
  }

  lemma WordNeedsSameOrder(sender: Host, receiver: Host, n: nat)
    requires n <= MAX_MSG_SIZE
    ensures WordValue(receiver, WordBytes(sender, 4, n)) == n
       <==> sender == receiver || Reverse(Encode(4, n)) == Encode(4, n)
  {
    var bs := WordBytes(sender, 4, n);
    Pow256Values();
    ValueEncodeSmall(4, n);
    WordBytesIsEncode(sender, 4, n);
    WordValueIsValue(receiver, bs);
    ReverseTwice(Encode(4, n));
    if WordValue(receiver, bs) == n && sender != receiver {
      ValueInjective(Reverse(Encode(4, n)), Encode(4, n));
    }
  }
}
