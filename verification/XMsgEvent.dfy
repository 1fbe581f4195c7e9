/** XMsg and XMsgEvent as the objects whose fields the methods update, each method tied to
    the state machine of XMsgFraming.  The bufferevent is two byte queues, as
    event2/bufferevent.h describes it; handlers are recorded and taken not to close the
    connection. */
module XMsgEventObject {
  import opened Machine
  import opened LittleEndian
  import opened Memory
  import opened Sequences
  import opened XMsgFraming

  class XMsg {
    var size: int
    var msgType: int
    var data: array?<byte>
    var recvSize: int

    ghost predicate Valid()
      reads this, data
    {
      if size == 0 then recvSize == 0
      else 0 < size <= MAX_MSG_SIZE && data != null && data.Length == size && 0 <= recvSize <= size
    }

    function View(): (m: Msg)
      reads this, data
      requires Valid()
      ensures m.Valid()
    {
      Msg(size, msgType, if size == 0 then [] else data[..recvSize])
    }

    constructor ()
      ensures Valid() && View() == EMPTY && data == null
    {
      size, msgType, data, recvSize := 0, 0, null, 0;
    }

    method Alloc(s: int) returns (ok: bool)
      modifies this
      ensures ok <==> 0 < s <= MAX_MSG_SIZE
      ensures msgType == old(msgType)
      ensures ok ==> Valid() && View() == Msg(s, old(msgType), []) && data != null && fresh(data)
      ensures !ok ==> unchanged(this)
    {
      if s <= 0 || s > MAX_MSG_SIZE {
        return false;
      }
      data := new byte[s];
      size := s;
      recvSize := 0;
      return true;
    }

    predicate Recved()
      reads this
    {
      if size < 0 then false else recvSize == size
    }

    method Clear()
      modifies this
      ensures Valid() && View() == EMPTY && data == null
    {
      data := null;
      size, msgType, recvSize := 0, 0, 0;
    }

    /** What RecvMsg does with the bytes a read put behind those already there. */
    method Receive(bytes: seq<byte>)
      requires Valid() && size != 0 && recvSize + |bytes| <= size
      modifies this`recvSize, data
      ensures Valid() && View() == old(View()).(got := old(View()).got + bytes)
    {
      ghost var before := data[..];
      CopyTo(data, recvSize, bytes);
      PutEffect(before, recvSize, bytes);
      recvSize := recvSize + |bytes|;
      assert data[..recvSize] == before[..recvSize - |bytes|] + bytes;
    }
  }

  /** The protobuf object of a header. */
  class XMsgHead {
    var value: Head

    constructor (h: Head)
      ensures value == h
    {
      value := h;
    }
  }

  class XMsgEvent {
    const codec: Codec
    const head: XMsg
    const msg: XMsg
    var pbHead: Option<Head>
    /** bev_ != NULL, its input and output queues, and which of its writes succeed, by
        number. */
    var connected: bool
    var input: seq<byte>
    var output: seq<byte>
    const accepts: nat -> bool
    var writes: nat
    /** The calls of the handlers so far. */
    var dispatched: seq<Message>

    constructor (c: Codec, a: nat -> bool)
      ensures codec == c && accepts == a && Valid() && View() == State(EMPTY, EMPTY, None)
      ensures connected && input == output == [] && writes == 0 && dispatched == []
      ensures fresh(head) && fresh(msg) && head.data == null && msg.data == null
    {
      codec, accepts, writes := c, a, 0;
      head := new XMsg();
      msg := new XMsg();
      pbHead, connected, input, output, dispatched := None, true, [], [], [];
    }

    ghost predicate Separate()
      reads this, head, msg
    {
      head != msg && (head.data == null || head.data != msg.data)
    }

    ghost predicate Valid()
      reads this, head, msg, head.data, msg.data
    {
      Separate() && head.Valid() && msg.Valid() && View().Valid() && (connected || input == [])
    }

    function View(): State
      reads this, head, msg, head.data, msg.data
      requires head.Valid() && msg.Valid()
    {
      State(head.View(), msg.View(), pbHead)
    }

    /** XComTask::Read: at most n bytes from the front of the input queue, and none if
        there is no connection, which then has no queue. */
    method Read(n: nat) returns (bytes: seq<byte>)
      requires connected || input == []
      modifies this`input
      ensures bytes == old(input)[..Min(n, |old(input)|)]
      ensures input == old(input)[|bytes|..]
    {
      if !connected {
        return [];
      }
      bytes := input[..Min(n, |input|)];
      input := input[|bytes|..];
    }

    /** XMsgEvent::RecvMsg.  After a failure only pb_head_ and the queue are as in the
        machine; the caller clears the rest. */
    method RecvMsg() returns (ok: bool)
      requires Valid()
      modifies this`pbHead, this`input, head, msg, head.data, msg.data
      ensures head.data == null || head.data == old(head.data) || fresh(head.data)
      ensures msg.data == null || msg.data == old(msg.data) || fresh(msg.data)
      ensures var r := XMsgFraming.RecvMsg(codec, old(View()), old(input));
        && ok == r.ok && input == r.rest && pbHead == r.s.pbHead
        && (ok ==> Valid() && View() == r.s)
    {
      if head.size == 0 {
        var got := Read(4);
        head.size := SizeField(codec.host, got);
        if got == [] || head.size <= 0 {
          return false;
        }
        var room := head.Alloc(head.size);
        if !room {
          return false;
        }
      }
      ok := RecvHeadAndBody();
    }

    /** Its second and third part. */
    method RecvHeadAndBody() returns (ok: bool)
      requires Valid() && head.size != 0
      modifies this`pbHead, this`input, head, msg, head.data, msg.data
      ensures head.data == old(head.data)
      ensures msg.data == old(msg.data) || fresh(msg.data)
      ensures var r := RecvHead(codec, old(View()), old(input));
        && ok == r.ok && input == r.rest && pbHead == r.s.pbHead
        && (ok ==> Valid() && View() == r.s)
    {
      if !head.Recved() {
        var finished: bool;
        finished, ok := RecvHeader();
        if finished {
          return;
        }
      }
      RecvRest();
      return true;
    }

    /** The second part: the header.  Either RecvMsg returns here, or the body is next. */
    method RecvHeader() returns (finished: bool, ok: bool)
      requires Valid() && head.size != 0 && !head.Recved()
      modifies this`pbHead, this`input, head, msg, head.data
      ensures head.data == old(head.data)
      ensures msg.data == old(msg.data) || fresh(msg.data)
      ensures HeaderResult(RecvHead(codec, old(View()), old(input)), finished, ok)
    {
      var len := ReadHeader();
      if len <= 0 {
        return true, true;
      }
      if !head.Recved() {
        return true, true;
      }
      finished, ok := ParseHeader();
    }

    /** Its start: the bytes there are, up to the header's end. */
    method ReadHeader() returns (len: nat)
      requires Valid() && head.size != 0 && !head.Recved()
      modifies this`input, head`recvSize, head.data
      ensures head.data == old(head.data) && head.size == old(head.size)
      ensures len == Min(old(head.size - head.recvSize), |old(input)|)
      ensures input == old(input)[len..] && pbHead == old(pbHead)
      ensures Valid() && View().msg == old(View()).msg
      ensures View().head == old(View()).head.(got := old(View()).head.got + old(input)[..len])
    {
      ghost var before := View();
      var bytes := Read(head.size - head.recvSize);
      len := |bytes|;
      if len > 0 {
        head.Receive(bytes);
      } else {
        assert before.head.got + [] == before.head.got;
      }
    }

    /** Of a step of the machine that ends in r: all of it is done, or the body is next. */
    ghost predicate HeaderResult(r: Received, finished: bool, ok: bool)
      reads this, head, msg, head.data, msg.data
    {
      if finished then
        && ok == r.ok && input == r.rest && pbHead == r.s.pbHead
        && (ok ==> Valid() && View() == r.s)
      else
        && Valid() && head.size != 0 && View().head.Recved() && r == RecvBody(View(), input)
    }

    /** Its end, once the header is whole. */
    method ParseHeader() returns (finished: bool, ok: bool)
      requires Valid() && head.size != 0 && View().head.Recved() && msg.size == 0
      modifies this`pbHead, msg
      ensures msg.data == old(msg.data) || fresh(msg.data)
      ensures HeaderResult(ParseHead(codec, old(View()), old(input)), finished, ok)
    {
      var (parsed, pb) := codec.parse(head.data[..head.size]);
      pbHead := Some(pb);
      if !parsed {
        return true, false;
      }
      if pb.msgSize == 0 {
        msg.msgType := pb.msgType;
        msg.size := 0;
        return true, true;
      }
      var room := msg.Alloc(pb.msgSize);
      if !room {
        return true, false;
      }
      msg.msgType := pb.msgType;
      return false, true;
    }

    /** The third part: the body. */
    method RecvRest()
      requires Valid() && head.size != 0 && View().head.Recved()
      modifies this`input, msg, msg.data
      ensures msg.data == old(msg.data) && head.data == old(head.data)
      ensures Valid() && Received(true, View(), input) == RecvBody(old(View()), old(input))
    {
      if !msg.Recved() {
        ghost var before := View();
        var bytes := Read(msg.size - msg.recvSize);
        if bytes == [] {
          assert before.msg.got + [] == before.msg.got;
          return;
        }
        msg.Receive(bytes);
      }
    }

    /** XMsgEvent::GetMsg: whether there is a whole message. */
    predicate HasMsg()
      reads this, msg
    {
      msg.Recved()
    }

    method Clear()
      requires head != msg && (connected || input == [])
      modifies head, msg
      ensures Valid() && View() == State(EMPTY, EMPTY, pbHead)
      ensures head.data == null && msg.data == null
    {
      head.Clear();
      msg.Clear();
    }

    /** The call of the handler with *pb_head_ and msg_. */
    method Dispatch()
      requires Valid() && pbHead.Some? && HasMsg()
      modifies this`dispatched
      ensures dispatched == old(dispatched) + [Message(pbHead.value, View().msg.msgType, View().msg.got)]
    {
      var body := if msg.size == 0 then [] else msg.data[..msg.size];
      dispatched := dispatched + [Message(pbHead.value, msg.msgType, body)];
    }

    /** In the middle of a read callback that will end in `all`. */
    ghost predicate InCallback(all: Outcome, again: bool)
      reads this, head, msg, head.data, msg.data
    {
      Valid() && Progress(codec, all, again, View(), input, dispatched)
    }

    /** One round of the read callback: whether it goes on. */
    method ReadOnce(ghost all: Outcome) returns (again: bool)
      requires InCallback(all, true)
      modifies this`pbHead, this`input, this`dispatched, head, msg, head.data, msg.data
      ensures head.data == null || head.data == old(head.data) || fresh(head.data)
      ensures msg.data == null || msg.data == old(msg.data) || fresh(msg.data)
      ensures InCallback(all, again)
      ensures again ==> head.size == 0 && |input| <= |old(input)|
      ensures again && old(head.size) == 0 ==> |input| < |old(input)|
    {
      Round(codec, all, View(), input, dispatched);
      var ok := RecvMsg();
      if !ok {
        Clear();
        return false;
      }
      if pbHead.None? {
        return false;
      }
      if !HasMsg() {
        return false;
      }
      DispatchAndClear(all);
      return true;
    }

    /** The end of a round that goes on. */
    method DispatchAndClear(ghost all: Outcome)
      requires Valid() && pbHead.Some? && HasMsg()
      requires Progress(codec, all, true, View().Clear(), input,
        dispatched + [Message(pbHead.value, View().msg.msgType, View().msg.got)])
      modifies this`dispatched, head, msg
      ensures InCallback(all, true) && head.data == null && msg.data == null && head.size == 0
    {
      Dispatch();
      Clear();
    }

    /** XMsgEvent::ReadCB(): the read callback. */
    method ReadCB()
      requires Valid()
      modifies this`pbHead, this`input, this`dispatched, head, msg, head.data, msg.data
      ensures Valid()
      ensures var o := XMsgFraming.ReadCB(codec, old(View()), old(input));
        Outcome(View(), input, dispatched) == o.(sent := old(dispatched) + o.sent)
      ensures head.data == null || head.data == old(head.data) || fresh(head.data)
      ensures msg.data == null || msg.data == old(msg.data) || fresh(msg.data)
    {
      ghost var o := XMsgFraming.ReadCB(codec, View(), input);
      ghost var all := o.(sent := dispatched + o.sent);
      var again := true;
      while again
        invariant head.data == null || head.data == old(head.data) || fresh(head.data)
        invariant msg.data == null || msg.data == old(msg.data) || fresh(msg.data)
        invariant InCallback(all, again)
        decreases again, |input|, if head.size == 0 then 0 else 1
      {
        again := ReadOnce(all);
      }
    }

    /** What libevent does with an object of its own connection: it appends each piece
        that arrives and calls the read callback. */
    method ReadPieces(pieces: seq<seq<byte>>)
      requires Valid() && connected && input == []
      modifies this`pbHead, this`input, this`dispatched, head, msg, head.data, msg.data
      ensures Valid()
      ensures var o := Run(codec, old(View()), pieces);
        Outcome(View(), input, dispatched) == o.(sent := old(dispatched) + o.sent)
      ensures head.data == null || head.data == old(head.data) || fresh(head.data)
      ensures msg.data == null || msg.data == old(msg.data) || fresh(msg.data)
    {
      ghost var s, before := View(), dispatched;
      for i := 0 to |pieces|
        invariant AfterPieces(s, before, pieces[..i])
        invariant head.data == null || head.data == old(head.data) || fresh(head.data)
        invariant msg.data == null || msg.data == old(msg.data) || fresh(msg.data)
      {
        ReadPiece(pieces, i, s, before);
      }
      assert pieces[..|pieces|] == pieces;
    }

    /** A run over the pieces, started in state s, has brought the object here. */
    ghost predicate AfterPieces(s: State, before: seq<Message>, pieces: seq<seq<byte>>)
      reads this, head, msg, head.data, msg.data
    {
      && Valid() && connected && s.Valid()
      && RunSoFar(codec, s, before, pieces, Outcome(View(), input, dispatched))
    }

    /** One of these pieces. */
    method ReadPiece(pieces: seq<seq<byte>>, i: nat, ghost s: State, ghost before: seq<Message>)
      requires i < |pieces| && AfterPieces(s, before, pieces[..i])
      modifies this`pbHead, this`input, this`dispatched, head, msg, head.data, msg.data
      ensures AfterPieces(s, before, pieces[..i + 1])
      ensures head.data == null || head.data == old(head.data) || fresh(head.data)
      ensures msg.data == null || msg.data == old(msg.data) || fresh(msg.data)
    {
      OnePiece(codec, s, before, pieces, i, Outcome(View(), input, dispatched));
      input := input + pieces[i];
      ReadCB();
    }

    // ----- sending

    /** XComTask::Write.  Whether bufferevent_write succeeds may change from call to call. */
    method Write(data: seq<byte>) returns (ok: bool)
      modifies this`output, this`writes
      ensures ok <==> connected && data != [] && accepts(old(writes))
      ensures output == if ok then old(output) + data else old(output)
      ensures writes == if connected && data != [] then old(writes) + 1 else old(writes)
    {
      if !connected || |data| <= 0 {
        return false;
      }
      writes := writes + 1;
      if !accepts(writes - 1) {
        return false;
      }
      output := output + data;
      return true;
    }

    /** XMsgEvent::SendMsg(head, msg).  Its writes are numbers w, w + 1 and, for a body,
        w + 2.  It returns true exactly when all of them succeed and the header is not
        empty, and the whole frame is then in the queue; otherwise the queue has the parts
        in front of the write that was refused.  An empty header is noticed only behind
        its size. */
    method SendMsg(h: XMsgHead?, body: seq<byte>) returns (ok: bool)
      requires |body| < 0x8000_0000
      requires h != null ==> |codec.serialize(h.value.(msgSize := |body|))| < 0x8000_0000
      modifies this`output, this`writes, h
      ensures h == null ==> !ok && output == old(output) && writes == old(writes)
      ensures h != null ==>
        && h.value == old(h.value).(msgSize := |body|)
        && var f, w := FrameOf(codec, old(h.value), body), old(writes);
           var size := WordBytes(codec.host, 4, |f.head|);
           && (ok <==> connected && f.head != [] && accepts(w) && accepts(w + 1) && (body == [] || accepts(w + 2)))
           && (ok ==> output == old(output) + Wire(codec, f))
           && (!connected || !accepts(w) ==> output == old(output))
           && (connected && accepts(w) && (f.head == [] || !accepts(w + 1)) ==> output == old(output) + size)
           && (connected && accepts(w) && f.head != [] && accepts(w + 1) && !ok ==> output == old(output) + (size + f.head))
    {
      if h == null {
        return false;
      }
      h.value := h.value.(msgSize := |body|);
      var headStr := codec.serialize(h.value);
      var headSize := |headStr|;
      InPieces(output, WordBytes(codec.host, 4, headSize), headStr, body);
      var re := Write(WordBytes(codec.host, 4, headSize));
      if !re {
        return false;
      }
      re := Write(headStr);
      if !re {
        return false;
      }
      if |body| > 0 {
        re := Write(body);
        if !re {
          return false;
        }
      }
      return true;
    }

    lemma InPieces(before: seq<byte>, size: seq<byte>, h: seq<byte>, body: seq<byte>)
      ensures before + size + h == before + (size + h)
      ensures before + size + h + body == before + (size + h + body)
      ensures size + h + [] == size + h
    {
      Associate(before, size, h);
      Associate(before, size + h, body);
    }
  }
}
