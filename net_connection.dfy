/** connection<T> of NetCommon/net_connection.hpp as a sequential state
    machine.

    Every asynchronous operation of a connection completes on the owner's
    single-threaded io_context, so each completion handler (and each posted
    handler) runs as one atomic event.  The asio calls themselves are not
    modelled: issuing an async read or write is recorded in `readPhase` or
    `writePhase`, and its completion is an event method with an `ok` flag
    (the error_code) and, for reads, the bytes transferred.

    Ghost logs record what went over the wire at the granularity of one
    transfer (a header or a body), so the invariants can say that the write
    chain sends each queued message exactly once, front first, header before
    body, and that the read chain delivers messages in arrival order. */
module NetConnection {
  import opened Common
  import opened NetMessage
  import opened NetTsQueue

  /** connection<T>::owner */
  datatype Owner = Server | Client

  /** The write chain's outstanding operation. */
  datatype WritePhase =
    | Idle                           // nothing in flight
    | WritingHeader                  // header of the front message in flight
    | WritingBody                    // body of the front message in flight
    | WriteFailed(headerSent: bool)  // a write failed and the chain stopped

  /** The read chain's outstanding operation. */
  datatype ReadPhase =
    | NotStarted                     // no read issued yet
    | ReadingHeader                  // header read in flight
    | ReadingBody                    // body read in flight
    | ReadFailed(headerRead: bool)   // a read failed and the chain stopped

  /** One transfer on the socket: a header or a body. */
  datatype Chunk = HeaderChunk(header: MessageHeader) | BodyChunk(bytes: seq<byte>)

  /** What the write chain transfers for one message: its header, then its
      body when the body is not empty. */
  function OutFrame(m: Message): (cs: seq<Chunk>)
    ensures 1 <= |cs| <= 2 && cs[0] == HeaderChunk(m.header)
    ensures |cs| == 2 <==> |m.body| > 0
    ensures |cs| == 2 ==> cs[1] == BodyChunk(m.body)
  {
    [HeaderChunk(m.header)] + (if |m.body| > 0 then [BodyChunk(m.body)] else [])
  }

  function OutFrames(ms: seq<Message>): seq<Chunk>
  {
    if ms == [] then [] else OutFrames(ms[..|ms| - 1]) + OutFrame(ms[|ms| - 1])
  }

  /** What the read chain consumes for one delivered message: its header,
      then a body when the header's size is positive. */
  function InFrame(m: Message): (cs: seq<Chunk>)
    ensures 1 <= |cs| <= 2 && cs[0] == HeaderChunk(m.header)
    ensures |cs| == 2 <==> m.header.size > 0
  {
    [HeaderChunk(m.header)] + (if m.header.size > 0 then [BodyChunk(m.body)] else [])
  }

  /** The read chain consumes exactly the transfers the write chain made
      for a message whose size field is positive exactly when its body is
      not empty. */
  lemma InFrameMatchesOutFrame(m: Message)
    requires m.header.size > 0 <==> |m.body| > 0
    ensures InFrame(m) == OutFrame(m)
  {
  }

  function InFrames(ms: seq<Message>): seq<Chunk>
  {
    if ms == [] then [] else InFrames(ms[..|ms| - 1]) + InFrame(ms[|ms| - 1])
  }

  lemma OutFramesSnoc(ms: seq<Message>, m: Message)
    ensures OutFrames(ms + [m]) == OutFrames(ms) + OutFrame(m)
  {
    assert (ms + [m])[..|ms|] == ms;
  }

  lemma InFramesSnoc(ms: seq<Message>, m: Message)
    ensures InFrames(ms + [m]) == InFrames(ms) + InFrame(m)
  {
    assert (ms + [m])[..|ms|] == ms;
  }

  /** The header already on the wire for the front message of `queue`: there
      is one while its body write is in flight or after that write failed. */
  function PendingHeader(phase: WritePhase, queue: seq<Message>): seq<Chunk>
  {
    if (phase == WritingBody || phase == WriteFailed(true)) && queue != []
    then [HeaderChunk(queue[0].header)] else []
  }

  /** The write chain's invariant.  A write is in flight exactly when the
      outbound queue is non-empty, unless a write failed (then the queue
      stays non-empty for good); every message a Send handler queued is
      either written or still queued, in Send order; and the wire carries
      the frames of the written messages, header before body, plus the
      header of the front message when its body is pending or failed. */
  ghost predicate WriteInv(phase: WritePhase, queue: seq<Message>, sent: seq<Message>,
                           written: seq<Message>, wire: seq<Chunk>)
  {
    && (phase == Idle <==> queue == [])
    && (phase == WritingBody ==> queue != [] && |queue[0].body| > 0)
    && sent == written + queue
    && wire == OutFrames(written) + PendingHeader(phase, queue)
  }

  /** The Send handler keeps the write-chain invariant: the message goes to
      the back, and a header write starts only if the queue was empty. */
  lemma {:induction false} SendKeepsWriteInv(phase: WritePhase, queue: seq<Message>, sent: seq<Message>,
                                             written: seq<Message>, wire: seq<Chunk>, msg: Message)
    requires WriteInv(phase, queue, sent, written, wire)
    ensures WriteInv(if queue == [] then WritingHeader else phase, queue + [msg], sent + [msg], written, wire)
  {
    var phase' := if queue == [] then WritingHeader else phase;
    if queue != [] {
      assert (queue + [msg])[0] == queue[0];
    }
    assert PendingHeader(phase', queue + [msg]) == PendingHeader(phase, queue);
  }

  /** A successful header write keeps the invariant: the body follows when
      there is one; otherwise the message is done and popped, and the next
      header write starts iff messages remain. */
  lemma {:induction false} HeaderDoneKeepsWriteInv(queue: seq<Message>, sent: seq<Message>,
                                                   written: seq<Message>, wire: seq<Chunk>)
    requires WriteInv(WritingHeader, queue, sent, written, wire)
    ensures queue != []
    ensures |queue[0].body| > 0 ==>
              WriteInv(WritingBody, queue, sent, written, wire + [HeaderChunk(queue[0].header)])
    ensures |queue[0].body| == 0 ==>
              WriteInv(if queue[1..] == [] then Idle else WritingHeader, queue[1..], sent,
                       written + [queue[0]], wire + [HeaderChunk(queue[0].header)])
  {
    OutFramesSnoc(written, queue[0]);
    assert written + queue == (written + [queue[0]]) + queue[1..];
  }

  /** A successful body write keeps the invariant: the message is done and
      popped, and the next header write starts iff messages remain. */
  lemma {:induction false} BodyDoneKeepsWriteInv(queue: seq<Message>, sent: seq<Message>,
                                                 written: seq<Message>, wire: seq<Chunk>)
    requires WriteInv(WritingBody, queue, sent, written, wire)
    ensures queue != []
    ensures WriteInv(if queue[1..] == [] then Idle else WritingHeader, queue[1..], sent,
                     written + [queue[0]], wire + [BodyChunk(queue[0].body)])
  {
    OutFramesSnoc(written, queue[0]);
    assert written + queue == (written + [queue[0]]) + queue[1..];
  }

  /** A failed write stops the chain with the queue as it was; a failed body
      write leaves the front message's header on the wire. */
  lemma FailureKeepsWriteInv(phase: WritePhase, queue: seq<Message>, sent: seq<Message>,
                             written: seq<Message>, wire: seq<Chunk>)
    requires phase == WritingHeader || phase == WritingBody
    requires WriteInv(phase, queue, sent, written, wire)
    ensures WriteInv(WriteFailed(phase == WritingBody), queue, sent, written, wire)
  {
  }

  /** The read chain's invariant.  While a body read is in flight the
      scratch body has exactly the declared, positive size; the transfers
      read are the frames of the messages delivered, in order, plus the
      header of the message in progress. */
  ghost predicate ReadInv(phase: ReadPhase, scratch: Message, received: seq<Message>, wire: seq<Chunk>)
  {
    && (phase == ReadingBody ==>
          scratch.header.size > 0 && |scratch.body| == scratch.header.size as int)
    && (phase == ReadFailed(true) ==> scratch.header.size > 0)
    && wire == InFrames(received)
               + (if phase == ReadingBody || phase == ReadFailed(true)
                  then [HeaderChunk(scratch.header)] else [])
  }

  /** After a failed read the chain stays stopped: the transfers read so far
      can never form the complete frame of the scratch message, so the
      message cannot be delivered and no next header read is issued. */
  lemma {:induction false} FailedReadCannotDeliver(headerRead: bool, scratch: Message,
                                                   received: seq<Message>, wire: seq<Chunk>)
    requires ReadInv(ReadFailed(headerRead), scratch, received, wire)
    ensures wire != InFrames(received) + InFrame(scratch)
  {
    assert |InFrame(scratch)| == if scratch.header.size > 0 then 2 else 1;
  }

  /** A header read keeps the read invariant.  A positive size leads to a
      body read into a buffer of exactly that size; a zero size completes
      the frame of the scratch message, with whatever body it still holds. */
  lemma {:induction false} HeaderReadKeepsReadInv(scratch: Message, received: seq<Message>,
                                                  wire: seq<Chunk>, hdr: MessageHeader)
    requires ReadInv(ReadingHeader, scratch, received, wire)
    ensures hdr.size > 0 ==>
              ReadInv(ReadingBody, Message(hdr, Resize(scratch.body, hdr.size as nat)), received,
                      wire + [HeaderChunk(hdr)])
    ensures hdr.size == 0 ==>
              wire + [HeaderChunk(hdr)] == InFrames(received) + InFrame(scratch.(header := hdr))
  {
  }

  /** A body read completes the frame of the scratch message. */
  lemma {:induction false} BodyReadCompletesFrame(scratch: Message, received: seq<Message>,
                                                  wire: seq<Chunk>, bytes: seq<byte>)
    requires ReadInv(ReadingBody, scratch, received, wire)
    ensures wire + [BodyChunk(bytes)] == InFrames(received) + InFrame(scratch.(body := bytes))
  {
  }

  /** Delivering a message whose frame is complete restores the read
      invariant with the next header read in flight. */
  lemma {:induction false} DeliverKeepsReadInv(scratch: Message, received: seq<Message>, wire: seq<Chunk>)
    requires wire == InFrames(received) + InFrame(scratch)
    ensures ReadInv(ReadingHeader, scratch, received + [scratch], wire)
  {
    InFramesSnoc(received, scratch);
  }

  class Connection {
    /** m_nOwnerType */
    const ownerType: Owner
    /** m_qMessagesOut, front first.  Only the connection's own handlers
        touch it, so it is held as a sequence. */
    var outQueue: seq<Message>
    /** m_qMessagesIn: the owner's inbound queue, shared with the owner */
    const qIn: TsQueue<OwnedMessage>
    /** m_socket.is_open() */
    var open: bool
    /** id: 0 until the server assigns one */
    var id: u32
    /** m_msgTemporaryIn: the message being read */
    var scratch: Message
    var writePhase: WritePhase
    var readPhase: ReadPhase
    /** Send handlers posted to the io_context and not yet run, in posting order. */
    var posted: seq<Message>
    /** Socket closes posted by Disconnect() and not yet run. */
    var closesPosted: nat
    /** An async_connect issued by ConnectToServer is outstanding. */
    var connectPending: bool

    /** Every message a Send handler queued, in queueing order. */
    ghost var sent: seq<Message>
    /** Messages the write chain finished and popped, in order. */
    ghost var written: seq<Message>
    /** Transfers the write chain completed, in order. */
    ghost var wireOut: seq<Chunk>
    /** Messages pushed onto the inbound queue, in order. */
    ghost var received: seq<Message>
    /** Transfers the read chain completed, in order. */
    ghost var wireIn: seq<Chunk>

    ghost predicate Valid()
      reads this
    {
      && WriteInv(writePhase, outQueue, sent, written, wireOut)
      && ReadInv(readPhase, scratch, received, wireIn)
      && (connectPending ==> ownerType == Client && readPhase == NotStarted)
    }

    /** The origin a delivered message is tagged with: this connection when
        the owner is the server, none when it is the client. */
    function Origin(): (r: Option<u32>)
      reads this
      ensures r.Some? <==> ownerType == Server
      ensures r.Some? ==> r.value == id
    {
      if ownerType == Server then Some(id) else None
    }

    /** connection(parent, context, socket, qIn): wraps an already created
        socket, open or not. */
    constructor (parent: Owner, socketOpen: bool, qIn: TsQueue<OwnedMessage>)
      ensures Valid()
      ensures ownerType == parent && this.qIn == qIn && open == socketOpen
      ensures id == 0 && scratch == EmptyMessage && outQueue == []
      ensures writePhase == Idle && readPhase == NotStarted
      ensures posted == [] && closesPosted == 0 && !connectPending
      ensures sent == [] && written == [] && wireOut == []
      ensures received == [] && wireIn == []
    {
      ownerType := parent;
      outQueue := [];
      this.qIn := qIn;
      open := socketOpen;
      id := 0;
      scratch := EmptyMessage;
      writePhase := Idle;
      readPhase := NotStarted;
      posted := [];
      closesPosted := 0;
      connectPending := false;
      sent, written, wireOut := [], [], [];
      received, wireIn := [], [];
    }

    /** GetID() */
    method GetID() returns (r: u32)
      ensures r == id
    {
      r := id;
    }

    /** ConnectToClient(uid): only a server-side connection whose socket is
        open takes the identifier and starts its read chain; otherwise
        nothing changes.  The server calls it once, before any read. */
    method ConnectToClient(uid: u32)
      requires Valid() && readPhase == NotStarted && !connectPending
      modifies this`id, this`readPhase
      ensures Valid()
      ensures if ownerType == Server && open
              then id == uid && readPhase == ReadingHeader
              else id == old(id) && readPhase == NotStarted
    {
      if ownerType == Server {
        if open {
          id := uid;
          readPhase := ReadingHeader;
        }
      }
    }

    /** ConnectToServer(endpoints): only a client-side connection issues the
        asynchronous connect.  The client calls it once, on a new connection. */
    method ConnectToServer()
      requires Valid() && readPhase == NotStarted && !connectPending
      modifies this`connectPending
      ensures Valid()
      ensures connectPending <==> ownerType == Client
    {
      if ownerType == Client {
        connectPending := true;
      }
    }

    /** Completion of the asynchronous connect: on success the socket is
        open and the read chain starts; on failure the handler only reports
        it, so nothing of the connection changes except the socket's state,
        which asio decides and which is an input here (`openAfter`). */
    method ConnectHandler(ok: bool, openAfter: bool)
      requires Valid() && connectPending
      modifies this`connectPending, this`open, this`readPhase
      ensures Valid()
      ensures !connectPending
      ensures ok ==> open && readPhase == ReadingHeader
      ensures !ok ==> open == openAfter && readPhase == NotStarted
    {
      connectPending := false;
      if ok {
        open := true;
        readPhase := ReadingHeader;
      } else {
        open := openAfter;
      }
    }

    /** IsConnected(): exactly whether the socket is open. */
    method IsConnected() returns (b: bool)
      ensures b == open
    {
      b := open;
    }

    /** Disconnect(): posts a socket close, and only when connected. */
    method Disconnect()
      modifies this`closesPosted
      ensures closesPosted == old(closesPosted) + (if open then 1 else 0)
    {
      if open {
        closesPosted := closesPosted + 1;
      }
    }

    /** The posted close runs: the socket is closed.  Operations in flight
        then complete with an error, through the handlers below. */
    method CloseHandler()
      requires Valid() && closesPosted > 0
      modifies this`open, this`closesPosted
      ensures Valid()
      ensures !open && closesPosted == old(closesPosted) - 1
    {
      open := false;
      closesPosted := closesPosted - 1;
    }

    /** Send(msg): posts a handler carrying a copy of the message. */
    method Send(msg: Message)
      modifies this`posted
      ensures posted == old(posted) + [msg]
    {
      posted := posted + [msg];
    }

    /** The posted Send handler runs: the message goes to the back of the
        outbound queue, and a header write starts only if the queue was
        empty before, so at most one write is ever in flight. */
    method SendHandler()
      requires Valid() && posted != []
      modifies this`posted, this`sent, this`writePhase, this`outQueue
      ensures Valid()
      ensures posted == old(posted[1..])
      ensures outQueue == old(outQueue) + [old(posted[0])]
      ensures sent == old(sent) + [old(posted[0])]
      ensures writePhase == if old(outQueue) == [] then WritingHeader else old(writePhase)
    {
      var msg := posted[0];
      posted := posted[1..];
      SendKeepsWriteInv(writePhase, outQueue, sent, written, wireOut, msg);
      var writingMessage := outQueue != [];
      outQueue := outQueue + [msg];
      sent := sent + [msg];
      if !writingMessage {
        writePhase := WritingHeader;
      }
      assert WriteInv(writePhase, outQueue, sent, written, wireOut);
      assert ReadInv(readPhase, scratch, received, wireIn);
    }

    /** Completion of the header write of the front message.  On success a
        non-empty body is written next; an empty-body message is popped at
        once and the next header write starts iff the queue is still
        non-empty.  On failure the socket closes, the queue is left as it
        was and the chain stops. */
    method HeaderWritten(ok: bool)
      requires Valid() && writePhase == WritingHeader
      modifies this`open, this`writePhase, this`written, this`wireOut, this`outQueue
      ensures Valid()
      ensures !ok ==> && !open && writePhase == WriteFailed(false)
                      && outQueue == old(outQueue)
                      && written == old(written) && wireOut == old(wireOut)
      ensures ok ==> && open == old(open)
                     && wireOut == old(wireOut) + [HeaderChunk(old(outQueue[0]).header)]
      ensures ok && |old(outQueue[0]).body| > 0 ==>
                && writePhase == WritingBody
                && outQueue == old(outQueue) && written == old(written)
      ensures ok && |old(outQueue[0]).body| == 0 ==>
                && outQueue == old(outQueue[1..])
                && written == old(written) + [old(outQueue[0])]
                && writePhase == (if outQueue == [] then Idle else WritingHeader)
    {
      if ok {
        HeaderDoneKeepsWriteInv(outQueue, sent, written, wireOut);
        var front := outQueue[0];
        wireOut := wireOut + [HeaderChunk(front.header)];
        if |front.body| > 0 {
          writePhase := WritingBody;
        } else {
          outQueue := outQueue[1..];
          written := written + [front];
          if outQueue != [] {
            writePhase := WritingHeader;
          } else {
            writePhase := Idle;
          }
        }
      } else {
        FailureKeepsWriteInv(writePhase, outQueue, sent, written, wireOut);
        open := false;
        writePhase := WriteFailed(false);
      }
      assert WriteInv(writePhase, outQueue, sent, written, wireOut);
      assert ReadInv(readPhase, scratch, received, wireIn);
    }

    /** Completion of the body write of the front message.  On success the
        message is popped and the next header write starts iff the queue is
        still non-empty.  On failure the socket closes, the queue is left as
        it was and the chain stops. */
    method BodyWritten(ok: bool)
      requires Valid() && writePhase == WritingBody
      modifies this`open, this`writePhase, this`written, this`wireOut, this`outQueue
      ensures Valid()
      ensures !ok ==> && !open && writePhase == WriteFailed(true)
                      && outQueue == old(outQueue)
                      && written == old(written) && wireOut == old(wireOut)
      ensures ok ==> && open == old(open)
                     && outQueue == old(outQueue[1..])
                     && written == old(written) + [old(outQueue[0])]
                     && wireOut == old(wireOut) + [BodyChunk(old(outQueue[0]).body)]
                     && writePhase == (if outQueue == [] then Idle else WritingHeader)
    {
      if ok {
        BodyDoneKeepsWriteInv(outQueue, sent, written, wireOut);
        var done := outQueue[0];
        outQueue := outQueue[1..];
        wireOut := wireOut + [BodyChunk(done.body)];
        written := written + [done];
        if outQueue != [] {
          writePhase := WritingHeader;
        } else {
          writePhase := Idle;
        }
      } else {
        FailureKeepsWriteInv(writePhase, outQueue, sent, written, wireOut);
        open := false;
        writePhase := WriteFailed(true);
      }
      assert WriteInv(writePhase, outQueue, sent, written, wireOut);
      assert ReadInv(readPhase, scratch, received, wireIn);
    }

    /** AddToIncomingMessageQueue(): called once the whole frame of the
        scratch message has been read (never after a failed read, by
        FailedReadCannotDeliver).  Pushes the scratch message, tagged
        with its origin, to the back of the inbound queue, then always
        issues the next header read. */
    method AddToIncomingMessageQueue()
      requires WriteInv(writePhase, outQueue, sent, written, wireOut)
      requires wireIn == InFrames(received) + InFrame(scratch)
      requires !connectPending
      modifies this`readPhase, this`received, qIn
      ensures Valid()
      ensures qIn.items == old(qIn.items)
                           + [OwnedMessage(if ownerType == Server then Some(id) else None, scratch)]
      ensures received == old(received) + [scratch]
      ensures readPhase == ReadingHeader
    {
      DeliverKeepsReadInv(scratch, received, wireIn);
      if ownerType == Server {
        qIn.PushBack(OwnedMessage(Some(id), scratch));
      } else {
        qIn.PushBack(OwnedMessage(None, scratch));
      }
      received := received + [scratch];
      readPhase := ReadingHeader;
    }

    /** Completion of the header read, with the header received.  A positive
        size resizes the scratch body to that size and starts a body read of
        exactly that many bytes; a zero size delivers the message at once,
        with whatever body the scratch message still holds.  On failure the
        socket closes and no further read is issued. */
    method HeaderRead(ok: bool, hdr: MessageHeader)
      requires Valid() && readPhase == ReadingHeader
      modifies this`open, this`readPhase, this`scratch, this`received, this`wireIn, qIn
      ensures Valid()
      ensures !ok ==> && !open && readPhase == ReadFailed(false)
                      && scratch == old(scratch) && qIn.items == old(qIn.items)
                      && received == old(received) && wireIn == old(wireIn)
      ensures ok ==> open == old(open) && wireIn == old(wireIn) + [HeaderChunk(hdr)]
      ensures ok && hdr.size > 0 ==>
                && scratch == Message(hdr, Resize(old(scratch.body), hdr.size as nat))
                && readPhase == ReadingBody
                && qIn.items == old(qIn.items) && received == old(received)
      ensures ok && hdr.size == 0 ==>
                && scratch == Message(hdr, old(scratch.body))
                && readPhase == ReadingHeader
                && qIn.items == old(qIn.items) + [OwnedMessage(Origin(), scratch)]
                && received == old(received) + [scratch]
    {
      if ok {
        HeaderReadKeepsReadInv(scratch, received, wireIn, hdr);
        scratch := scratch.(header := hdr);
        wireIn := wireIn + [HeaderChunk(hdr)];
        if scratch.header.size > 0 {
          scratch := scratch.(body := Resize(scratch.body, scratch.header.size as nat));
          readPhase := ReadingBody;
        } else {
          AddToIncomingMessageQueue();
        }
      } else {
        open := false;
        readPhase := ReadFailed(false);
      }
    }

    /** Completion of the body read.  async_read completes successfully only
        once the whole buffer, header.size bytes, has been filled.  On
        success the message is delivered; on failure the socket closes and
        no further read is issued. */
    method BodyRead(ok: bool, bytes: seq<byte>)
      requires Valid() && readPhase == ReadingBody
      requires ok ==> |bytes| == |scratch.body|
      modifies this`open, this`readPhase, this`scratch, this`received, this`wireIn, qIn
      ensures Valid()
      ensures !ok ==> && !open && readPhase == ReadFailed(true)
                      && scratch == old(scratch) && qIn.items == old(qIn.items)
                      && received == old(received) && wireIn == old(wireIn)
      ensures ok ==> && open == old(open) && readPhase == ReadingHeader
                     && scratch == old(scratch).(body := bytes)
                     && qIn.items == old(qIn.items) + [OwnedMessage(Origin(), scratch)]
                     && received == old(received) + [scratch]
                     && wireIn == old(wireIn) + [BodyChunk(bytes)]
    {
      if ok {
        BodyReadCompletesFrame(scratch, received, wireIn, bytes);
        scratch := scratch.(body := bytes);
        wireIn := wireIn + [BodyChunk(bytes)];
        AddToIncomingMessageQueue();
      } else {
        open := false;
        readPhase := ReadFailed(true);
      }
    }
  }
}
