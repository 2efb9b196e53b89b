/** The byte stream between two connections, and what the read chain of
    NetCommon/net_connection.hpp makes of the frames the write chain puts
    on it.

    The write chain sends a message as the bytes of its header followed by
    its body bytes.  The header is the struct copied as it is: the type code
    then the size field, four bytes each, least significant byte first, as
    laid out on a little-endian machine.  The read chain reads HeaderWidth
    bytes as a header, then as many body bytes as that header's size field
    says, whatever those bytes are.

    Two readings of the frame are set side by side: the code as written
    (the size field counts the header too, and a size of zero keeps the
    previous body), and the evident intent (the size field counts the body,
    and a size of zero means an empty body), for which the round trip of a
    whole stream of messages is proved. */
module Framing {
  import opened Common
  import opened NetMessage

  /** A uint32_t in memory, least significant byte first. */
  function EncodeU32(x: u32): (bs: seq<byte>)
    ensures |bs| == 4
  {
    var q1 := x as int / 256;
    var q2 := q1 / 256;
    [(x as int % 256) as byte, (q1 % 256) as byte, (q2 % 256) as byte, (q2 / 256) as byte]
  }

  /** The uint32_t stored in four bytes, least significant byte first. */
  function DecodeU32(bs: seq<byte>): u32
    requires |bs| == 4
  {
    (bs[0] as int + 0x100 * bs[1] as int + 0x1_0000 * bs[2] as int + 0x100_0000 * bs[3] as int) as u32
  }

  /** The base-256 digits of a 32-bit value. */
  lemma Digits(n: int)
    requires 0 <= n < U32Limit
    ensures var q1 := n / 256; var q2 := q1 / 256;
            && n == n % 256 + 0x100 * (q1 % 256) + 0x1_0000 * (q2 % 256) + 0x100_0000 * (q2 / 256)
            && q2 / 256 < 256
  {
    var q1 := n / 256;
    var q2 := q1 / 256;
    assert n == n % 256 + 256 * q1;
    assert q1 == q1 % 256 + 256 * q2;
    assert q2 == q2 % 256 + 256 * (q2 / 256);
    assert q2 < 0x1_0000;
  }

  /** Reading back a stored uint32_t gives the value stored. */
  lemma DecodeEncodeU32(x: u32)
    ensures DecodeU32(EncodeU32(x)) == x
  {
    var n := x as int;
    var q1 := n / 256;
    var q2 := q1 / 256;
    Digits(n);
  }

  /** Division by 256 of a number given by its last digit and the rest. */
  lemma DivMod256(n: int, q: int, r: int)
    requires 0 <= r < 256 && n == r + 256 * q
    ensures n / 256 == q && n % 256 == r
  {
  }

  /** Storing the uint32_t that four bytes hold gives those bytes back. */
  lemma EncodeDecodeU32(bs: seq<byte>)
    requires |bs| == 4
    ensures EncodeU32(DecodeU32(bs)) == bs
  {
    var b0, b1, b2, b3 := bs[0] as int, bs[1] as int, bs[2] as int, bs[3] as int;
    var q2 := b2 + 256 * b3;
    var q1 := b1 + 256 * q2;
    var n := b0 + 256 * q1;
    assert n == DecodeU32(bs) as int;
    DivMod256(n, q1, b0);
    DivMod256(q1, q2, b1);
    DivMod256(q2, b3, b2);
  }

  /** The bytes of a message_header: the type code, then the size field. */
  function EncodeHeader(h: MessageHeader): (bs: seq<byte>)
    ensures |bs| == HeaderWidth
  {
    EncodeU32(h.id) + EncodeU32(h.size)
  }

  /** The header that HeaderWidth bytes read into a message_header hold. */
  function DecodeHeader(bs: seq<byte>): (h: MessageHeader)
    requires |bs| == HeaderWidth
    ensures EncodeHeader(h) == bs
  {
    EncodeDecodeU32(bs[..4]);
    EncodeDecodeU32(bs[4..]);
    assert bs == bs[..4] + bs[4..];
    MessageHeader(DecodeU32(bs[..4]), DecodeU32(bs[4..]))
  }

  /** A header read from the bytes of a header is that header. */
  lemma DecodeEncodeHeader(h: MessageHeader)
    ensures DecodeHeader(EncodeHeader(h)) == h
  {
    var bs := EncodeHeader(h);
    assert bs[..4] == EncodeU32(h.id) && bs[4..] == EncodeU32(h.size);
    DecodeEncodeU32(h.id);
    DecodeEncodeU32(h.size);
  }

  /** What WriteHeader and then WriteBody put on the socket for `m`. */
  function Wire(m: Message): (ts: seq<byte>)
    ensures |ts| == HeaderWidth + |m.body|
    ensures DecodeHeader(ts[..HeaderWidth]) == m.header
    ensures ts[HeaderWidth..] == m.body
  {
    DecodeEncodeHeader(m.header);
    assert (EncodeHeader(m.header) + m.body)[..HeaderWidth] == EncodeHeader(m.header);
    EncodeHeader(m.header) + m.body
  }

  /** Several messages written one after the other. */
  function WireAll(ms: seq<Message>): seq<byte>
  {
    if ms == [] then [] else Wire(ms[0]) + WireAll(ms[1..])
  }

  /** The read chain as written, for one frame: read HeaderWidth bytes as a
      header; a positive size resizes the scratch body to that size and
      reads that many bytes, whichever frame they belong to; a zero size
      delivers the scratch body as it is.  The result is the delivered
      message and the rest of the stream, or None when the stream ends
      before the bytes the reader waits for. */
  function ReadAsWritten(scratch: Message, ts: seq<byte>): (r: Option<(Message, seq<byte>)>)
    ensures r.Some? <==>
              HeaderWidth <= |ts| && DecodeHeader(ts[..HeaderWidth]).size as int <= |ts| - HeaderWidth
    ensures r.Some? ==>
              var h := DecodeHeader(ts[..HeaderWidth]);
              var end := HeaderWidth + h.size as int;
              && r.value.0.header == h
              && r.value.0.body == (if h.size > 0 then ts[HeaderWidth..end] else scratch.body)
              && r.value.1 == ts[end..]
  {
    if |ts| < HeaderWidth then None
    else
      var h := DecodeHeader(ts[..HeaderWidth]);
      var rest := ts[HeaderWidth..];
      if h.size == 0 then Some((Message(h, scratch.body), rest))
      else if h.size as int <= |rest| then Some((Message(h, rest[..h.size]), rest[h.size..]))
      else None
  }

  /** As written, a message built with `<<` is never delivered from its own
      frame: its size field counts the header, so the reader waits for
      HeaderWidth more bytes than the writer sent, and when a next frame
      follows it takes that frame's header bytes as body bytes. */
  lemma AppendedNeverDelivered(m: Message, v: seq<byte>, scratch: Message, rest: seq<byte>)
    requires Size(Append(m, v)) < U32Limit
    ensures ReadAsWritten(scratch, Wire(Append(m, v)) + rest) != Some((Append(m, v), rest))
    ensures |rest| < HeaderWidth ==> ReadAsWritten(scratch, Wire(Append(m, v)) + rest) == None
    ensures HeaderWidth <= |rest| ==>
              ReadAsWritten(scratch, Wire(Append(m, v)) + rest)
              == Some((Message(Append(m, v).header, Append(m, v).body + rest[..HeaderWidth]), rest[HeaderWidth..]))
  {
    var a := Append(m, v);
    var ts := Wire(a) + rest;
    assert ts[..HeaderWidth] == Wire(a)[..HeaderWidth];
    assert ts[HeaderWidth..] == a.body + rest;
    if HeaderWidth <= |rest| {
      var end := HeaderWidth + a.header.size as int;
      assert ts[HeaderWidth..end] == a.body + rest[..HeaderWidth];
      assert ts[end..] == rest[HeaderWidth..];
    }
  }

  /** A concrete instance: one byte pushed onto an empty message, followed
      on the stream by an empty message; the first is delivered with the
      second's header as eight more body bytes, and nothing is left for the
      second. */
  lemma AppendedSwallowsNextHeader()
    ensures var first := Append(Message(MessageHeader(3, 0), []), [5]);
            var second := Message(MessageHeader(4, 0), []);
            ReadAsWritten(EmptyMessage, Wire(first) + Wire(second))
            == Some((Message(MessageHeader(3, 9), [5] + EncodeHeader(MessageHeader(4, 0))), []))
  {
    var first := Append(Message(MessageHeader(3, 0), []), [5]);
    var second := Message(MessageHeader(4, 0), []);
    AppendedNeverDelivered(Message(MessageHeader(3, 0), []), [5], EmptyMessage, Wire(second));
    assert Wire(second) == EncodeHeader(MessageHeader(4, 0));
  }

  /** As written, a message with an empty body and a zero size field (such
      as a message built without `<<`) is delivered with whatever body the
      scratch message still holds from the previous frame. */
  lemma StaleBodyDelivered(scratch: Message, id: u32, rest: seq<byte>)
    ensures ReadAsWritten(scratch, Wire(Message(MessageHeader(id, 0), [])) + rest)
            == Some((Message(MessageHeader(id, 0), scratch.body), rest))
  {
    var w := Wire(Message(MessageHeader(id, 0), []));
    assert (w + rest)[..HeaderWidth] == w[..HeaderWidth];
    assert (w + rest)[HeaderWidth..] == rest;
  }

  /** A concrete instance the program can produce: a message with one
      byte pushed, then two empty messages.  The first read delivers the
      pushed message with the first empty message's header bytes as body;
      the scratch message keeps that body, so the second empty message
      arrives carrying the pushed byte and those header bytes. */
  lemma StaleBodyExample()
    ensures var a := Append(Message(MessageHeader(1, 0), []), [5]);
            var b := Message(MessageHeader(2, 0), []);
            var c := Message(MessageHeader(3, 0), []);
            var first := ReadAsWritten(EmptyMessage, Wire(a) + Wire(b) + Wire(c));
            && first.Some? && first.value.1 == Wire(c)
            && ReadAsWritten(first.value.0, first.value.1)
               == Some((Message(c.header, [5] + EncodeHeader(b.header)), []))
  {
    var a := Append(Message(MessageHeader(1, 0), []), [5]);
    var b := Message(MessageHeader(2, 0), []);
    var c := Message(MessageHeader(3, 0), []);
    var rest := Wire(b) + Wire(c);
    assert Wire(a) + Wire(b) + Wire(c) == Wire(a) + rest;
    AppendedNeverDelivered(Message(MessageHeader(1, 0), []), [5], EmptyMessage, rest);
    assert rest[..HeaderWidth] == EncodeHeader(b.header);
    assert rest[HeaderWidth..] == Wire(c);
    var delivered := Message(a.header, a.body + EncodeHeader(b.header));
    StaleBodyDelivered(delivered, 3, []);
    assert Wire(c) + [] == Wire(c);
  }

  /** The read chain as evidently intended: read a header, then always
      exactly `size` body bytes, so that a zero size delivers an empty
      body. */
  function ReadCorrected(ts: seq<byte>): (r: Option<(Message, seq<byte>)>)
    ensures r.Some? <==>
              HeaderWidth <= |ts| && DecodeHeader(ts[..HeaderWidth]).size as int <= |ts| - HeaderWidth
    ensures r.Some? ==> |r.value.1| < |ts| && Framed(r.value.0)
    ensures r.Some? ==> r.value.0.header == DecodeHeader(ts[..HeaderWidth])
  {
    if |ts| < HeaderWidth then None
    else
      var h := DecodeHeader(ts[..HeaderWidth]);
      var rest := ts[HeaderWidth..];
      if h.size as int <= |rest| then Some((Message(h, rest[..h.size]), rest[h.size..]))
      else None
  }

  /** The reader as written and the corrected reader differ only on a zero
      size field: for a positive size they deliver the same message and
      leave the same rest. */
  lemma ReadersAgreeOnPositiveSize(scratch: Message, ts: seq<byte>)
    requires HeaderWidth <= |ts| && DecodeHeader(ts[..HeaderWidth]).size > 0
    ensures ReadAsWritten(scratch, ts) == ReadCorrected(ts)
  {
  }

  /** The corrected reader delivers every framed message from its frame,
      whatever follows it on the stream. */
  lemma ReadCorrectedWire(m: Message, rest: seq<byte>)
    requires Framed(m)
    ensures ReadCorrected(Wire(m) + rest) == Some((m, rest))
  {
    var ts := Wire(m) + rest;
    assert ts[..HeaderWidth] == Wire(m)[..HeaderWidth];
    assert ts[HeaderWidth..] == m.body + rest;
    assert (m.body + rest)[..|m.body|] == m.body;
    assert (m.body + rest)[|m.body|..] == rest;
  }

  /** As written, a frame whose size field is its body length is delivered
      intact when that body is not empty: the size field counting the body
      is all the reader needs. */
  lemma FramedDeliveredIntact(scratch: Message, m: Message, rest: seq<byte>)
    requires Framed(m) && |m.body| > 0
    ensures ReadAsWritten(scratch, Wire(m) + rest) == Some((m, rest))
  {
    var ts := Wire(m) + rest;
    assert ts[..HeaderWidth] == Wire(m)[..HeaderWidth];
    ReadersAgreeOnPositiveSize(scratch, ts);
    ReadCorrectedWire(m, rest);
  }

  /** The corrected read chain over a whole stream. */
  function ReadAll(ts: seq<byte>): seq<Message>
    decreases |ts|
  {
    match ReadCorrected(ts)
    case Some((m, rest)) => [m] + ReadAll(rest)
    case None => []
  }

  /** Round trip of the corrected framing: the messages written one after
      the other are read back, all of them, in order. */
  lemma {:induction false} ReadAllWireAll(ms: seq<Message>)
    requires forall i :: 0 <= i < |ms| ==> Framed(ms[i])
    ensures ReadAll(WireAll(ms)) == ms
  {
    if ms != [] {
      ReadCorrectedWire(ms[0], WireAll(ms[1..]));
      ReadAllWireAll(ms[1..]);
    }
  }

  /** Every message built from an empty one with corrected appends is
      framed, so a stream of them round-trips. */
  lemma AppendCorrectedRoundTrip(id: u32, v: seq<byte>, rest: seq<byte>)
    requires |v| < U32Limit
    ensures ReadCorrected(Wire(AppendCorrected(Message(MessageHeader(id, 0), []), v)) + rest)
            == Some((Message(MessageHeader(id, ToU32(|v|)), v), rest))
  {
    var m := AppendCorrected(Message(MessageHeader(id, 0), []), v);
    assert m.body == v;
    ReadCorrectedWire(m, rest);
  }
}
