/** The message envelope of NetCommon/net_message.hpp.

    A message is a header (a type code and a uint32_t size) and a byte body.
    `msg << value` appends the bytes of a fixed-width value at the tail of the
    body; `msg >> value` takes the same number of bytes back off the tail, so
    the body behaves as a stack.  Values are opaque fixed-width byte strings:
    their native layout is not modelled.

    message<T> is a value type in the source (it is copied into queues and
    into posted handlers), so the two operators, which update the message
    they are given in place, are modelled as functions from the old message
    to the new one. */
module NetMessage {
  import opened Common

  /** An octet (uint8_t). */
  newtype byte = x: int | 0 <= x < 256

  /** sizeof(message_header<T>) for a type code whose underlying type is
      uint32_t (as in every enum the programs declare): a 4-byte id and a
      4-byte size. */
  const HeaderWidth: nat := 8

  datatype MessageHeader = MessageHeader(id: u32, size: u32)

  datatype Message = Message(header: MessageHeader, body: seq<byte>)

  /** A value-initialised message<T>: id 0, size 0, empty body. */
  const EmptyMessage := Message(MessageHeader(0, 0), [])

  /** owned_message<T>: a received message tagged with the connection it came
      from.  The connection is represented by its identifier; a client-side
      connection tags its messages with no origin. */
  datatype OwnedMessage = OwnedMessage(remote: Option<u32>, msg: Message)

  /** message::size(): the header width plus the body length. */
  function Size(m: Message): (r: nat)
    ensures HeaderWidth <= r
  {
    HeaderWidth + |m.body|
  }

  /** std::vector::resize: keeps a prefix, or pads with zero bytes. */
  function Resize(s: seq<byte>, n: nat): (r: seq<byte>)
    ensures |r| == n
    ensures n <= |s| ==> r == s[..n]
    ensures |s| <= n ==> r[..|s|] == s
  {
    if n <= |s| then s[..n] else s + seq(n - |s|, _ => 0)
  }

  /** `msg << data` for a value whose bytes are `v`: the body grows by
      exactly |v| bytes, the old bytes stay in front, the value lands at the
      tail, and header.size is set to size() (header width included),
      truncated to 32 bits. */
  function Append(m: Message, v: seq<byte>): (r: Message)
    ensures |r.body| == |m.body| + |v|
    ensures r.body[..|m.body|] == m.body && r.body[|m.body|..] == v
    ensures r.header.id == m.header.id
    ensures r.header.size == ToU32(Size(r))
    ensures Size(r) < U32Limit ==> r.header.size as int == HeaderWidth + |r.body|
  {
    var b := m.body + v;
    Message(MessageHeader(m.header.id, ToU32(HeaderWidth + |b|)), b)
  }

  /** `msg >> data` for a value of width `w`: the caller must have at least
      `w` bytes in the body (the source computes `body.size() - w` without a
      check).  Yields the last `w` bytes and truncates the body to the rest;
      the header, size field included, is left as it was. */
  function Extract(m: Message, w: nat): (r: (Message, seq<byte>))
    requires w <= |m.body|
    ensures |r.1| == w && r.1 == m.body[|m.body| - w..]
    ensures r.0.body == m.body[..|m.body| - w]
    ensures r.0.header == m.header
  {
    (m.(body := m.body[..|m.body| - w]), m.body[|m.body| - w..])
  }

  /** operator<< step by step: note the old body length, grow the body by
      the value's width, copy the value's bytes into the new tail, and set
      header.size to size(). */
  method PushValue(m: Message, v: seq<byte>) returns (r: Message)
    ensures r == Append(m, v)
  {
    var i := |m.body|;
    var body := Resize(m.body, |m.body| + |v|);
    body := body[..i] + v;
    r := m.(body := body);
    r := r.(header := r.header.(size := ToU32(Size(r))));
  }

  /** operator>> step by step: locate the value at the tail, copy its bytes
      out, then resize the body to the rest, twice; header.size is not
      touched. */
  method PopValue(m: Message, w: nat) returns (r: Message, data: seq<byte>)
    requires w <= |m.body|
    ensures (r, data) == Extract(m, w)
  {
    var i := |m.body| - w;
    data := m.body[i..i + w];
    var body := Resize(m.body, i);
    body := Resize(body, i);
    r := m.(body := body);
    assert data == m.body[|m.body| - w..];
    assert body == m.body[..i];
  }

  /** size() follows the body: a push of w bytes raises it by w, a pop of
      w bytes lowers it by w, and neither depends on the size field. */
  lemma SizeFollowsBody(m: Message, v: seq<byte>, w: nat)
    ensures Size(Append(m, v)) == Size(m) + |v|
    ensures w <= |m.body| ==> Size(Extract(m, w).0) + w == Size(m)
  {
  }

  /** Appending then extracting a value of the same width gives the value
      back and restores the body; the header keeps the size set by the
      append. */
  lemma RoundTrip(m: Message, v: seq<byte>)
    ensures |v| <= |Append(m, v).body|
    ensures Extract(Append(m, v), |v|) == (Append(m, v).(body := m.body), v)
  {
  }

  /** The body after an append is the old body followed by the value. */
  lemma AppendBody(m: Message, v: seq<byte>)
    ensures Append(m, v).body == m.body + v
  {
  }

  /** `msg << x << y`: each operator returns the message it updated, so a
      chain is sequential composition, and pushing x then y leaves the same
      message as pushing their bytes at once. */
  lemma AppendChain(m: Message, x: seq<byte>, y: seq<byte>)
    ensures Append(Append(m, x), y) == Append(m, x + y)
  {
  }

  /** The bytes of `vs` laid end to end. */
  function Concat(vs: seq<seq<byte>>): seq<byte>
  {
    if vs == [] then [] else Concat(vs[..|vs| - 1]) + vs[|vs| - 1]
  }

  /** `msg << vs[0] << vs[1] << ...` */
  function AppendAll(m: Message, vs: seq<seq<byte>>): (r: Message)
    ensures r.header.id == m.header.id
    ensures |r.body| == |m.body| + |Concat(vs)|
  {
    if vs == [] then m else Append(AppendAll(m, vs[..|vs| - 1]), vs[|vs| - 1])
  }

  /** The widths of `vs`, last value first: the order in which a reader must
      extract them. */
  function PopWidths(vs: seq<seq<byte>>): seq<nat>
  {
    if vs == [] then [] else [|vs[|vs| - 1]|] + PopWidths(vs[..|vs| - 1])
  }

  function Total(ws: seq<nat>): nat
  {
    if ws == [] then 0 else ws[0] + Total(ws[1..])
  }

  function Reverse<T>(s: seq<T>): seq<T>
  {
    if s == [] then [] else [s[|s| - 1]] + Reverse(s[..|s| - 1])
  }

  /** `msg >> v0 >> v1 >> ...` with values of widths ws[0], ws[1], ...:
      the final message and the values read, in reading order. */
  function ExtractAll(m: Message, ws: seq<nat>): (r: (Message, seq<seq<byte>>))
    requires Total(ws) <= |m.body|
    ensures r.0.header == m.header
    ensures |r.0.body| + Total(ws) == |m.body|
    ensures r.0.body == m.body[..|r.0.body|]
    ensures |r.1| == |ws|
    decreases |ws|
  {
    if ws == [] then (m, [])
    else
      var (m1, v) := Extract(m, ws[0]);
      var (m2, rest) := ExtractAll(m1, ws[1..]);
      (m2, [v] + rest)
  }

  /** After `msg << vs[0] << ... << vs[n-1]` the body is the old body
      followed by the values' bytes in push order, and the type code is
      unchanged. */
  lemma {:induction false} AppendAllBody(m: Message, vs: seq<seq<byte>>)
    ensures AppendAll(m, vs).body == m.body + Concat(vs)
    ensures AppendAll(m, vs).header.id == m.header.id
  {
    if vs != [] {
      var p, v := vs[..|vs| - 1], vs[|vs| - 1];
      var a := AppendAll(m, p);
      AppendAllBody(m, p);
      AppendBody(a, v);
      assert AppendAll(m, vs) == Append(a, v);
      assert Concat(vs) == Concat(p) + v;
      assert (m.body + Concat(p)) + v == m.body + (Concat(p) + v);
    }
  }

  lemma {:induction false} PopWidthsTotal(vs: seq<seq<byte>>)
    ensures Total(PopWidths(vs)) == |Concat(vs)|
  {
    if vs != [] {
      PopWidthsTotal(vs[..|vs| - 1]);
      assert PopWidths(vs)[1..] == PopWidths(vs[..|vs| - 1]);
    }
  }

  /** Extracting from a body that ends with the bytes of `vs` pops the values
      last-first and leaves the bytes in front of them. */
  lemma {:induction false} ExtractAllPops(x: Message, b: seq<byte>, vs: seq<seq<byte>>)
    requires x.body == b + Concat(vs)
    ensures Total(PopWidths(vs)) <= |x.body|
    ensures ExtractAll(x, PopWidths(vs)) == (x.(body := b), Reverse(vs))
    decreases |vs|
  {
    PopWidthsTotal(vs);
    if vs != [] {
      var p := vs[..|vs| - 1];
      var v := vs[|vs| - 1];
      var ws := PopWidths(vs);
      assert ws[0] == |v| && ws[1..] == PopWidths(p);
      assert x.body == (b + Concat(p)) + v;
      var (x1, got) := Extract(x, |v|);
      assert got == v;
      assert x1 == x.(body := b + Concat(p));
      ExtractAllPops(x1, b, p);
      assert x1.(body := b) == x.(body := b);
      assert ExtractAll(x, ws) == (ExtractAll(x1, ws[1..]).0, [got] + ExtractAll(x1, ws[1..]).1);
      assert Reverse(vs) == [v] + Reverse(p);
    } else {
      assert x.body == b;
      assert x.(body := b) == x;
    }
  }

  /** The stack discipline: after `msg << v1 << ... << vn`, extracting n
      values of the matching widths, last first, yields vn, ..., v1 and
      leaves the original body.  Extraction never touches the header, so it
      keeps the size written by the last append. */
  lemma Lifo(m: Message, vs: seq<seq<byte>>)
    ensures Total(PopWidths(vs)) <= |AppendAll(m, vs).body|
    ensures ExtractAll(AppendAll(m, vs), PopWidths(vs))
         == (AppendAll(m, vs).(body := m.body), Reverse(vs))
  {
    AppendAllBody(m, vs);
    ExtractAllPops(AppendAll(m, vs), m.body, vs);
  }

  /** The size field agrees with size(), as operator<< leaves it. */
  predicate SizeAgrees(m: Message)
  {
    m.header.size == ToU32(Size(m))
  }

  /** As written, `msg << v >> v` leaves a size field that still counts the
      extracted value: the second resize where the size was to be
      recalculated makes the field disagree with size(). */
  lemma ExtractLeavesSizeStale(m: Message, v: seq<byte>)
    requires |v| > 0 && Size(Append(m, v)) < U32Limit
    ensures |v| <= |Append(m, v).body|
    ensures !SizeAgrees(Extract(Append(m, v), |v|).0)
  {
  }

  /** A concrete instance: a one-byte value pushed onto an empty message and
      popped again leaves the size field at 9 for a message of size 8. */
  lemma ExtractLeavesSizeStaleExample()
    ensures Extract(Append(EmptyMessage, [5]), 1).0.header.size == 9
    ensures Size(Extract(Append(EmptyMessage, [5]), 1).0) == 8
  {
    ExtractLeavesSizeStale(EmptyMessage, [5]);
  }

  /** The size field of `m` is the length of its body: what the read chain
      of NetCommon/net_connection.hpp takes it to be. */
  predicate Framed(m: Message)
  {
    m.header.size as int == |m.body|
  }

  /** operator<< as evidently intended: the size field counts the body. */
  function AppendCorrected(m: Message, v: seq<byte>): (r: Message)
    ensures r.body == m.body + v && r.header.id == m.header.id
    ensures r.header.size == ToU32(|r.body|)
    ensures |r.body| < U32Limit ==> Framed(r)
  {
    var a := Append(m, v);
    AppendBody(m, v);
    a.(header := a.header.(size := ToU32(|a.body|)))
  }

  /** operator>> as evidently intended: after the body shrinks, the size
      field is recalculated, to the body length as the corrected operator<<
      sets it. */
  function ExtractCorrected(m: Message, w: nat): (r: (Message, seq<byte>))
    requires w <= |m.body|
    ensures r.1 == Extract(m, w).1 && r.0.body == Extract(m, w).0.body
    ensures r.0.header.id == m.header.id
    ensures r.0.header.size == ToU32(|r.0.body|)
    ensures |m.body| < U32Limit ==> Framed(r.0)
  {
    var (rest, data) := Extract(m, w);
    (rest.(header := rest.header.(size := ToU32(|rest.body|))), data)
  }

  /** With the corrected operators, popping what was pushed onto a framed
      message gives the value back and restores the whole message, header
      included. */
  lemma ExtractCorrectedRoundTrip(m: Message, v: seq<byte>)
    requires Framed(m)
    ensures |v| <= |AppendCorrected(m, v).body|
    ensures ExtractCorrected(AppendCorrected(m, v), |v|) == (m, v)
  {
    var a := AppendCorrected(m, v);
    assert a.body[..|m.body|] == m.body && a.body[|m.body|..] == v;
  }
}
