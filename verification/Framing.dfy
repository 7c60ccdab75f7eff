/** Messages on a byte stream: a 16-bit length and the packed bytes, written in as many pieces as the
    socket takes. */
module Framing {
  import opened CString

  const EINTR_RETURN := -1
  const ERROR_RETURN := -2

  /** The sending side of a socket. `schedule` says what the next writes do: the number of bytes a write
      is willing to take, an interruption, or an error; when it is used up every write takes all. */
  class Socket {
    var stream: seq<Byte>
    var schedule: seq<int>
    var errno: int

    constructor (schedule: seq<int>)
      ensures stream == [] && this.schedule == schedule
    {
      stream, this.schedule, errno := [], schedule, 0;
    }

    /** `write`: -1 and errno on failure, else the number of bytes taken from the front. */
    method Write(bytes: seq<Byte>) returns (res: int)
      modifies this
      ensures schedule == if old(schedule) == [] then [] else old(schedule)[1..]
      ensures old(schedule) == [] ==> res == |bytes|
      ensures old(schedule) != [] && old(schedule)[0] < 0 ==> res == -1 && errno == old(schedule)[0]
      ensures old(schedule) != [] && old(schedule)[0] >= 0 ==>
                res == if old(schedule)[0] <= |bytes| then old(schedule)[0] else |bytes|
      ensures -1 <= res <= |bytes|
      ensures stream == old(stream) + if res < 0 then [] else bytes[..res]
    {
      if schedule == [] {
        res := |bytes|;
        stream := stream + bytes;
      } else {
        var next := schedule[0];
        schedule := schedule[1..];
        if next < 0 {
          errno := next;
          return -1;
        }
        res := if next <= |bytes| then next else |bytes|;
        stream := stream + bytes[..res];
      }
    }
  }

  /** Only interruptions and partial writes, no other failure. */
  ghost predicate NoError(schedule: seq<int>) {
    forall i :: 0 <= i < |schedule| ==> schedule[i] >= 0 || schedule[i] == EINTR_RETURN
  }

  /** `write_all`: whatever the pieces, exactly the buffer's bytes go out, once and in order; after an
      error, a part of them from the front. */
  method WriteAll(socket: Socket, buf: array<Byte>, size: int) returns (result: int)
    requires size <= buf.Length
    modifies socket
    ensures result == size || (size > 0 && result == -1)
    ensures result == size && size > 0 ==> socket.stream == old(socket.stream) + buf[..size]
    ensures size <= 0 ==> socket.stream == old(socket.stream) && socket.schedule == old(socket.schedule)
    ensures result != size ==>
              exists n :: 0 <= n < size && socket.stream == old(socket.stream) + buf[..n]
    ensures NoError(old(socket.schedule)) ==> result == size
  {
    var sent, left := 0, size;
    ghost var plan := socket.schedule;
    while left > 0
      invariant size > 0 ==> 0 <= sent && 0 <= left && sent + left == size
      invariant size <= 0 ==> sent == 0 && left == size && socket.schedule == plan
      invariant socket.stream == old(socket.stream) + buf[..sent]
      invariant NoError(plan) ==> NoError(socket.schedule)
      decreases |socket.schedule|, left
    {
      var res := socket.Write(buf[sent..size]);
      if res < 0 {
        if socket.errno == EINTR_RETURN {
          continue;
        }
        return res;
      }
      assert buf[..sent] + buf[sent..size][..res] == buf[..sent + res];
      sent := sent + res;
      left := left - res;
    }
    return size;
  }

  // ---------- Frames ----------

  /** The value of the low 16 bits as a C short. */
  function ToShort(n: int): int {
    (n + 0x8000) % 0x1_0000 - 0x8000
  }

  function LengthBytes(n: int): (b: seq<Byte>)
    requires 0 <= n < 0x1_0000
    ensures |b| == 2
  {
    [n / 0x100, n % 0x100]
  }

  /** What `network_send` puts on the stream for a packed message: the low 16 bits of its length and, if
      they make a positive short, that many of its bytes. */
  function Frame(packed: seq<Byte>): seq<Byte> {
    var num := ToShort(|packed|);
    LengthBytes(|packed| % 0x1_0000) + if num < 0 then [] else packed[..num]
  }

  /** Every message is announced by the low 16 bits of its length, most significant byte first, and one of up
      to 32767 bytes follows as it is. */
  lemma FrameIs(packed: seq<Byte>)
    ensures |Frame(packed)| >= 2
    ensures var hi: int, lo: int := Frame(packed)[0], Frame(packed)[1];
            hi * 0x100 + lo == |packed| % 0x1_0000
    ensures |packed| <= 0x7FFF ==> Frame(packed)[2..] == packed
  {
    var n := |packed|;
    assert Frame(packed)[..2] == LengthBytes(n % 0x1_0000);
    assert Frame(packed)[0] == Frame(packed)[..2][0] && Frame(packed)[1] == Frame(packed)[..2][1];
    ShortBound(n);
  }

  /** How many of the two length bytes the single write of them takes. */
  ghost function FirstWrite(schedule: seq<int>): int {
    if schedule == [] || schedule[0] > 2 then 2 else schedule[0]
  }

  /** Between n bytes and all but one byte of s have been written. */
  ghost predicate BrokeOff(before: seq<Byte>, s: seq<Byte>, n: nat, stream: seq<Byte>) {
    exists k :: n <= k < |s| && stream == before + s[..k]
  }

  lemma BreaksOff(before: seq<Byte>, prefix: seq<Byte>, body: seq<Byte>, k: nat)
    requires k < |body|
    ensures BrokeOff(before, prefix + body, |prefix|, before + prefix + body[..k])
  {
    assert (prefix + body)[..|prefix| + k] == prefix + body[..k];
    assert before + prefix + body[..k] == before + (prefix + body)[..|prefix| + k];
  }

  /** The two bytes that follow on a stream say how long the message is, most significant byte first. */
  ghost predicate Announced(before: seq<Byte>, stream: seq<Byte>, length: nat) {
    |stream| >= |before| + 2 &&
    var hi: int, lo: int := stream[|before|], stream[|before| + 1];
    hi * 0x100 + lo == length % 0x1_0000
  }

  lemma FrameAnnounces(before: seq<Byte>, packed: seq<Byte>, rest: seq<Byte>)
    ensures Announced(before, before + LengthBytes(|packed| % 0x1_0000) + rest, |packed|)
  {
    var prefix := LengthBytes(|packed| % 0x1_0000);
    var stream := before + prefix + rest;
    FrameIs(packed);
    assert Frame(packed)[..2] == prefix;
    assert stream[|before|] == prefix[0] && stream[|before| + 1] == prefix[1];
  }

  /** `network_send`, up to the packing of the message, which is given. The length bytes are written once:
      bytes which that write does not take are never sent. Then the rest of the frame follows or, after a
      write error, a proper part of it. */
  method NetworkSend(socket: Socket, packed: array<Byte>) returns (result: int)
    modifies socket
    ensures FirstWrite(old(socket.schedule)) < 0 ==>
              result == -1 && socket.stream == old(socket.stream)
    ensures FirstWrite(old(socket.schedule)) >= 0 ==>
              var first, frame := FirstWrite(old(socket.schedule)), Frame(packed[..]);
              var sent := frame[..first] + frame[2..];
              || (result == (if ToShort(packed.Length) < 0 then -1 else ToShort(packed.Length)) &&
                  socket.stream == old(socket.stream) + sent)
              || (result == -1 && !NoError(old(socket.schedule)) &&
                  BrokeOff(old(socket.stream), sent, first, socket.stream))
    ensures FirstWrite(old(socket.schedule)) == 2 ==>
              Announced(old(socket.stream), socket.stream, packed.Length)
  {
    var num := ToShort(packed.Length);
    ShortBound(packed.Length);
    var prefix := LengthBytes(packed.Length % 0x1_0000);
    ghost var body := if num < 0 then [] else packed[..num];
    ghost var before := socket.stream;
    assert Frame(packed[..]) == prefix + body;
    ghost var first := FirstWrite(socket.schedule);
    hide Frame, ToShort, LengthBytes, NoError, BrokeOff, Announced;
    var sendResult := socket.Write(prefix);
    if sendResult == -1 {
      return -1;
    }
    assert first == 2 ==> prefix[..first] == prefix;
    assert sendResult == first;
    Parts(prefix, body, first);
    if num < 0 {
      FrameAnnounces(before, packed[..], []);
      assert before + prefix + [] == before + prefix;
      assert prefix[..first] + body == prefix[..first];
      return -1;
    }
    var written := WriteAll(socket, packed, num);
    if written != num {
      ghost var k :| 0 <= k < num && socket.stream == before + prefix[..first] + packed[..k];
      assert packed[..k] == body[..k];
      BreaksOff(before, prefix[..first], body, k);
      FrameAnnounces(before, packed[..], packed[..k]);
      return -1;
    }
    FrameAnnounces(before, packed[..], body);
    assert socket.stream == before + prefix[..first] + body == before + (prefix[..first] + body);
    return written;
  }

  lemma Parts(prefix: seq<Byte>, body: seq<Byte>, first: nat)
    requires first <= |prefix| == 2
    ensures (prefix + body)[..first] == prefix[..first] && (prefix + body)[2..] == body
  {
  }

  lemma ShortBound(n: nat)
    ensures ToShort(n) <= n
    ensures n < 0x1_0000 ==> ToShort(n) == if n <= 0x7FFF then n else n - 0x1_0000
    ensures n >= 0x1_0000 ==> ToShort(n) <= 0x7FFF < n
  {
  }

  /** What one `network_receive` makes of the bytes that wait on the stream, all of which are delivered:
      the message bytes and what is left, or none. A lone length byte leaves the other one zero. */
  function Receive(stream: seq<Byte>): Option<(seq<Byte>, seq<Byte>)> {
    if stream == [] then None
    else
      var hi: int, lo: int := stream[0], if |stream| > 1 then stream[1] else 0;
      var rest := if |stream| > 1 then stream[2..] else [];
      var num := ToShort(hi * 0x100 + lo);
      if num < 0 then None
      else
        var size := if num <= |rest| then num else |rest|;
        if size > 0 then Some((rest[..size], rest[size..])) else None
  }

  /** A packed message survives the trip exactly when it has 1 to 32767 bytes, whatever follows it. */
  lemma FrameRoundTripExactly(packed: seq<Byte>, rest: seq<Byte>)
    ensures Receive(Frame(packed) + rest) == Some((packed, rest)) <==> Carried(packed)
  {
    var n, num := |packed|, ToShort(|packed|);
    ShortBound(n);
    FrameIs(packed);
    var body := if num < 0 then [] else packed[..num];
    assert Frame(packed)[2..] == body;
    LowBits(n);
    hide ToShort, Frame, LengthBytes, Receive;
    var hi, lo := Frame(packed)[0], Frame(packed)[1];
    assert Frame(packed) + rest == [hi, lo] + (body + rest);
    ReceiveTwo(hi, lo, body + rest);
    if 0 <= num {
      assert (body + rest)[..num] == body && (body + rest)[num..] == rest;
    }
    assert Carried(packed) ==> body == packed;
    assert !Carried(packed) ==> |body| != |packed| || num <= 0;
  }

  lemma LowBits(n: nat)
    ensures ToShort(n % 0x1_0000) == ToShort(n)
  {
  }

  lemma ReceiveTwo(hi: Byte, lo: Byte, rest: seq<Byte>)
    ensures var h: int, l: int := hi, lo;
            var num := ToShort(h * 0x100 + l);
            Receive([hi, lo] + rest) ==
            if num <= 0 || rest == [] then None
            else if num <= |rest| then Some((rest[..num], rest[num..])) else Some((rest, []))
  {
    assert ([hi, lo] + rest)[2..] == rest && rest[..|rest|] == rest && rest[|rest|..] == [];
  }

  /** A frame that is cut short is received as the part of the message that has arrived, if there is any. */
  lemma CutFrame(packed: seq<Byte>, k: nat)
    requires |packed| <= 0x7FFF && k <= |packed| + 2
    ensures k <= |Frame(packed)|
    ensures Receive(Frame(packed)[..k]) == if k <= 2 then None else Some((packed[..k - 2], []))
  {
    FrameIs(packed);
    ShortBound(|packed|);
    var s := Frame(packed)[..k];
    if k == 1 {
      var hi: int := s[0];
      ShortBound(hi * 0x100);
    } else if k > 1 {
      assert s[0] == Frame(packed)[0] && s[1] == Frame(packed)[1];
      var body, n := packed[..k - 2], |packed|;
      assert s[2..] == body && body[..|body|] == body && body[|body|..] == [];
      var hi: int, lo: int := s[0], s[1];
      assert hi * 0x100 + lo == n && ToShort(n) == n;
    }
  }

  predicate Carried(packed: seq<Byte>) {
    1 <= |packed| <= 0x7FFF
  }

  /** A message of 32768 bytes is announced and never arrives. */
  lemma LongMessageIsLost()
    ensures var message: seq<Byte> := seq(0x8000, _ => 7);
            Frame(message) == [0x80, 0] && Receive(Frame(message)) == None
  {
  }

  function Frames(messages: seq<seq<Byte>>): seq<Byte> {
    if messages == [] then [] else Frame(messages[0]) + Frames(messages[1..])
  }

  /** The messages `client_handler` serves, one `network_receive` after the other until it fails. */
  function Serve(stream: seq<Byte>): seq<seq<Byte>>
    decreases |stream|
  {
    match Receive(stream)
    case None => []
    case Some((message, rest)) => [message] + Serve(rest)
  }

  /** A stream of frames parses back to the messages that were sent. */
  lemma {:induction false} StreamRoundTrip(messages: seq<seq<Byte>>)
    requires forall i :: 0 <= i < |messages| ==> Carried(messages[i])
    ensures Serve(Frames(messages)) == messages
  {
    if messages != [] {
      FrameRoundTripExactly(messages[0], Frames(messages[1..]));
      StreamRoundTrip(messages[1..]);
    }
  }

  // ---------- Reading ----------

  function Cut(s: seq<Byte>, size: int): seq<Byte>
    requires size >= 0
  {
    if |s| <= size then s else s[..size]
  }

  /** The receiving side: each read delivers the next chunk, cut to the size asked for. */
  class Source {
    var chunks: seq<seq<Byte>>

    constructor (chunks: seq<seq<Byte>>)
      ensures this.chunks == chunks
    {
      this.chunks := chunks;
    }

    method Read(size: int) returns (bytes: seq<Byte>)
      requires size >= 0
      modifies this
      ensures old(chunks) == [] ==> bytes == [] && chunks == []
      ensures old(chunks) != [] ==>
                && bytes == Cut(old(chunks)[0], size)
                && chunks == (if |bytes| < |old(chunks)[0]| then [old(chunks)[0][size..]] else []) + old(chunks)[1..]
    {
      if chunks == [] {
        return [];
      }
      var first := chunks[0];
      if |first| <= size {
        bytes, chunks := first, chunks[1..];
      } else {
        bytes, chunks := first[..size], [first[size..]] + chunks[1..];
      }
    }
  }

  /** `read_all` gives up after the first read that is not full: it returns the whole message exactly when
      the first chunk holds all of it. */
  method ReadAll(source: Source, size: int) returns (buf: seq<Byte>)
    requires size >= 0
    modifies source
    ensures old(source.chunks) == [] ==> buf == []
    ensures old(source.chunks) != [] ==>
              buf == Cut(old(source.chunks)[0], size)
    ensures |buf| == size <==> size == 0 || (old(source.chunks) != [] && |old(source.chunks)[0]| >= size)
    ensures old(source.chunks) != [] ==>
              source.chunks ==
              (if |buf| < |old(source.chunks)[0]| then [old(source.chunks)[0][size..]] else []) +
              old(source.chunks)[1..]
  {
    buf := [];
    var fullBuffer := true;
    ghost var rounds := 0;
    while fullBuffer
      invariant rounds == 0 ==> fullBuffer && buf == [] && source.chunks == old(source.chunks)
      invariant rounds > 0 ==> !fullBuffer
      invariant rounds > 0 ==> (old(source.chunks) == [] ==> buf == [])
      invariant rounds > 0 && old(source.chunks) != [] ==>
                  && |old(source.chunks)[0]| < size && buf == old(source.chunks)[0]
                  && source.chunks == old(source.chunks)[1..]
      invariant rounds > 0 ==> |buf| < size
      decreases fullBuffer
    {
      var bytes := source.Read(size);
      fullBuffer := |bytes| == size;
      assert buf + bytes == bytes;
      buf := buf + bytes;
      if |buf| == size {
        return;
      }
      rounds := rounds + 1;
    }
  }

  /** `network_receive`, up to the unpacking: from a stream that is delivered in one piece it takes what
      `Receive` says, and leaves the rest. */
  method NetworkReceive(source: Source) returns (message: Option<seq<Byte>>)
    modifies source
    ensures old(source.chunks) == [] ==> message == None
    ensures |old(source.chunks)| == 1 ==>
              match Receive(old(source.chunks)[0])
              case None => message == None
              case Some((bytes, rest)) => message == Some(bytes) && source.chunks == if rest == [] then [] else [rest]
  {
    ghost var chunks := source.chunks;
    var length := source.Read(2);
    if |length| < 1 {
      return None;
    }
    var hi: int, lo: int := length[0], if |length| > 1 then length[1] else 0;
    var num := ToShort(hi * 0x100 + lo);
    if num < 0 {
      return None;
    }
    var buff := ReadAll(source, num);
    if |buff| == 0 {
      return None;
    }
    if |chunks| == 1 {
      var rest := chunks[0][2..];
      assert |buff| == |rest| ==> rest[..|rest|] == rest;
    }
    return Some(buff);
  }
}
