/**
 The control socket's framing: a four-byte big-endian length, then the payload. The server's read
 loop is proved against `Read`, the client against `Frame` and `ReadReply`.
 */
module Framing {
  import opened Common

  type Byte = x: int | 0 <= x < 256

  type Bytes = seq<Byte>

  const MAX_FRAME: nat := 10 * 1024 * 1024

  /** One more than the greatest 32-bit length. */
  const WORD: nat := 0x1_0000_0000

  // ---------- Frames ----------

  lemma TopByte(n: nat)
    requires n < WORD
    ensures n / 256 / 256 / 256 < 256
  {
  }

  function BigEndian(n: nat): Bytes
    requires n < WORD
  {
    var upper := n / 256;
    var top := upper / 256;
    TopByte(n);
    [top / 256, top % 256, upper % 256, n % 256]
  }

  function FromBigEndian(b: Bytes): (n: nat)
    requires |b| == 4
    ensures n < WORD
  {
    ((b[0] as int * 256 + b[1]) * 256 + b[2]) * 256 + b[3]
  }

  /** The length is cast to 32 bits before it is written. */
  function Frame(payload: Bytes): Bytes {
    BigEndian(|payload| % WORD) + payload
  }

  function Frames(payloads: seq<Bytes>): Bytes {
    if |payloads| == 0 then [] else Frame(payloads[0]) + Frames(payloads[1..])
  }

  lemma FramesCons(payloads: seq<Bytes>)
    requires |payloads| > 0
    ensures Frames(payloads) == Frame(payloads[0]) + Frames(payloads[1..])
    ensures payloads == [payloads[0]] + payloads[1..]
  {
  }

  lemma FramesPush(first: Bytes, rest: seq<Bytes>)
    ensures Frames([first] + rest) == Frame(first) + Frames(rest)
  {
    hide Frame;
    assert ([first] + rest)[1..] == rest;
  }

  /** Four bytes hold exactly the lengths below 2^32. */
  lemma BigEndianInverse(n: nat)
    requires n < WORD
    ensures |BigEndian(n)| == 4 && FromBigEndian(BigEndian(n)) == n
  {
    TopByte(n);
    Digits(n);
    Digits(n / 256);
    Digits(n / 256 / 256);
  }

  /** The prefix, most significant byte first; a short frame's is its length behind three zeros. */
  lemma PrefixIs(payload: Bytes)
    ensures var f := Frame(payload);
            && |f| == 4 + |payload| && f[4..] == payload
            && (|payload| < 0x1_0000_0000 ==>
                  |payload| == f[0] as int * 0x100_0000 + f[1] as int * 0x1_0000 + f[2] as int * 0x100 + f[3])
            && (|payload| < 256 ==> f[..4] == [0, 0, 0, |payload|])
  {
    var n := |payload| % WORD;
    TopByte(n);
    Digits(n);
    Digits(n / 256);
    Digits(n / 256 / 256);
    assert Frame(payload)[4..] == payload;
  }

  lemma Digits(n: nat)
    ensures n == n / 256 * 256 + n % 256
  {
  }

  lemma DigitsAre(q: nat, d: Byte)
    ensures (q * 256 + d) / 256 == q && (q * 256 + d) % 256 == d
  {
  }

  // ---------- Reading requests ----------

  /** Why the server stops reading a connection. */
  datatype Ending = Disconnected | TooLarge | CutShort

  datatype Reading = Reading(payloads: seq<Bytes>, ending: Ending)

  /** The payloads the server takes from a stream that ends after `stream`, and how it stops. */
  function Read(stream: Bytes): Reading
    decreases |stream|
  {
    if |stream| < 4 then Reading([], Disconnected)
    else
      var size := FromBigEndian(stream[..4]);
      if size > MAX_FRAME then Reading([], TooLarge)
      else if |stream| < 4 + size then Reading([], CutShort)
      else
        var rest := Read(stream[4 + size..]);
        Reading([stream[4..4 + size]] + rest.payloads, rest.ending)
  }

  /** The server accepts every payload. */
  predicate Acceptable(payloads: seq<Bytes>) {
    forall i :: 0 <= i < |payloads| ==> |payloads[i]| <= 10_485_760
  }

  lemma ReadUnfolds(stream: Bytes, size: nat)
    requires |stream| >= 4 + size && size <= MAX_FRAME && FromBigEndian(stream[..4]) == size
    ensures var rest := Read(stream[4 + size..]);
            Read(stream) == Reading([stream[4..4 + size]] + rest.payloads, rest.ending)
  {
    hide FromBigEndian;
  }

  lemma HeadSplits(payload: Bytes, tail: Bytes)
    ensures var stream, size := Frame(payload) + tail, |payload| % WORD;
            && |stream| >= 4 + size && FromBigEndian(stream[..4]) == size
            && stream[4..4 + size] == payload[..size]
            && stream[4 + size..] == payload[size..] + tail
  {
    var stream, size := Frame(payload) + tail, |payload| % WORD;
    BigEndianInverse(size);
    hide BigEndian, FromBigEndian;
    assert stream[..4] == BigEndian(size);
    assert stream[4..] == payload + tail;
    assert stream[4..4 + size] == payload[..size];
    assert stream[4 + size..] == payload[size..] + tail;
  }

  lemma ReadHead(payload: Bytes, tail: Bytes)
    requires |payload| <= MAX_FRAME
    ensures Read(Frame(payload) + tail) == Reading([payload] + Read(tail).payloads, Read(tail).ending)
  {
    hide Read, Frame, FromBigEndian;
    HeadSplits(payload, tail);
    ReadUnfolds(Frame(payload) + tail, |payload|);
    assert payload[..|payload|] == payload && payload[|payload|..] + tail == tail;
  }

  lemma AcceptableSplits(payloads: seq<Bytes>)
    requires |payloads| > 0
    ensures Acceptable(payloads) <==> |payloads[0]| <= MAX_FRAME && Acceptable(payloads[1..])
  {
    assert forall i :: 0 < i < |payloads| ==> payloads[i] == payloads[1..][i - 1];
  }

  /** Reading behind any acceptable frames is reading what follows them. */
  lemma {:induction false} ReadAppend(payloads: seq<Bytes>, tail: Bytes)
    requires Acceptable(payloads)
    ensures Read(Frames(payloads) + tail) == Reading(payloads + Read(tail).payloads, Read(tail).ending)
  {
    if |payloads| == 0 {
      assert Frames(payloads) + tail == tail;
    } else {
      hide *;
      var first, rest := payloads[0], payloads[1..];
      FramesCons(payloads);
      AcceptableSplits(payloads);
      ReadAppend(rest, tail);
      ReadHead(first, Frames(rest) + tail);
      Regroup(Frame(first), Frames(rest), tail);
      Regroup([first], rest, Read(tail).payloads);
    }
  }

  /** What is left unread when the server stops. */
  predicate Stuck(tail: Bytes, ending: Ending) {
    match ending
    case Disconnected => |tail| < 4
    case TooLarge => |tail| >= 4 && FromBigEndian(tail[..4]) > MAX_FRAME
    case CutShort => |tail| >= 4 && FromBigEndian(tail[..4]) <= MAX_FRAME && |tail| < 4 + FromBigEndian(tail[..4])
  }

  lemma BigEndianOnto(b: Bytes)
    requires |b| == 4
    ensures BigEndian(FromBigEndian(b)) == b
  {
    var top := b[0] as int * 256 + b[1];
    var upper := top * 256 + b[2];
    DigitsAre(b[0], b[1]);
    DigitsAre(top, b[2]);
    DigitsAre(upper, b[3]);
    assert FromBigEndian(b) == upper * 256 + b[3];
  }

  lemma FrameOf(stream: Bytes, size: nat)
    requires |stream| >= 4 + size && size <= MAX_FRAME && FromBigEndian(stream[..4]) == size
    ensures stream == Frame(stream[4..4 + size]) + stream[4 + size..]
  {
    FrameIs(stream[4..4 + size], size);
    hide *;
    BigEndianOnto(stream[..4]);
    SplitThree(stream, size);
  }

  lemma FrameIs(payload: Bytes, size: nat)
    requires |payload| == size <= MAX_FRAME
    ensures Frame(payload) == BigEndian(size) + payload
  {
    FitsWord(size);
    hide BigEndian;
  }

  lemma FitsWord(size: nat)
    requires size <= MAX_FRAME
    ensures size % WORD == size
  {
  }

  lemma SplitThree(s: Bytes, size: nat)
    requires 4 + size <= |s|
    ensures s == s[..4] + s[4..4 + size] + s[4 + size..]
  {
  }

  /**
   The server reads a stream exactly: the stream is the frames of the payloads it took and a tail
   that holds no complete acceptable frame, and the ending says which kind of tail.
   */
  lemma {:induction false} ReadExactly(stream: Bytes) returns (tail: Bytes)
    ensures Acceptable(Read(stream).payloads)
    ensures stream == Frames(Read(stream).payloads) + tail && Stuck(tail, Read(stream).ending)
    decreases |stream|
  {
    tail := stream;
    if |stream| >= 4 {
      var size := FromBigEndian(stream[..4]);
      if size <= MAX_FRAME && |stream| >= 4 + size {
        var first, rest := stream[4..4 + size], stream[4 + size..];
        ReadUnfolds(stream, size);
        FrameOf(stream, size);
        hide *;
        tail := ReadExactly(rest);
        var taken := Read(rest).payloads;
        FramesPush(first, taken);
        AcceptableSplits([first] + taken);
        assert ([first] + taken)[1..] == taken;
        Regroup(Frame(first), Frames(taken), tail);
      }
    }
  }

  // ---------- Round trips ----------

  /** A frame whose payload is too long is refused, or misread as a shorter payload. */
  lemma OversizedMisread(payload: Bytes, tail: Bytes)
    requires |payload| > MAX_FRAME
    ensures var r := Read(Frame(payload) + tail);
            if |payload| % WORD > MAX_FRAME then r == Reading([], TooLarge)
            else |r.payloads| > 0 && r.payloads[0] == payload[..|payload| % WORD] && r.payloads[0] != payload
  {
    HeadSplits(payload, tail);
    hide Frame, FromBigEndian;
  }

  /** The server recovers the payloads a client framed if and only if each is at most 10 MiB. */
  lemma {:induction false} RoundTripExactly(payloads: seq<Bytes>)
    ensures Read(Frames(payloads)) == Reading(payloads, Disconnected) <==> Acceptable(payloads)
  {
    if |payloads| == 0 {
    } else {
      hide *;
      var first, rest := payloads[0], payloads[1..];
      FramesCons(payloads);
      AcceptableSplits(payloads);
      RoundTripExactly(rest);
      if |first| <= MAX_FRAME {
        ReadHead(first, Frames(rest));
        assert ([first] + Read(Frames(rest)).payloads)[1..] == Read(Frames(rest)).payloads;
      } else {
        OversizedMisread(first, Frames(rest));
      }
    }
  }

  /** How many of the frames are whole within the first `n` bytes. */
  function WholeFrames(payloads: seq<Bytes>, n: nat): nat {
    if |payloads| == 0 || n < 4 + |payloads[0]| then 0
    else 1 + WholeFrames(payloads[1..], n - 4 - |payloads[0]|)
  }

  lemma ReadCutHead(payload: Bytes, n: nat)
    requires |payload| <= MAX_FRAME && n < 4 + |payload|
    ensures |Frame(payload)| == 4 + |payload|
    ensures Read(Frame(payload)[..n]) == Reading([], if n < 4 then Disconnected else CutShort)
  {
    HeadSplits(payload, []);
    assert Frame(payload) + [] == Frame(payload);
    hide BigEndian, FromBigEndian;
    if n >= 4 {
      assert Frame(payload)[..n][..4] == Frame(payload)[..4];
    }
  }

  lemma FrameSize(payload: Bytes)
    ensures |Frame(payload)| == 4 + |payload|
  {
  }

  lemma {:induction false} FramesAppend(a: seq<Bytes>, b: seq<Bytes>)
    ensures Frames(a + b) == Frames(a) + Frames(b)
  {
    hide Frame;
    if |a| == 0 {
      assert a + b == b;
    } else {
      FramesAppend(a[1..], b);
      assert (a + b)[1..] == a[1..] + b;
      Regroup(Frame(a[0]), Frames(a[1..]), Frames(b));
    }
  }

  lemma {:induction false} WholeFramesFit(payloads: seq<Bytes>, n: nat)
    requires n <= |Frames(payloads)|
    ensures WholeFrames(payloads, n) <= |payloads|
    ensures |Frames(payloads[..WholeFrames(payloads, n)])| <= n
    ensures var k := WholeFrames(payloads, n);
            k < |payloads| ==> n < |Frames(payloads[..k])| + 4 + |payloads[k]|
  {
    if |payloads| == 0 || n < 4 + |payloads[0]| {
    } else {
      var rest, m := payloads[1..], n - 4 - |payloads[0]|;
      FrameSize(payloads[0]);
      hide Frame;
      WholeFramesFit(rest, m);
      assert payloads[..1 + WholeFrames(rest, m)][1..] == rest[..WholeFrames(rest, m)];
    }
  }

  lemma CutAt(payloads: seq<Bytes>, k: nat, n: nat)
    requires k < |payloads| && |Frames(payloads[..k])| <= n <= |Frames(payloads)|
    requires n < |Frames(payloads[..k])| + 4 + |payloads[k]|
    ensures n - |Frames(payloads[..k])| <= |Frame(payloads[k])|
    ensures Frames(payloads)[..n] == Frames(payloads[..k]) + Frame(payloads[k])[..n - |Frames(payloads[..k])|]
  {
    hide *;
    FramesAppend(payloads[..k], payloads[k..]);
    assert payloads[..k] + payloads[k..] == payloads;
    FramesCons(payloads[k..]);
    FrameSize(payloads[k]);
    var whole := Frames(payloads[..k]);
    assert Frames(payloads)[..n] == whole + Frames(payloads[k..])[..n - |whole|];
  }

  /**
   A stream cut after `n` bytes gives the frames that were whole by then, a prefix of what was
   sent, and ends as a disconnection exactly when fewer than four bytes of the next frame came.
   */
  lemma CutStream(payloads: seq<Bytes>, n: nat)
    requires Acceptable(payloads) && n <= |Frames(payloads)|
    ensures WholeFrames(payloads, n) <= |payloads|
    ensures var k := WholeFrames(payloads, n);
            var whole := |Frames(payloads[..k])|;
            && whole <= n && (k < |payloads| ==> n < whole + 4 + |payloads[k]|)
            && Read(Frames(payloads)[..n]) == Reading(payloads[..k], if n < whole + 4 then Disconnected else CutShort)
  {
    hide Read, Frame, Frames, WholeFrames;
    WholeFramesFit(payloads, n);
    var k := WholeFrames(payloads, n);
    var whole := Frames(payloads[..k]);
    if k < |payloads| {
      CutAt(payloads, k, n);
      var part := Frame(payloads[k])[..n - |whole|];
      ReadCutHead(payloads[k], n - |whole|);
      ReadAppend(payloads[..k], part);
      assert payloads[..k] + [] == payloads[..k];
    } else {
      assert payloads[..k] == payloads;
      RoundTripExactly(payloads);
      assert Frames(payloads)[..n] == Frames(payloads);
    }
  }

  // ---------- Replies ----------

  /** The reply to the `k`-th frame of a connection; one that does not decode has none. */
  type Service = (nat, Bytes) -> Option<Bytes>

  /** The replies to the payloads from the `k`-th frame of the connection on. */
  function Replies(payloads: seq<Bytes>, k: nat, serve: Service): seq<Bytes> {
    if |payloads| == 0 then []
    else
      (match serve(k, payloads[0])
       case None => []
       case Some(reply) => [reply]) + Replies(payloads[1..], k + 1, serve)
  }

  /** Both ends of a connection as one side sees it. */
  class Socket {
    var incoming: Bytes
    var outgoing: Bytes

    constructor (incoming: Bytes)
      ensures this.incoming == incoming && outgoing == []
    {
      this.incoming, outgoing := incoming, [];
    }

    /** Takes exactly `n` bytes, or fails at the end of the stream. */
    method ReadExact(n: nat) returns (bytes: Option<Bytes>)
      modifies this`incoming
      ensures n <= |old(incoming)| ==> bytes == Some(old(incoming)[..n]) && incoming == old(incoming)[n..]
      ensures n > |old(incoming)| ==> bytes == None && incoming == []
    {
      if n > |incoming| {
        incoming := [];
        return None;
      }
      bytes := Some(incoming[..n]);
      incoming := incoming[n..];
    }

    method WriteAll(bytes: Bytes)
      modifies this`outgoing
      ensures outgoing == old(outgoing) + bytes
    {
      outgoing := outgoing + bytes;
    }
  }

  /** What the server writes for a stream whose first frame is the `k`-th of the connection. */
  function Answers(stream: Bytes, k: nat, serve: Service): Bytes {
    Frames(Replies(Read(stream).payloads, k, serve))
  }

  lemma AnswersStep(stream: Bytes, size: nat, k: nat, serve: Service)
    requires |stream| >= 4 + size && size <= MAX_FRAME && FromBigEndian(stream[..4]) == size
    ensures Read(stream).ending == Read(stream[4 + size..]).ending
    ensures var reply := serve(k, stream[4..4 + size]);
            Answers(stream, k, serve)
            == (if reply.Some? then Frame(reply.value) else []) + Answers(stream[4 + size..], k + 1, serve)
  {
    ReadUnfolds(stream, size);
    hide Read, Frame, Frames, FromBigEndian;
    var first, rest := stream[4..4 + size], Read(stream[4 + size..]).payloads;
    assert ([first] + rest)[1..] == rest;
    var reply, later := serve(k, first), Replies(rest, k + 1, serve);
    if reply.Some? {
      assert Replies([first] + rest, k, serve) == [reply.value] + later;
      FramesPush(reply.value, later);
    } else {
      assert Replies([first] + rest, k, serve) == later;
    }
  }

  lemma AnswersEnd(stream: Bytes, k: nat, serve: Service)
    ensures Read(stream).payloads == [] ==> Answers(stream, k, serve) == []
  {
  }

  lemma SliceTwice(s: Bytes, size: nat)
    requires 4 + size <= |s|
    ensures s[4..][..size] == s[4..4 + size] && s[4..][size..] == s[4 + size..]
  {
  }

  /** The server's loop over one connection. */
  method HandleConnection(stream: Socket, serve: Service) returns (ending: Ending)
    modifies stream
    ensures ending == Read(old(stream.incoming)).ending
    ensures stream.outgoing == old(stream.outgoing) + Answers(old(stream.incoming), 0, serve)
  {
    hide Answers, Frame, FromBigEndian;
    var k := 0;
    ghost var written: Bytes := [];
    while true
      invariant Read(old(stream.incoming)).ending == Read(stream.incoming).ending
      invariant stream.outgoing == old(stream.outgoing) + written
      invariant Answers(old(stream.incoming), 0, serve) == written + Answers(stream.incoming, k, serve)
      decreases |stream.incoming|
    {
      ghost var before, sofar := stream.incoming, written;
      AnswersEnd(before, k, serve);
      var header := stream.ReadExact(4);
      if header == None {
        return Disconnected;
      }
      var size := FromBigEndian(header.value);
      if size > MAX_FRAME {
        return TooLarge;
      }
      var payload := stream.ReadExact(size);
      if payload == None {
        return CutShort;
      }
      SliceTwice(before, size);
      AnswersStep(before, size, k, serve);
      var reply := serve(k, payload.value);
      if reply.Some? {
        WriteFrame(stream, reply.value);
        written := sofar + Frame(reply.value);
      }
      k := k + 1;
      assert sofar + (written[|sofar|..] + Answers(stream.incoming, k, serve))
          == written + Answers(stream.incoming, k, serve);
    }
  }

  /** The length and then the payload; both ends write their frames so. */
  method WriteFrame(stream: Socket, payload: Bytes)
    modifies stream`outgoing
    ensures stream.outgoing == old(stream.outgoing) + Frame(payload)
  {
    stream.WriteAll(BigEndian(|payload| % WORD));
    stream.WriteAll(payload);
    assert stream.outgoing == old(stream.outgoing) + Frame(payload);
  }

  /** The client's half: the first frame of a stream, without a limit on its size. */
  function ReadReply(stream: Bytes): Option<Bytes> {
    if |stream| < 4 then None
    else
      var size := FromBigEndian(stream[..4]);
      if |stream| < 4 + size then None else Some(stream[4..4 + size])
  }

  /** Sends one request and takes one reply; the peer's answer is already on its way or never comes. */
  method Request(stream: Socket, payload: Bytes) returns (reply: Option<Bytes>)
    modifies stream
    ensures stream.outgoing == old(stream.outgoing) + Frame(payload)
    ensures reply == ReadReply(old(stream.incoming))
    ensures reply.Some? ==> 4 + |reply.value| <= |old(stream.incoming)|
    ensures reply.Some? ==> stream.incoming == old(stream.incoming)[4 + |reply.value|..]
  {
    WriteFrame(stream, payload);
    var header := stream.ReadExact(4);
    if header == None {
      return None;
    }
    var size := FromBigEndian(header.value);
    if 4 + size <= |old(stream.incoming)| {
      SliceTwice(old(stream.incoming), size);
    }
    reply := stream.ReadExact(size);
  }

  /** What a client reads in a row of `n` requests, if every one of them gets a reply. */
  function ReadReplies(stream: Bytes, n: nat): Option<seq<Bytes>> {
    if n == 0 then Some([])
    else
      match ReadReply(stream)
      case None => None
      case Some(reply) =>
        match ReadReplies(stream[4 + |reply|..], n - 1)
        case None => None
        case Some(rest) => Some([reply] + rest)
  }

  lemma ClientHead(reply: Bytes, tail: Bytes)
    requires |reply| < WORD
    ensures ReadReply(Frame(reply) + tail) == Some(reply)
    ensures |Frame(reply) + tail| >= 4 + |reply| && (Frame(reply) + tail)[4 + |reply|..] == tail
  {
    HeadSplits(reply, tail);
    hide Frame, FromBigEndian;
    assert reply[..|reply|] == reply && reply[|reply|..] + tail == tail;
  }

  lemma {:induction false} ClientRecovers(replies: seq<Bytes>, n: nat)
    requires forall i :: 0 <= i < |replies| ==> |replies[i]| < WORD
    ensures ReadReplies(Frames(replies), n) == if n <= |replies| then Some(replies[..n]) else None
    decreases n
  {
    hide Frame, Frames, FromBigEndian, ReadReply;
    if n == 0 {
    } else {
      if |replies| > 0 {
        FramesCons(replies);
        ClientHead(replies[0], Frames(replies[1..]));
        ClientRecovers(replies[1..], n - 1);
        if n <= |replies| {
          assert replies[..n] == [replies[0]] + replies[1..][..n - 1];
        }
      } else {
        NothingToRead(replies);
      }
    }
  }

  lemma NothingToRead(replies: seq<Bytes>)
    requires |replies| == 0
    ensures ReadReply(Frames(replies)) == None
  {
  }

  /** Every payload of the connection decodes. */
  ghost predicate Understood(payloads: seq<Bytes>, k: nat, serve: Service) {
    forall i :: 0 <= i < |payloads| ==> serve(k + i, payloads[i]).Some?
  }

  lemma UnderstoodSplits(payloads: seq<Bytes>, k: nat, serve: Service)
    requires |payloads| > 0
    ensures Understood(payloads, k, serve) <==> serve(k, payloads[0]).Some? && Understood(payloads[1..], k + 1, serve)
  {
    var rest := payloads[1..];
    if Understood(payloads, k, serve) {
      assert serve(k + 0, payloads[0]).Some?;
      assert forall i :: 0 <= i < |rest| ==> serve(k + (i + 1), payloads[i + 1]) == serve((k + 1) + i, rest[i]);
    }
    assert forall i :: 0 < i < |payloads| ==> serve(k + i, payloads[i]) == serve((k + 1) + (i - 1), rest[i - 1]);
  }

  /** One reply a request, in order, if and only if every request decodes. */
  lemma {:induction false} RepliesPairUp(payloads: seq<Bytes>, k: nat, serve: Service)
    ensures |Replies(payloads, k, serve)| <= |payloads|
    ensures |Replies(payloads, k, serve)| == |payloads| <==> Understood(payloads, k, serve)
    ensures Understood(payloads, k, serve)
            ==> forall i :: 0 <= i < |payloads| ==> Replies(payloads, k, serve)[i] == serve(k + i, payloads[i]).value
  {
    if |payloads| == 0 {
    } else {
      RepliesPairUp(payloads[1..], k + 1, serve);
      UnderstoodSplits(payloads, k, serve);
      if Understood(payloads, k, serve) {
        assert forall i :: 0 < i < |payloads| ==>
                 serve(k + i, payloads[i]) == serve((k + 1) + (i - 1), payloads[1..][i - 1]);
      }
    }
  }

  /**
   A whole conversation over both halves: a client whose requests are at most 10 MiB and whose
   replies fit a 32-bit length gets a reply to each of its requests if and only if they all decode,
   and then the `i`-th reply it reads answers the `i`-th request.
   */
  lemma Conversation(payloads: seq<Bytes>, serve: Service)
    requires Acceptable(payloads)
    requires forall k: nat, p :: serve(k, p).Some? ==> |serve(k, p).value| < WORD
    ensures var seen := ReadReplies(Frames(Replies(Read(Frames(payloads)).payloads, 0, serve)), |payloads|);
            && (seen.Some? <==> Understood(payloads, 0, serve))
            && (seen.Some? ==> |seen.value| == |payloads|)
            && (seen.Some? ==> forall i :: 0 <= i < |payloads| ==> Some(seen.value[i]) == serve(i, payloads[i]))
  {
    hide Read, Frame, Frames, Replies, ReadReplies, BigEndian, FromBigEndian;
    RoundTripExactly(payloads);
    var replies := Replies(payloads, 0, serve);
    RepliesPairUp(payloads, 0, serve);
    RepliesFit(payloads, 0, serve);
    ClientRecovers(replies, |payloads|);
  }

  lemma {:induction false} RepliesFit(payloads: seq<Bytes>, k: nat, serve: Service)
    requires forall k: nat, p :: serve(k, p).Some? ==> |serve(k, p).value| < WORD
    ensures forall i :: 0 <= i < |Replies(payloads, k, serve)| ==> |Replies(payloads, k, serve)[i]| < WORD
  {
    if |payloads| == 0 {
    } else {
      RepliesFit(payloads[1..], k + 1, serve);
    }
  }
}
