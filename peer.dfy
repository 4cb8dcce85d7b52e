/**
 * One connected peer as the session keeps it (`ClientMgr`): what the peer
 * is expected to send next, its receive buffer, the token of the last
 * request, and the counters of the picture download.
 */
module Peers {
  import opened Wire

  // What the session waits for from this peer (on a client: what it received).
  const RCV_REPLY_NONE := 0
  const RCV_REPLY_ERROR := 1
  const RCV_REPLY_VERIFY := 2
  const RCV_REPLY_KEEPALIVE := 3
  const RCV_REPLY_ORIENTATION := 4
  const RCV_REPLY_READY := 5
  const RCV_REPLY_GO := 6
  const RCV_REPLY_GET := 7
  const RCV_REPLY_DOWNLOAD := 8
  const RCV_REPLY_UPLOAD := 9
  /** Never a peer's status: the default "otherwise" of the all-peers test. */
  const RCV_REPLY_RESERVED := 0xff

  /** The statuses a peer can be given. */
  predicate IsReplyStatus(s: int)
  {
    RCV_REPLY_NONE <= s <= RCV_REPLY_UPLOAD
  }

  type ReplyStatus = s: int | IsReplyStatus(s)

  /** The fixed receive buffer of MAX_PACKET_SIZE + 1 bytes. */
  type RcvBuffer = b: seq<byte> | |b| == MAX_PACKET_SIZE + 1 witness seq(MAX_PACKET_SIZE + 1, _ => 0)

  /** Idle and failed peers aside, every status waits for a reply. */
  lemma StatusClasses(s: int)
    requires IsReplyStatus(s)
    ensures s == RCV_REPLY_NONE || s == RCV_REPLY_ERROR || s > RCV_REPLY_ERROR
    ensures s != RCV_REPLY_RESERVED
  {
  }

  /** What one socket read of the receive loop returns. */
  datatype ReadOutcome =
    | WouldBlock               // no (more) data for now
    | ReadFailed               // any other socket error
    | Closed                   // a zero-byte read: the other side closed
    | Received(data: seq<byte>)

  /** `buf` with `data` copied at offset `at` (the `memcpy` into a fixed buffer). */
  function WriteAt(buf: seq<byte>, at: nat, data: seq<byte>): (r: seq<byte>)
    requires at + |data| <= |buf|
    ensures |r| == |buf|
    ensures r[..at] == buf[..at] && r[at..at + |data|] == data && r[at + |data|..] == buf[at + |data|..]
  {
    buf[..at] + data + buf[at + |data|..]
  }

  /** What the server's receive pass reads of a peer at its turn. */
  datatype PeerView = PeerView(status: int, timeOut: int, eof: bool, msg: seq<byte>, security: u16, tryCount: int)

  class Peer {
    /** The role of the socket this peer lives on. */
    const server: bool
    var status: ReplyStatus
    /** Token of the last request: expected back in the reply. */
    var security: u16
    var rcvBuffer: RcvBuffer
    /** Count of bytes received since the last reset. */
    var rcvLength: u16
    var rank: byte
    var tryCount: byte
    var packetCount: i16
    var timeOut: int
    var eof: bool
    var android: bool

    /** The bytes received since the last reset. */
    function Message(): seq<byte>
      reads this`rcvBuffer, this`rcvLength
    {
      rcvBuffer[..rcvLength]
    }

    /** The peer as the receive pass reads it. */
    function View(): PeerView
      reads this
    {
      PeerView(status, timeOut, eof, Message(), security, tryCount as int)
    }

    constructor (server: bool, rank: byte, now: int)
      ensures this.server == server && this.rank == rank
      ensures status == (if server then RCV_REPLY_NONE else RCV_REPLY_VERIFY)
      ensures timeOut == (if server then 0 else now)
      ensures security == 0 && rcvLength == 0 && !eof
      ensures tryCount == 0 && packetCount == 0 && android
    {
      this.server := server;
      this.rank := rank;
      security := 0;
      rcvBuffer := seq(MAX_PACKET_SIZE + 1, _ => 0);
      rcvLength := 0;
      eof := false;
      tryCount := 0;
      packetCount := 0;
      android := true;
      status := if server then RCV_REPLY_NONE else RCV_REPLY_VERIFY;
      timeOut := if server then 0 else now;
    }

    /** Stores the count; a non-zero count also clears EOF so that the next part is read. */
    method SetTryCount(n: byte)
      modifies this`tryCount, this`eof
      ensures tryCount == n
      ensures eof == (old(eof) && n == 0)
    {
      tryCount := n;
      if tryCount != 0 {
        eof := false;
      }
    }

    /** Back to idle: nothing received, fresh timeout. The stale buffer bytes stay. */
    method Reset(now: int)
      modifies this`eof, this`rcvLength, this`timeOut, this`status
      ensures Message() == []
      ensures !eof && rcvLength == 0 && timeOut == now && status == RCV_REPLY_NONE
    {
      eof := false;
      rcvLength := 0;
      timeOut := now;
      status := RCV_REPLY_NONE;
    }

    /** Whether the receive loop reads from the socket in the current status. */
    predicate Reads()
      reads this`status
    {
      status > RCV_REPLY_ERROR || (!server && status == RCV_REPLY_NONE)
    }

    /**
     * One iteration of the receive loop, given what the socket read returns.
     * `running` is false when the loop ends. The copy has no bound check in
     * the source: the model requires the bytes to fit the buffer.
     */
    method ReceiveStep(outcome: ReadOutcome, now: int) returns (running: bool)
      requires outcome.Received? ==> 1 <= |outcome.data| <= MAX_PACKET_SIZE
      requires outcome.Received? && Reads() && !eof ==> rcvLength + |outcome.data| <= MAX_PACKET_SIZE + 1
      modifies this`status, this`eof, this`rcvBuffer, this`rcvLength, this`timeOut
      ensures !old(Reads()) || old(eof) ==> running && unchanged(this)
      ensures old(Reads()) && !old(eof) && outcome.WouldBlock? ==>
        running && eof == (old(rcvLength) != 0) &&
        status == old(status) && rcvLength == old(rcvLength) && rcvBuffer == old(rcvBuffer) && timeOut == old(timeOut)
      ensures old(Reads()) && !old(eof) && (outcome.ReadFailed? || outcome.Closed?) ==>
        !running && status == RCV_REPLY_ERROR &&
        eof == old(eof) && rcvLength == old(rcvLength) && rcvBuffer == old(rcvBuffer) && timeOut == old(timeOut)
      ensures old(Reads()) && !old(eof) && outcome.Received? ==>
        running && status == old(status) && eof == old(eof) && timeOut == now &&
        rcvBuffer == WriteAt(old(rcvBuffer), old(rcvLength), outcome.data) &&
        rcvLength == (old(rcvLength) + |outcome.data|) % 65536
      ensures old(Reads()) && !old(eof) && outcome.Received? && old(rcvLength) + |outcome.data| <= MAX_PACKET_SIZE ==>
        Message() == old(Message()) + outcome.data
    {
      running := true;
      if !Reads() || eof {
        return;
      }
      match outcome {
        case WouldBlock =>
          if rcvLength != 0 {
            eof := true;
          }
        case ReadFailed =>
          status := RCV_REPLY_ERROR;
          running := false;
        case Closed =>
          status := RCV_REPLY_ERROR;
          running := false;
        case Received(data) =>
          rcvBuffer := WriteAt(rcvBuffer, rcvLength, data);
          rcvLength := (rcvLength + |data|) % 65536;
          timeOut := now;
          assert rcvBuffer[..rcvLength] == old(Message()) + data || rcvLength < old(rcvLength) + |data|;
      }
    }
  }
}
