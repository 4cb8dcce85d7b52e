/**
 * A capture session (`Connexion`): on the server, the list of peers, the
 * session status, the framing of every request it sends and the check of
 * every reply it receives; on a client, the recognition of the server's
 * requests. Sockets, the clock and the random tokens are parameters: what
 * an operation gives to a socket is returned by it, and whether the socket
 * delivered it is an input.
 */
module Session {
  import opened Wire
  import opened Peers
  import opened Protocol
  import Pictures
  import Media
  import Search
  import Level

  /** One send attempt: the index of the peer it goes to and the bytes given to the socket. */
  datatype Packet = Packet(peer: nat, bytes: seq<byte>)

  /** What the video keeps of a peer once the capture is over (`FrameClient`). */
  datatype FrameClient = FrameClient(done: bool, android: bool)

  /**
   * What the outside world gives the server's pass over one peer: the token
   * of a request it may send and whether the socket delivers it, the
   * picture's fill result and save failure during the download, and the
   * video made for the peer's system during the upload.
   */
  datatype PeerInput = PeerInput(token: u16, delivered: bool, fill: int, saveError: bool, video: seq<byte>)

  /** The statuses of the peers, in order. */
  function StatusesOf(ps: seq<Peer>): (ss: seq<int>)
    reads ps
    ensures |ss| == |ps|
    ensures forall i :: 0 <= i < |ps| ==> ss[i] == ps[i].status
  {
    if ps == [] then [] else StatusesOf(ps[..|ps| - 1]) + [ps[|ps| - 1].status]
  }

  /** The index of the first `false`, or the length when all are `true`. */
  function FirstFalse(bs: seq<bool>): (k: nat)
    ensures k <= |bs|
    ensures forall j :: 0 <= j < k ==> bs[j]
    ensures k < |bs| ==> !bs[k]
  {
    if bs == [] || !bs[0] then 0
    else
      var k := FirstFalse(bs[1..]);
      assert forall j :: 1 <= j < |bs| ==> bs[j] == bs[1..][j - 1];
      k + 1
  }

  /** The same request for peers `0` to `n - 1`. */
  function Copies(payload: seq<byte>, n: nat): (rs: seq<seq<byte>>)
    ensures |rs| == n
    ensures forall j :: 0 <= j < n ==> rs[j] == payload
  {
    seq(n, _ => payload)
  }

  /** The verify requests giving peers `0` to `n - 1` their frame ranks. */
  function VerifyRequests(landscape: bool, n: nat): (rs: seq<seq<byte>>)
    ensures |rs| == n
    ensures forall j :: 0 <= j < n ==> rs[j] == VerifyRequest(j, landscape)
  {
    seq(n, j requires 0 <= j => VerifyRequest(j, landscape))
  }

  /** The reply the peers await after the session broadcast a request for status `st`. */
  function LaunchReply(st: int): (r: ReplyStatus)
    ensures st == CONN_ORIENTATION <==> r == RCV_REPLY_ORIENTATION
    ensures st == CONN_READY <==> r == RCV_REPLY_READY
  {
    if st == CONN_ORIENTATION then RCV_REPLY_ORIENTATION
    else if st == CONN_READY then RCV_REPLY_READY
    else RCV_REPLY_ERROR
  }

  /** The session status after a peer fails: only a session before the capture times out. */
  function AfterTimeOut(status: int): (r: int)
    ensures PreCapture(status) ==> r == CONN_TIMEOUT
    ensures !PreCapture(status) && IsConnStatus(status) ==> r == status
  {
    if status < CONN_GO then CONN_TIMEOUT else status
  }

  /** Whether a session in status `st` is transferring pictures or the video (no keep-alive then). */
  predicate Transferring(st: int)
  {
    st == CONN_DOWNLOAD || st == CONN_UPLOAD
  }

  /**
   * The status a peer that is idle, failed or has its reply complete gets
   * from its turn in the server's receive pass, by the handler of its
   * status: `input` is what the turn's sends, fill and save report, and
   * `transferring` whether the session is in DOWNLOAD or UPLOAD at that
   * turn. No peer is left awaiting the reply it has just given.
   */
  function ServedStatus(v: PeerView, now: int, input: PeerInput, transferring: bool): (r: int)
    ensures r in {RCV_REPLY_NONE, RCV_REPLY_ERROR, RCV_REPLY_KEEPALIVE, RCV_REPLY_GET, RCV_REPLY_DOWNLOAD, RCV_REPLY_UPLOAD}
    ensures v.status in {RCV_REPLY_KEEPALIVE, RCV_REPLY_ORIENTATION, RCV_REPLY_READY, RCV_REPLY_VERIFY} ==>
      r in {RCV_REPLY_NONE, RCV_REPLY_ERROR}
    ensures r == RCV_REPLY_KEEPALIVE ==> v.status == RCV_REPLY_NONE && input.delivered
    ensures (v.status !in {RCV_REPLY_NONE, RCV_REPLY_KEEPALIVE, RCV_REPLY_ORIENTATION, RCV_REPLY_READY,
      RCV_REPLY_VERIFY, RCV_REPLY_GO, RCV_REPLY_GET, RCV_REPLY_DOWNLOAD, RCV_REPLY_UPLOAD}) ==> r == RCV_REPLY_ERROR
  {
    var s := v.status;
    if s == RCV_REPLY_NONE then
      if !transferring && now - v.timeOut > KEEPALIVE_INTERVAL then
        (if input.delivered then RCV_REPLY_KEEPALIVE else RCV_REPLY_ERROR)
      else RCV_REPLY_NONE
    else if s in {RCV_REPLY_KEEPALIVE, RCV_REPLY_ORIENTATION, RCV_REPLY_READY} then
      var q := AwaitedReply(s);
      if ExpectedReply(v.msg, q.len, q.cmd, v.security) then RCV_REPLY_NONE else RCV_REPLY_ERROR
    else if s == RCV_REPLY_VERIFY then
      if ExpectedReply(v.msg, VERIFY_REPLY_LEN, CMD_VERIFY, v.security) && !VersionRefusedAsWritten(v.msg)
      then RCV_REPLY_NONE else RCV_REPLY_ERROR
    else if s == RCV_REPLY_GO then
      if ExpectedReply(v.msg, GO_REPLY_LEN, CMD_REPLY_GO, v.security) && input.delivered
      then RCV_REPLY_GET else RCV_REPLY_ERROR
    else if s == RCV_REPLY_GET then
      if ExpectedReply(v.msg, GET_REPLY_LEN, CMD_GET, v.security) && input.delivered
      then (if PicSizeOf(v.msg) == 0 then RCV_REPLY_GET else RCV_REPLY_DOWNLOAD)
      else RCV_REPLY_ERROR
    else if s == RCV_REPLY_DOWNLOAD then
      if input.fill < 0 then (if v.tryCount > MAX_TRY_COUNT then RCV_REPLY_ERROR else RCV_REPLY_DOWNLOAD)
      else if input.fill == 0 then (if input.saveError then RCV_REPLY_ERROR else RCV_REPLY_NONE)
      else if input.delivered then RCV_REPLY_DOWNLOAD
      else RCV_REPLY_ERROR
    else if s == RCV_REPLY_UPLOAD then
      if !ExpectedReply(v.msg, UPLOAD_REPLY_LEN, CMD_UPLOAD, v.security) then RCV_REPLY_ERROR
      else match ServeUpload(input.video, PacketIndexOf(v.msg))
        case BadRequest => RCV_REPLY_ERROR
        case Complete => RCV_REPLY_NONE
        case SendChunk(_) => if input.delivered then RCV_REPLY_UPLOAD else RCV_REPLY_ERROR
    else RCV_REPLY_ERROR
  }

  /**
   * The status of a peer after its turn in the receive pass: a peer
   * awaiting a reply for more than MCAM_DELAY_TIMEOUT seconds fails, one
   * whose reply is still incomplete keeps its status, and every other peer
   * is served by its status.
   */
  function TurnStatus(v: PeerView, now: int, input: PeerInput, transferring: bool): (r: int)
    ensures v.status != RCV_REPLY_NONE && v.status != RCV_REPLY_ERROR && now - v.timeOut > MCAM_DELAY_TIMEOUT ==>
      r == RCV_REPLY_ERROR
    ensures r == v.status || r in {RCV_REPLY_NONE, RCV_REPLY_ERROR, RCV_REPLY_KEEPALIVE, RCV_REPLY_GET,
      RCV_REPLY_DOWNLOAD, RCV_REPLY_UPLOAD}
  {
    var awaiting := v.status != RCV_REPLY_NONE && v.status != RCV_REPLY_ERROR;
    if awaiting && now - v.timeOut > MCAM_DELAY_TIMEOUT then RCV_REPLY_ERROR
    else if awaiting && !v.eof then v.status
    else ServedStatus(v, now, input, transferring)
  }

  class Connexion {
    /** Server or client side of the session (`mServer`). */
    const server: bool
    /** A client that was connected before keeps its known addresses when it searches again (`mConnected`). */
    const connected: bool
    var status: ConnStatus
    /** The peer that failed last (`mTimeOutIdx`). */
    var timeOutIdx: byte
    /** The server's peers, in frame order (`mClients`). */
    var clients: seq<Peer>
    /** The peers as the capture ended (`mFrames`). */
    var frames: seq<FrameClient>
    const sendBuffer: array<byte>
    /** The size of the picture announced by the last GET reply (`mPicSize`). */
    var picSize: u24
    /** The client's only peer, the server (`mCurClient`). */
    var curClient: Peer?
    /** The client's position in its round robin over addresses and ports (the statics of `isConnected`). */
    var ipIdx: int
    var portNo: int

    /** At most 255 peers, all distinct and all on the server's side. */
    ghost predicate Valid()
      reads this`clients
    {
      && sendBuffer.Length == MAX_PACKET_SIZE + 1
      && |clients| < 256
      && (forall i :: 0 <= i < |clients| ==> clients[i].server)
      && (forall i, j :: 0 <= i < j < |clients| ==> clients[i] != clients[j])
    }

    /** The statuses of the peers. */
    function Statuses(): (ss: seq<int>)
      reads this`clients, clients
      ensures |ss| == |clients|
      ensures forall i :: 0 <= i < |clients| ==> ss[i] == clients[i].status
    {
      StatusesOf(clients)
    }

    constructor (server: bool, connected: bool)
      ensures Valid() && this.server == server && this.connected == connected
      ensures status == CONN_OPEN && timeOutIdx == 0 && picSize == 0
      ensures clients == [] && frames == [] && curClient == null
      ensures ipIdx == MAX_IP_IDX && portNo == INITIAL_PORT_NO
    {
      this.server := server;
      this.connected := connected;
      status := CONN_OPEN;
      timeOutIdx := 0;
      clients := [];
      frames := [];
      sendBuffer := new byte[MAX_PACKET_SIZE + 1](_ => 0);
      picSize := 0;
      curClient := null;
      ipIdx := MAX_IP_IDX;
      portNo := INITIAL_PORT_NO;
    }

    /** Opens the session: the server needs its listening socket (`listening`). */
    method Open(listening: bool) returns (ok: bool)
      requires Valid() && status == CONN_OPEN
      modifies this`status
      ensures Valid()
      ensures ok == (!server || listening)
      ensures status == (if !ok then CONN_OPEN else if server then CONN_START else CONN_CONNEXION)
    {
      if server && !listening {
        return false;
      }
      status := if server then CONN_START else CONN_CONNEXION;
      return true;
    }

    /** The server starts waiting for peers once its socket accepts on the port (`accepting`). */
    method Start(accepting: bool) returns (ok: bool)
      requires Valid() && status == CONN_START
      modifies this`status
      ensures Valid()
      ensures ok == accepting
      ensures status == (if ok then CONN_WAIT else CONN_START)
    {
      if !accepting {
        return false;
      }
      status := CONN_WAIT;
      return true;
    }

    /** The number of peers in status `s`, counted by a loop over the peers. */
    method GetCountStatus(s: int) returns (n: int)
      requires Valid()
      ensures n == CountOf(Statuses(), s) && 0 <= n <= |clients|
    {
      ghost var ss := Statuses();
      n := 0;
      var i := 0;
      while i < |clients|
        invariant 0 <= i <= |clients|
        invariant n == CountOf(ss[..i], s)
      {
        assert ss[..i + 1][..i] == ss[..i];
        if clients[i].status == s {
          n := n + 1;
        }
        i := i + 1;
      }
      assert ss[..i] == ss;
      CountOfBounds(ss, s);
    }

    /** Whether some peer is in status `s`. */
    method IsAnyStatus(s: int) returns (b: bool)
      requires Valid()
      ensures b == AnyOf(Statuses(), s)
    {
      var i := 0;
      while i < |clients|
        invariant 0 <= i <= |clients|
        invariant forall j :: 0 <= j < i ==> clients[j].status != s
      {
        if clients[i].status == s {
          assert Statuses()[i] == s;
          return true;
        }
        i := i + 1;
      }
      return false;
    }

    /** Whether every peer is in status `s` or `otherwise` (true without peers). */
    method IsAllStatus(s: int, otherwise: int) returns (b: bool)
      requires Valid()
      ensures b == AllOf(Statuses(), s, otherwise)
    {
      var i := 0;
      while i < |clients|
        invariant 0 <= i <= |clients|
        invariant forall j :: 0 <= j < i ==> clients[j].status == s || clients[j].status == otherwise
      {
        if clients[i].status != s && clients[i].status != otherwise {
          assert Statuses()[i] != s && Statuses()[i] != otherwise;
          return false;
        }
        i := i + 1;
      }
      return true;
    }

    /**
     * The failure of peer `c`: it goes to the error status and becomes the
     * peer to drop; a session before the capture times out.
     */
    method TimeOut(c: int)
      requires Valid() && 0 <= c < |clients|
      modifies this`status, this`timeOutIdx, {clients[c]}`status
      ensures Valid()
      ensures Statuses() == old(Statuses())[c := RCV_REPLY_ERROR] && clients[c].status == RCV_REPLY_ERROR
      ensures timeOutIdx == c && status == AfterTimeOut(old(status))
    {
      clients[c].status := RCV_REPLY_ERROR;
      timeOutIdx := c;
      if status < CONN_GO {
        status := CONN_TIMEOUT;
      }
    }

    /**
     * Back to waiting for peers, unless a peer failed: then the session
     * times out on the first failed peer.
     */
    method Reset()
      requires Valid()
      modifies this`status, this`timeOutIdx
      ensures Valid()
      ensures var k := FirstOf(old(Statuses()), RCV_REPLY_ERROR);
        if k < |clients| then status == CONN_TIMEOUT && timeOutIdx == k
        else status == CONN_WAIT && timeOutIdx == 0
    {
      timeOutIdx := 0;
      status := CONN_WAIT;
      var i := 0;
      while i < |clients|
        invariant 0 <= i <= |clients|
        invariant forall j :: 0 <= j < i ==> clients[j].status != RCV_REPLY_ERROR
        invariant status == CONN_WAIT && timeOutIdx == 0
      {
        if clients[i].status == RCV_REPLY_ERROR {
          timeOutIdx := i;
          status := CONN_TIMEOUT;
          assert FirstOf(Statuses(), RCV_REPLY_ERROR) == i;
          return;
        }
        i := i + 1;
      }
      assert !AnyOf(Statuses(), RCV_REPLY_ERROR);
    }

    /** The picture size a GET reply of peer `c` announces. */
    function ExtractPicSize(c: int): (size: nat)
      reads this, clients
      requires Valid() && 0 <= c < |clients|
      ensures size < 0x100_0000
      ensures Be24(size) == clients[c].rcvBuffer[REPLY_PICSIZE_IDX - 1..REPLY_PICSIZE_IDX + 2]
    {
      var b := clients[c].rcvBuffer;
      Be24Decodes(b, REPLY_PICSIZE_IDX - 1);
      Be24At(b, REPLY_PICSIZE_IDX - 1)
    }

    /** Keeps, for every peer in order, whether it ended the capture idle and its system. */
    method Duplicate()
      requires Valid()
      modifies this`frames
      ensures Valid()
      ensures |frames| == |clients|
      ensures forall i :: 0 <= i < |clients| ==>
        frames[i] == FrameClient(clients[i].status == RCV_REPLY_NONE, clients[i].android)
    {
      frames := [];
      var i := 0;
      while i < |clients|
        invariant 0 <= i <= |clients| && |frames| == i
        invariant forall j :: 0 <= j < i ==> frames[j] == FrameClient(clients[j].status == RCV_REPLY_NONE, clients[j].android)
      {
        frames := frames + [FrameClient(clients[i].status == RCV_REPLY_NONE, clients[i].android)];
        i := i + 1;
      }
    }

    /**
     * Frames the first `len - 5` bytes of `cmd` in the send buffer: the
     * payload, the token big-endian, then the big-endian byte sum of both.
     */
    method AddCheckSum(cmd: seq<byte>, len: int, security: u16)
      requires sendBuffer.Length == MAX_PACKET_SIZE + 1
      requires TRAILER_LEN <= len && len - TRAILER_LEN <= MAX_MESSAGE_SIZE && len - TRAILER_LEN <= |cmd|
      modifies sendBuffer
      ensures sendBuffer[..len] == Frame(cmd[..len - TRAILER_LEN], security)
    {
      var n := len - TRAILER_LEN;
      Pictures.CopyAt(sendBuffer, 0, cmd[..n]);
      sendBuffer[n] := (security / 256) % 256;
      sendBuffer[n + 1] := security % 256;
      ghost var body := cmd[..n] + Be16(security);
      assert sendBuffer[..n + 2] == body;
      var sum := ArraySum(sendBuffer, n + 2);
      assert sum == Sum(body);
      sendBuffer[n + 2] := (sum / 65536) % 256;
      sendBuffer[n + 3] := (sum / 256) % 256;
      sendBuffer[n + 4] := sum % 256;
      assert sendBuffer[..n + 2] == body;
      assert sendBuffer[..len] == body + Be24(sum);
    }

    /** Peer `c` was delivered a request with `token` at `now`: it awaits `reply`. */
    method Await(c: int, reply: ReplyStatus, token: u16, now: int)
      requires Valid() && 0 <= c < |clients|
      modifies {clients[c]}`status, {clients[c]}`security, {clients[c]}`timeOut
      ensures clients[c].status == reply && clients[c].security == token && clients[c].timeOut == now
    {
      var p := clients[c];
      p.security, p.timeOut, p.status := token, now, reply;
    }

    /**
     * The server's send of `data` to peer `c` with a fresh token: the frame
     * given to the socket is returned; a delivered request records the
     * token, the time and the reply now awaited; an undelivered one is the
     * peer's failure.
     */
    method ServerSend(data: seq<byte>, len: int, c: int, reply: ReplyStatus, token: u16, delivered: bool, now: int)
      returns (ok: bool, frame: seq<byte>)
      requires Valid() && 0 <= c < |clients|
      requires TRAILER_LEN <= len && len - TRAILER_LEN <= MAX_MESSAGE_SIZE && len - TRAILER_LEN <= |data|
      modifies sendBuffer, this`status, this`timeOutIdx
      modifies {clients[c]}`status, {clients[c]}`security, {clients[c]}`timeOut
      ensures frame == Frame(data[..len - TRAILER_LEN], token)
      ensures ok == delivered
      ensures ok ==> (clients[c].status == reply && clients[c].security == token && clients[c].timeOut == now &&
        status == old(status) && timeOutIdx == old(timeOutIdx))
      ensures !ok ==> (clients[c].status == RCV_REPLY_ERROR && clients[c].security == old(clients[c].security) && clients[c].timeOut == old(clients[c].timeOut) &&
        timeOutIdx == c && status == AfterTimeOut(old(status)))
    {
      AddCheckSum(data, len, token);
      frame := sendBuffer[..len];
      if !delivered {
        TimeOut(c);
        return false, frame;
      }
      Await(c, reply, token, now);
      return true, frame;
    }

    /** `ServerSend` of a whole request to peer `c`, as the packet given to the socket. */
    method SendTo(c: int, request: seq<byte>, reply: ReplyStatus, token: u16, delivered: bool, now: int)
      returns (ok: bool, packet: Packet)
      requires Valid() && 0 <= c < |clients| && |request| <= MAX_MESSAGE_SIZE
      modifies sendBuffer, this`status, this`timeOutIdx
      modifies {clients[c]}`status, {clients[c]}`security, {clients[c]}`timeOut
      ensures packet == Packet(c, Frame(request, token))
      ensures ok == delivered
      ensures ok ==> (clients[c].status == reply && clients[c].security == token && clients[c].timeOut == now &&
        status == old(status) && timeOutIdx == old(timeOutIdx))
      ensures !ok ==> (clients[c].status == RCV_REPLY_ERROR && clients[c].security == old(clients[c].security) &&
        clients[c].timeOut == old(clients[c].timeOut) && timeOutIdx == c && status == AfterTimeOut(old(status)))
    {
      var frame;
      ok, frame := ServerSend(request, |request| + TRAILER_LEN, c, reply, token, delivered, now);
      assert request[..|request|] == request;
      packet := Packet(c, frame);
    }

    /**
     * The server's check of the reply of peer `c`: the expected length,
     * command, checksum and token; any other message is the peer's failure.
     */
    method IsExpectedReply(rlen: int, cmd: seq<byte>, c: int) returns (ok: bool)
      requires Valid() && 0 <= c < |clients|
      modifies this`status, this`timeOutIdx, {clients[c]}`status
      ensures Valid()
      ensures ok == ExpectedReply(old(clients[c].Message()), rlen, cmd, old(clients[c].security))
      ensures ok ==> Statuses() == old(Statuses()) && status == old(status) && timeOutIdx == old(timeOutIdx)
      ensures !ok ==> (Statuses() == old(Statuses())[c := RCV_REPLY_ERROR] &&
        timeOutIdx == c && status == AfterTimeOut(old(status)))
      ensures clients[c].status == if ok then old(clients[c].status) else RCV_REPLY_ERROR
    {
      var p := clients[c];
      var msg := p.Message();
      var sumOk := false;
      if |msg| == rlen && HasPrefix(msg, cmd) {
        sumOk := VerifyCheckSum(msg);
      }
      if !sumOk || !TokenOk(msg, p.security) {
        TimeOut(c);
        return false;
      }
      return true;
    }
    /**
     * Broadcasts the orientation or ready request `cmd` (a barrier): only
     * when every peer is idle does the session take status `st` and send the
     * request to each peer in turn with its own token, stopping at the first
     * send that fails, which is that peer's failure. `sent` is what was
     * given to the socket.
     */
    method Launch(st: ConnStatus, cmd: seq<byte>, len: int, tokens: seq<u16>, delivered: seq<bool>, now: int)
      returns (ok: bool, sent: seq<Packet>)
      requires Valid()
      requires TRAILER_LEN <= len && len - TRAILER_LEN <= MAX_MESSAGE_SIZE && len - TRAILER_LEN <= |cmd|
      requires |clients| <= |tokens| && |clients| <= |delivered|
      modifies sendBuffer, this`status, this`timeOutIdx
      modifies (set p | p in clients)`status, (set p | p in clients)`security, (set p | p in clients)`timeOut
      ensures ok == AllOf(old(Statuses()), RCV_REPLY_NONE, RCV_REPLY_RESERVED)
      ensures !ok ==> (sent == [] && status == old(status) && timeOutIdx == old(timeOutIdx) &&
        unchanged(clients))
      ensures ok ==> var n := |clients|; var k := FirstFalse(delivered[..n]);
        && (forall j :: 0 <= j < n ==> (clients[j].status ==
          if j < k then LaunchReply(st) else if j == k then RCV_REPLY_ERROR else old(clients[j].status)))
        && (forall j :: 0 <= j < n ==> clients[j].security == if j < k then tokens[j] else old(clients[j].security))
        && (forall j :: 0 <= j < n ==> clients[j].timeOut == if j < k then now else old(clients[j].timeOut))
        && |sent| == (if k < n then k + 1 else n)
        && (forall j :: 0 <= j < |sent| ==> sent[j] == Packet(j, Frame(cmd[..len - TRAILER_LEN], tokens[j])))
        && (k < n ==> timeOutIdx == k && status == AfterTimeOut(st))
        && (k == n ==> status == st && timeOutIdx == old(timeOutIdx))
    {
      sent := [];
      ok := IsAllStatus(RCV_REPLY_NONE, RCV_REPLY_RESERVED);
      if !ok {
        return;
      }
      sent := SendEach(Copies(cmd[..len - TRAILER_LEN], |clients|), LaunchReply(st), tokens, delivered, now, st, st);
    }

    /**
     * Sends request `requests[i]` to each peer `i` in turn with its own
     * token, stopping at the first send that fails, which is that peer's
     * failure; each delivered request leaves its peer awaiting `reply`.
     */
    method SendEach(requests: seq<seq<byte>>, reply: ReplyStatus, tokens: seq<u16>, delivered: seq<bool>, now: int,
      st: ConnStatus, finish: ConnStatus)
      returns (sent: seq<Packet>)
      requires Valid()
      requires |clients| <= |requests| && |clients| <= |tokens| && |clients| <= |delivered|
      requires forall j :: 0 <= j < |requests| ==> |requests[j]| <= MAX_MESSAGE_SIZE
      modifies sendBuffer, this`status, this`timeOutIdx
      modifies (set p | p in clients)`status, (set p | p in clients)`security, (set p | p in clients)`timeOut
      ensures var n := |clients|; var k := FirstFalse(delivered[..n]);
        && (forall j :: 0 <= j < n ==>
          && clients[j].status == (if j < k then reply else if j == k then RCV_REPLY_ERROR else old(clients[j].status))
          && clients[j].security == (if j < k then tokens[j] else old(clients[j].security))
          && clients[j].timeOut == (if j < k then now else old(clients[j].timeOut)))
        && |sent| == (if k < n then k + 1 else n)
        && (forall j :: 0 <= j < |sent| ==> sent[j] == Packet(j, Frame(requests[j], tokens[j])))
        && (k < n ==> timeOutIdx == k && status == AfterTimeOut(st))
        && (k == n ==> status == finish && timeOutIdx == old(timeOutIdx))
    {
      ghost var n := |clients|;
      ghost var k := FirstFalse(delivered[..n]);
      status := st;
      sent := [];
      var i := 0;
      while i < |clients|
        invariant 0 <= i <= n && i <= k && clients == old(clients)
        invariant status == st && timeOutIdx == old(timeOutIdx)
        invariant |sent| == i && forall j :: 0 <= j < i ==> sent[j] == Packet(j, Frame(requests[j], tokens[j]))
        invariant forall j :: 0 <= j < n ==>
          && clients[j].status == (if j < i then reply else old(clients[j].status))
          && clients[j].security == (if j < i then tokens[j] else old(clients[j].security))
          && clients[j].timeOut == (if j < i then now else old(clients[j].timeOut))
      {
        assert delivered[..n][i] == delivered[i];
        assert if delivered[i] then i < k else i == k;
        var done, packet := SendTo(i, requests[i], reply, tokens[i], delivered[i], now);
        sent := sent + [packet];
        if !done {
          break;
        }
        i := i + 1;
      }
      if i == |clients| {
        status := finish;
      }
    }

    /**
     * Sends the unframed GO trigger to the idle peers in order, stopping at
     * the first peer that is not idle: the peers after it get nothing. A
     * failed send is not checked. The session then downloads.
     */
    method Go(now: int) returns (sent: seq<Packet>)
      requires Valid()
      modifies this`status, (set p | p in clients)`status, (set p | p in clients)`timeOut
      ensures status == CONN_DOWNLOAD
      ensures var n, k := |clients|, FirstNotOf(old(Statuses()), RCV_REPLY_NONE);
        && |sent| == k && (forall j :: 0 <= j < k ==> sent[j] == Packet(j, CMD_GO))
        && (forall j :: 0 <= j < n ==> clients[j].status == if j < k then RCV_REPLY_GO else old(clients[j].status))
        && (forall j :: 0 <= j < n ==> clients[j].timeOut == if j < k then now else old(clients[j].timeOut))
    {
      ghost var k := FirstNotOf(Statuses(), RCV_REPLY_NONE);
      sent := [];
      var i := 0;
      while i < |clients|
        invariant 0 <= i <= k && clients == old(clients)
        invariant |sent| == i && forall j :: 0 <= j < i ==> sent[j] == Packet(j, CMD_GO)
        invariant forall j :: 0 <= j < |clients| ==>
          clients[j].status == if j < i then RCV_REPLY_GO else old(clients[j].status)
        invariant forall j :: 0 <= j < |clients| ==>
          clients[j].timeOut == if j < i then now else old(clients[j].timeOut)
      {
        if clients[i].status != RCV_REPLY_NONE {
          break;
        }
        assert i < k;
        sent := sent + [Packet(i, CMD_GO)];
        clients[i].timeOut, clients[i].status := now, RCV_REPLY_GO;
        i := i + 1;
      }
      assert i == k;
      status := CONN_DOWNLOAD;
    }

    /** While the server waits for the user's GO, every peer's timeout is kept current. */
    method GoWait(now: int)
      requires Valid()
      modifies (set p | p in clients)`timeOut
      ensures forall j :: 0 <= j < |clients| ==> clients[j].timeOut == now
    {
      var i := 0;
      while i < |clients|
        invariant 0 <= i <= |clients|
        invariant forall j :: 0 <= j < i ==> clients[j].timeOut == now
      {
        clients[i].timeOut := now;
        i := i + 1;
      }
    }

    /** Closing every peer on request: the session waits for new peers. */
    method CloseAll()
      requires Valid()
      modifies this`clients, this`status
      ensures Valid() && clients == [] && status == CONN_WAIT
    {
      clients := [];
      status := CONN_WAIT;
    }

    /**
     * Drops the failed peer: it leaves the list, every later peer takes its
     * new index as rank, and the session re-verifies the remaining peers,
     * or waits when none remains.
     */
    method DropPeer()
      requires Valid() && status == CONN_TIMEOUT && timeOutIdx < |clients|
      modifies this`clients, this`status, (set p | p in clients)`rank
      ensures Valid()
      ensures clients == old(clients[..timeOutIdx] + clients[timeOutIdx + 1..])
      ensures forall j :: 0 <= j < timeOutIdx ==> clients[j].rank == old(clients[j].rank)
      ensures forall j :: timeOutIdx <= j < |clients| ==> clients[j].rank == j
      ensures status == (if clients != [] then CONN_VERIFY else CONN_WAIT)
    {
      var k := timeOutIdx;
      var cs := clients[..k] + clients[k + 1..];
      assert forall j :: 0 <= j < |cs| ==> cs[j] == old(clients)[if j < k then j else j + 1];
      clients := cs;
      var i := k;
      while i < |cs|
        invariant k <= i <= |cs| && clients == cs
        invariant forall j :: 0 <= j < k ==> cs[j].rank == old(cs[j].rank)
        invariant forall j :: k <= j < i ==> cs[j].rank == j
      {
        cs[i].rank := i;
        i := i + 1;
      }
      status := if cs != [] then CONN_VERIFY else CONN_WAIT;
    }

    /**
     * Re-verification after a drop, once the pass over the replies left the
     * session running: when every peer is idle, each is sent a verify
     * request with its new frame rank, stopping at the first failed send;
     * the session then waits for the verify replies.
     */
    method ReVerify(landscape: bool, tokens: seq<u16>, delivered: seq<bool>, now: int)
      returns (sent: seq<Packet>)
      requires Valid() && status != CONN_TIMEOUT
      requires |clients| <= |tokens| && |clients| <= |delivered|
      modifies sendBuffer, this`status, this`timeOutIdx
      modifies (set p | p in clients)`status, (set p | p in clients)`security, (set p | p in clients)`timeOut
      ensures !AllOf(old(Statuses()), RCV_REPLY_NONE, RCV_REPLY_RESERVED) ==> (
        sent == [] && status == CONN_VERIFY && timeOutIdx == old(timeOutIdx) &&
        unchanged(clients))
      ensures AllOf(old(Statuses()), RCV_REPLY_NONE, RCV_REPLY_RESERVED) ==> (
        var n := |clients|; var k := FirstFalse(delivered[..n]);
        && (forall j :: 0 <= j < n ==> (clients[j].status ==
          if j < k then RCV_REPLY_VERIFY else if j == k then RCV_REPLY_ERROR else old(clients[j].status)))
        && (forall j :: 0 <= j < n ==> clients[j].security == if j < k then tokens[j] else old(clients[j].security))
        && (forall j :: 0 <= j < n ==> clients[j].timeOut == if j < k then now else old(clients[j].timeOut))
        && |sent| == (if k < n then k + 1 else n)
        && (forall j :: 0 <= j < |sent| ==> sent[j] == Packet(j, Frame(VerifyRequest(j, landscape), tokens[j])))
        && (k < n ==> timeOutIdx == k && status == CONN_TIMEOUT)
        && (k == n ==> status == CONN_NEW && timeOutIdx == old(timeOutIdx)))
    {
      sent := [];
      var all := IsAllStatus(RCV_REPLY_NONE, RCV_REPLY_RESERVED);
      if !all {
        status := CONN_VERIFY;
        return;
      }
      sent := SendEach(VerifyRequests(landscape, |clients|), RCV_REPLY_VERIFY, tokens, delivered, now, CONN_VERIFY, CONN_NEW);
    }

    /**
     * A new connection while the server waits for peers: it is sent a
     * verify request with the next frame rank (the frame returned) and,
     * when the request was delivered, joins the list awaiting the verify
     * reply.
     */
    method AcceptPeer(landscape: bool, token: u16, delivered: bool, now: int) returns (frame: seq<byte>)
      requires Valid() && (status == CONN_WAIT || status == CONN_NEW) && |clients| < 255
      modifies sendBuffer, this`clients, this`status
      ensures Valid()
      ensures frame == Frame(VerifyRequest(|old(clients)|, landscape), token)
      ensures !delivered ==> clients == old(clients) && status == old(status)
      ensures delivered ==> (|clients| == |old(clients)| + 1 && clients[..|old(clients)|] == old(clients) &&
        status == CONN_NEW && fresh(clients[|old(clients)|]))
      ensures delivered ==> var p := clients[|old(clients)|];
        p.status == RCV_REPLY_VERIFY && p.security == token && p.timeOut == now &&
        p.rank == |old(clients)| && p.Message() == [] && !p.eof
    {
      var n := |clients|;
      var request := VerifyRequest(n, landscape);
      AddCheckSum(request, VERIFY_LEN, token);
      assert request[..VERIFY_LEN - TRAILER_LEN] == request;
      frame := sendBuffer[..VERIFY_LEN];
      if !delivered {
        return;
      }
      var p := new Peer(true, n, now);
      p.security, p.timeOut, p.status := token, now, RCV_REPLY_VERIFY;
      clients := clients + [p];
      status := CONN_NEW;
    }

    /** Peer `c` awaits `reply` to the request signed with `token` and sent at `now`. */
    ghost predicate Awaits(c: int, reply: int, token: int, now: int)
      reads this`clients, clients
      requires 0 <= c < |clients|
    {
      clients[c].status == reply && clients[c].security == token && clients[c].timeOut == now
    }

    /**
     * The reply of peer `c` to the request it awaits, checked against the
     * command and length of that request; a correct reply leaves the peer
     * idle, a wrong one is the peer's failure.
     */
    method AcceptReply(c: int, now: int) returns (ok: bool)
      requires Valid() && 0 <= c < |clients| && CheckedReply(clients[c].status)
      modifies this`status, this`timeOutIdx
      modifies {clients[c]}`status, {clients[c]}`eof, {clients[c]}`rcvLength, {clients[c]}`timeOut
      ensures var q := AwaitedReply(old(clients[c].status));
        ok == ExpectedReply(old(clients[c].Message()), q.len, q.cmd, old(clients[c].security))
      ensures ok ==> (clients[c].status == RCV_REPLY_NONE && clients[c].Message() == [] && !clients[c].eof &&
        clients[c].timeOut == now && status == old(status) && timeOutIdx == old(timeOutIdx))
      ensures !ok ==> (clients[c].status == RCV_REPLY_ERROR && clients[c].rcvLength == old(clients[c].rcvLength) &&
        clients[c].eof == old(clients[c].eof) && clients[c].timeOut == old(clients[c].timeOut) &&
        timeOutIdx == c && status == AfterTimeOut(old(status)))
    {
      var q := AwaitedReply(clients[c].status);
      ok := IsExpectedReply(q.len, q.cmd, c);
      if ok {
        clients[c].Reset(now);
      }
    }

    /**
     * An idle peer: outside the download and the upload, a peer idle for
     * more than KEEPALIVE_INTERVAL seconds is sent a keep-alive request.
     */
    twostate predicate IdleServed(c: int, now: int, token: u16, delivered: bool, sent: seq<Packet>)
      reads this, clients
    {
      && 0 <= c < |clients| && clients == old(clients)
      && var due := old(status) != CONN_DOWNLOAD && old(status) != CONN_UPLOAD &&
          now - old(clients[c].timeOut) > KEEPALIVE_INTERVAL;
        && (!due ==> (sent == [] && status == old(status) && timeOutIdx == old(timeOutIdx) &&
          Awaits(c, RCV_REPLY_NONE, old(clients[c].security), old(clients[c].timeOut))))
        && (due ==> sent == [Packet(c, Frame(CMD_KEEPALIVE, token))])
        && (due && delivered ==> (Awaits(c, RCV_REPLY_KEEPALIVE, token, now) &&
          status == old(status) && timeOutIdx == old(timeOutIdx)))
        && (due && !delivered ==> (clients[c].status == RCV_REPLY_ERROR && timeOutIdx == c &&
          status == AfterTimeOut(old(status))))
    }

    method ServeIdle(c: int, now: int, token: u16, delivered: bool) returns (sent: seq<Packet>)
      requires Valid() && 0 <= c < |clients| && clients[c].status == RCV_REPLY_NONE
      modifies sendBuffer, this`status, this`timeOutIdx
      modifies {clients[c]}`status, {clients[c]}`security, {clients[c]}`timeOut
      ensures IdleServed(c, now, token, delivered, sent)
    {
      sent := [];
      if status == CONN_DOWNLOAD || status == CONN_UPLOAD {
        return;
      }
      if now - clients[c].timeOut > KEEPALIVE_INTERVAL {
        var done, packet := SendTo(c, CMD_KEEPALIVE, RCV_REPLY_KEEPALIVE, token, delivered, now);
        sent := [packet];
      }
    }

    /**
     * The keep-alive, orientation or ready reply of peer `c`: a correct
     * reply leaves the peer idle, and the last orientation reply lets the
     * session wait again while the last ready reply lets it wait for GO.
     */
    twostate predicate ReplyServed(c: int, now: int)
      reads this, clients
      requires 0 <= c < |clients| && clients == old(clients)
      requires old(clients[c].status) in {RCV_REPLY_KEEPALIVE, RCV_REPLY_ORIENTATION, RCV_REPLY_READY}
    {
      var r := old(clients[c].status); var q := AwaitedReply(r);
      var ok := ExpectedReply(old(clients[c].Message()), q.len, q.cmd, old(clients[c].security));
        && (ok ==> (clients[c].status == RCV_REPLY_NONE && clients[c].Message() == [] && clients[c].timeOut == now &&
          timeOutIdx == old(timeOutIdx) &&
          status == (if r == RCV_REPLY_KEEPALIVE || AnyOf(Statuses(), r) then old(status)
            else if r == RCV_REPLY_ORIENTATION then CONN_WAIT else CONN_GO)))
        && (!ok ==> clients[c].status == RCV_REPLY_ERROR && timeOutIdx == c && status == AfterTimeOut(old(status)))
    }

    method ServeReply(c: int, now: int) returns (ok: bool)
      requires Valid() && 0 <= c < |clients|
      requires clients[c].status in {RCV_REPLY_KEEPALIVE, RCV_REPLY_ORIENTATION, RCV_REPLY_READY}
      modifies this`status, this`timeOutIdx
      modifies {clients[c]}`status, {clients[c]}`eof, {clients[c]}`rcvLength, {clients[c]}`timeOut
      ensures ReplyServed(c, now) && ok == (clients[c].status == RCV_REPLY_NONE)
    {
      var r := clients[c].status;
      ok := AcceptReply(c, now);
      if !ok || r == RCV_REPLY_KEEPALIVE {
        return;
      }
      var waiting := IsAnyStatus(r);
      if !waiting {
        status := if r == RCV_REPLY_ORIENTATION then CONN_WAIT else CONN_GO;
      }
    }

    /**
     * The verify reply of peer `c`: besides the reply check, the version
     * test as written (four bytes from `sizeof(CMD_VERIFY)`, one past the
     * client's version) may fail the peer; otherwise the peer's system is
     * recorded, the peer is idle, and the last verify reply lets the session
     * wait again.
     */
    twostate predicate VerifyServed(c: int, now: int)
      reads this, clients
      requires 0 <= c < |clients| && clients == old(clients)
      requires old(clients[c].status) == RCV_REPLY_VERIFY
    {
      var msg := old(clients[c].Message());
      var ok := ExpectedReply(msg, VERIFY_REPLY_LEN, CMD_VERIFY, old(clients[c].security)) && !VersionRefusedAsWritten(msg);
        && (ok ==> (clients[c].status == RCV_REPLY_NONE && clients[c].Message() == [] && clients[c].timeOut == now &&
          clients[c].android == (msg[REPLY_OS_IDX] == OS_ANDROID) && timeOutIdx == old(timeOutIdx) &&
          status == (if AnyOf(Statuses(), RCV_REPLY_VERIFY) then old(status) else CONN_WAIT)))
        && (!ok ==> (clients[c].status == RCV_REPLY_ERROR && clients[c].android == old(clients[c].android) &&
          timeOutIdx == c && status == AfterTimeOut(old(status))))
    }

    method ServeVerifyReply(c: int, now: int) returns (ok: bool)
      requires Valid() && 0 <= c < |clients| && clients[c].status == RCV_REPLY_VERIFY
      modifies this`status, this`timeOutIdx
      modifies {clients[c]}`status, {clients[c]}`eof, {clients[c]}`rcvLength, {clients[c]}`timeOut, {clients[c]}`android
      ensures VerifyServed(c, now) && ok == (clients[c].status == RCV_REPLY_NONE)
    {
      var p := clients[c];
      ok := IsExpectedReply(VERIFY_REPLY_LEN, CMD_VERIFY, c);
      if !ok {
        return;
      }
      var msg := p.Message();
      if VersionRefusedAsWritten(msg) {
        TimeOut(c);
        return false;
      }
      AcceptVerify(c, now, msg);
    }

    /** Peer `c` passed the version check: its system is recorded and it goes idle. */
    method AcceptVerify(c: int, now: int, msg: seq<byte>)
      requires Valid() && 0 <= c < |clients| && |msg| > REPLY_OS_IDX
      modifies this`status
      modifies {clients[c]}`status, {clients[c]}`eof, {clients[c]}`rcvLength, {clients[c]}`timeOut, {clients[c]}`android
      ensures Valid() && clients[c].status == RCV_REPLY_NONE && clients[c].Message() == [] && clients[c].timeOut == now
      ensures clients[c].android == (msg[REPLY_OS_IDX] == OS_ANDROID)
      ensures status == if AnyOf(Statuses(), RCV_REPLY_VERIFY) then old(status) else CONN_WAIT
    {
      var p := clients[c];
      p.android := msg[REPLY_OS_IDX] == OS_ANDROID;
      p.Reset(now);
      var waiting := IsAnyStatus(RCV_REPLY_VERIFY);
      if !waiting {
        status := CONN_WAIT;
      }
    }

    /** The DONE reply of peer `c` to GO: the peer is asked for its picture size. */
    twostate predicate GoServed(c: int, now: int, token: u16, delivered: bool, sent: seq<Packet>)
      reads this, clients
      requires 0 <= c < |clients| && clients == old(clients)
      requires old(clients[c].status) == RCV_REPLY_GO
    {
      var ok := ExpectedReply(old(clients[c].Message()), GO_REPLY_LEN, CMD_REPLY_GO, old(clients[c].security));
        && (!ok ==> (sent == [] && clients[c].status == RCV_REPLY_ERROR && timeOutIdx == c &&
          status == AfterTimeOut(old(status))))
        && (ok ==> (sent == [Packet(c, Frame(CMD_GET, token))] && clients[c].Message() == [] && !clients[c].eof))
        && (ok && delivered ==> (Awaits(c, RCV_REPLY_GET, token, now) && status == old(status) &&
          timeOutIdx == old(timeOutIdx)))
        && (ok && !delivered ==> (clients[c].status == RCV_REPLY_ERROR && timeOutIdx == c &&
          status == AfterTimeOut(old(status))))
    }

    method ServeGoReply(c: int, now: int, token: u16, delivered: bool) returns (sent: seq<Packet>)
      requires Valid() && 0 <= c < |clients| && clients[c].status == RCV_REPLY_GO
      modifies sendBuffer, this`status, this`timeOutIdx
      modifies {clients[c]}`status, {clients[c]}`security, {clients[c]}`eof, {clients[c]}`rcvLength, {clients[c]}`timeOut
      ensures GoServed(c, now, token, delivered, sent)
    {
      sent := [];
      var ok := AcceptReply(c, now);
      if !ok {
        return;
      }
      var done, packet := SendTo(c, CMD_GET, RCV_REPLY_GET, token, delivered, now);
      sent := [packet];
    }

    /**
     * The GET reply of peer `c`: the announced picture size is kept; a zero
     * size (the picture is not ready) asks again, any other size resets the
     * try count and starts the download from the beginning.
     */
    twostate predicate GetServed(c: int, now: int, token: u16, delivered: bool, sent: seq<Packet>)
      reads this, clients
      requires 0 <= c < |clients| && clients == old(clients)
      requires old(clients[c].status) == RCV_REPLY_GET
    {
      var msg := old(clients[c].Message());
        var ok := ExpectedReply(msg, GET_REPLY_LEN, CMD_GET, old(clients[c].security));
        && (!ok ==> (sent == [] && clients[c].status == RCV_REPLY_ERROR && timeOutIdx == c &&
          status == AfterTimeOut(old(status)) && picSize == old(picSize)))
        && (ok ==> (picSize == PicSizeOf(msg) && clients[c].Message() == [] && !clients[c].eof))
        && (ok && picSize == 0 ==> (sent == [Packet(c, Frame(CMD_GET, token))] &&
          clients[c].tryCount == old(clients[c].tryCount)))
        && (ok && picSize != 0 ==> (sent == [Packet(c, Frame(CMD_DOWNLOAD + [DOWNLOAD_FROM_BEGIN], token))] &&
          clients[c].tryCount == 0))
        && (ok && delivered ==> (Awaits(c, if picSize == 0 then RCV_REPLY_GET else RCV_REPLY_DOWNLOAD, token, now) &&
          status == old(status) && timeOutIdx == old(timeOutIdx)))
        && (ok && !delivered ==> (clients[c].status == RCV_REPLY_ERROR && timeOutIdx == c &&
          status == AfterTimeOut(old(status))))
    }

    method ServeGetReply(c: int, now: int, token: u16, delivered: bool) returns (sent: seq<Packet>)
      requires Valid() && 0 <= c < |clients| && clients[c].status == RCV_REPLY_GET
      modifies sendBuffer, this`status, this`timeOutIdx, this`picSize
      modifies {clients[c]}`status, {clients[c]}`security, {clients[c]}`eof, {clients[c]}`rcvLength, {clients[c]}`timeOut
      modifies {clients[c]}`tryCount
      ensures GetServed(c, now, token, delivered, sent)
    {
      sent := [];
      ghost var msg := clients[c].Message();
      var ok := AcceptReply(c, now);
      if !ok {
        return;
      }
      picSize := ExtractPicSize(c);
      assert picSize == PicSizeOf(msg);
      var done, packet;
      if picSize == 0 {
        done, packet := SendTo(c, CMD_GET, RCV_REPLY_GET, token, delivered, now);
      } else {
        clients[c].SetTryCount(0);
        done, packet := SendTo(c, CMD_DOWNLOAD + [DOWNLOAD_FROM_BEGIN], RCV_REPLY_DOWNLOAD, token, delivered, now);
      }
      sent := [packet];
    }

    /**
     * A part of the picture of peer `c` arrived, and the picture's fill
     * returned `fill` (negative: wrong or partial data; zero: complete;
     * positive: more to come). A failed part is waited for again, up to
     * MAX_TRY_COUNT retries after which the peer fails; a complete picture
     * is saved (`saveError` is the save's failure); otherwise the next part
     * is requested.
     */
    twostate predicate DownloadServed(c: int, now: int, fill: int, saveError: bool, token: u16, delivered: bool, sent: seq<Packet>)
      reads this, clients
      requires 0 <= c < |clients| && clients == old(clients)
      requires old(clients[c].status) == RCV_REPLY_DOWNLOAD
    {
      && (fill < 0 ==> (sent == [] && status == old(status) && timeOutIdx == old(timeOutIdx) &&
        clients[c].rcvLength == old(clients[c].rcvLength)))
      && (fill < 0 && old(clients[c].tryCount) > MAX_TRY_COUNT ==> (clients[c].status == RCV_REPLY_ERROR &&
        clients[c].tryCount == old(clients[c].tryCount) && clients[c].eof == old(clients[c].eof)))
      && (fill < 0 && old(clients[c].tryCount) <= MAX_TRY_COUNT ==> (clients[c].status == RCV_REPLY_DOWNLOAD &&
        clients[c].tryCount == old(clients[c].tryCount) + 1 && !clients[c].eof))
      && (fill >= 0 ==> (clients[c].tryCount == 0 && clients[c].Message() == [] && !clients[c].eof))
      && (fill == 0 ==> (sent == [] && status == old(status) && timeOutIdx == old(timeOutIdx) &&
        clients[c].timeOut == now && clients[c].status == (if saveError then RCV_REPLY_ERROR else RCV_REPLY_NONE) &&
        clients[c].packetCount == (if saveError then old(clients[c].packetCount) else 0)))
      && (fill > 0 ==> sent == [Packet(c, Frame(CMD_DOWNLOAD + [DOWNLOAD_NEXT_PART], token))])
      && (fill > 0 && delivered ==> (Awaits(c, RCV_REPLY_DOWNLOAD, token, now) && status == old(status) &&
        timeOutIdx == old(timeOutIdx)))
      && (fill > 0 && !delivered ==> (clients[c].status == RCV_REPLY_ERROR && timeOutIdx == c &&
        status == AfterTimeOut(old(status))))
    }

    method ServeDownload(c: int, now: int, fill: int, saveError: bool, token: u16, delivered: bool)
      returns (sent: seq<Packet>)
      requires Valid() && 0 <= c < |clients| && clients[c].status == RCV_REPLY_DOWNLOAD
      modifies sendBuffer, this`status, this`timeOutIdx
      modifies {clients[c]}`status, {clients[c]}`security, {clients[c]}`eof, {clients[c]}`rcvLength, {clients[c]}`timeOut
      modifies {clients[c]}`tryCount, {clients[c]}`packetCount
      ensures DownloadServed(c, now, fill, saveError, token, delivered, sent)
    {
      sent := [];
      var p := clients[c];
      if fill < 0 {
        if p.tryCount > MAX_TRY_COUNT {
          p.status := RCV_REPLY_ERROR;
          return;
        }
        p.SetTryCount(p.tryCount + 1);
        return;
      }
      p.SetTryCount(0);
      p.Reset(now);
      if fill == 0 {
        if saveError {
          p.status := RCV_REPLY_ERROR;
        } else {
          p.packetCount := 0;
        }
        return;
      }
      var done, packet := SendTo(c, CMD_DOWNLOAD + [DOWNLOAD_NEXT_PART], RCV_REPLY_DOWNLOAD, token, delivered, now);
      sent := [packet];
    }

    /**
     * The upload request of peer `c` for one packet of `video` (the video
     * made for the peer's system): a correct request is served by the
     * upload rule; a bad index is the peer's failure, the index past the
     * last packet ends the upload, and any other index gets its chunk.
     */
    twostate predicate UploadServed(c: int, now: int, video: seq<byte>, token: u16, delivered: bool, sent: seq<Packet>)
      reads this, clients
      requires 0 <= c < |clients| && clients == old(clients)
      requires old(clients[c].status) == RCV_REPLY_UPLOAD
    {
      var msg := old(clients[c].Message());
      var ok := ExpectedReply(msg, UPLOAD_REPLY_LEN, CMD_UPLOAD, old(clients[c].security));
        && (!ok ==> (sent == [] && clients[c].status == RCV_REPLY_ERROR && timeOutIdx == c &&
          status == AfterTimeOut(old(status))))
        && (ok ==> var a := ServeUpload(video, PacketIndexOf(msg));
          && clients[c].Message() == [] && !clients[c].eof
          && (a.BadRequest? ==> (sent == [] && clients[c].status == RCV_REPLY_ERROR && status == old(status)))
          && (a.Complete? ==> (sent == [] && clients[c].status == RCV_REPLY_NONE && status == old(status)))
          && (a.SendChunk? ==> sent == [Packet(c, Frame(a.payload, token))])
          && (a.SendChunk? && delivered ==> (Awaits(c, RCV_REPLY_UPLOAD, token, now) && status == old(status) &&
            timeOutIdx == old(timeOutIdx)))
          && (a.SendChunk? && !delivered ==> (clients[c].status == RCV_REPLY_ERROR && timeOutIdx == c &&
            status == AfterTimeOut(old(status)))))
    }

    method ServeUploadRequest(c: int, now: int, video: seq<byte>, token: u16, delivered: bool)
      returns (sent: seq<Packet>)
      requires Valid() && 0 <= c < |clients| && clients[c].status == RCV_REPLY_UPLOAD
      modifies sendBuffer, this`status, this`timeOutIdx
      modifies {clients[c]}`status, {clients[c]}`security, {clients[c]}`eof, {clients[c]}`rcvLength, {clients[c]}`timeOut
      ensures UploadServed(c, now, video, token, delivered, sent)
    {
      sent := [];
      ghost var msg := clients[c].Message();
      var ok := AcceptReply(c, now);
      if !ok {
        return;
      }
      var packet := PacketIndexOf(clients[c].rcvBuffer);
      assert packet == PacketIndexOf(msg);
      match ServeUpload(video, packet) {
        case BadRequest =>
          clients[c].status := RCV_REPLY_ERROR;
        case Complete =>
        case SendChunk(payload) =>
          var done, frame := SendTo(c, payload, RCV_REPLY_UPLOAD, token, delivered, now);
          sent := [frame];
      }
    }

    /**
     * One peer of the pass. A peer awaiting a reply that has been silent for
     * more than MCAM_DELAY_TIMEOUT seconds times out and ends the pass; one
     * whose reply has not fully arrived is left for a later pass. Every other
     * peer is served by its status (`ServeStatus`).
     */
    method ServePeer(c: int, now: int, input: PeerInput) returns (stop: bool, sent: seq<Packet>)
      requires Valid() && 0 <= c < |clients|
      modifies sendBuffer, this`status, this`timeOutIdx, this`picSize, clients[c]
      ensures |sent| <= 1 && forall j :: 0 <= j < |sent| ==> sent[j].peer == c
      ensures status in {old(status), CONN_WAIT, CONN_GO, CONN_TIMEOUT}
      ensures stop ==> (clients[c].status == RCV_REPLY_ERROR || status == CONN_TIMEOUT)
      ensures var awaiting := old(clients[c].status) != RCV_REPLY_NONE && old(clients[c].status) != RCV_REPLY_ERROR;
        && (awaiting && now - old(clients[c].timeOut) > MCAM_DELAY_TIMEOUT ==> (stop && sent == [] &&
          clients[c].status == RCV_REPLY_ERROR && timeOutIdx == c && status == AfterTimeOut(old(status))))
        && (awaiting && now - old(clients[c].timeOut) <= MCAM_DELAY_TIMEOUT && !old(clients[c].eof) ==> (!stop &&
          sent == [] && status == old(status) && timeOutIdx == old(timeOutIdx) && unchanged(clients[c])))
        && (!awaiting || (now - old(clients[c].timeOut) <= MCAM_DELAY_TIMEOUT && old(clients[c].eof)) ==>
          (stop <==> status == CONN_TIMEOUT))
      ensures (!Expired(old(clients[c].status), old(clients[c].timeOut), now) &&
        !Pending(old(clients[c].status), old(clients[c].timeOut), now, old(clients[c].eof))) ==> StatusServed(c, now, input, sent)
      ensures clients[c].status == TurnStatus(old(clients[c].View()), now, input, Transferring(old(status)))
    {
      var p := clients[c];
      var s := p.status;
      if s != RCV_REPLY_NONE && s != RCV_REPLY_ERROR {
        if now - p.timeOut > MCAM_DELAY_TIMEOUT {
          TimeOut(c);
          return true, [];
        }
        if !p.eof {
          return false, [];
        }
      }
      stop, sent := ServeStatus(c, now, input);
    }

    /**
     * The outcome of the turn of peer `c` when it is served by its status:
     * the outcome of the handler of its old status, and for an unknown or
     * failed status a timeout.
     */
    twostate predicate StatusServed(c: int, now: int, input: PeerInput, sent: seq<Packet>)
      reads this, clients
      requires 0 <= c < |clients| && clients == old(clients)
    {
      var s := old(clients[c].status);
      && (s == RCV_REPLY_NONE ==> IdleServed(c, now, input.token, input.delivered, sent))
      && (s in {RCV_REPLY_KEEPALIVE, RCV_REPLY_ORIENTATION, RCV_REPLY_READY} ==> (sent == [] && ReplyServed(c, now)))
      && (s == RCV_REPLY_VERIFY ==> (sent == [] && VerifyServed(c, now)))
      && (s == RCV_REPLY_GO ==> GoServed(c, now, input.token, input.delivered, sent))
      && (s == RCV_REPLY_GET ==> GetServed(c, now, input.token, input.delivered, sent))
      && (s == RCV_REPLY_DOWNLOAD ==> DownloadServed(c, now, input.fill, input.saveError, input.token, input.delivered, sent))
      && (s == RCV_REPLY_UPLOAD ==> UploadServed(c, now, input.video, input.token, input.delivered, sent))
      && ((s !in {RCV_REPLY_NONE, RCV_REPLY_KEEPALIVE, RCV_REPLY_ORIENTATION, RCV_REPLY_READY, RCV_REPLY_VERIFY,
        RCV_REPLY_GO, RCV_REPLY_GET, RCV_REPLY_DOWNLOAD, RCV_REPLY_UPLOAD}) ==>
        (sent == [] && clients[c].status == RCV_REPLY_ERROR && timeOutIdx == c && status == AfterTimeOut(old(status))))
    }

    /**
     * The dispatch on the status of peer `c`, which is idle, failed, or has
     * its reply complete: each status gets the outcome of its handler, an
     * unknown status or a failed peer times the session out, and the pass
     * stops exactly when the session timed out.
     */
    method ServeStatus(c: int, now: int, input: PeerInput) returns (stop: bool, sent: seq<Packet>)
      requires Valid() && 0 <= c < |clients|
      modifies sendBuffer, this`status, this`timeOutIdx, this`picSize, clients[c]
      ensures |sent| <= 1 && forall j :: 0 <= j < |sent| ==> sent[j].peer == c
      ensures status in {old(status), CONN_WAIT, CONN_GO, CONN_TIMEOUT}
      ensures stop <==> status == CONN_TIMEOUT
      ensures StatusServed(c, now, input, sent)
      ensures clients[c].status == ServedStatus(old(clients[c].View()), now, input, Transferring(old(status)))
    {
      sent := [];
      var s := clients[c].status;
      if s == RCV_REPLY_NONE {
        sent := ServeIdle(c, now, input.token, input.delivered);
      } else if s == RCV_REPLY_KEEPALIVE || s == RCV_REPLY_ORIENTATION || s == RCV_REPLY_READY {
        var ok := ServeReply(c, now);
      } else if s == RCV_REPLY_VERIFY {
        var ok := ServeVerifyReply(c, now);
      } else {
        sent := ServeCapture(c, now, input);
      }
      stop := status == CONN_TIMEOUT;
    }

    /** The rest of the dispatch: the statuses of the capture, and the unknown or failed ones. */
    method ServeCapture(c: int, now: int, input: PeerInput) returns (sent: seq<Packet>)
      requires Valid() && 0 <= c < |clients|
      requires clients[c].status !in {RCV_REPLY_NONE, RCV_REPLY_KEEPALIVE, RCV_REPLY_ORIENTATION, RCV_REPLY_READY,
        RCV_REPLY_VERIFY}
      modifies sendBuffer, this`status, this`timeOutIdx, this`picSize, clients[c]
      ensures Valid() && |sent| <= 1 && forall j :: 0 <= j < |sent| ==> sent[j].peer == c
      ensures status in {old(status), CONN_TIMEOUT}
      ensures StatusServed(c, now, input, sent)
      ensures clients[c].status == ServedStatus(old(clients[c].View()), now, input, Transferring(old(status)))
    {
      var s := clients[c].status;
      if s == RCV_REPLY_GO {
        sent := ServeGoReply(c, now, input.token, input.delivered);
      } else if s == RCV_REPLY_GET {
        sent := ServeGetReply(c, now, input.token, input.delivered);
      } else if s == RCV_REPLY_DOWNLOAD {
        sent := ServeDownload(c, now, input.fill, input.saveError, input.token, input.delivered);
      } else if s == RCV_REPLY_UPLOAD {
        sent := ServeUploadRequest(c, now, input.video, input.token, input.delivered);
      } else {
        sent := [];
        TimeOut(c);
      }
    }

    /**
     * The download check after a pass: with every peer failed the session
     * times out and the capture is interrupted; otherwise the capture may
     * be over. The status handed to the application is returned.
     */
    method CheckDownload(recReady: bool) returns (main: Option<int>)
      requires Valid() && status == CONN_DOWNLOAD
      modifies this`status, this`timeOutIdx, this`frames
      ensures var ss := old(Statuses());
        && (AllOf(ss, RCV_REPLY_ERROR, RCV_REPLY_RESERVED) ==> (main == Some(Level.MCAM_INTERRUPT) &&
          status == CONN_TIMEOUT && timeOutIdx == 0 && frames == old(frames)))
        && (!AllOf(ss, RCV_REPLY_ERROR, RCV_REPLY_RESERVED) && !(recReady && AllOf(ss, RCV_REPLY_NONE, RCV_REPLY_ERROR)) ==>
          (main == None && status == CONN_DOWNLOAD && timeOutIdx == old(timeOutIdx) && frames == old(frames)))
        && ((!AllOf(ss, RCV_REPLY_ERROR, RCV_REPLY_RESERVED) && recReady && AllOf(ss, RCV_REPLY_NONE, RCV_REPLY_ERROR) &&
          CountOf(ss, RCV_REPLY_NONE) > 0) ==> (main == None && status == CONN_WAIT_UPLOAD &&
          timeOutIdx == old(timeOutIdx) && |frames| == |clients| &&
          forall i :: 0 <= i < |clients| ==> frames[i] == FrameClient(clients[i].status == RCV_REPLY_NONE, clients[i].android)))
        && ((!AllOf(ss, RCV_REPLY_ERROR, RCV_REPLY_RESERVED) && recReady && AllOf(ss, RCV_REPLY_NONE, RCV_REPLY_ERROR) &&
          CountOf(ss, RCV_REPLY_NONE) == 0) ==> (main == Some(Level.MCAM_WAIT) && frames == old(frames) &&
          var k := FirstOf(ss, RCV_REPLY_ERROR);
          if k < |clients| then status == CONN_TIMEOUT && timeOutIdx == k else status == CONN_WAIT && timeOutIdx == 0))
      ensures main == Some(Level.MCAM_INTERRUPT) ==> (status == CONN_TIMEOUT && timeOutIdx == 0 &&
        AllOf(old(Statuses()), RCV_REPLY_ERROR, RCV_REPLY_RESERVED))
      ensures main == Some(Level.MCAM_WAIT) ==> (recReady && AllOf(old(Statuses()), RCV_REPLY_NONE, RCV_REPLY_ERROR) &&
        CountOf(old(Statuses()), RCV_REPLY_NONE) == 0)
      ensures main == None || main == Some(Level.MCAM_INTERRUPT) || main == Some(Level.MCAM_WAIT)
      ensures status != CONN_WAIT_UPLOAD ==> frames == old(frames)
    {
      var failed := IsAllStatus(RCV_REPLY_ERROR, RCV_REPLY_RESERVED);
      if failed {
        timeOutIdx := 0;
        status := CONN_TIMEOUT;
        return Some(Level.MCAM_INTERRUPT);
      }
      main := FinishCapture(recReady);
    }

    /**
     * The end of the capture, once every peer is idle (its picture saved) or
     * failed and the recording is over: the session keeps the list of peers
     * and waits for the upload; with no idle peer it starts over from the
     * peers' statuses and lets the application wait (a case the all-failed
     * test before it already takes, see `NothingToSaveMeansAllFailed`).
     */
    method FinishCapture(recReady: bool) returns (main: Option<int>)
      requires Valid() && status == CONN_DOWNLOAD
      modifies this`status, this`timeOutIdx, this`frames
      ensures var ss := old(Statuses());
        && (!(recReady && AllOf(ss, RCV_REPLY_NONE, RCV_REPLY_ERROR)) ==>
          (main == None && status == CONN_DOWNLOAD && timeOutIdx == old(timeOutIdx) && frames == old(frames)))
        && (recReady && AllOf(ss, RCV_REPLY_NONE, RCV_REPLY_ERROR) && CountOf(ss, RCV_REPLY_NONE) > 0 ==>
          (main == None && status == CONN_WAIT_UPLOAD && timeOutIdx == old(timeOutIdx) && |frames| == |clients| &&
          forall i :: 0 <= i < |clients| ==> frames[i] == FrameClient(clients[i].status == RCV_REPLY_NONE, clients[i].android)))
        && (recReady && AllOf(ss, RCV_REPLY_NONE, RCV_REPLY_ERROR) && CountOf(ss, RCV_REPLY_NONE) == 0 ==>
          (main == Some(Level.MCAM_WAIT) && frames == old(frames) &&
          var k := FirstOf(ss, RCV_REPLY_ERROR);
          if k < |clients| then status == CONN_TIMEOUT && timeOutIdx == k else status == CONN_WAIT && timeOutIdx == 0))
    {
      main := None;
      var over := IsAllStatus(RCV_REPLY_NONE, RCV_REPLY_ERROR);
      if !over || !recReady {
        return;
      }
      main := EndCapture();
    }

    /**
     * The capture is over: the peer list is kept for the upload when some
     * peer is idle (its picture saved), otherwise the session starts over
     * and the application waits.
     */
    method EndCapture() returns (main: Option<int>)
      requires Valid() && status == CONN_DOWNLOAD
      modifies this`status, this`timeOutIdx, this`frames
      ensures CountOf(old(Statuses()), RCV_REPLY_NONE) > 0 ==>
        (main == None && status == CONN_WAIT_UPLOAD && timeOutIdx == old(timeOutIdx) && |frames| == |clients| &&
        forall i :: 0 <= i < |clients| ==> frames[i] == FrameClient(clients[i].status == RCV_REPLY_NONE, clients[i].android))
      ensures CountOf(old(Statuses()), RCV_REPLY_NONE) == 0 ==>
        (main == Some(Level.MCAM_WAIT) && frames == old(frames) &&
        var k := FirstOf(old(Statuses()), RCV_REPLY_ERROR);
        if k < |clients| then status == CONN_TIMEOUT && timeOutIdx == k else status == CONN_WAIT && timeOutIdx == 0)
    {
      ghost var ss := Statuses();
      var idle := GetCountStatus(RCV_REPLY_NONE);
      assert idle == CountOf(ss, RCV_REPLY_NONE);
      if idle == 0 {
        Reset();
        return Some(Level.MCAM_WAIT);
      }
      main := None;
      Duplicate();
      status := CONN_WAIT_UPLOAD;
    }

    /**
     * Whether peer `c`, awaiting a reply, has been silent for more than
     * MCAM_DELAY_TIMEOUT seconds, and whether it is awaiting a reply that
     * has not fully arrived yet: the two cases the pass handles before the
     * dispatch.
     */
    predicate Expired(status: int, timeOut: int, now: int)
    {
      status != RCV_REPLY_NONE && status != RCV_REPLY_ERROR && now - timeOut > MCAM_DELAY_TIMEOUT
    }

    predicate Pending(status: int, timeOut: int, now: int, eof: bool)
    {
      status != RCV_REPLY_NONE && status != RCV_REPLY_ERROR && now - timeOut <= MCAM_DELAY_TIMEOUT && !eof
    }

    /**
     * One pass of the server's receive over its peers, in order, stopping
     * at the first peer that ends it (`stopAt`, or the peer count when none
     * does); during the download the pass ends with the download check.
     * Each peer is sent at most one request, in peer order; no peer before
     * the stop had expired, a pending peer is left alone, and the peers
     * after the stop are not looked at.
     */
    method ServerReceive(now: int, inputs: seq<PeerInput>, recReady: bool)
      returns (sent: seq<Packet>, main: Option<int>, stopAt: nat, ghost during: seq<int>)
      requires Valid() && |clients| <= |inputs|
      modifies sendBuffer, this`status, this`timeOutIdx, this`picSize, this`frames, set p | p in clients
      ensures Valid() && clients == old(clients) && stopAt <= |clients|
      ensures forall j :: 0 <= j < |sent| ==> sent[j].peer <= stopAt && sent[j].peer < |clients|
      ensures forall j, l :: 0 <= j < l < |sent| ==> sent[j].peer < sent[l].peer
      ensures stopAt < |clients| ==> (clients[stopAt].status == RCV_REPLY_ERROR || status == CONN_TIMEOUT)
      ensures old(status) != CONN_DOWNLOAD ==> main == None
      ensures main == Some(Level.MCAM_INTERRUPT) ==> (status == CONN_TIMEOUT && timeOutIdx == 0 &&
        AllOf(Statuses(), RCV_REPLY_ERROR, RCV_REPLY_RESERVED))
      ensures main == Some(Level.MCAM_WAIT) ==> (recReady && AllOf(Statuses(), RCV_REPLY_NONE, RCV_REPLY_ERROR) &&
        CountOf(Statuses(), RCV_REPLY_NONE) == 0)
      ensures main == None || main == Some(Level.MCAM_INTERRUPT) || main == Some(Level.MCAM_WAIT)
      ensures old(status) == CONN_DOWNLOAD && status == CONN_WAIT_UPLOAD ==> (|frames| == |clients| &&
        forall i :: 0 <= i < |clients| ==> frames[i] == FrameClient(clients[i].status == RCV_REPLY_NONE, clients[i].android))
      ensures !(old(status) == CONN_DOWNLOAD && status == CONN_WAIT_UPLOAD) ==> frames == old(frames)
      ensures forall j :: 0 <= j < stopAt ==> !Expired(old(clients[j].status), old(clients[j].timeOut), now)
      ensures forall j :: stopAt < j < |clients| ==> unchanged(clients[j])
      ensures forall j :: (0 <= j < |clients| &&
        Pending(old(clients[j].status), old(clients[j].timeOut), now, old(clients[j].eof))) ==> unchanged(clients[j])
      ensures |during| == if stopAt < |clients| then stopAt + 1 else |clients|
      ensures forall j :: 0 <= j < |during| ==> during[j] in {old(status), CONN_WAIT, CONN_GO}
      ensures PassServed(now, inputs, during)
    {
      sent, stopAt, during := ServePeers(now, inputs);
      main := EndPass(recReady);
    }

    /** The end of the pass: a download in progress is checked for its end, any other state is left as it is. */
    method EndPass(recReady: bool) returns (main: Option<int>)
      requires Valid()
      modifies this`status, this`timeOutIdx, this`frames
      ensures Valid()
      ensures old(status) != CONN_DOWNLOAD ==> (main == None && status == old(status) && timeOutIdx == old(timeOutIdx))
      ensures main == Some(Level.MCAM_INTERRUPT) ==> (status == CONN_TIMEOUT && timeOutIdx == 0 &&
        AllOf(Statuses(), RCV_REPLY_ERROR, RCV_REPLY_RESERVED))
      ensures main == Some(Level.MCAM_WAIT) ==> (recReady && AllOf(Statuses(), RCV_REPLY_NONE, RCV_REPLY_ERROR) &&
        CountOf(Statuses(), RCV_REPLY_NONE) == 0)
      ensures main == None || main == Some(Level.MCAM_INTERRUPT) || main == Some(Level.MCAM_WAIT)
      ensures old(status) == CONN_DOWNLOAD && status == CONN_WAIT_UPLOAD ==> (|frames| == |clients| &&
        forall i :: 0 <= i < |clients| ==> frames[i] == FrameClient(clients[i].status == RCV_REPLY_NONE, clients[i].android))
      ensures !(old(status) == CONN_DOWNLOAD && status == CONN_WAIT_UPLOAD) ==> frames == old(frames)
    {
      main := None;
      if status == CONN_DOWNLOAD {
        main := CheckDownload(recReady);
      }
    }

    /** Peer `j` of the first `|during|` took its turn of the pass with the
        connexion in state `during[j]`, and its new status is that turn's outcome. */
    twostate predicate PassServed(now: int, inputs: seq<PeerInput>, during: seq<int>)
      reads this`clients, clients
      requires old(clients) == clients && |during| <= |clients| <= |inputs|
    {
      forall j {:trigger TurnStatus(old(clients[j].View()), now, inputs[j], Transferring(during[j]))} :: 0 <= j < |during| ==>
        clients[j].status == TurnStatus(old(clients[j].View()), now, inputs[j], Transferring(during[j]))
    }

    /** The turn of peer `c` in the pass, as the loop over the peers needs it. */
    method TakeTurn(c: int, now: int, input: PeerInput) returns (stop: bool, sent: seq<Packet>)
      requires Valid() && 0 <= c < |clients|
      modifies sendBuffer, this`status, this`timeOutIdx, this`picSize, clients[c]
      ensures Valid() && |sent| <= 1 && forall j :: 0 <= j < |sent| ==> sent[j].peer == c
      ensures stop ==> (clients[c].status == RCV_REPLY_ERROR || status == CONN_TIMEOUT)
      ensures !stop ==> status in {old(status), CONN_WAIT, CONN_GO}
      ensures status in {old(status), CONN_WAIT, CONN_GO, CONN_TIMEOUT}
      ensures Expired(old(clients[c].status), old(clients[c].timeOut), now) ==> stop
      ensures Pending(old(clients[c].status), old(clients[c].timeOut), now, old(clients[c].eof)) ==> unchanged(clients[c])
      ensures clients[c].status == TurnStatus(old(clients[c].View()), now, input, Transferring(old(status)))
    {
      stop, sent := ServePeer(c, now, input);
    }

    /** The loop of the pass: every peer in order is served, until one ends the pass. */
    method ServePeers(now: int, inputs: seq<PeerInput>) returns (sent: seq<Packet>, stopAt: nat, ghost during: seq<int>)
      requires Valid() && |clients| <= |inputs|
      modifies sendBuffer, this`status, this`timeOutIdx, this`picSize, set p | p in clients
      ensures Valid() && clients == old(clients) && stopAt <= |clients|
      ensures forall j :: 0 <= j < |sent| ==> sent[j].peer <= stopAt && sent[j].peer < |clients|
      ensures forall j, l :: 0 <= j < l < |sent| ==> sent[j].peer < sent[l].peer
      ensures forall j :: 0 <= j < stopAt ==> !Expired(old(clients[j].status), old(clients[j].timeOut), now)
      ensures stopAt < |clients| ==> (clients[stopAt].status == RCV_REPLY_ERROR || status == CONN_TIMEOUT)
      ensures forall j :: stopAt < j < |clients| ==> unchanged(clients[j])
      ensures forall j :: (0 <= j < |clients| &&
        Pending(old(clients[j].status), old(clients[j].timeOut), now, old(clients[j].eof))) ==> unchanged(clients[j])
      ensures status in {old(status), CONN_WAIT, CONN_GO, CONN_TIMEOUT}
      ensures |during| == if stopAt < |clients| then stopAt + 1 else |clients|
      ensures forall j :: 0 <= j < |during| ==> during[j] in {old(status), CONN_WAIT, CONN_GO}
      ensures forall j {:trigger TurnStatus(old(clients[j].View()), now, inputs[j], Transferring(during[j]))} :: 0 <= j < |during| ==>
        clients[j].status == TurnStatus(old(clients[j].View()), now, inputs[j], Transferring(during[j]))
    {
      sent := [];
      during := [];
      var i := 0;
      stopAt := |clients|;
      while i < |clients|
        invariant 0 <= i <= |clients| && clients == old(clients) && stopAt == |clients|
        invariant forall j :: 0 <= j < |sent| ==> sent[j].peer < i
        invariant forall j, l :: 0 <= j < l < |sent| ==> sent[j].peer < sent[l].peer
        invariant forall j :: 0 <= j < i ==> !Expired(old(clients[j].status), old(clients[j].timeOut), now)
        invariant forall j :: i <= j < |clients| ==> unchanged(clients[j])
        invariant forall j :: (0 <= j < i &&
          Pending(old(clients[j].status), old(clients[j].timeOut), now, old(clients[j].eof))) ==> unchanged(clients[j])
        invariant status in {old(status), CONN_WAIT, CONN_GO}
        invariant |during| == i && forall j :: 0 <= j < i ==> during[j] in {old(status), CONN_WAIT, CONN_GO}
        invariant forall j {:trigger TurnStatus(old(clients[j].View()), now, inputs[j], Transferring(during[j]))} :: 0 <= j < i ==>
          clients[j].status == TurnStatus(old(clients[j].View()), now, inputs[j], Transferring(during[j]))
      {
        during := during + [status];
        var stop, s := TakeTurn(i, now, inputs[i]);
        sent := sent + s;
        if stop {
          stopAt := i;
          break;
        }
        i := i + 1;
      }
    }

    /**
     * The client's check of what the server sent. During the upload, a
     * filled video whose processing has not ended yet reports nothing, and
     * one whose processing ended lets the client wait again. Then a failed
     * read, or a silence longer than `timeout` seconds, times the session
     * out; a complete message is a video packet during the upload, and
     * otherwise is classified, a message no request accepts timing the
     * session out; an incomplete one reports nothing.
     */
    method ClientReceive(now: int, timeout: int, videoFilled: bool, videoStatus: int) returns (r: int)
      requires !server && curClient != null
      modifies this`status
      ensures var processing := old(status) == CONN_UPLOAD && videoFilled && videoStatus == 0;
        var st := if old(status) == CONN_UPLOAD && videoFilled then CONN_WAIT else old(status);
        var failed := curClient.status == RCV_REPLY_ERROR || now - curClient.timeOut > timeout;
        && (processing ==> (r == RCV_REPLY_NONE && status == old(status)))
        && (!processing && failed ==> (r == RCV_REPLY_ERROR && status == CONN_TIMEOUT))
        && (!processing && !failed && curClient.eof && st == CONN_UPLOAD ==> (r == RCV_REPLY_UPLOAD && status == st))
        && (!processing && !failed && curClient.eof && st != CONN_UPLOAD ==> (r == Classify(curClient.Message()) &&
          status == (if r == RCV_REPLY_ERROR then CONN_TIMEOUT else st)))
        && (!processing && !failed && !curClient.eof ==> (r == RCV_REPLY_NONE && status == st))
    {
      if status == CONN_UPLOAD && videoFilled {
        if videoStatus == 0 {
          return RCV_REPLY_NONE;
        }
        status := CONN_WAIT;
      }
      if curClient.status == RCV_REPLY_ERROR || now - curClient.timeOut > timeout {
        status := CONN_TIMEOUT;
        return RCV_REPLY_ERROR;
      }
      if !curClient.eof {
        return RCV_REPLY_NONE;
      }
      if status == CONN_UPLOAD {
        return RCV_REPLY_UPLOAD;
      }
      r := Classify(curClient.Message());
      if r == RCV_REPLY_ERROR {
        status := CONN_TIMEOUT;
      }
    }

    /** The client keeps the token of the request it received, to sign its reply with it. */
    method AssignSecurity()
      requires !server && curClient != null && curClient.rcvLength >= TRAILER_LEN
      modifies curClient`security
      ensures curClient.security == TokenOf(curClient.Message())
    {
      var msg := curClient.Message();
      curClient.security := Be16At(msg, |msg| - TRAILER_LEN);
    }

    /**
     * The client's send of `data`, signed with the token of the request it
     * answers: the frame given to the socket is returned; a failed send
     * times the session out, a delivered one refreshes the server's timeout.
     */
    method ClientSend(data: seq<byte>, len: int, delivered: bool, now: int) returns (ok: bool, frame: seq<byte>)
      requires Valid() && !server && curClient != null
      requires TRAILER_LEN <= len && len - TRAILER_LEN <= MAX_MESSAGE_SIZE && len - TRAILER_LEN <= |data|
      modifies sendBuffer, this`status, curClient`timeOut
      ensures frame == Frame(data[..len - TRAILER_LEN], curClient.security)
      ensures ok == delivered
      ensures ok ==> (status == old(status) && curClient.timeOut == now)
      ensures !ok ==> (status == CONN_TIMEOUT && curClient.timeOut == old(curClient.timeOut))
    {
      AddCheckSum(data, len, curClient.security);
      frame := sendBuffer[..len];
      if !delivered {
        status := CONN_TIMEOUT;
        return false, frame;
      }
      curClient.timeOut := now;
      return true, frame;
    }

    /** The client's request for upload packet `packet`, signed with the token of the server's last request. */
    method ReplyUpload(packet: int, delivered: bool, now: int) returns (ok: bool, frame: seq<byte>)
      requires Valid() && !server && curClient != null
      modifies sendBuffer, this`status, curClient`timeOut
      ensures frame == Frame(UploadRequest(packet), curClient.security)
      ensures -32768 <= packet < 32768 ==> PacketIndexOf(frame) == packet
      ensures ok == delivered
      ensures ok ==> (status == old(status) && curClient.timeOut == now)
      ensures !ok ==> (status == CONN_TIMEOUT && curClient.timeOut == old(curClient.timeOut))
    {
      var reply := UploadRequest(packet);
      ok, frame := ClientSend(reply, UPLOAD_REPLY_LEN, delivered, now);
      assert reply[..UPLOAD_REPLY_LEN - TRAILER_LEN] == reply;
      if -32768 <= packet < 32768 {
        PacketIndexRoundTrip(packet, curClient.security);
      }
    }

    /** The client's position in its round robin is a fresh start or an address of the list. */
    ghost predicate RoundRobin(search: Search.SearchIP)
      reads this, search
    {
      && (ipIdx == MAX_IP_IDX || 1 <= ipIdx <= search.GetCount())
      && INITIAL_PORT_NO <= portNo <= MAX_PORT_NO
    }

    /**
     * The client's connection attempt, once the address search is idle: the
     * known addresses are tried from the last one to the first on one port,
     * then again on the next port; past MAX_PORT_NO the round robin starts
     * over with a new search, as it does when no address is known. A
     * successful connection makes the server the client's only peer, and
     * the session waits for its verify request. `connects` is the socket's
     * answer for the address tried, which is returned.
     */
    method IsConnected(search: Search.SearchIP, connects: bool, now: int) returns (b: bool, tried: Option<(string, int)>)
      requires !server && RoundRobin(search)
      modifies this`ipIdx, this`portNo, this`status, this`curClient, search
      ensures RoundRobin(search)
      ensures old(status) != CONN_CONNEXION || old(search.running) ==> (b == (old(status) != CONN_CONNEXION) &&
        tried == None && unchanged(this) && unchanged(search))
      ensures old(status) == CONN_CONNEXION && !old(search.running) && old(ipIdx) == MAX_IP_IDX && old(search.GetCount()) == 0 ==>
        (!b && tried == None && search.running && search.list == (if connected then old(search.list) else []) &&
        status == old(status) && ipIdx == old(ipIdx) && portNo == old(portNo))
      ensures tried.Some? ==> var k := (if old(ipIdx) == MAX_IP_IDX then old(search.GetCount()) else old(ipIdx)) - 1;
        && 0 <= k < |old(search.list)| && tried.value == (old(search.list)[k], old(portNo)) && b == connects
        && (connects ==> (status == CONN_VERIFY && ipIdx == MAX_IP_IDX && portNo == INITIAL_PORT_NO &&
          curClient != null && fresh(curClient) && !curClient.server && curClient.status == RCV_REPLY_VERIFY &&
          curClient.timeOut == now && unchanged(search)))
        && (!connects && k > 0 ==> (status == old(status) && ipIdx == k && portNo == old(portNo) && unchanged(search)))
        && (!connects && k == 0 && old(portNo) < MAX_PORT_NO ==> (status == old(status) &&
          ipIdx == old(search.GetCount()) && portNo == old(portNo) + 1 && unchanged(search)))
        && (!connects && k == 0 && old(portNo) == MAX_PORT_NO ==> (status == old(status) &&
          ipIdx == MAX_IP_IDX && portNo == INITIAL_PORT_NO && search.running &&
          search.list == (if connected then old(search.list) else [])))
      ensures tried == None <==> (!(old(status) == CONN_CONNEXION && !old(search.running) &&
        (old(ipIdx) != MAX_IP_IDX || old(search.GetCount()) != 0)))
    {
      tried := None;
      if status != CONN_CONNEXION {
        return true, None;
      }
      if search.running {
        return false, None;
      }
      if ipIdx == MAX_IP_IDX {
        if search.GetCount() == 0 {
          search.Start(connected);
          return false, None;
        }
        ipIdx := search.GetCount();
      }
      ipIdx := ipIdx - 1;
      tried := Some((search.GetIP(ipIdx), portNo));
      if connects {
        portNo := INITIAL_PORT_NO;
        ipIdx := MAX_IP_IDX;
        curClient := new Peer(false, 0, now);
        status := CONN_VERIFY;
        return true, tried;
      }
      if ipIdx == 0 {
        ipIdx := search.GetCount();
        portNo := portNo + 1;
        if portNo > MAX_PORT_NO {
          portNo := INITIAL_PORT_NO;
          ipIdx := MAX_IP_IDX;
          search.Start(connected);
        }
      }
      return false, tried;
    }
  }
}
