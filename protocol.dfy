/**
 * The session's vocabulary (`Connexion`): its status, the queries over
 * the statuses of the peers, the requests a client recognises, and the
 * rules by which the server serves video packets.
 */
module Protocol {
  import opened Wire
  import opened Peers

  // Session status.
  const CONN_OPEN := 0
  const CONN_WAIT := 1
  const CONN_TIMEOUT := 2
  const CONN_VERIFY := 3
  const CONN_ORIENTATION := 4
  const CONN_READY := 5
  const CONN_CONNEXION := 6
  const CONN_START := 7
  const CONN_CLOSE := 8
  const CONN_NEW := 9
  const CONN_GO := 10
  const CONN_DOWNLOAD := 11
  const CONN_WAIT_UPLOAD := 12
  const CONN_UPLOAD := 13

  predicate IsConnStatus(s: int)
  {
    CONN_OPEN <= s <= CONN_UPLOAD
  }

  type ConnStatus = s: int | IsConnStatus(s) witness CONN_OPEN

  /** A session status before the capture: peer failures still end the session's current step. */
  predicate PreCapture(s: int)
  {
    IsConnStatus(s) && s < CONN_GO
  }

  /** Every status of the set-up and the countdown comes before GO; the transfers come after it. */
  lemma StatusOrder()
    ensures PreCapture(CONN_OPEN) && PreCapture(CONN_WAIT) && PreCapture(CONN_TIMEOUT) && PreCapture(CONN_VERIFY)
    ensures PreCapture(CONN_ORIENTATION) && PreCapture(CONN_READY) && PreCapture(CONN_CONNEXION)
    ensures PreCapture(CONN_START) && PreCapture(CONN_CLOSE) && PreCapture(CONN_NEW)
    ensures forall s :: CONN_GO < s <= CONN_UPLOAD ==> IsConnStatus(s) && !PreCapture(s)
    ensures CONN_DOWNLOAD > CONN_GO && CONN_WAIT_UPLOAD > CONN_GO && CONN_UPLOAD > CONN_GO
  {
  }

  const MAX_TRY_COUNT := 12
  const MCAM_DELAY_TIMEOUT := 3
  const KEEPALIVE_INTERVAL := 15
  const KEEPALIVE_TIMEOUT := 2
  const INITIAL_PORT_NO := 1024
  const MAX_PORT_NO := INITIAL_PORT_NO + 20
  const MAX_IP_IDX := 0xff

  /** The number of peers in status `s`. */
  function CountOf(ss: seq<int>, s: int): nat
  {
    if ss == [] then 0 else CountOf(ss[..|ss| - 1], s) + (if ss[|ss| - 1] == s then 1 else 0)
  }

  /** Some peer is in status `s`. */
  predicate AnyOf(ss: seq<int>, s: int)
  {
    exists i :: 0 <= i < |ss| && ss[i] == s
  }

  /** Every peer is in status `s` or `otherwise`; true when there is no peer. */
  predicate AllOf(ss: seq<int>, s: int, otherwise: int)
  {
    forall i :: 0 <= i < |ss| ==> ss[i] == s || ss[i] == otherwise
  }

  /** The count never exceeds the number of peers, and is positive exactly when some peer is in that status. */
  lemma {:induction false} CountOfBounds(ss: seq<int>, s: int)
    ensures CountOf(ss, s) <= |ss|
    ensures CountOf(ss, s) > 0 <==> AnyOf(ss, s)
  {
    if ss != [] {
      var p := ss[..|ss| - 1];
      CountOfBounds(p, s);
      if AnyOf(p, s) {
        var i :| 0 <= i < |p| && p[i] == s;
        assert ss[i] == s;
      }
      if AnyOf(ss, s) && ss[|ss| - 1] != s {
        var i :| 0 <= i < |ss| && ss[i] == s;
        assert p[i] == s;
      }
    }
  }

  /** All peers in one status: the count is the number of peers. */
  lemma {:induction false} CountOfAll(ss: seq<int>, s: int)
    requires AllOf(ss, s, s)
    ensures CountOf(ss, s) == |ss|
  {
    if ss != [] {
      CountOfAll(ss[..|ss| - 1], s);
    }
  }

  /** The index of the first peer in status `s`, or the number of peers when there is none. */
  function FirstOf(ss: seq<int>, s: int): (k: nat)
    ensures k <= |ss|
    ensures forall j :: 0 <= j < k ==> ss[j] != s
    ensures k < |ss| ==> ss[k] == s
    ensures k == |ss| <==> !AnyOf(ss, s)
  {
    if ss == [] then 0
    else if ss[0] == s then 0
    else
      var k := FirstOf(ss[1..], s);
      assert forall j :: 1 <= j < |ss| ==> ss[j] == ss[1..][j - 1];
      k + 1
  }

  /** The index of the first peer not in status `s`, or the number of peers when all are. */
  function FirstNotOf(ss: seq<int>, s: int): (k: nat)
    ensures k <= |ss|
    ensures forall j :: 0 <= j < k ==> ss[j] == s
    ensures k < |ss| ==> ss[k] != s
  {
    if ss == [] then 0
    else if ss[0] != s then 0
    else
      var k := FirstNotOf(ss[1..], s);
      assert forall j :: 1 <= j < |ss| ==> ss[j] == ss[1..][j - 1];
      k + 1
  }

  /**
   * The server's acceptance of a reply: exactly the expected length, the
   * command in front, a valid checksum, and the token of the request.
   */
  predicate ExpectedReply(msg: seq<byte>, rlen: int, cmd: seq<byte>, token: int)
  {
    |msg| == rlen && HasPrefix(msg, cmd) && CheckSumOk(msg) && TokenOk(msg, token)
  }

  /** A request the client recognises: its command, exact length and the status it reports. */
  datatype Request = Request(cmd: seq<byte>, len: nat, reply: int)

  const REQUESTS: seq<Request> := [
    Request(CMD_VERIFY, VERIFY_LEN, RCV_REPLY_VERIFY),
    Request(CMD_KEEPALIVE, KEEPALIVE_LEN, RCV_REPLY_KEEPALIVE),
    Request(CMD_ORIENTATION, ORIENTATION_LEN, RCV_REPLY_ORIENTATION),
    Request(CMD_READY, READY_LEN, RCV_REPLY_READY),
    Request(CMD_GET, GET_LEN, RCV_REPLY_GET),
    Request(CMD_DOWNLOAD, DOWNLOAD_LEN, RCV_REPLY_DOWNLOAD),
    Request(CMD_UPLOAD, UPLOAD_LEN, RCV_REPLY_UPLOAD)]

  predicate Accepts(r: Request, msg: seq<byte>)
  {
    |msg| == r.len && HasPrefix(msg, r.cmd) && CheckSumOk(msg)
  }

  /**
   * The client's recognition of a complete request: the length selects the
   * only request it can be, whose command must stand in front and whose
   * checksum must hold; anything else is an error.
   */
  function Classify(msg: seq<byte>): (r: int)
    ensures r == RCV_REPLY_ERROR || exists i :: 0 <= i < |REQUESTS| && REQUESTS[i].reply == r && Accepts(REQUESTS[i], msg)
  {
    var k := RequestOfLength(|msg|);
    if k < |REQUESTS| && HasPrefix(msg, REQUESTS[k].cmd) && CheckSumOk(msg) then REQUESTS[k].reply
    else RCV_REPLY_ERROR
  }

  /** The request of a given length, as an index into the table (the table's size when none). */
  function RequestOfLength(n: nat): (k: nat)
    ensures k <= |REQUESTS|
    ensures k < |REQUESTS| ==> REQUESTS[k].len == n
    ensures k == |REQUESTS| ==> forall j :: 0 <= j < |REQUESTS| ==> REQUESTS[j].len != n
  {
    if n == VERIFY_LEN then 0
    else if n == KEEPALIVE_LEN then 1
    else if n == ORIENTATION_LEN then 2
    else if n == READY_LEN then 3
    else if n == GET_LEN then 4
    else if n == DOWNLOAD_LEN then 5
    else if n == UPLOAD_LEN then 6
    else 7
  }

  /** The requests have pairwise different lengths and reply statuses, none of them the error status. */
  lemma RequestsDistinct()
    ensures forall i, j :: 0 <= i < j < |REQUESTS| ==> REQUESTS[i].len != REQUESTS[j].len
    ensures forall i, j :: 0 <= i < j < |REQUESTS| ==> REQUESTS[i].reply != REQUESTS[j].reply
    ensures forall i :: 0 <= i < |REQUESTS| ==> REQUESTS[i].reply != RCV_REPLY_ERROR && IsReplyStatus(REQUESTS[i].reply)
  {
  }

  /** The client reports a request exactly when the message is that request, and an error for anything else. */
  lemma ClassifyExact(msg: seq<byte>, i: nat)
    requires i < |REQUESTS|
    ensures Classify(msg) == REQUESTS[i].reply <==> Accepts(REQUESTS[i], msg)
  {
    RequestsDistinct();
  }

  /** A message no request accepts is an error. */
  lemma ClassifyError(msg: seq<byte>)
    ensures Classify(msg) == RCV_REPLY_ERROR <==> forall i :: 0 <= i < |REQUESTS| ==> !Accepts(REQUESTS[i], msg)
  {
    RequestsDistinct();
    var k := RequestOfLength(|msg|);
    if Classify(msg) == RCV_REPLY_ERROR {
      forall i | 0 <= i < |REQUESTS|
        ensures !Accepts(REQUESTS[i], msg)
      {
        assert Accepts(REQUESTS[i], msg) ==> k == i;
      }
    } else {
      assert Accepts(REQUESTS[k], msg);
    }
  }

  /** Every request the server frames with a token reaches the client as that request. */
  lemma RequestRecognised(i: nat, payload: seq<byte>, token: nat)
    requires i < |REQUESTS| && token < 65536
    requires |payload| + TRAILER_LEN == REQUESTS[i].len && HasPrefix(payload, REQUESTS[i].cmd)
    ensures Classify(Frame(payload, token)) == REQUESTS[i].reply
  {
    FrameRoundTrip(payload, token);
    var f := Frame(payload, token);
    assert f[..|REQUESTS[i].cmd|] == payload[..|REQUESTS[i].cmd|];
    ClassifyExact(f, i);
  }


  /** The payload of the verify request giving the peer at `index` its frame rank, `index + 2`. */
  function VerifyRequest(index: nat, landscape: bool): (r: seq<byte>)
    ensures |r| + TRAILER_LEN == VERIFY_LEN && HasPrefix(r, CMD_VERIFY)
  {
    CMD_VERIFY + [(index + 2) % 256, if landscape then ORIENTATION_LAND else ORIENTATION_PORT, OS_ANDROID]
  }

  /** The client recognises a verify request and reads its frame rank and orientation back. */
  lemma VerifyRequestRead(index: nat, landscape: bool, token: nat)
    requires index < 254 && token < 65536
    ensures var f := Frame(VerifyRequest(index, landscape), token);
      Classify(f) == RCV_REPLY_VERIFY &&
      f[VERIFY_FRAMENO_IDX] == index + 2 &&
      (f[VERIFY_FRAMENO_IDX + 1] == ORIENTATION_LAND <==> landscape)
  {
    RequestRecognised(0, VerifyRequest(index, landscape), token);
  }

  /** What the server does with a request for upload packet `packet`. */
  datatype UploadAction = BadRequest | Complete | SendChunk(payload: seq<byte>)

  /**
   * The serving rule: with `last` the number of packets (as a `short`), an
   * index below zero or past `last` is refused, `last` itself ends the
   * upload, and any other index gets its chunk.
   */
  function ServeUpload(video: seq<byte>, packet: int): (a: UploadAction)
    ensures a.SendChunk? ==> 0 <= packet && packet * MAX_MESSAGE_SIZE <= |video| && a.payload == Chunk(video, packet)
  {
    var last := ToShort(|video| / MAX_MESSAGE_SIZE + 1);
    if packet < 0 || packet > last then BadRequest
    else if packet == last then Complete
    else SendChunk(Chunk(video, packet))
  }

  /**
   * For a video of fewer than 32767 packets, the indexes 0 to |video| / M
   * get chunks, the next one completes the upload, and any other index is
   * refused; a video whose size is a multiple of M ends with an empty chunk.
   */
  lemma ServeUploadCases(video: seq<byte>, packet: int)
    requires |video| / MAX_MESSAGE_SIZE + 1 < 32768
    ensures var n := |video| / MAX_MESSAGE_SIZE;
      (0 <= packet <= n ==> ServeUpload(video, packet) == SendChunk(Chunk(video, packet))) &&
      (packet == n + 1 ==> ServeUpload(video, packet) == Complete) &&
      (packet < 0 || packet > n + 1 ==> ServeUpload(video, packet) == BadRequest) &&
      (|video| % MAX_MESSAGE_SIZE == 0 ==> Chunk(video, n) == [])
  {
  }
  /** `memcmp` on unsigned bytes: the sign of the first difference, zero when equal. */
  function Compare(a: seq<byte>, b: seq<byte>): (r: int)
    requires |a| == |b|
    ensures -1 <= r <= 1
    ensures r == 0 <==> a == b
    ensures a != [] && a[0] != b[0] ==> (r > 0 <==> a[0] > b[0])
  {
    if a == [] then 0
    else if a[0] < b[0] then -1
    else if a[0] > b[0] then 1
    else
      var r := Compare(a[1..], b[1..]);
      assert a == [a[0]] + a[1..] && b == [b[0]] + b[1..];
      r
  }

  /** The client's reply to a verify request: its version, its main status and its system. */
  function VerifyReply(version: seq<byte>, mainStatus: byte, os: byte): (r: seq<byte>)
    requires |version| == |MCAM_VERSION|
    ensures |r| + TRAILER_LEN == VERIFY_REPLY_LEN && HasPrefix(r, CMD_VERIFY)
    ensures r[|CMD_VERIFY|..REPLY_STATUS_IDX] == version
    ensures r[REPLY_STATUS_IDX] == mainStatus && r[REPLY_OS_IDX] == os
  {
    CMD_VERIFY + version + [mainStatus, os]
  }

  /** A version written `d.dd`. */
  predicate VersionFormat(v: seq<byte>)
  {
    |v| == 4 && '0' as int <= v[0] <= '9' as int && v[1] == '.' as int &&
    '0' as int <= v[2] <= '9' as int && '0' as int <= v[3] <= '9' as int
  }

  /**
   * The server's version test as written: the four bytes compared with its
   * own version start at `sizeof(CMD_VERIFY)`, one past where the client
   * wrote its version.
   */
  predicate VersionRefusedAsWritten(msg: seq<byte>): (refused: bool)
    requires |msg| >= |CMD_VERIFY| + 1 + |MCAM_VERSION|
    ensures refused ==> msg[|CMD_VERIFY| + 1] >= MCAM_VERSION[0]
  {
    Compare(msg[|CMD_VERIFY| + 1..|CMD_VERIFY| + 1 + |MCAM_VERSION|], MCAM_VERSION) > 0
  }

  /** The server's version test on the version the client wrote: a client newer than the server is refused. */
  predicate VersionRefused(msg: seq<byte>)
    requires |msg| >= REPLY_STATUS_IDX
  {
    Compare(msg[|CMD_VERIFY|..REPLY_STATUS_IDX], MCAM_VERSION) > 0
  }

  /** As written, the test compares the version's `.` with the server's leading digit, so it never refuses a `d.dd` version. */
  lemma VersionAsWrittenNeverRefuses(version: seq<byte>, mainStatus: byte, os: byte, token: nat)
    requires VersionFormat(version)
    ensures !VersionRefusedAsWritten(Frame(VerifyReply(version, mainStatus, os), token))
  {
    var f := Frame(VerifyReply(version, mainStatus, os), token);
    var r := VerifyReply(version, mainStatus, os);
    assert f[..|r|] == r;
    assert f[|CMD_VERIFY| + 1] == version[1];
  }

  /** The intended test refuses exactly the clients whose version is above the server's. */
  lemma VersionRefusedExactly(version: seq<byte>, mainStatus: byte, os: byte, token: nat)
    requires |version| == |MCAM_VERSION|
    ensures VersionRefused(Frame(VerifyReply(version, mainStatus, os), token)) <==> Compare(version, MCAM_VERSION) > 0
  {
    var f := Frame(VerifyReply(version, mainStatus, os), token);
    var r := VerifyReply(version, mainStatus, os);
    assert f[..|r|] == r;
    assert f[|CMD_VERIFY|..REPLY_STATUS_IDX] == r[|CMD_VERIFY|..REPLY_STATUS_IDX];
  }

  /** A client of version 2.00 passes the test as written and is refused by the intended one. */
  lemma NewerVersionPassesAsWritten(token: nat)
    ensures var f := Frame(VerifyReply(Ascii("2.00"), 2, OS_ANDROID), token);
      !VersionRefusedAsWritten(f) && VersionRefused(f)
  {
    VersionAsWrittenNeverRefuses(Ascii("2.00"), 2, OS_ANDROID, token);
    VersionRefusedExactly(Ascii("2.00"), 2, OS_ANDROID, token);
  }

  /** The server accepts the reply of a client of its own version, signed with the request's token. */
  lemma VerifyReplyAccepted(mainStatus: byte, os: byte, token: nat)
    requires token < 65536
    ensures var f := Frame(VerifyReply(MCAM_VERSION, mainStatus, os), token);
      ExpectedReply(f, VERIFY_REPLY_LEN, CMD_VERIFY, token) && !VersionRefused(f) && !VersionRefusedAsWritten(f) &&
      (f[REPLY_OS_IDX] == OS_ANDROID <==> os == OS_ANDROID)
  {
    var r := VerifyReply(MCAM_VERSION, mainStatus, os);
    var f := Frame(r, token);
    FrameRoundTrip(r, token);
    assert f[..|r|] == r;
    assert f[..|CMD_VERIFY|] == r[..|CMD_VERIFY|];
    VersionRefusedExactly(MCAM_VERSION, mainStatus, os, token);
    VersionAsWrittenNeverRefuses(MCAM_VERSION, mainStatus, os, token);
  }
  /** The statuses in which the server checks a reply with its command and exact length. */
  predicate CheckedReply(r: int)
  {
    r == RCV_REPLY_KEEPALIVE || r == RCV_REPLY_VERIFY || r == RCV_REPLY_ORIENTATION || r == RCV_REPLY_READY ||
    r == RCV_REPLY_GO || r == RCV_REPLY_GET || r == RCV_REPLY_UPLOAD
  }

  /** The command and exact length of the reply a peer awaiting `r` must send. */
  function AwaitedReply(r: int): (q: Request)
    requires CheckedReply(r)
    ensures q.reply == r && q.len == |q.cmd| + TRAILER_LEN + (if r == RCV_REPLY_VERIFY then 6 else if r == RCV_REPLY_GET then 3 else if r == RCV_REPLY_UPLOAD then 2 else 0)
  {
    if r == RCV_REPLY_KEEPALIVE then Request(CMD_KEEPALIVE, KEEPALIVE_LEN, r)
    else if r == RCV_REPLY_VERIFY then Request(CMD_VERIFY, VERIFY_REPLY_LEN, r)
    else if r == RCV_REPLY_ORIENTATION then Request(CMD_ORIENTATION, ORIENTATION_REPLY_LEN, r)
    else if r == RCV_REPLY_READY then Request(CMD_READY, READY_LEN, r)
    else if r == RCV_REPLY_GO then Request(CMD_REPLY_GO, GO_REPLY_LEN, r)
    else if r == RCV_REPLY_GET then Request(CMD_GET, GET_REPLY_LEN, r)
    else Request(CMD_UPLOAD, UPLOAD_REPLY_LEN, r)
  }

  /**
   * The client signs its reply with the token it read from the request, so
   * the reply passes the server's token test for that request.
   */
  lemma TokenEcho(request: seq<byte>, reply: seq<byte>, token: nat)
    requires |request| <= MAX_MESSAGE_SIZE && |reply| <= MAX_MESSAGE_SIZE && token < 65536
    ensures var echoed := TokenOf(Frame(request, token));
      echoed == token && CheckSumOk(Frame(reply, echoed)) && TokenOk(Frame(reply, echoed), token)
  {
    FrameRoundTrip(request, token);
    FrameRoundTrip(reply, token);
  }

  /**
   * Once every peer is idle or failed, no idle peer means every peer
   * failed: the download check's branch for a capture with nothing to save
   * is already taken by its all-failed test.
   */
  lemma NothingToSaveMeansAllFailed(ss: seq<int>)
    requires AllOf(ss, RCV_REPLY_NONE, RCV_REPLY_ERROR) && CountOf(ss, RCV_REPLY_NONE) == 0
    ensures AllOf(ss, RCV_REPLY_ERROR, RCV_REPLY_RESERVED)
  {
    CountOfBounds(ss, RCV_REPLY_NONE);
  }
}
