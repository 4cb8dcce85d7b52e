/**
 * Wire format of the capture-session protocol.
 *
 * Every message except the one-byte GO trigger is framed as
 *
 *     command ++ payload ++ token (2 bytes) ++ byte sum (3 bytes)
 *
 * with both trailer fields big-endian. The byte sum covers everything before
 * it, token included. The server draws a fresh token for each request and a
 * client signs its reply with the token it last received.
 */
module Wire {

  /** One octet as the socket carries it. */
  type byte = x: int | 0 <= x < 256
  type u16 = x: int | 0 <= x < 0x1_0000
  type i16 = x: int | -0x8000 <= x < 0x8000
  type u24 = x: int | 0 <= x < 0x100_0000

  const SECURITY_LEN: nat := 2
  const CHECKSUM_LEN: nat := 3
  const TRAILER_LEN: nat := SECURITY_LEN + CHECKSUM_LEN
  const MAX_PACKET_SIZE: nat := 65535
  const MAX_MESSAGE_SIZE: nat := MAX_PACKET_SIZE - TRAILER_LEN

  /** Byte image of an ASCII literal, as the command strings are sent. */
  function Ascii(s: string): seq<byte>
  {
    seq(|s|, i requires 0 <= i < |s| => (s[i] as int) % 256)
  }

  // Commands, without their terminating NUL.
  const CMD_VERIFY := Ascii("VERIF_MCAM#")
  const CMD_KEEPALIVE := Ascii("KEEPALIVE_MCAM#")
  const CMD_GO := Ascii("1")
  const CMD_REPLY_GO := Ascii("DONE_MCAM#")
  const CMD_DOWNLOAD := Ascii("DOWNLOAD_PIC_MCAM#")
  const CMD_UPLOAD := Ascii("UPLOAD_MCAM#")
  const CMD_ORIENTATION := Ascii("ORIENTATION_MCAM#")
  const CMD_READY := Ascii("READY_MCAM#")
  const CMD_GET := Ascii("GET_MCAM#")
  const MCAM_VERSION := Ascii("1.00")

  // One-character payload values.
  const ORIENTATION_LAND: byte := '1' as int
  const ORIENTATION_PORT: byte := '0' as int
  const DOWNLOAD_FROM_BEGIN: byte := '1' as int
  const DOWNLOAD_NEXT_PART: byte := '0' as int
  const OS_ANDROID: byte := '1' as int
  const OS_IOS: byte := '0' as int

  // Framed lengths: command, fixed payload, trailer.
  const VERIFY_LEN := |CMD_VERIFY| + 3 + TRAILER_LEN             // frame rank, orientation, server OS
  const VERIFY_REPLY_LEN := |MCAM_VERSION| + VERIFY_LEN - 1      // version, main status, client OS
  const KEEPALIVE_LEN := |CMD_KEEPALIVE| + TRAILER_LEN
  const ORIENTATION_LEN := |CMD_ORIENTATION| + 1 + TRAILER_LEN   // orientation
  const ORIENTATION_REPLY_LEN := |CMD_ORIENTATION| + TRAILER_LEN
  const READY_LEN := |CMD_READY| + TRAILER_LEN
  const GO_REPLY_LEN := |CMD_REPLY_GO| + TRAILER_LEN
  const GET_LEN := |CMD_GET| + TRAILER_LEN
  const GET_REPLY_LEN := |CMD_GET| + 3 + TRAILER_LEN             // picture size
  const DOWNLOAD_LEN := |CMD_DOWNLOAD| + 1 + TRAILER_LEN         // from begin / next part
  const UPLOAD_LEN := |CMD_UPLOAD| + 5 + TRAILER_LEN             // video size, fps
  const UPLOAD_REPLY_LEN := |CMD_UPLOAD| + 2 + TRAILER_LEN       // requested packet index

  // Payload positions.
  const VERIFY_FRAMENO_IDX := |CMD_VERIFY|
  const REPLY_STATUS_IDX := |CMD_VERIFY| + |MCAM_VERSION|
  const REPLY_OS_IDX := REPLY_STATUS_IDX + 1
  const UPLOAD_SIZE_IDX := |CMD_UPLOAD|
  const REPLY_PICSIZE_IDX := |CMD_GET| + 1

  /** A value that may be absent (a null pointer, a not-yet-created object). */
  datatype Option<T> = None | Some(value: T)

  /** The byte sum of a sequence, as the 32-bit accumulator computes it (it never wraps at these sizes). */
  function Sum(s: seq<byte>): nat
  {
    if s == [] then 0 else Sum(s[..|s| - 1]) + s[|s| - 1] as int
  }

  /** Big-endian 16-bit encoding: the two `char` casts of `x >> 8` and `x`. */
  function Be16(x: int): seq<byte>
  {
    [(x / 256) % 256, x % 256]
  }

  /** Big-endian 24-bit encoding: the three `char` casts of `x >> 16`, `x >> 8` and `x`. */
  function Be24(x: nat): seq<byte>
  {
    [(x / 65536) % 256, (x / 256) % 256, x % 256]
  }

  /** The unsigned value of the two bytes at `at`. */
  function Be16At(s: seq<byte>, at: nat): nat
    requires at + 2 <= |s|
  {
    (s[at] as int) * 256 + s[at + 1] as int
  }

  /** The unsigned value of the three bytes at `at`. */
  function Be24At(s: seq<byte>, at: nat): nat
    requires at + 3 <= |s|
  {
    (s[at] as int) * 65536 + (s[at + 1] as int) * 256 + s[at + 2] as int
  }

  /** Conversion of an integer to a signed 16-bit `short` (two's complement wrap). */
  function ToShort(x: int): int
  {
    var m := x % 65536;
    if m < 32768 then m else m - 65536
  }

  /** The frame the sender builds for `payload` signed with `token`. */
  function Frame(payload: seq<byte>, token: nat): (f: seq<byte>)
    ensures |f| == |payload| + TRAILER_LEN
    ensures f[..|payload|] == payload
  {
    var body := payload + Be16(token);
    body + Be24(Sum(body))
  }

  /** The byte sum a received message carries in its last three bytes. */
  function StoredSum(msg: seq<byte>): nat
    requires |msg| >= CHECKSUM_LEN
  {
    Be24At(msg, |msg| - CHECKSUM_LEN)
  }

  /**
   * The receiver's checksum test. A message shorter than the checksum itself
   * is refused (the source would read before its buffer).
   */
  predicate CheckSumOk(msg: seq<byte>)
  {
    |msg| >= CHECKSUM_LEN && Sum(msg[..|msg| - CHECKSUM_LEN]) == StoredSum(msg)
  }

  /** The token a received message carries just before its checksum. */
  function TokenOf(msg: seq<byte>): nat
    requires |msg| >= TRAILER_LEN
  {
    Be16At(msg, |msg| - TRAILER_LEN)
  }

  /** The receiver's token test against the token it expects. */
  predicate TokenOk(msg: seq<byte>, token: int)
  {
    |msg| >= TRAILER_LEN && TokenOf(msg) == token
  }

  /** `msg` starts with `prefix` (the `memcmp` of a command). */
  predicate HasPrefix(msg: seq<byte>, prefix: seq<byte>)
  {
    |prefix| <= |msg| && msg[..|prefix|] == prefix
  }

  /** The summing loop of the checksum verifier, proved against `CheckSumOk`. */
  method VerifyCheckSum(msg: seq<byte>) returns (ok: bool)
    ensures ok == CheckSumOk(msg)
  {
    if |msg| < CHECKSUM_LEN {
      return false;
    }
    var sum: int := 0;
    var i := 0;
    while i < |msg| - CHECKSUM_LEN
      invariant 0 <= i <= |msg| - CHECKSUM_LEN
      invariant sum == Sum(msg[..i])
    {
      assert msg[..i + 1][..i] == msg[..i];
      sum := sum + msg[i];
      i := i + 1;
    }
    assert msg[..i] == msg[..|msg| - CHECKSUM_LEN];
    ok := sum == StoredSum(msg);
  }

  /** The byte sum of the first `n` bytes of `a`, added up in order (the loop of `addCheckSum`). */
  method ArraySum(a: array<byte>, n: int) returns (sum: int)
    requires 0 <= n <= a.Length
    ensures sum == Sum(a[..n])
  {
    sum := 0;
    var i := 0;
    while i < n
      invariant 0 <= i <= n
      invariant sum == Sum(a[..i])
    {
      assert a[..i + 1][..i] == a[..i];
      sum := sum + a[i];
      i := i + 1;
    }
  }

  lemma {:induction false} SumAppend(a: seq<byte>, b: seq<byte>)
    ensures Sum(a + b) == Sum(a) + Sum(b)
  {
    if b == [] {
      assert a + b == a;
    } else {
      var b' := b[..|b| - 1];
      assert (a + b)[..|a + b| - 1] == a + b';
      SumAppend(a, b');
    }
  }

  lemma {:induction false} SumBound(s: seq<byte>)
    ensures Sum(s) <= 255 * |s|
  {
    if s != [] {
      SumBound(s[..|s| - 1]);
    }
  }

  /** Changing one byte changes the sum by exactly the difference. */
  lemma SumUpdate(s: seq<byte>, i: int, b: byte)
    requires 0 <= i < |s|
    ensures Sum(s[i := b]) == Sum(s) - s[i] + b
  {
    var pre, post := s[..i], s[i + 1..];
    assert s == pre + [s[i]] + post;
    assert s[i := b] == pre + [b] + post;
    SumAppend(pre + [s[i]], post);
    SumAppend(pre + [b], post);
    SumAppend(pre, [s[i]]);
    SumAppend(pre, [b]);
    assert [s[i]][..0] == [] && [b][..0] == [];
  }

  /** The 24-bit encoding decodes to the value modulo 2^24. */
  lemma Be24RoundTrip(x: nat)
    ensures Be24At(Be24(x), 0) == x % 0x100_0000
  {
    var hi, r := x / 65536, x % 65536;
    assert x == hi * 65536 + r;
    assert x / 256 == hi * 256 + r / 256;
    assert (x / 256) % 256 == (r / 256) % 256 == r / 256;
    assert x % 256 == r % 256;
    assert x % 0x100_0000 == (hi % 256) * 65536 + r;
  }

  /** Three bytes read as a 24-bit value are written back as the same three bytes. */
  lemma Be24Decodes(s: seq<byte>, at: nat)
    requires at + 3 <= |s|
    ensures Be24At(s, at) < 0x100_0000
    ensures Be24(Be24At(s, at)) == s[at..at + 3]
  {
    var a, b, c := s[at] as int, s[at + 1] as int, s[at + 2] as int;
    var x := Be24At(s, at);
    assert x == (a * 256 + b) * 256 + c;
    assert x / 256 == a * 256 + b;
    assert x % 256 == c;
    assert x / 65536 == (x / 256) / 256 == a;
    assert (x / 256) % 256 == b;
  }

  /** The 16-bit encoding decodes to the value modulo 2^16. */
  lemma Be16RoundTrip(x: int)
    ensures Be16At(Be16(x), 0) == x % 65536
  {
    var hi, r := x / 256, x % 256;
    assert x == hi * 256 + r;
    assert x % 65536 == (hi % 256) * 256 + r;
  }

  /**
   * The receiver accepts every frame the sender builds: the checksum holds
   * and the token read back is the one signed in, for any payload up to
   * MAX_MESSAGE_SIZE (the byte sum then stays below 2^24).
   */
  lemma FrameRoundTrip(payload: seq<byte>, token: nat)
    requires |payload| <= MAX_MESSAGE_SIZE && token < 65536
    ensures CheckSumOk(Frame(payload, token))
    ensures TokenOk(Frame(payload, token), token)
  {
    var body := payload + Be16(token);
    var f := Frame(payload, token);
    SumBound(body);
    assert Sum(body) < 0x100_0000;
    assert f[..|f| - CHECKSUM_LEN] == body;
    Be24RoundTrip(Sum(body));
    assert f[|f| - 3..] == Be24(Sum(body));
    assert StoredSum(f) == Be24At(Be24(Sum(body)), 0);
    Be16RoundTrip(token);
    assert TokenOf(f) == Be16At(Be16(token), 0);
  }

  /** Changing any single byte of a message that passes the checksum makes it fail. */
  lemma SingleByteChangeDetected(msg: seq<byte>, i: int, b: byte)
    requires CheckSumOk(msg)
    requires 0 <= i < |msg| && b != msg[i]
    ensures !CheckSumOk(msg[i := b])
  {
    var n := |msg|;
    var t := msg[i := b];
    if i < n - CHECKSUM_LEN {
      assert t[..n - CHECKSUM_LEN] == msg[..n - CHECKSUM_LEN][i := b];
      SumUpdate(msg[..n - CHECKSUM_LEN], i, b);
      assert StoredSum(t) == StoredSum(msg);
    } else {
      assert t[..n - CHECKSUM_LEN] == msg[..n - CHECKSUM_LEN];
    }
  }

  /** A frame with one byte changed is refused, for any payload and token. */
  lemma TamperedFrameRefused(payload: seq<byte>, token: nat, i: int, b: byte)
    requires |payload| <= MAX_MESSAGE_SIZE && token < 65536
    requires 0 <= i < |payload| + TRAILER_LEN && b != Frame(payload, token)[i]
    ensures !CheckSumOk(Frame(payload, token)[i := b])
  {
    FrameRoundTrip(payload, token);
    SingleByteChangeDetected(Frame(payload, token), i, b);
  }

  /** The server's decoding of a requested packet index (a signed `short`). */
  function PacketIndexOf(msg: seq<byte>): int
    requires |msg| >= UPLOAD_SIZE_IDX + 2
  {
    ToShort(Be16At(msg, UPLOAD_SIZE_IDX))
  }

  /** The payload of the client's upload request for packet `packet`. */
  function UploadRequest(packet: int): (r: seq<byte>)
    ensures |r| + TRAILER_LEN == UPLOAD_REPLY_LEN
  {
    CMD_UPLOAD + Be16(packet)
  }

  /** The server reads back every `short` packet index the client requests. */
  lemma PacketIndexRoundTrip(packet: int, token: nat)
    requires -32768 <= packet < 32768
    ensures PacketIndexOf(Frame(UploadRequest(packet), token)) == packet
  {
    var f := Frame(UploadRequest(packet), token);
    assert f[UPLOAD_SIZE_IDX..UPLOAD_SIZE_IDX + 2] == Be16(packet);
    Be16RoundTrip(packet);
    assert Be16At(f, UPLOAD_SIZE_IDX) == Be16At(Be16(packet), 0);
  }

  /** The server's decoding of the picture size in a GET reply. */
  function PicSizeOf(buf: seq<byte>): nat
    requires |buf| >= REPLY_PICSIZE_IDX + 2
  {
    Be24At(buf, REPLY_PICSIZE_IDX - 1)
  }

  /** The payload of the client's GET reply announcing a picture of `size` bytes. */
  function GetReply(size: nat): (r: seq<byte>)
    ensures |r| + TRAILER_LEN == GET_REPLY_LEN
  {
    CMD_GET + Be24(size)
  }

  /** The server reads the announced size back, truncated to the 24 bits the reply carries. */
  lemma PicSizeRoundTrip(size: nat, token: nat)
    ensures PicSizeOf(Frame(GetReply(size), token)) == size % 0x100_0000
  {
    var f := Frame(GetReply(size), token);
    assert f[REPLY_PICSIZE_IDX - 1..REPLY_PICSIZE_IDX + 2] == Be24(size);
    Be24RoundTrip(size);
    assert PicSizeOf(f) == Be24At(Be24(size), 0);
  }

  /** Bytes `[p*M, min(|video|, (p+1)*M))` of the video: the payload of upload packet `p`. */
  function Chunk(video: seq<byte>, p: nat): (r: seq<byte>)
    requires p * MAX_MESSAGE_SIZE <= |video|
    ensures |r| <= MAX_MESSAGE_SIZE
  {
    var from := p * MAX_MESSAGE_SIZE;
    if |video| - from > MAX_MESSAGE_SIZE then video[from..from + MAX_MESSAGE_SIZE] else video[from..]
  }

  /** The payloads of packets `p` up to the last one, `|video| / M`, in order. */
  function ChunksFrom(video: seq<byte>, p: nat): seq<byte>
    requires p * MAX_MESSAGE_SIZE <= |video|
    decreases |video| - p * MAX_MESSAGE_SIZE
  {
    if |video| - p * MAX_MESSAGE_SIZE < MAX_MESSAGE_SIZE then Chunk(video, p)
    else Chunk(video, p) + ChunksFrom(video, p + 1)
  }

  /**
   * Requesting packets 0, 1, ..., |video| / M in turn delivers the whole video,
   * each byte once and in order.
   */
  lemma {:induction false} ChunksCoverVideo(video: seq<byte>, p: nat)
    requires p * MAX_MESSAGE_SIZE <= |video|
    ensures ChunksFrom(video, p) == video[p * MAX_MESSAGE_SIZE..]
    decreases |video| - p * MAX_MESSAGE_SIZE
  {
    var from := p * MAX_MESSAGE_SIZE;
    if |video| - from >= MAX_MESSAGE_SIZE {
      ChunksCoverVideo(video, p + 1);
      assert video[from..] == video[from..from + MAX_MESSAGE_SIZE] + video[from + MAX_MESSAGE_SIZE..];
    }
  }
}
