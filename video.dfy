/**
 * The media side of a capture session: the recorder's bookkeeping of the
 * frames taken before and after the bullet time, the video buffer a client
 * fills from upload packets, the list of downloaded pictures, and the name
 * of the stored video file.
 */
module Media {
  import opened Wire
  import opened Text
  import opened Pictures

  const MAX_VIDEO_FPS := 16
  const MIN_VIDEO_FPS := 5
  const RECORD_DURATION_BEFORE := 7
  const RECORD_DURATION_AFTER := 3
  /** First index of the frames recorded after the bullet time. */
  const REC_AFTER_IDX := 700
  /** Audio block size of the (mono, 16-bit) microphone track. */
  const BYTES_PER_BLOC := 2

  /** How many frames per client the video shows at a given frame rate. */
  function FpsFactor(fps: int): (f: int)
    ensures 2 <= f <= 4
    ensures f == 4 <==> fps > 13
    ensures f == 2 <==> fps <= 8
  {
    if fps > 13 then 4 else if fps > 8 then 3 else 2
  }

  /** A faster frame rate never shows fewer frames per client. */
  lemma FpsFactorMonotone(a: int, b: int)
    requires a <= b
    ensures FpsFactor(a) <= FpsFactor(b)
  {
  }

  /** C's `%`: the remainder takes the sign of the dividend. */
  function CRem(a: int, b: int): (r: int)
    requires b > 0
    ensures -b < r < b
    ensures a >= 0 ==> r == a % b
    ensures a == (if a >= 0 then a / b else -((-a) / b)) * b + r
  {
    if a >= 0 then a % b else -((-a) % b)
  }

  /** The loop that moves an audio offset down to a block boundary. */
  method AlignDown(start: int) returns (r: int)
    ensures r % BYTES_PER_BLOC == 0
    ensures r <= start < r + BYTES_PER_BLOC
  {
    r := start;
    while CRem(r, BYTES_PER_BLOC) != 0
      invariant r <= start && r % BYTES_PER_BLOC == start % BYTES_PER_BLOC - (start - r)
      decreases r % BYTES_PER_BLOC
    {
      r := r - 1;
    }
  }

  // Recorder frame statuses.
  const STATUS_PROGRESS := 0
  const STATUS_DONE := 1
  const STATUS_REC_ERROR := 2

  datatype RecFrame = RecFrame(elapsed: int, index: int, status: int)

  /** Number of frames of `frames` in status `s`. */
  function CountStatus(frames: seq<RecFrame>, s: int): (n: nat)
    ensures n <= |frames|
  {
    if frames == [] then 0
    else CountStatus(frames[..|frames| - 1], s) + (if frames[|frames| - 1].status == s then 1 else 0)
  }

  /** No frame has status `s` exactly when the count is zero. */
  lemma {:induction false} CountStatusZero(frames: seq<RecFrame>, s: int)
    ensures CountStatus(frames, s) == 0 <==> forall i :: 0 <= i < |frames| ==> frames[i].status != s
  {
    if frames != [] {
      CountStatusZero(frames[..|frames| - 1], s);
      assert forall i :: 0 <= i < |frames| - 1 ==> frames[..|frames| - 1][i] == frames[i];
    }
  }

  /** Appending a frame counts it once when it has the status. */
  lemma CountStatusPush(frames: seq<RecFrame>, f: RecFrame, s: int)
    ensures CountStatus(frames + [f], s) == CountStatus(frames, s) + (if f.status == s then 1 else 0)
  {
    assert (frames + [f])[..|frames|] == frames;
  }

  class Recorder {
    var before: seq<RecFrame>
    var after: seq<RecFrame>

    constructor ()
      ensures before == [] && after == []
    {
      before := [];
      after := [];
    }

    /** Number of converted frames in one list, as the `short` the source returns. */
    function GetDoneCount(inBefore: bool): (n: int)
      reads this
      ensures var list := if inBefore then before else after;
        |list| < 32768 ==> 0 <= n <= |list| && n == CountStatus(list, STATUS_DONE)
    {
      ToShort(CountStatus(if inBefore then before else after, STATUS_DONE))
    }

    /** Whether every frame of both lists is out of the conversion. */
    function IsConverted(): (r: bool)
      reads this
      ensures r <==> (forall i :: 0 <= i < |before| ==> before[i].status != STATUS_PROGRESS) &&
                     (forall i :: 0 <= i < |after| ==> after[i].status != STATUS_PROGRESS)
    {
      CountStatusZero(before, STATUS_PROGRESS);
      CountStatusZero(after, STATUS_PROGRESS);
      CountStatus(before, STATUS_PROGRESS) == 0 && CountStatus(after, STATUS_PROGRESS) == 0
    }

    /**
     * Records one camera frame taken at `now`. `saved` is whether the frame
     * could be written to its file; a frame that could not is dropped and 0
     * returned. Otherwise the frame joins its list, numbered from 0 before
     * the bullet time and from 700 after it, and the result is 0 once the
     * list holds its duration at the maximum frame rate, else `now`.
     */
    method Add(inBefore: bool, now: int, saved: bool) returns (r: int)
      modifies this
      ensures !saved ==> r == 0 && before == old(before) && after == old(after)
      ensures saved && inBefore ==>
        after == old(after) && before == old(before) + [RecFrame(now, ToShort(|old(before)|), STATUS_PROGRESS)] &&
        r == (if |before| == RECORD_DURATION_BEFORE * MAX_VIDEO_FPS then 0 else now)
      ensures saved && !inBefore ==>
        before == old(before) && after == old(after) + [RecFrame(now, ToShort(|old(after)| + REC_AFTER_IDX), STATUS_PROGRESS)] &&
        r == (if |after| == RECORD_DURATION_AFTER * MAX_VIDEO_FPS then 0 else now)
    {
      if !saved {
        return 0;
      }
      var index := if inBefore then ToShort(|before|) else ToShort(|after| + REC_AFTER_IDX);
      var frame := RecFrame(now, index, STATUS_PROGRESS);
      if inBefore {
        before := before + [frame];
      } else {
        after := after + [frame];
      }
      r := if (inBefore && |before| == RECORD_DURATION_BEFORE * MAX_VIDEO_FPS) ||
              (!inBefore && |after| == RECORD_DURATION_AFTER * MAX_VIDEO_FPS) then 0 else now;
    }
  }

  /** A downloaded picture and the client it comes from. */
  datatype ClientPicture = ClientPicture(client: int, picture: Picture)

  /** The pictures of `frames`. */
  function PicturesOf(frames: seq<ClientPicture>): set<Picture>
  {
    set i | 0 <= i < |frames| :: frames[i].picture
  }

  /** Number of pictures of `frames` that are saved. */
  function CountDone(frames: seq<ClientPicture>): (n: nat)
    reads PicturesOf(frames)
    ensures n <= |frames|
  {
    if frames == [] then 0
    else
      assert forall i :: 0 <= i < |frames| - 1 ==> frames[..|frames| - 1][i] == frames[i];
      assert PicturesOf(frames[..|frames| - 1]) <= PicturesOf(frames);
      CountDone(frames[..|frames| - 1]) + (if frames[|frames| - 1].picture.IsDone() then 1 else 0)
  }

  /** The first picture of `frames` from `client`, if any. */
  function FirstOf(frames: seq<ClientPicture>, client: int): (p: Option<Picture>)
    ensures p.Some? ==> exists i :: 0 <= i < |frames| && frames[i].client == client && frames[i].picture == p.value &&
                          forall k :: 0 <= k < i ==> frames[k].client != client
    ensures p.None? <==> forall i :: 0 <= i < |frames| ==> frames[i].client != client
  {
    if frames == [] then None
    else if frames[0].client == client then Some(frames[0].picture)
    else
      var r := FirstOf(frames[1..], client);
      if r.Some? then
        ghost var i :| 0 <= i < |frames[1..]| && frames[1..][i].client == client && frames[1..][i].picture == r.value &&
                       forall k :: 0 <= k < i ==> frames[1..][k].client != client;
        assert frames[i + 1] == frames[1..][i];
        assert forall k :: 1 <= k < i + 1 ==> frames[k] == frames[1..][k - 1];
        r
      else
        assert forall i :: 1 <= i < |frames| ==> frames[i] == frames[1..][i - 1];
        r
  }


  /** Local date fields as `localtime` gives them. */
  datatype Date = Date(year: int, mon: int, mday: int, hour: int, min: int, sec: int)

  predicate ValidDate(d: Date)
  {
    1000 <= d.year + 1900 < 10000 && 0 <= d.mon < 12 && 1 <= d.mday <= 31 &&
    0 <= d.hour < 24 && 0 <= d.min < 60 && 0 <= d.sec < 61
  }

  const VIDEO_FILENAME := "/MCAM_"
  const WEBM_FILE_EXTENSION := ".webm"
  const MOV_FILE_EXTENSION := ".mov"

  /** The stored video's name: the date and time it was stored, and the extension of the client's format. */
  function VideoFileName(d: Date, android: bool): (r: string)
    requires ValidDate(d)
    ensures |r| > 6 && r[..6] == VIDEO_FILENAME
    ensures android ==> |r| >= 5 && r[|r| - 5..] == WEBM_FILE_EXTENSION
    ensures !android ==> |r| >= 4 && r[|r| - 4..] == MOV_FILE_EXTENSION
  {
    VIDEO_FILENAME + NumToStr(d.year + 1900) + Pad2(d.mon + 1) + Pad2(d.mday) + "_" +
    Pad2(d.hour) + Pad2(d.min) + Pad2(d.sec) + (if android then WEBM_FILE_EXTENSION else MOV_FILE_EXTENSION)
  }

  /** The name laid out character by character: 26 characters for WebM, 25 for MOV. */
  lemma VideoFileNameLayout(d: Date, android: bool)
    requires ValidDate(d)
    ensures var f := VideoFileName(d, android);
      var y := d.year + 1900;
      |f| == (if android then 26 else 25) &&
      f[..6] == "/MCAM_" &&
      f[6..10] == [DigitChar(y / 1000), DigitChar(y / 100 % 10), DigitChar(y / 10 % 10), DigitChar(y % 10)] &&
      f[10..12] == [DigitChar((d.mon + 1) / 10), DigitChar((d.mon + 1) % 10)] &&
      f[12..14] == [DigitChar(d.mday / 10), DigitChar(d.mday % 10)] &&
      f[14] == '_' &&
      f[15..17] == [DigitChar(d.hour / 10), DigitChar(d.hour % 10)] &&
      f[17..19] == [DigitChar(d.min / 10), DigitChar(d.min % 10)] &&
      f[19..21] == [DigitChar(d.sec / 10), DigitChar(d.sec % 10)] &&
      f[21..] == (if android then ".webm" else ".mov")
  {
    var y := d.year + 1900;
    FourDigits(y);
    Pad2Digits(d.mon + 1);
    Pad2Digits(d.mday);
    Pad2Digits(d.hour);
    Pad2Digits(d.min);
    Pad2Digits(d.sec);
  }

  /**
   * Bytes the source's video `fill` writes, as written: the payload is
   * copied at the received length before the total is checked against the
   * buffer length.
   */
  function VideoFillEndAsWritten(rcvLen: int, rcvLength: int): (end: int)
    ensures end - rcvLen == (rcvLength - TRAILER_LEN) % 65536
  {
    rcvLen + (rcvLength - TRAILER_LEN) % 65536
  }

  /**
   * A ten-byte video buffer receiving a frame of twenty payload bytes with
   * a valid checksum: the as-written copy ends ten bytes past the buffer
   * before the length check rejects it.
   */
  lemma VideoFillOverrunAsWritten()
    ensures var msg := Frame(seq(20, _ => 1), 0);
      CheckSumOk(msg) && VideoFillEndAsWritten(0, |msg|) == 20 > 10
  {
    FrameRoundTrip(seq(20, _ => 1), 0);
  }

  class Video {
    var buffer: array?<byte>
    var bufferLen: int
    var rcvLen: int
    var fps: int
    /** The received videos in both formats, and their lengths. */
    var bufferWebm: array?<byte>
    var bufferMov: array?<byte>
    var lenWebm: int
    var lenMov: int
    var pictures: seq<ClientPicture>
    var picFolder: string
    var fileName: string
    var landscape: bool
    var android: bool

    /** The active buffer, when there is one, is `bufferLen` long and received up to `rcvLen`. */
    predicate Valid()
      reads this
    {
      buffer != null ==> bufferLen == buffer.Length && 0 <= rcvLen <= bufferLen
    }

    constructor (picFolder: string)
      ensures Valid() && buffer == null && bufferLen == 0 && rcvLen == 0 && fps == 0
      ensures bufferWebm == null && bufferMov == null && lenWebm == 0 && lenMov == 0
      ensures pictures == [] && this.picFolder == picFolder && landscape && !android
    {
      buffer := null;
      bufferLen := 0;
      rcvLen := 0;
      fps := 0;
      bufferWebm := null;
      bufferMov := null;
      lenWebm := 0;
      lenMov := 0;
      pictures := [];
      this.picFolder := picFolder;
      fileName := "";
      landscape := true;
      android := false;
    }

    /** Saved pictures plus the server's own frame, as the byte the source returns. */
    function GetCount(): (n: int)
      reads this, PicturesOf(pictures)
      ensures 0 <= n < 256
      ensures |pictures| < 255 ==> n == 1 + CountDone(pictures) && 1 <= n <= 1 + |pictures|
    {
      (1 + CountDone(pictures)) % 256
    }

    /** The picture of the first entry from `client`, if any. */
    function Get(client: int): (p: Option<Picture>)
      reads this
      ensures p.None? <==> forall i :: 0 <= i < |pictures| ==> pictures[i].client != client
      ensures p.Some? ==> exists i :: (0 <= i < |pictures| && pictures[i] == ClientPicture(client, p.value) &&
        forall k :: 0 <= k < i ==> pictures[k].client != client)
    {
      FirstOf(pictures, client)
    }

    /** The whole active buffer has arrived. */
    predicate IsFilled(): (filled: bool)
      reads this
      ensures Valid() && buffer != null && filled ==> rcvLen == buffer.Length
    {
      rcvLen == bufferLen
    }

    /** Registers the picture of `client`, to be saved in the picture folder. */
    method Add(picture: Picture, client: int)
      modifies this`pictures, picture`folder
      ensures pictures == old(pictures) + [ClientPicture(client, picture)]
      ensures picture.folder == picFolder
    {
      picture.SetFolder(picFolder);
      pictures := pictures + [ClientPicture(client, picture)];
    }

    /** A new empty buffer for a video of `size` bytes at `fps` frames per second. */
    method Prepare(size: int, fps: int)
      requires size > 0 && buffer == null
      modifies this`buffer, this`bufferLen, this`rcvLen, this`fps
      ensures Valid() && fresh(buffer) && bufferLen == size && rcvLen == 0 && this.fps == fps
    {
      this.fps := fps;
      bufferLen := size;
      buffer := new byte[size](_ => 0);
      rcvLen := 0;
    }

    /**
     * Appends the payload of the message received in `rcv` (its first
     * `rcvLength` bytes). Only the checksum is verified: the token is the
     * server's business. The payload length is the unsigned 16-bit
     * `rcvLength - 5`, and a payload that does not fit is refused without
     * being copied. Returns -1 on error, 0 once the video is complete, 1
     * while more is expected.
     */
    method Fill(rcv: seq<byte>, rcvLength: int) returns (r: int)
      requires Valid() && buffer != null
      requires |rcv| == MAX_PACKET_SIZE + 1 && 0 <= rcvLength <= MAX_PACKET_SIZE
      modifies this`rcvLen, buffer
      ensures Valid()
      ensures var len := (rcvLength - TRAILER_LEN) % 65536;
        if !CheckSumOk(rcv[..rcvLength]) || old(rcvLen) + len > bufferLen then
          r == -1 && rcvLen == old(rcvLen) && buffer[..] == old(buffer[..])
        else
          rcvLen == old(rcvLen) + len &&
          buffer[..] == old(buffer[..])[..old(rcvLen)] + rcv[..len] + old(buffer[..])[rcvLen..] &&
          buffer[..rcvLen] == old(buffer[..rcvLen]) + rcv[..len] &&
          r == (if rcvLen == bufferLen then 0 else 1)
    {
      var ok := VerifyCheckSum(rcv[..rcvLength]);
      if !ok {
        return -1;
      }
      var len := (rcvLength - TRAILER_LEN) % 65536;
      if rcvLen + len > bufferLen {
        return -1;
      }
      CopyAt(buffer, rcvLen, rcv[..len]);
      rcvLen := rcvLen + len;
      r := if rcvLen == bufferLen then 0 else 1;
    }

    /** Makes the buffer of the client's format the active one. */
    method Select(android: bool)
      modifies this`buffer, this`bufferLen
      ensures buffer == (if android then bufferWebm else bufferMov)
      ensures bufferLen == (if android then lenWebm else lenMov)
    {
      buffer := if android then bufferWebm else bufferMov;
      bufferLen := if android then lenWebm else lenMov;
    }

    /** Names the completely received video after the date `now`. */
    method Store(landscape: bool, android: bool, now: Date)
      requires Valid() && buffer != null && rcvLen == bufferLen && ValidDate(now)
      modifies this`landscape, this`android, this`fileName
      ensures this.landscape == landscape && this.android == android
      ensures fileName == VideoFileName(now, android)
    {
      this.android := android;
      this.landscape := landscape;
      fileName := VideoFileName(now, android);
    }
  }
}
