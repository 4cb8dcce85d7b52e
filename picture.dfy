/**
 * A picture downloaded from a client (`Picture` built with a size): a fixed
 * buffer filled chunk by chunk from received frames, then saved as a JPEG
 * file whose name carries the client index.
 */
module Pictures {
  import opened Wire
  import opened Text

  const STATUS_ERROR := 0
  const STATUS_OK := 1
  const STATUS_COMPRESS := 2
  const STATUS_FILL := 3
  const STATUS_RECORD := 4
  const STATUS_EXTRACT := 5

  const MCAM_SUB_FOLDER := "/MCAM"
  const PIC_FILE_NAME := "/img_"
  const JPEG_FILE_EXTENSION := ".jpg"

  /** Number of decimal digits of an index in [0, 999]. */
  function DigitCount(d: nat): (n: nat)
    ensures 1 <= n <= 3
    ensures n == 1 <==> d < 10
    ensures n == 3 <==> d >= 100
  {
    if d < 10 then 1 else if d < 100 then 2 else 3
  }

  /** The file name of the picture of `client`: the index padded with zeros to three digits. */
  function GetFileName(folder: string, extension: string, client: nat): (r: string)
    requires client < 256
    ensures |r| == |folder| + |MCAM_SUB_FOLDER| + |PIC_FILE_NAME| + 3 + |extension|
    ensures r[..|folder|] == folder && r[|r| - |extension|..] == extension
  {
    PaddedIndex(client);
    folder + MCAM_SUB_FOLDER + PIC_FILE_NAME + IndexPad(client) + NumToStr(client) + extension
  }

  /** The zeros written before the index. */
  function IndexPad(client: nat): string
  {
    match DigitCount(client) case 1 => "00" case 2 => "0" case _ => ""
  }

  /** The padded index is the three digits of the index. */
  lemma PaddedIndex(client: nat)
    requires client < 256
    ensures IndexPad(client) + NumToStr(client) == ThreeDigits(client)
  {
    if client < 10 {
      assert NumToStr(client) == [DigitChar(client)];
    } else if client < 100 {
      TwoDigits(client);
    } else {
      ThreeDigitsRendered(client);
    }
  }

  lemma TwoDigits(n: nat)
    requires 10 <= n < 100
    ensures NumToStr(n) == [DigitChar(n / 10), DigitChar(n % 10)]
  {
    assert NumToStr(n / 10) == [DigitChar(n / 10)];
  }

  lemma ThreeDigitsRendered(n: nat)
    requires 100 <= n < 1000
    ensures NumToStr(n) == ThreeDigits(n)
  {
    TwoDigits(n / 10);
    assert n / 10 / 10 == n / 100;
  }

  /** The three digits of an index below 1000, most significant first. */
  function ThreeDigits(n: nat): (s: string)
    requires n < 1000
    ensures |s| == 3 && AllDigits(s)
  {
    [DigitChar(n / 100), DigitChar(n / 10 % 10), DigitChar(n % 10)]
  }

  /** Every index gets exactly three digits between the fixed prefix and the extension, and they read back as the index. */
  lemma FileNameIndex(folder: string, extension: string, client: nat)
    requires client < 256
    ensures GetFileName(folder, extension, client) == folder + "/MCAM/img_" + ThreeDigits(client) + extension
    ensures DecimalValue(ThreeDigits(client)) == client
  {
    ThreeDigitsValue(client);
    PaddedIndex(client);
    var pre := folder + MCAM_SUB_FOLDER + PIC_FILE_NAME;
    assert pre == folder + "/MCAM/img_";
    assert GetFileName(folder, extension, client) == pre + (IndexPad(client) + NumToStr(client)) + extension;
  }

  /** Three digits read back as the number they render. */
  lemma ThreeDigitsValue(client: nat)
    requires client < 1000
    ensures DecimalValue(ThreeDigits(client)) == client
  {
    var a, b, c := client / 100, client / 10 % 10, client % 10;
    var t := ThreeDigits(client);
    assert DigitChar(a) as int - '0' as int == a;
    assert DigitChar(b) as int - '0' as int == b;
    assert DigitChar(c) as int - '0' as int == c;
    assert [DigitChar(a)][..0] == [];
    assert DecimalValue([DigitChar(a)]) == a;
    assert [DigitChar(a), DigitChar(b)][..1] == [DigitChar(a)];
    assert DecimalValue([DigitChar(a), DigitChar(b)]) == a * 10 + b;
    assert t[..2] == [DigitChar(a), DigitChar(b)];
    assert DecimalValue(t) == (a * 10 + b) * 10 + c;
  }

  /** Two different indexes never share a file name. */
  lemma FileNamesDistinct(folder: string, extension: string, a: nat, b: nat)
    requires a < 256 && b < 256 && a != b
    ensures GetFileName(folder, extension, a) != GetFileName(folder, extension, b)
  {
    FileNameIndex(folder, extension, a);
    FileNameIndex(folder, extension, b);
    var p := folder + "/MCAM/img_";
    var fa := GetFileName(folder, extension, a);
    var fb := GetFileName(folder, extension, b);
    assert fa[|p|..|p| + 3] == ThreeDigits(a);
    assert fb[|p|..|p| + 3] == ThreeDigits(b);
    assert ThreeDigits(a) != ThreeDigits(b);
  }

  /**
   * Bytes the source's `fill` writes, as written: the payload goes to the
   * cursor before the remaining size is checked, so the write ends at
   * `walk + len` even when that is past the buffer.
   */
  function FillEndAsWritten(walk: nat, msg: seq<byte>): (end: int)
    requires |msg| >= TRAILER_LEN
    ensures end - walk == |msg| - TRAILER_LEN
  {
    walk + (|msg| - TRAILER_LEN)
  }

  /**
   * A ten-byte picture receiving a valid frame of twenty payload bytes:
   * the as-written copy ends ten bytes past the buffer before the size
   * check reports the error.
   */
  lemma FillOverrunAsWritten()
    ensures var msg := Frame(seq(20, _ => 7), 300);
      CheckSumOk(msg) && TokenOk(msg, 300) && FillEndAsWritten(0, msg) == 20 > 10
  {
    FrameRoundTrip(seq(20, _ => 7), 300);
  }

  class Picture {
    var status: int
    /** The downloaded bytes (`mData`). */
    var data: array<byte>
    /** Write cursor: offset of `mWalk` in the buffer. */
    var walk: int
    /** Bytes still expected (`mSize`); negative once too much was received. */
    var size: int
    var folder: string

    /** The cursor sits where the bytes still expected would end the buffer. */
    predicate Aligned()
      reads this
    {
      0 <= walk && walk + size == data.Length
    }

    constructor (size: int)
      requires size > 0
      ensures status == STATUS_FILL && this.size == size && walk == 0
      ensures fresh(data) && data.Length == size
      ensures Aligned()
    {
      status := STATUS_FILL;
      this.size := size;
      data := new byte[size](_ => 0);
      walk := 0;
      folder := "";
    }

    /** The picture was saved; a saved picture is not in error. */
    predicate IsDone(): (done: bool)
      reads this
      ensures done ==> status != STATUS_ERROR && status != STATUS_FILL
    {
      status == STATUS_OK
    }

    /** The picture failed; a failed picture is neither saved nor still filling. */
    predicate IsError(): (error: bool)
      reads this
      ensures error ==> !IsDone() && status != STATUS_FILL
    {
      status == STATUS_ERROR
    }

    /** The remaining size as the unsigned value the source returns. */
    function GetSize(): (r: nat)
      reads this
      ensures r < 0x1_0000_0000
      ensures 0 <= size < 0x1_0000_0000 ==> r == size
    {
      size % 0x1_0000_0000
    }

    method SetFolder(f: string)
      modifies this`folder
      ensures folder == f
    {
      folder := f;
    }

    /**
     * Adds the payload of the received message `msg` (signed with the
     * expected `token`). The payload is copied only when it fits the buffer;
     * cursor and remaining size then move by its length, and a negative
     * remaining size is an error. Returns -1 on error, 0 when complete, 1
     * when more is expected.
     */
    method Fill(msg: seq<byte>, token: int) returns (r: int)
      modifies this`walk, this`size, this`status, data
      ensures !(CheckSumOk(msg) && TokenOk(msg, token)) ==>
        r == -1 && walk == old(walk) && size == old(size) && status == old(status) && data[..] == old(data[..])
      ensures CheckSumOk(msg) && TokenOk(msg, token) ==>
        walk == old(walk) + (|msg| - TRAILER_LEN) && size == old(size) - (|msg| - TRAILER_LEN) &&
        status == (if size < 0 then STATUS_ERROR else old(status)) &&
        r == (if size < 0 then -1 else if size == 0 then 0 else 1)
      ensures CheckSumOk(msg) && TokenOk(msg, token) && 0 <= old(walk) && walk <= data.Length ==>
        data[..] == old(data[..])[..old(walk)] + msg[..|msg| - TRAILER_LEN] + old(data[..])[walk..]
      ensures old(walk) < 0 || walk > data.Length ==> data[..] == old(data[..])
      ensures old(Aligned()) ==> Aligned()
      ensures old(Aligned()) && CheckSumOk(msg) && TokenOk(msg, token) ==> (r >= 0 <==> walk <= data.Length)
    {
      var sumOk := VerifyCheckSum(msg);
      if !sumOk || |msg| < TRAILER_LEN || Be16At(msg, |msg| - TRAILER_LEN) != token {
        return -1;
      }
      var len := |msg| - TRAILER_LEN;
      if 0 <= walk && walk + len <= data.Length {
        CopyAt(data, walk, msg[..len]);
      }
      walk := walk + len;
      size := size - len;
      if size < 0 {
        status := STATUS_ERROR;
        return -1;
      }
      r := if size == 0 then 0 else 1;
    }

    /** Restarts the download of `size` bytes after an error, keeping the cursor. */
    method Retry(size: int)
      requires status == STATUS_ERROR && size > 0
      modifies this`status, this`size
      ensures status == STATUS_FILL && this.size == size
    {
      status := STATUS_FILL;
      this.size := size;
    }

    /**
     * Saving a completely downloaded picture: the bytes received go to the
     * JPEG file of index `client + 1` (the server keeps index 0), truncated
     * to a byte. `written` is whether the file could be written.
     */
    method Save(written: bool, client: int) returns (name: string, bytes: seq<byte>)
      requires status == STATUS_FILL && size == 0 && 0 < walk <= data.Length
      requires 0 <= client < 256
      modifies this`status
      ensures name == GetFileName(folder, JPEG_FILE_EXTENSION, (client + 1) % 256)
      ensures bytes == data[..walk]
      ensures status == (if written then STATUS_OK else STATUS_ERROR)
      ensures IsDone() <==> written
    {
      name := GetFileName(folder, JPEG_FILE_EXTENSION, (client + 1) % 256);
      bytes := data[..walk];
      status := if written then STATUS_OK else STATUS_ERROR;
    }
  }

  /** Copies `src` into `a` at offset `at` (the `memcpy`), element by element. */
  method CopyAt(a: array<byte>, at: int, src: seq<byte>)
    requires 0 <= at && at + |src| <= a.Length
    modifies a
    ensures a[..] == old(a[..])[..at] + src + old(a[..])[at + |src|..]
  {
    var i := 0;
    while i < |src|
      invariant 0 <= i <= |src|
      invariant forall k :: 0 <= k < a.Length ==> a[k] == (if at <= k < at + i then src[k - at] else old(a[k]))
    {
      a[at + i] := src[i];
      i := i + 1;
    }
    assert a[..] == old(a[..])[..at] + src + old(a[..])[at + |src|..];
  }

  /**
   * A download of chunks into an aligned picture keeps the received bytes
   * in order: after an accepted chunk, the bytes before the cursor are the
   * earlier ones followed by the new payload.
   */
  lemma FilledPrefix(before: seq<byte>, after: seq<byte>, walk: nat, payload: seq<byte>)
    requires walk + |payload| <= |before| == |after|
    requires after == before[..walk] + payload + before[walk + |payload|..]
    ensures after[..walk + |payload|] == before[..walk] + payload
  {
  }
}
