/**
 * Text shown by the sharing panel: the date read back from a stored
 * video's file name, the profile URL with its glyph substitutions and
 * 20-column wrapping, and the birthday line.
 */
module Share {
  import opened Text
  import opened Media
  import opened Wire

  /** `s` with `t` inserted before position `at` (`std::string::insert`). */
  function Insert(s: string, at: nat, t: string): (r: string)
    requires at <= |s|
    ensures |r| == |s| + |t|
    ensures r[..at] == s[..at] && r[at..at + |t|] == t && r[at + |t|..] == s[at..]
  {
    s[..at] + t + s[at..]
  }

  /**
   * The date and time a video's file name carries, in the form
   * `MM/DD/YYYY HH:MM:SS`: the month-day and time fields after the year are
   * kept, the year is inserted after the second slash, the underscore
   * becomes a space, colons separate the time fields, and the extension is
   * cut (five characters when a dot stands five from the end, else four).
   */
  function ExtractDate(file: string): (date: string)
    requires |file| == 25 || |file| == 26
    ensures |date| == |file| - 2 - (if file[|file| - 5] == '.' then 5 else 4)
  {
    var d := Reordered(file);
    d[..|d| - (if file[|file| - 5] == '.' then 5 else 4)]
  }

  /** The edits of `ExtractDate` before the extension is cut, in the source's order. */
  function Reordered(file: string): (d: string)
    requires |file| >= 21
    ensures |d| == |file| - 2
  {
    var d0 := file[10..];
    var d1 := Insert(d0, 2, "/");
    var d2 := Insert(d1, 5, "/");
    var d3 := Insert(d2, 6, file[6..10]);
    var d4 := d3[10 := ' '];
    var d5 := Insert(d4, 13, ":");
    Insert(d5, 16, ":")
  }

  /** The edits put the month, day, year and time fields in their new order, with separators. */
  lemma ReorderedLayout(file: string)
    requires |file| >= 21
    ensures Reordered(file) == file[10..12] + "/" + file[12..14] + "/" + file[6..10] + " " +
        file[15..17] + ":" + file[17..19] + ":" + file[19..]
  {
    var md := file[10..12] + "/" + file[12..14] + "/";
    var d1 := Insert(file[10..], 2, "/");
    assert d1 == file[10..12] + "/" + file[12..];
    var d2 := Insert(d1, 5, "/");
    assert d2 == md + file[14..];
    var d3 := Insert(d2, 6, file[6..10]);
    assert d3 == md + file[6..10] + file[14..];
    var d4 := d3[10 := ' '];
    assert d4 == md + file[6..10] + " " + file[15..];
    var d5 := Insert(d4, 13, ":");
    assert d5 == md + file[6..10] + " " + file[15..17] + ":" + file[17..];
    var d6 := Insert(d5, 16, ":");
    assert d6 == md + file[6..10] + " " + file[15..17] + ":" + file[17..19] + ":" + file[19..];
  }

  /**
   * For a name of either length whose extension starts where expected, the
   * date is exactly the month, day, year and time fields in their new
   * order: 19 characters.
   */
  lemma ExtractDateLayout(file: string)
    requires (|file| == 26 && file[21] == '.') || (|file| == 25 && file[20] != '.')
    ensures ExtractDate(file) == file[10..12] + "/" + file[12..14] + "/" + file[6..10] + " " +
        file[15..17] + ":" + file[17..19] + ":" + file[19..21]
  {
    ReorderedLayout(file);
    var d := Reordered(file);
    assert d[..19] == file[10..12] + "/" + file[12..14] + "/" + file[6..10] + " " +
      file[15..17] + ":" + file[17..19] + ":" + file[19..21];
  }

  /** The date of a stored video, as `MM/DD/YYYY HH:MM:SS`. */
  function DateText(d: Date): string
    requires ValidDate(d)
  {
    Pad2(d.mon + 1) + "/" + Pad2(d.mday) + "/" + NumToStr(d.year + 1900) + " " +
    Pad2(d.hour) + ":" + Pad2(d.min) + ":" + Pad2(d.sec)
  }

  /** The name a video is stored under reads back as the date and time it was stored, for both formats. */
  lemma ExtractDateRoundTrip(d: Date, android: bool)
    requires ValidDate(d)
    ensures var f := VideoFileName(d, android);
      (|f| == 25 || |f| == 26) && ExtractDate(f) == DateText(d)
    ensures |DateText(d)| == 19
  {
    var f := VideoFileName(d, android);
    VideoFileNameLayout(d, android);
    ExtractDateLayout(f);
    FourDigits(d.year + 1900);
    Pad2Digits(d.mon + 1);
    Pad2Digits(d.mday);
    Pad2Digits(d.hour);
    Pad2Digits(d.min);
    Pad2Digits(d.sec);
  }

  /** Every occurrence of `from` in `s` replaced by `to` (`std::replace`). */
  function ReplaceAll(s: string, from: char, to: char): (r: string)
    ensures |r| == |s|
    ensures forall i :: 0 <= i < |s| ==> r[i] == (if s[i] == from then to else s[i])
  {
    seq(|s|, i requires 0 <= i < |s| => if s[i] == from then to else s[i])
  }

  /**
   * The ten substitutions applied to the profile URL, in order, mapping
   * characters the font texture lacks onto the glyphs drawn in their place.
   */
  function Substituted(url: string): string
  {
    var u0 := ReplaceAll(url, '*', '\U{E0}');
    var u1 := ReplaceAll(u0, '#', '\U{E2}');
    var u2 := ReplaceAll(u1, '^', '\U{20AC}');
    var u3 := ReplaceAll(u2, '}', '>');
    var u4 := ReplaceAll(u3, ']', '}');
    var u5 := ReplaceAll(u4, '{', '<');
    var u6 := ReplaceAll(u5, '[', '{');
    var u7 := ReplaceAll(u6, '~', '\'');
    var u8 := ReplaceAll(u7, '\U{A7}', '"');
    ReplaceAll(u8, '_', ',')
  }

  /** What each character becomes: one table lookup, with no chained rewriting. */
  function Glyph(c: char): char
  {
    match c
    case '*' => '\U{E0}'
    case '#' => '\U{E2}'
    case '^' => '\U{20AC}'
    case '}' => '>'
    case ']' => '}'
    case '{' => '<'
    case '[' => '{'
    case '~' => '\''
    case '\U{A7}' => '"'
    case '_' => ','
    case _ => c
  }

  /**
   * The ordered substitutions act character by character as the table:
   * no replacement ever rewrites a character an earlier one produced, so
   * `]` ends as `}` and `[` as `{`.
   */
  lemma SubstitutedIsGlyph(url: string)
    ensures |Substituted(url)| == |url|
    ensures forall i :: 0 <= i < |url| ==> Substituted(url)[i] == Glyph(url[i])
  {
  }

  /** The URL with a newline inserted before each of the original positions `20 * k`, ..., `40`, `20`. */
  function Wrapped(u: string, k: nat): (r: string)
    requires 20 * k <= |u|
    ensures |r| == |u| + k
    decreases k
  {
    if k == 0 then u else Wrapped(u[..20 * k], k - 1) + "\n" + u[20 * k..]
  }

  /** Wrapping a prefix leaves what follows it untouched. */
  lemma WrappedAppend(v: string, w: string, k: nat)
    requires 20 * k <= |v|
    ensures Wrapped(v + w, k) == Wrapped(v, k) + w
  {
    if k > 0 {
      assert (v + w)[..20 * k] == v[..20 * k];
      assert (v + w)[20 * k..] == v[20 * k..] + w;
    }
  }

  /** Inserting the newline at `20 * i` leaves the rest of the wrapping to do at the lower positions. */
  lemma WrapStep(r: string, i: nat)
    requires 0 < i && 20 * i <= |r|
    ensures Wrapped(r[..20 * i] + "\n" + r[20 * i..], i - 1) == Wrapped(r, i)
  {
    WrappedAppend(r[..20 * i], "\n" + r[20 * i..], i - 1);
    assert r[..20 * i] + "\n" + r[20 * i..] == r[..20 * i] + ("\n" + r[20 * i..]);
  }

  /** The number of lines to break, from the URL length truncated to a byte. */
  function BreakCount(u: string): nat
  {
    (|u| % 256) / 20
  }

  /**
   * The URL wrapped at 20 columns with a newline left at the very end
   * dropped; `None` for the empty URL, whose last character the source
   * reads with `at`, which throws `std::out_of_range`.
   */
  function WrappedUrl(url: string): Option<string>
  {
    if url == [] then None
    else
      var w := Wrapped(url, BreakCount(url));
      Some(if w[|w| - 1] == '\n' then w[..|w| - 1] else w)
  }

  /**
   * Wraps the URL at 20 columns: from the last multiple of 20 down to 20, a
   * newline is inserted at that position, so earlier positions stay those
   * of the original; a newline left at the very end is dropped. An empty
   * URL is the out-of-range error of reading its last character.
   */
  method WrapUrl(url: string) returns (result: Option<string>)
    ensures result == WrappedUrl(url)
  {
    var k := BreakCount(url);
    var r := url;
    var i := k;
    while i > 0
      invariant 0 <= i <= k
      invariant 20 * i <= |r| && Wrapped(r, i) == Wrapped(url, k)
    {
      WrapStep(r, i);
      r := r[..20 * i] + "\n" + r[20 * i..];
      i := i - 1;
    }
    assert r == Wrapped(url, k) && |r| == |url| + k;
    if |r| == 0 {
      return None;
    }
    assert url != [];
    if r[|r| - 1] == '\n' {
      r := r[..|r| - 1];
    }
    result := Some(r);
  }

  /** `s` without its newlines. */
  function Unwrapped(s: string): (r: string)
    ensures |r| <= |s|
  {
    if s == [] then [] else Unwrapped(s[..|s| - 1]) + (if s[|s| - 1] == '\n' then [] else [s[|s| - 1]])
  }

  lemma {:induction false} UnwrappedAppend(a: string, b: string)
    ensures Unwrapped(a + b) == Unwrapped(a) + Unwrapped(b)
    decreases |b|
  {
    if b == [] {
      assert a + b == a;
    } else {
      assert (a + b)[..|a + b| - 1] == a + b[..|b| - 1];
      UnwrappedAppend(a, b[..|b| - 1]);
    }
  }

  /** A string with no newline is its own unwrapping. */
  lemma {:induction false} UnwrappedPlain(s: string)
    requires forall i :: 0 <= i < |s| ==> s[i] != '\n'
    ensures Unwrapped(s) == s
  {
    if s != [] {
      UnwrappedPlain(s[..|s| - 1]);
    }
  }

  /** Removing the newlines of the wrapped text gives back the text. */
  lemma {:induction false} WrappedUnwraps(u: string, k: nat)
    requires 20 * k <= |u|
    requires forall i :: 0 <= i < |u| ==> u[i] != '\n'
    ensures Unwrapped(Wrapped(u, k)) == u
    decreases k
  {
    if k == 0 {
      UnwrappedPlain(u);
    } else {
      var p := u[..20 * k];
      WrappedUnwraps(p, k - 1);
      UnwrappedAppend(Wrapped(p, k - 1) + "\n", u[20 * k..]);
      UnwrappedAppend(Wrapped(p, k - 1), "\n");
      UnwrappedPlain(u[20 * k..]);
      assert Unwrapped("\n") == [] by {
        assert "\n"[..0] == [];
      }
      assert p + u[20 * k..] == u;
    }
  }

  /**
   * The wrapped URL loses nothing: removing its newlines gives back the
   * substituted URL. Only the empty URL fails.
   */
  lemma WrapUrlUnwraps(url: string)
    requires forall i :: 0 <= i < |url| ==> url[i] != '\n'
    ensures WrappedUrl(url).None? <==> url == []
    ensures WrappedUrl(url).Some? ==> Unwrapped(WrappedUrl(url).value) == url
  {
    if url == [] {
      return;
    }
    var w := Wrapped(url, BreakCount(url));
    WrappedUnwraps(url, BreakCount(url));
    if w[|w| - 1] == '\n' {
      UnwrappedAppend(w[..|w| - 1], "\n");
      assert w[..|w| - 1] + "\n" == w;
      assert Unwrapped("\n") == [] by {
        assert "\n"[..0] == [];
      }
    }
  }

  const EMPTY_BIRTHDAY := ",,, ,,"
  const MONTHS: seq<string> := ["Jan", "Feb", "Mar", "Apr", "May", "Jun", "Jul", "Aug", "Sep", "Oct", "Nov", "Dec"]

  /** A birthday `MM/dd/yyyy` the month table can name. */
  predicate BirthdayReadable(b: string)
  {
    |b| > 9 ==> AllDigits(b[..2]) && AllDigits(b[3..5]) && 1 <= DecimalValue(b[..2]) <= 12
  }

  /**
   * The birthday line: the month's abbreviation, a space and the day
   * without leading zero for a birthday longer than nine characters; the
   * placeholder otherwise.
   */
  function BirthdayText(b: string): (r: string)
    requires BirthdayReadable(b)
    ensures |b| <= 9 ==> r == EMPTY_BIRTHDAY
    ensures |b| > 9 ==> |r| > 4 && r[..3] == MONTHS[DecimalValue(b[..2]) - 1] && r[3] == ' '
  {
    if |b| > 9 then MONTHS[DecimalValue(b[..2]) - 1] + " " + NumToStr(DecimalValue(b[3..5]) % 256)
    else EMPTY_BIRTHDAY
  }

  /** The birthday line names the month and reads back as the day. */
  lemma BirthdayTextReadsBack(b: string)
    requires BirthdayReadable(b)
    ensures var r := BirthdayText(b);
      if |b| > 9 then
        |r| >= 5 && r[..3] == MONTHS[DecimalValue(b[..2]) - 1] && r[3] == ' ' &&
        AllDigits(r[4..]) && DecimalValue(r[4..]) == DecimalValue(b[3..5])
      else r == EMPTY_BIRTHDAY
  {
    if |b| > 9 {
      var day := DecimalValue(b[3..5]);
      DayBelow100(b[3..5]);
      NumToStrRoundTrip(day);
      var m := MONTHS[DecimalValue(b[..2]) - 1];
      assert |m| == 3;
      var r := m + " " + NumToStr(day);
      assert r == BirthdayText(b);
      assert r[..3] == m && r[4..] == NumToStr(day);
    }
  }

  lemma DayBelow100(s: string)
    requires |s| == 2 && AllDigits(s)
    ensures DecimalValue(s) < 100
  {
    assert s[..1][..0] == [];
    assert s[..|s| - 1] == s[..1];
    assert DecimalValue(s[..1]) == s[0] as int - '0' as int;
  }
}
