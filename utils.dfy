/** The filename, MIME and duration helpers of lib/utils.ts. */
module Utils {
  import opened Wrappers
  import opened Text

  /** JavaScript's `x >>> 0` on a whole number: its value modulo 2^32. */
  function ToUint32(x: int): nat {
    x % 0x1_0000_0000
  }

  /** `s.slice(start)` for a non-negative start: empty once the start is past the end. */
  function SliceFrom(s: string, start: nat): (r: string)
    ensures start < |s| ==> r == s[start..]
    ensures start >= |s| ==> r == ""
  {
    if start >= |s| then "" else s[start..]
  }

  /** `s.substring(a, b)`: both ends clamped into `0..|s|`, swapped when reversed. */
  function Substring(s: string, a: int, b: int): string {
    var a' := if a < 0 then 0 else if a > |s| then |s| else a;
    var b' := if b < 0 then 0 else if b > |s| then |s| else b;
    if a' <= b' then s[a'..b'] else s[b'..a']
  }

  /**
   * `getFileExtension`: the slice after the last ".", lower-cased. The
   * unsigned shift maps a missing dot (-1) and a leading dot (0) to starts
   * at 2^32 and beyond, so those names give "".
   */
  function GetFileExtension(filename: string): string {
    ExtensionAfter(filename, LastIndexOf(filename, '.'))
  }

  /** The body of `getFileExtension` once `lastIndexOf` has given `dot`. */
  function ExtensionAfter(filename: string, dot: int): string {
    ToLower(SliceFrom(filename, ToUint32(dot - 1) + 2))
  }

  /** Without a dot, or with a leading dot only, the slice starts past the end. */
  lemma ExtensionAfterNoDot(filename: string, dot: int)
    requires |filename| <= 0x1_0000_0000 && -1 <= dot <= 0
    ensures ExtensionAfter(filename, dot) == ""
  {
    if dot == 0 {
      assert ToUint32(dot - 1) == 0xFFFF_FFFF;
    } else {
      assert ToUint32(dot - 1) == 0xFFFF_FFFE;
    }
  }

  /** After a dot at index 1 or later, the slice is the text following it. */
  lemma ExtensionAfterDot(filename: string, dot: int)
    requires |filename| <= 0x1_0000_0000 && 0 < dot < |filename|
    requires forall k :: dot < k < |filename| ==> filename[k] != '.'
    ensures ExtensionAfter(filename, dot) == ToLower(filename[dot + 1..])
    ensures '.' !in ExtensionAfter(filename, dot)
  {
    assert ToUint32(dot - 1) == dot - 1;
    var tail := filename[dot + 1..];
    forall k | 0 <= k < |tail| ensures ToLower(tail)[k] != '.' {
      assert tail[k] == filename[dot + 1 + k];
    }
  }

  /**
   * The cases of `GetFileExtension` for names shorter than 2^32 characters:
   * "" without a dot, with only a leading dot, or with a trailing dot;
   * otherwise the lower-cased text after the last dot, which holds no dot.
   */
  lemma ExtensionCases(filename: string)
    requires |filename| <= 0x1_0000_0000
    ensures var i := LastIndexOf(filename, '.');
      && GetFileExtension(filename) == (if i <= 0 then "" else ToLower(filename[i + 1..]))
      && '.' !in GetFileExtension(filename)
  {
    var i := LastIndexOf(filename, '.');
    if i > 0 {
      ExtensionAfterDot(filename, i);
    } else {
      ExtensionAfterNoDot(filename, i);
    }
  }

  /** `getFileName`: the text before the last ".", or the whole name when that is empty. */
  function GetFileName(filename: string): (stem: string)
    ensures stem == filename || (|stem| < |filename| && filename[..|stem|] == stem && filename[|stem|] == '.')
    ensures stem != "" || filename == ""
  {
    StemBefore(filename, LastIndexOf(filename, '.'))
  }

  /** The body of `getFileName` once `lastIndexOf` has given `dot`. */
  function StemBefore(filename: string, dot: int): (stem: string)
    requires -1 <= dot < |filename| && (dot >= 0 ==> filename[dot] == '.')
    ensures stem == filename || (|stem| < |filename| && filename[..|stem|] == stem && filename[|stem|] == '.')
    ensures stem != "" || filename == ""
  {
    var prefix := Substring(filename, 0, dot);
    if prefix == "" then filename else prefix
  }

  /** The stem before a dot at index 1 or later is the text before it. */
  lemma StemBeforeDot(filename: string, dot: int)
    requires 0 < dot < |filename| && filename[dot] == '.'
    ensures StemBefore(filename, dot) == filename[..dot]
    ensures filename == StemBefore(filename, dot) + "." + filename[dot + 1..]
  {
    assert filename == filename[..dot] + [filename[dot]] + filename[dot + 1..];
  }

  /** Cutting at the last dot (not a leading one) and gluing the pieces back gives the name. */
  lemma StemAndExtension(filename: string)
    requires |filename| <= 0x1_0000_0000
    requires LastIndexOf(filename, '.') > 0
    ensures var i := LastIndexOf(filename, '.');
      && GetFileName(filename) + "." + filename[i + 1..] == filename
      && GetFileExtension(filename) == ToLower(filename[i + 1..])
  {
    var i := LastIndexOf(filename, '.');
    StemBeforeDot(filename, i);
    ExtensionAfterDot(filename, i);
  }

  const DocxMime: string := "application/" + "vnd.openxmlformats-officedocument.wordprocessingml.document"
  const PptxMime: string := "application/" + "vnd.openxmlformats-officedocument.presentationml.presentation"

  /** The extension table of `getMimeType`. */
  const MimeTypes: map<string, string> := map[
    "pdf" := "application/pdf",
    "docx" := DocxMime,
    "doc" := "application/msword",
    "pptx" := PptxMime,
    "ppt" := "application/vnd.ms-powerpoint",
    "jpg" := "image/jpeg",
    "jpeg" := "image/jpeg",
    "png" := "image/png",
    "txt" := "text/plain"
  ]

  const OctetStream: string := "application/octet-stream"

  /** `getMimeType`: the table entry for the lower-cased extension, or the octet-stream fallback. */
  function GetMimeType(extension: string): (mime: string)
    ensures mime != ""
    ensures mime == OctetStream <==> ToLower(extension) !in MimeTypes
  {
    var key := ToLower(extension);
    if key in MimeTypes then MimeTypes[key] else OctetStream
  }

  /** The lookup ignores case: an extension and its lower-cased form get the same type. */
  lemma MimeTypeIgnoresCase(extension: string)
    ensures GetMimeType(extension) == GetMimeType(ToLower(extension))
  {
    ToLowerIdempotent(extension);
  }

  /** The table's image entries are exactly jpg, jpeg and png. */
  lemma ImageEntries()
    ensures forall key :: key in MimeTypes ==> (StartsWith(MimeTypes[key], "image/") <==> key in {"jpg", "jpeg", "png"})
  {
    forall key | key in MimeTypes
      ensures StartsWith(MimeTypes[key], "image/") <==> key in {"jpg", "jpeg", "png"}
    {
      var v := MimeTypes[key];
      if key !in {"jpg", "jpeg", "png"} {
        if key == "txt" {
          assert v == "text/plain" && v[0] == 't';
        } else if key == "pdf" {
          assert v == "application/pdf" && v[0] == 'a';
        } else if key == "doc" {
          assert v == "application/msword" && v[0] == 'a';
        } else if key == "ppt" {
          assert v == "application/vnd.ms-powerpoint" && v[0] == 'a';
        } else if key == "docx" {
          assert v == DocxMime && v[0] == "application/"[0];
        } else {
          assert key == "pptx";
          assert v == PptxMime && v[0] == "application/"[0];
        }
      }
    }
  }

  /** An extension maps to an `image/` type exactly when it is jpg, jpeg or png, in any case. */
  lemma ImageMimeTypes(extension: string)
    ensures StartsWith(GetMimeType(extension), "image/") <==> ToLower(extension) in {"jpg", "jpeg", "png"}
    ensures ToLower(extension) in {"jpg", "jpeg"} ==> GetMimeType(extension) == "image/jpeg"
  {
    ImageEntries();
    assert OctetStream[0] == 'a';
  }

  /** `Math.round`: the nearest whole number, halves rounded up (towards +infinity). */
  function JsRound(x: real): int {
    (x + 0.5).Floor
  }

  /** `Math.round` is within a half of its argument, and a whole number is its own rounding. */
  lemma JsRoundBounds(x: real)
    ensures x - 0.5 < JsRound(x) as real <= x + 0.5
    ensures x == x.Floor as real ==> JsRound(x) == x.Floor
  {
  }

  /** Shifting by a whole number shifts the rounding by the same amount. */
  lemma JsRoundShift(x: real, k: int)
    ensures JsRound(x + k as real) == JsRound(x) + k
  {
    var f := (x + 0.5).Floor;
    assert f as real <= x + 0.5 < f as real + 1.0;
    assert (f + k) as real <= x + k as real + 0.5 < (f + k) as real + 1.0;
  }

  /**
   * `formatDuration`: below a minute the rounded seconds; from a minute on the
   * floored minutes and the rounded remainder (`%` on a positive number).
   */
  function FormatDuration(seconds: real): string {
    if seconds < 60.0 then IntToString(JsRound(seconds)) + "s"
    else MinutesText(Minutes(seconds), JsRound(RemainingSeconds(seconds)))
  }

  /** `Math.floor(seconds / 60)`. */
  function Minutes(seconds: real): int {
    (seconds / 60.0).Floor
  }

  /** `seconds % 60` for a non-negative number: what is left after the whole minutes. */
  function RemainingSeconds(seconds: real): real {
    seconds - 60.0 * Minutes(seconds) as real
  }

  /** "<minutes>m <seconds>s". */
  function MinutesText(minutes: int, seconds: int): string {
    IntToString(minutes) + "m " + IntToString(seconds) + "s"
  }

  /** Reads "<n>s" or "<m>m <s>s" back into seconds: the inverse of `FormatDuration`. */
  function ParseDuration(t: string): Option<nat> {
    if |t| == 0 || t[|t| - 1] != 's' then None else ParseDurationBody(t[..|t| - 1])
  }

  /** The text before the final "s": digits alone, or minutes and seconds around "m ". */
  function ParseDurationBody(body: string): Option<nat> {
    var m := IndexOf(body, "m ");
    if m < 0 then
      if body != "" && AllDigits(body) then Some(ParseDigits(body)) else None
    else ParseMinutesAndSeconds(body[..m], body[m + 2..])
  }

  function ParseMinutesAndSeconds(mins: string, secs: string): Option<nat> {
    if mins != "" && secs != "" && AllDigits(mins) && AllDigits(secs)
    then Some(60 * ParseDigits(mins) + ParseDigits(secs))
    else None
  }

  /** A text ending in "s" is read through what comes before it. */
  lemma ParseSecondsSuffix(body: string)
    ensures ParseDuration(body + "s") == ParseDurationBody(body)
  {
    var t := body + "s";
    assert t[|t| - 1] == 's' && t[..|t| - 1] == body;
  }

  /** A string of digits contains no "m " anywhere. */
  lemma DigitsHaveNoMinuteMark(s: string, k: int)
    requires AllDigits(s)
    ensures !OccursAt(s, "m ", k)
  {
    if 0 <= k && k + 2 <= |s| {
      assert s[k..k + 2][0] == s[k];
      assert IsDigit(s[k]);
    }
  }

  /** Digits followed by "s" read back as their number. */
  lemma ParseSecondsOnly(n: nat)
    ensures ParseDuration(NatToString(n) + "s") == Some(n)
  {
    var body := NatToString(n);
    ParseSecondsSuffix(body);
    forall k ensures !OccursAt(body, "m ", k) {
      DigitsHaveNoMinuteMark(body, k);
    }
    ParseNatToString(n);
  }

  /** Below a minute the rendering is the rounded seconds followed by "s" (possibly "60s"). */
  lemma ParseShortDuration(seconds: real)
    requires 0.0 <= seconds < 60.0
    ensures ParseDuration(FormatDuration(seconds)) == Some(JsRound(seconds))
  {
    JsRoundBounds(seconds);
    ParseSecondsOnly(JsRound(seconds));
  }

  /** Whole minutes and the remainder below a minute add back up to the rounded seconds. */
  lemma MinutesAndRemainder(seconds: real)
    requires seconds >= 60.0
    ensures Minutes(seconds) >= 1
    ensures JsRound(seconds) == 60 * Minutes(seconds) + JsRound(RemainingSeconds(seconds))
    ensures JsRound(RemainingSeconds(seconds)) >= 0
  {
    var q := Minutes(seconds);
    var rest := RemainingSeconds(seconds);
    assert q as real <= seconds / 60.0 < q as real + 1.0;
    assert 60.0 * q as real <= seconds < 60.0 * q as real + 60.0;
    JsRoundBounds(rest);
    JsRoundShift(rest, 60 * q);
    assert rest + (60 * q) as real == seconds;
  }

  /** "<q>m <r>s" reads back as q minutes and r seconds. */
  lemma ParseMinutesText(q: int, r: int, n: int)
    requires q >= 0 && r >= 0 && n == 60 * q + r
    ensures ParseDuration(MinutesText(q, r)) == Some(n)
  {
    MinutesTextDigits(q, r);
    ParseDigitPair(q, r, n);
  }

  lemma ParseDigitPair(q: nat, r: nat, n: int)
    requires n == 60 * q + r
    ensures ParseDuration(NatToString(q) + "m " + NatToString(r) + "s") == Some(n)
  {
    ParseNatToString(q);
    ParseNatToString(r);
    ParseMinutesSeconds(NatToString(q), NatToString(r), n);
  }

  /** Whole minutes and seconds are written as their digits. */
  lemma MinutesTextDigits(q: nat, r: nat)
    ensures MinutesText(q, r) == NatToString(q) + "m " + NatToString(r) + "s"
  {
  }

  /** From a minute on the rendering is "<m>m <s>s", which adds back up to the rounded seconds. */
  lemma ParseLongDuration(seconds: real)
    requires seconds >= 60.0
    ensures ParseDuration(FormatDuration(seconds)) == Some(JsRound(seconds))
  {
    MinutesAndRemainder(seconds);
    LongDurationText(seconds);
    ParseMinutesText(Minutes(seconds), JsRound(RemainingSeconds(seconds)), JsRound(seconds));
  }

  /** From a minute on the rendering is the minutes and the rounded remainder. */
  lemma LongDurationText(seconds: real)
    requires seconds >= 60.0
    ensures FormatDuration(seconds) == MinutesText(Minutes(seconds), JsRound(RemainingSeconds(seconds)))
  {
  }

  /** "<a>m <b>s" with two digit strings reads as `a` minutes and `b` seconds. */
  lemma ParseMinutesSeconds(a: string, b: string, n: int)
    requires a != "" && b != "" && AllDigits(a) && AllDigits(b)
    requires n == 60 * ParseDigits(a) + ParseDigits(b)
    ensures ParseDuration(a + "m " + b + "s") == Some(n)
  {
    var body := a + "m " + b;
    ParseSecondsSuffix(body);
    assert ParseDurationBody(body) == ParseMinutesAndSeconds(a, b) by {
      MinuteMarkAfterDigits(a, b);
      assert body[..|a|] == a && body[|a| + 2..] == b;
    }
    ReadMinutesAndSeconds(a, b, n);
  }

  lemma ReadMinutesAndSeconds(a: string, b: string, n: int)
    requires a != "" && b != "" && AllDigits(a) && AllDigits(b)
    requires n == 60 * ParseDigits(a) + ParseDigits(b)
    ensures ParseMinutesAndSeconds(a, b) == Some(n)
  {
  }

  /** After a string of digits, the first "m " is the one that follows them. */
  lemma MinuteMarkAfterDigits(a: string, b: string)
    requires AllDigits(a)
    ensures IndexOf(a + "m " + b, "m ") == |a|
  {
    var body := a + "m " + b;
    assert OccursAt(body, "m ", |a|) by {
      assert body[|a|..|a| + 2] == "m ";
    }
    forall k | 0 <= k < |a| ensures !OccursAt(body, "m ", k) {
      assert body[k] == a[k];
      assert IsDigit(a[k]);
      if k + 2 <= |body| {
        assert body[k..k + 2][0] == body[k];
      }
    }
  }

  /** Every rendered duration reads back as the number of seconds it was made from. */
  lemma ParseFormatDuration(seconds: real)
    requires seconds >= 0.0
    ensures ParseDuration(FormatDuration(seconds)) == Some(JsRound(seconds))
    ensures seconds - 0.5 < JsRound(seconds) as real <= seconds + 0.5
    ensures seconds == seconds.Floor as real ==> ParseDuration(FormatDuration(seconds)) == Some(seconds.Floor)
  {
    JsRoundBounds(seconds);
    if seconds < 60.0 {
      ParseShortDuration(seconds);
    } else {
      ParseLongDuration(seconds);
    }
  }

  /**
   * The rounding shows in the text: 59.6 s is "60s", 119.6 s is "1m 60s", and
   * a negative duration keeps its sign, which no reading accepts.
   */
  lemma DurationRounding()
    ensures FormatDuration(59.6) == "60s"
    ensures FormatDuration(119.6) == "1m 60s"
    ensures FormatDuration(-5.0) == "-5s" && ParseDuration(FormatDuration(-5.0)) == None
  {
    assert JsRound(59.6) == 60 && NatToString(60) == "60";
    assert Minutes(119.6) == 1 && JsRound(RemainingSeconds(119.6)) == 60;
    assert NatToString(1) == "1";
    assert JsRound(-5.0) == -5 && NatToString(5) == "5";
    var t := FormatDuration(-5.0);
    assert t[..|t| - 1] == "-5";
    assert !AllDigits("-5") by { assert !IsDigit("-5"[0]); }
    assert IndexOf("-5", "m ") == -1;
  }
}
