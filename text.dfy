/**
 * The JavaScript string primitives the converter relies on, stated over
 * `string` (a sequence of UTF-16 code units is modelled as `seq<char>`):
 * `split` with a string separator, `join`, `trim`, `startsWith`/`endsWith`,
 * `lastIndexOf`, `toLowerCase` and the decimal rendering of whole numbers
 * in template literals.
 */
module Text {

  /** The code points `String.prototype.trim` removes: ECMAScript WhiteSpace and LineTerminator. */
  predicate IsSpace(c: char) {
    || c == ' ' || c == '\t' || c == '\n' || c == '\r' || c == '\U{000B}' || c == '\U{000C}'
    || c == '\U{00A0}' || c == '\U{1680}' || ('\U{2000}' <= c <= '\U{200A}')
    || c == '\U{2028}' || c == '\U{2029}' || c == '\U{202F}' || c == '\U{205F}'
    || c == '\U{3000}' || c == '\U{FEFF}'
  }

  /** Every character of `s` is whitespace (the empty string included). */
  predicate AllSpace(s: string) {
    forall i :: 0 <= i < |s| ==> IsSpace(s[i])
  }

  function TrimStart(s: string): (r: string)
    ensures |r| <= |s| && r == s[|s| - |r|..]
    ensures AllSpace(s[..|s| - |r|])
    ensures r != [] ==> !IsSpace(r[0])
  {
    if s != [] && IsSpace(s[0]) then
      var r := TrimStart(s[1..]);
      LeadingSpaceStep(s, r);
      r
    else s
  }

  /** Dropping one more leading space keeps `TrimStart`'s contract. */
  lemma LeadingSpaceStep(s: string, r: string)
    requires s != [] && IsSpace(s[0])
    requires |r| <= |s| - 1 && r == s[1..][|s| - 1 - |r|..] && AllSpace(s[1..][..|s| - 1 - |r|])
    ensures r == s[|s| - |r|..] && AllSpace(s[..|s| - |r|])
  {
    var n := |s| - |r|;
    assert s[1..][n - 1..] == s[n..];
    forall i | 1 <= i < n ensures IsSpace(s[i]) {
      assert s[i] == s[1..][..n - 1][i - 1];
    }
  }

  function TrimEnd(s: string): (r: string)
    ensures |r| <= |s| && r == s[..|r|]
    ensures AllSpace(s[|r|..])
    ensures r != [] ==> !IsSpace(r[|r| - 1])
  {
    if s != [] && IsSpace(s[|s| - 1]) then TrimEnd(s[..|s| - 1]) else s
  }

  /** `s.trim()`. */
  function Trim(s: string): string {
    TrimEnd(TrimStart(s))
  }

  /**
   * `s.trim()` is falsy: the test the converters use to drop blank pages,
   * slides and sections. Stated as "whitespace only"; `TrimEmptyIffBlank`
   * shows this is exactly when trimming leaves "".
   */
  predicate IsBlank(s: string) {
    AllSpace(s)
  }

  /** Trimming leaves "" exactly when the string consists of whitespace only. */
  lemma TrimEmptyIffBlank(s: string)
    ensures Trim(s) == "" <==> IsBlank(s)
  {
    var t := TrimStart(s);
    if Trim(s) == "" {
      assert t == [] by {
        assert AllSpace(t[0..]);
      }
      assert s[..|s|] == s;
    }
  }

  /** Trimming never leaves whitespace at either end. */
  lemma TrimEnds(s: string)
    ensures var r := Trim(s); r != [] ==> !IsSpace(r[0]) && !IsSpace(r[|r| - 1])
  {
    var t := TrimStart(s);
    var r := TrimEnd(t);
    if r != [] {
      assert r[0] == t[0];
    }
  }

  predicate StartsWith(s: string, prefix: string) {
    |prefix| <= |s| && s[..|prefix|] == prefix
  }

  predicate EndsWith(s: string, suffix: string) {
    |suffix| <= |s| && s[|s| - |suffix|..] == suffix
  }

  /** `sep` occurs in `s` starting at index `k`. */
  predicate OccursAt(s: string, sep: string, k: int) {
    0 <= k && k + |sep| <= |s| && s[k..k + |sep|] == sep
  }

  /** Occurrences in `s[1..]` are the occurrences in `s` shifted by one. */
  lemma OccursShift(s: string, sep: string, k: int)
    requires |s| >= 1 && k >= 0
    ensures OccursAt(s[1..], sep, k) <==> OccursAt(s, sep, k + 1)
  {
    if k + 1 + |sep| <= |s| {
      assert s[1..][k..k + |sep|] == s[k + 1..k + 1 + |sep|];
    }
  }

  /** `s.indexOf(sep)`: the first occurrence of `sep`, or -1. */
  function IndexOf(s: string, sep: string): (i: int)
    requires |sep| > 0
    ensures i == -1 || OccursAt(s, sep, i)
    ensures i == -1 ==> forall k :: !OccursAt(s, sep, k)
    ensures forall k :: 0 <= k < i ==> !OccursAt(s, sep, k)
    decreases |s|
  {
    if |s| < |sep| then -1
    else if s[..|sep|] == sep then 0
    else
      var j := IndexOf(s[1..], sep);
      assert forall k :: 0 <= k && (j == -1 || k < j + 1) ==> !OccursAt(s, sep, k) by {
        forall k | 0 <= k && (j == -1 || k < j + 1) ensures !OccursAt(s, sep, k) {
          if k >= 1 {
            OccursShift(s, sep, k - 1);
          }
        }
      }
      if j == -1 then -1 else OccursShift(s, sep, j); j + 1
  }

  /** `s.lastIndexOf(c)`: the last index holding `c`, or -1. */
  function LastIndexOf(s: string, c: char): (i: int)
    ensures -1 <= i < |s|
    ensures i >= 0 ==> s[i] == c
    ensures forall k :: i < k < |s| ==> s[k] != c
  {
    if s == [] then -1
    else if s[|s| - 1] == c then |s| - 1
    else LastIndexOf(s[..|s| - 1], c)
  }

  /** `lastIndexOf` is the only index meeting its own postcondition. */
  lemma LastIndexOfUnique(s: string, c: char, i: int)
    requires -1 <= i < |s| && (i >= 0 ==> s[i] == c)
    requires forall k :: i < k < |s| ==> s[k] != c
    ensures LastIndexOf(s, c) == i
  {
  }

  /** `s.split(sep)` for a non-empty string separator. */
  function Split(s: string, sep: string): (parts: seq<string>)
    requires |sep| > 0
    ensures |parts| >= 1
    decreases |s|
  {
    var i := IndexOf(s, sep);
    if i < 0 then [s] else [s[..i]] + Split(s[i + |sep|..], sep)
  }

  /** `parts.join(sep)`. */
  function Join(parts: seq<string>, sep: string): string {
    if |parts| == 0 then ""
    else if |parts| == 1 then parts[0]
    else parts[0] + sep + Join(parts[1..], sep)
  }

  /** Joining a leading piece onto a non-empty tail puts the separator between them. */
  lemma JoinCons(head: string, tail: seq<string>, sep: string)
    requires |tail| >= 1
    ensures Join([head] + tail, sep) == head + sep + Join(tail, sep)
  {
    assert ([head] + tail)[1..] == tail;
  }

  /** The unfolding of `Split` at the first occurrence of the separator. */
  lemma SplitAt(s: string, sep: string)
    requires |sep| > 0 && IndexOf(s, sep) >= 0
    ensures var i := IndexOf(s, sep);
      Split(s, sep) == [s[..i]] + Split(s[i + |sep|..], sep)
  {
  }

  /** The text around the first occurrence of the separator. */
  lemma AroundIndexOf(s: string, sep: string)
    requires |sep| > 0 && IndexOf(s, sep) >= 0
    ensures var i := IndexOf(s, sep);
      s == s[..i] + sep + s[i + |sep|..]
  {
    var i := IndexOf(s, sep);
    assert OccursAt(s, sep, i);
    assert s[i..i + |sep|] == sep;
    assert s == s[..i] + s[i..i + |sep|] + s[i + |sep|..];
  }

  /** Splitting and joining again with the same separator gives the input back. */
  lemma {:induction false} JoinSplit(s: string, sep: string)
    requires |sep| > 0
    ensures Join(Split(s, sep), sep) == s
    decreases |s|
  {
    var i := IndexOf(s, sep);
    if i >= 0 {
      var rest := s[i + |sep|..];
      JoinSplit(rest, sep);
      SplitAt(s, sep);
      AroundIndexOf(s, sep);
      JoinCons(s[..i], Split(rest, sep), sep);
    }
  }

  /** No piece of a split on a single character contains that character. */
  lemma {:induction false} SplitPiecesFree(s: string, c: char)
    ensures forall k :: 0 <= k < |Split(s, [c])| ==> c !in Split(s, [c])[k]
    decreases |s|
  {
    var i := IndexOf(s, [c]);
    if i < 0 {
      forall k | 0 <= k < |s| ensures s[k] != c {
        assert !OccursAt(s, [c], k);
      }
    } else {
      SplitPiecesFree(s[i + 1..], c);
      forall k | 0 <= k < i ensures s[k] != c {
        assert !OccursAt(s, [c], k);
      }
    }
  }

  /** The pieces of a whitespace-only string are whitespace-only. */
  lemma {:induction false} SplitPiecesAllSpace(s: string, sep: string)
    requires |sep| > 0 && AllSpace(s)
    ensures forall k :: 0 <= k < |Split(s, sep)| ==> AllSpace(Split(s, sep)[k])
    decreases |s|
  {
    var i := IndexOf(s, sep);
    if i >= 0 {
      var rest := s[i + |sep|..];
      assert AllSpace(rest) by {
        forall j | 0 <= j < |rest| ensures IsSpace(rest[j]) {
          assert rest[j] == s[i + |sep| + j];
        }
      }
      assert AllSpace(s[..i]) by {
        forall j | 0 <= j < i ensures IsSpace(s[..i][j]) {
          assert s[..i][j] == s[j];
        }
      }
      SplitPiecesAllSpace(rest, sep);
      AllSpaceCons(s[..i], Split(rest, sep));
    }
  }

  lemma AllSpaceCons(x: string, tail: seq<string>)
    requires AllSpace(x) && forall k :: 0 <= k < |tail| ==> AllSpace(tail[k])
    ensures forall k :: 0 <= k < |[x] + tail| ==> AllSpace(([x] + tail)[k])
  {
    forall k | 0 < k < |[x] + tail| ensures AllSpace(([x] + tail)[k]) {
      assert ([x] + tail)[k] == tail[k - 1];
    }
  }

  /** Joining pieces free of `c` with `c` and splitting again gives the pieces back. */
  lemma {:induction false} SplitJoin(parts: seq<string>, c: char)
    requires |parts| >= 1
    requires forall k :: 0 <= k < |parts| ==> c !in parts[k]
    ensures Split(Join(parts, [c]), [c]) == parts
  {
    var s := Join(parts, [c]);
    if |parts| == 1 {
      assert forall k :: !OccursAt(s, [c], k) by {
        forall k | 0 <= k < |s| ensures !OccursAt(s, [c], k) {
          assert s[k..k + 1] == [s[k]];
        }
      }
    } else {
      var rest := Join(parts[1..], [c]);
      SplitJoin(parts[1..], c);
      var p := parts[0];
      assert s == p + [c] + rest;
      FirstSeparator(p, c, rest);
      SplitAt(s, [c]);
      assert s[|p| + 1..] == rest && s[..|p|] == p;
    }
  }

  /** In `p + [c] + rest` with `c` not in `p`, the first `c` is the one after `p`. */
  lemma FirstSeparator(p: string, c: char, rest: string)
    requires c !in p
    ensures IndexOf(p + [c] + rest, [c]) == |p|
  {
    var s := p + [c] + rest;
    assert OccursAt(s, [c], |p|);
    forall k | 0 <= k < |p| ensures !OccursAt(s, [c], k) {
      assert s[k] == p[k];
    }
  }

  /** Joining whitespace-only pieces with a whitespace-only separator gives a blank string. */
  lemma {:induction false} JoinAllSpace(parts: seq<string>, sep: string)
    requires AllSpace(sep)
    requires forall k :: 0 <= k < |parts| ==> AllSpace(parts[k])
    ensures AllSpace(Join(parts, sep))
  {
    if |parts| > 1 {
      JoinAllSpace(parts[1..], sep);
      var a := parts[0] + sep;
      var b := Join(parts[1..], sep);
      assert Join(parts, sep) == a + b;
      forall i | 0 <= i < |a + b| ensures IsSpace((a + b)[i]) {
        if i < |parts[0]| {
        } else if i < |a| {
          assert (a + b)[i] == sep[i - |parts[0]|];
        } else {
          assert (a + b)[i] == b[i - |a|];
        }
      }
    }
  }

  /** ASCII case mapping of one character, as `toLowerCase` does for A-Z. */
  function LowerChar(c: char): char {
    if 'A' <= c <= 'Z' then (c as int + 32) as char else c
  }

  /** `s.toLowerCase()` on the ASCII letters. */
  function ToLower(s: string): (r: string)
    ensures |r| == |s|
    ensures forall i :: 0 <= i < |s| ==> r[i] == LowerChar(s[i])
  {
    seq(|s|, i requires 0 <= i < |s| => LowerChar(s[i]))
  }

  /** Lower-casing is idempotent. */
  lemma ToLowerIdempotent(s: string)
    ensures ToLower(ToLower(s)) == ToLower(s)
  {
  }

  /** The decimal digit for `d`. */
  function DigitChar(d: nat): char
    requires d < 10
  {
    "0123456789"[d]
  }

  predicate IsDigit(c: char) {
    '0' <= c <= '9'
  }

  predicate AllDigits(s: string) {
    forall i :: 0 <= i < |s| ==> IsDigit(s[i])
  }

  /** `${n}` for a whole number `n >= 0`: its decimal digits. */
  function NatToString(n: nat): (r: string)
    ensures |r| >= 1 && AllDigits(r)
  {
    if n < 10 then [DigitChar(n)] else NatToString(n / 10) + [DigitChar(n % 10)]
  }

  /** `${i}` for any whole number, with a leading minus sign when negative. */
  function IntToString(i: int): (r: string)
    ensures |r| >= 1
  {
    if i < 0 then "-" + NatToString(-i) else NatToString(i)
  }

  /** The number a string of decimal digits denotes. */
  function ParseDigits(s: string): nat
    requires AllDigits(s)
  {
    if s == [] then 0 else 10 * ParseDigits(s[..|s| - 1]) + (s[|s| - 1] as int - '0' as int)
  }

  /** Reading back the decimal rendering of `n` gives `n`. */
  lemma {:induction false} ParseNatToString(n: nat)
    ensures ParseDigits(NatToString(n)) == n
  {
    if n >= 10 {
      var q, d := n / 10, n % 10;
      var s := NatToString(n);
      assert ParseDigits(s) == 10 * ParseDigits(NatToString(q)) + d by {
        assert s == NatToString(q) + [DigitChar(d)];
        assert s[..|s| - 1] == NatToString(q);
        assert s[|s| - 1] as int - '0' as int == d;
      }
      ParseNatToString(q);
    }
  }
}
