/**
 * The two steps that turn a URL path into a file name: the text after the
 * last `/` (`path.split('/')[-1]`) and percent-decoding (`unquote`, the
 * inverse of the percent-encoding of section 2.1 of RFC 3986).
 */
module UrlPath {

  /**
   * The last `/`-separated segment: the longest suffix of the path without
   * a `/`, the whole path when it has none.
   */
  function LastSegment(path: string): (r: string)
    ensures '/' !in r
    ensures |r| <= |path| && path[|path| - |r|..] == r
    ensures |r| < |path| ==> path[|path| - |r| - 1] == '/'
  {
    if path == [] then []
    else if path[|path| - 1] == '/' then []
    else
      var init := LastSegment(path[..|path| - 1]);
      assert path[..|path| - 1][|path| - 1 - |init|..] == init;
      init + [path[|path| - 1]]
  }

  /** The segment after a path's last `/` is its last segment, whatever precedes it. */
  lemma LastSegmentAfter(prefix: string, seg: string)
    requires '/' !in seg
    ensures LastSegment(prefix + "/" + seg) == seg
  {
    var path := prefix + "/" + seg;
    var r := LastSegment(path);
    assert path[|path| - |seg| - 1] == '/';
    assert path[|path| - |seg|..] == seg;
    assert |r| == |seg|;
  }

  predicate IsHexDigit(c: char)
  {
    '0' <= c <= '9' || 'a' <= c <= 'f' || 'A' <= c <= 'F'
  }

  function HexValue(c: char): (v: nat)
    requires IsHexDigit(c)
    ensures v < 16
  {
    if '0' <= c <= '9' then c as int - '0' as int
    else if 'a' <= c <= 'f' then c as int - 'a' as int + 10
    else c as int - 'A' as int + 10
  }

  /** The upper-case hex digit for d. */
  function HexDigit(d: nat): (c: char)
    requires d < 16
    ensures IsHexDigit(c) && HexValue(c) == d
  {
    if d < 10 then ('0' as int + d) as char else ('A' as int + d - 10) as char
  }

  /**
   * `%` followed by two hex digits stands for the character with that code;
   * any other `%` is kept as it is.
   */
  function PercentDecode(s: string): (r: string)
    ensures |r| <= |s|
  {
    if s == [] then []
    else if |s| >= 3 && s[0] == '%' && IsHexDigit(s[1]) && IsHexDigit(s[2]) then
      [(HexValue(s[1]) * 16 + HexValue(s[2])) as char] + PercentDecode(s[3..])
    else [s[0]] + PercentDecode(s[1..])
  }

  /** A character other than `%` decodes to itself. */
  lemma DecodePlainHead(c: char, rest: string)
    requires c != '%'
    ensures PercentDecode([c] + rest) == [c] + PercentDecode(rest)
  {
  }

  /** `%` and two hex digits decode to the character with that code. */
  lemma DecodeEscapeHead(h1: char, h2: char, rest: string)
    requires IsHexDigit(h1) && IsHexDigit(h2)
    ensures PercentDecode(['%', h1, h2] + rest) == [(HexValue(h1) * 16 + HexValue(h2)) as char] + PercentDecode(rest)
  {
  }

  /** Text without `%` in front of anything decodes to itself followed by the decoded rest. */
  lemma {:induction false} DecodePlainPrefix(plain: string, rest: string)
    requires '%' !in plain
    ensures PercentDecode(plain + rest) == plain + PercentDecode(rest)
  {
    if plain == [] {
      assert plain + rest == rest;
    } else {
      var tail := plain[1..];
      assert '%' !in tail;
      DecodePlainPrefix(tail, rest);
      assert plain + rest == [plain[0]] + (tail + rest);
      DecodePlainHead(plain[0], tail + rest);
      assert plain == [plain[0]] + tail;
    }
  }

  /** `%22` between two runs of text without `%` decodes to a double quote. */
  lemma DecodeQuote(before: string, after: string)
    requires '%' !in before && '%' !in after
    ensures PercentDecode(before + "%22" + after) == before + "\"" + after
  {
    assert before + "%22" + after == before + (['%', '2', '2'] + after);
    DecodeWithoutPercent(after);
    DecodeEscapeHead('2', '2', after);
    DecodePlainPrefix(before, ['%', '2', '2'] + after);
    assert before + "\"" + after == before + (['"'] + after);
  }

  /** Encodes every character (each below 256) as `%` and two hex digits. */
  function PercentEncode(s: string): (r: string)
    requires forall i :: 0 <= i < |s| ==> s[i] as int < 256
    ensures |r| == 3 * |s|
  {
    if s == [] then []
    else
      var c := s[0] as int;
      ['%', HexDigit(c / 16), HexDigit(c % 16)] + PercentEncode(s[1..])
  }

  /** Decoding undoes encoding. */
  lemma {:induction false} DecodeEncode(s: string)
    requires forall i :: 0 <= i < |s| ==> s[i] as int < 256
    ensures PercentDecode(PercentEncode(s)) == s
  {
    if s != [] {
      var c := s[0] as int;
      var e := PercentEncode(s);
      assert e[3..] == PercentEncode(s[1..]);
      DecodeEncode(s[1..]);
      assert (HexValue(e[1]) * 16 + HexValue(e[2])) as char == s[0];
    }
  }

  /** Text without `%` decodes to itself (Python's `unquote` returns it unchanged). */
  lemma {:induction false} DecodeWithoutPercent(s: string)
    requires '%' !in s
    ensures PercentDecode(s) == s
  {
    if s != [] {
      DecodeWithoutPercent(s[1..]);
    }
  }
}
