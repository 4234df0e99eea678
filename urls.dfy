/**
 The part of URL parsing the filename resolver relies on, following the
 standard Python library's `urlparse` and `unquote`: the path component
 (section 3.3 of RFC 3986) with the query, the fragment and the `;params`
 of the last segment removed, and percent-decoding (section 2.1 of RFC
 3986) whose bytes are read as UTF-8.
 */
module Urls {
  import Utf8
  import opened Paths

  // ---------------------------------------------------------------------
  // urlparse(url).path
  // ---------------------------------------------------------------------

  /** Characters removed from the front of a URL: C0 controls and space. */
  predicate IsC0OrSpace(c: char) {
    c as int <= 0x20
  }

  /** Tab, carriage return and line feed are removed anywhere in a URL. */
  predicate IsUnsafe(c: char) {
    c == '\t' || c == '\r' || c == '\n'
  }

  predicate IsAsciiAlpha(c: char) {
    'a' <= c <= 'z' || 'A' <= c <= 'Z'
  }

  predicate IsSchemeChar(c: char) {
    IsAsciiAlpha(c) || '0' <= c <= '9' || c == '+' || c == '-' || c == '.'
  }

  /** Schemes whose last path segment may carry `;params`, the empty scheme included. */
  const UsesParams: set<string> := {"", "ftp", "hdl", "prospero", "http", "imap", "https",
    "shttp", "rtsp", "rtsps", "rtspu", "sip", "sips", "mms", "sftp", "tel"}

  /** Index of the first character at or after `from` that is not a C0 control or space. */
  function BlanksEnd(s: string, from: nat): (i: nat)
    requires from <= |s|
    ensures from <= i <= |s|
    ensures i < |s| ==> !IsC0OrSpace(s[i])
    ensures forall k :: from <= k < i ==> IsC0OrSpace(s[k])
    decreases |s| - from
  {
    if from == |s| || !IsC0OrSpace(s[from]) then from else BlanksEnd(s, from + 1)
  }

  /** `url.lstrip(_WHATWG_C0_CONTROL_OR_SPACE)`. */
  function LStrip(s: string): string {
    s[BlanksEnd(s, 0)..]
  }

  function RemoveUnsafe(s: string): (r: string)
    ensures forall k :: 0 <= k < |r| ==> !IsUnsafe(r[k])
  {
    if s == [] then []
    else if IsUnsafe(s[0]) then RemoveUnsafe(s[1..])
    else [s[0]] + RemoveUnsafe(s[1..])
  }

  function Lower(s: string): string {
    if s == [] then []
    else [if 'A' <= s[0] <= 'Z' then (s[0] as int + 32) as char else s[0]] + Lower(s[1..])
  }

  /** The URL with its leading blanks and every tab, carriage return and line feed removed. */
  function Cleaned(url: string): string {
    RemoveUnsafe(LStrip(url))
  }

  /**
   Length of the `scheme:` prefix split off the cleaned URL: a letter, then
   scheme characters, up to the first `:`; 0 when there is none.
   */
  function SchemeLength(s: string): (n: nat)
    ensures n <= |s|
  {
    var i := IndexOf(s, ':');
    if 0 < i < |s| && IsAsciiAlpha(s[0]) && forall k :: 0 <= k < i ==> IsSchemeChar(s[k]) then i + 1 else 0
  }

  /** The scheme of the cleaned URL, in lower case ("" when there is none). */
  function SchemeName(s: string): string {
    var n := SchemeLength(s);
    if n == 0 then "" else Lower(s[..n - 1])
  }

  /** `/`, `?` and `#` end the authority. */
  predicate EndsNetloc(c: char) {
    c == '/' || c == '?' || c == '#'
  }

  /** Index of the first character at or after `from` that is `/`, `?` or `#`, or `|s|`. */
  function NetlocEndFrom(s: string, from: nat): (i: nat)
    requires from <= |s|
    ensures from <= i <= |s|
    ensures i < |s| ==> EndsNetloc(s[i])
    ensures forall k :: from <= k < i ==> !EndsNetloc(s[k])
    decreases |s| - from
  {
    if from == |s| || EndsNetloc(s[from]) then from else NetlocEndFrom(s, from + 1)
  }

  /** The three properties of `NetlocEndFrom` determine it. */
  lemma NetlocEndFromUnique(s: string, from: nat, i: nat)
    requires from <= i <= |s| && (i < |s| ==> EndsNetloc(s[i]))
    requires forall k :: from <= k < i ==> !EndsNetloc(s[k])
    ensures NetlocEndFrom(s, from) == i
  {
  }

  /**
   Where the path starts, given where the scheme ends: after a leading
   `//authority`, which runs to the first `/`, `?` or `#`.
   */
  function PathStart(s: string, from: nat): (i: nat)
    requires from <= |s|
    ensures from <= i <= |s|
  {
    if from + 2 <= |s| && s[from] == '/' && s[from + 1] == '/' then NetlocEndFrom(s, from + 2) else from
  }

  /**
   Where the path ends: at the first `#` (the fragment is split off first)
   or, before it, the first `?` (then the query).
   */
  function PathEnd(s: string, start: nat): (i: nat)
    requires start <= |s|
    ensures start <= i <= |s|
    ensures i < |s| ==> s[i] == '#' || s[i] == '?'
    ensures forall k :: start <= k < i ==> s[k] != '#' && s[k] != '?'
  {
    var f := IndexFrom(s, '#', start);
    var q := IndexFrom(s, '?', start);
    if q < f then q else f
  }

  /** Where the last segment of `s[start..end]` starts: after its last `/`, or at `start`. */
  function SegmentStart(s: string, start: nat, end: nat): (i: nat)
    requires start <= end <= |s|
    ensures start <= i <= end
    ensures start < i ==> s[i - 1] == '/'
    ensures forall k :: i <= k < end ==> s[k] != '/'
  {
    var a := AfterLastBefore(s, '/', end);
    if a < start then start else a
  }

  /**
   Where the path `s[start..end]` is cut when its scheme takes `;params`:
   at the first `;` of its last segment.
   */
  function ParamsCut(s: string, start: nat, end: nat, params: bool): (i: nat)
    requires start <= end <= |s|
    ensures SegmentStart(s, start, end) <= i <= end
    ensures params ==> forall k :: SegmentStart(s, start, end) <= k < i ==> s[k] != ';'
    ensures params && i < end ==> s[i] == ';'
    ensures !params ==> i == end
  {
    if params then
      var p := IndexFrom(s, ';', SegmentStart(s, start, end));
      if p < end then p else end
    else end
  }

  /** The path component of an already cleaned URL. */
  function PathOf(s: string): string {
    var start := PathStart(s, SchemeLength(s));
    var end := PathEnd(s, start);
    s[start..ParamsCut(s, start, end, SchemeName(s) in UsesParams)]
  }

  /** The path component as `urlparse(url).path` gives it (Python 3.12). */
  function UrlPath(url: string): (path: string)
    ensures '?' !in path && '#' !in path
  {
    PathOf(Cleaned(url))
  }

  /** The three properties of `PathEnd` determine it. */
  lemma PathEndUnique(s: string, start: nat, i: nat)
    requires start <= i <= |s| && (i < |s| ==> s[i] == '#' || s[i] == '?')
    requires forall k :: start <= k < i ==> s[k] != '#' && s[k] != '?'
    ensures PathEnd(s, start) == i
  {
  }

  // ---------------------------------------------------------------------
  // unquote(s)
  // ---------------------------------------------------------------------

  predicate IsHexDigit(c: char) {
    '0' <= c <= '9' || 'a' <= c <= 'f' || 'A' <= c <= 'F'
  }

  function HexValue(c: char): (v: nat)
    requires IsHexDigit(c)
    ensures v < 16
  {
    if '0' <= c <= '9' then c as int - '0' as int
    else if 'a' <= c <= 'f' then c as int - 'a' as int + 10
    else c as int - 'A' as int + 10
  }

  /** `s` starts with a percent sign followed by two hexadecimal digits. */
  predicate StartsWithEscape(s: string) {
    |s| >= 3 && s[0] == '%' && IsHexDigit(s[1]) && IsHexDigit(s[2])
  }

  /**
   Decodes `s` with `pending` bytes already collected from the current run
   of ASCII characters: an escape adds its byte, any other ASCII character
   adds its own code, and a non-ASCII character ends the run (the run's
   bytes are decoded as UTF-8) and is copied as it is.
   */
  function UnquoteRun(s: string, pending: seq<Utf8.byte>): (r: string)
    ensures s != [] || pending != [] ==> r != []
    decreases |s|
  {
    if s == [] then
      Utf8.Decode(pending)
    else if s[0] as int >= 0x80 then
      Utf8.Decode(pending) + [s[0]] + UnquoteRun(s[1..], [])
    else if StartsWithEscape(s) then
      UnquoteRun(s[3..], pending + [(HexValue(s[1]) * 16 + HexValue(s[2])) as Utf8.byte])
    else
      UnquoteRun(s[1..], pending + [s[0] as int as Utf8.byte])
  }

  /** `unquote(s)`: a string without `%` is returned as it is. */
  function Unquote(s: string): (r: string)
    ensures s != [] ==> r != []
  {
    if '%' !in s then s else UnquoteRun(s, [])
  }

  /** The shortcut for strings without `%` agrees with the general decoding. */
  lemma {:induction false} UnquoteRunNoPercent(s: string, pending: seq<Utf8.byte>)
    requires '%' !in s && Utf8.IsAscii(pending)
    ensures UnquoteRun(s, pending) == Utf8.Decode(pending) + s
    decreases |s|
  {
    if s == [] {
    } else if s[0] as int >= 0x80 {
      UnquoteRunNoPercent(s[1..], []);
    } else {
      var b := s[0] as int as Utf8.byte;
      UnquoteRunNoPercent(s[1..], pending + [b]);
      Utf8.DecodeAppendAscii(pending, b);
      assert [s[0]] + s[1..] == s;
    }
  }

  lemma UnquoteWithoutPercent(s: string)
    requires '%' !in s
    ensures UnquoteRun(s, []) == s
  {
    UnquoteRunNoPercent(s, []);
  }

  /** ASCII text without `%`: `unquote` passes it through byte for byte. */
  predicate IsPlainAscii(s: string) {
    forall k :: 0 <= k < |s| ==> s[k] as int < 0x80 && s[k] != '%'
  }

  function AsciiBytes(s: string): (bs: seq<Utf8.byte>)
    requires IsPlainAscii(s)
    ensures |bs| == |s| && forall k :: 0 <= k < |s| ==> bs[k] as int == s[k] as int
  {
    seq(|s|, k requires 0 <= k < |s| => s[k] as int as Utf8.byte)
  }

  /** A plain ASCII prefix only adds its own bytes to the pending run. */
  lemma {:induction false} UnquoteRunPlain(a: string, t: string, pending: seq<Utf8.byte>)
    requires IsPlainAscii(a)
    ensures UnquoteRun(a + t, pending) == UnquoteRun(t, pending + AsciiBytes(a))
    decreases |a|
  {
    if a == [] {
      assert a + t == t && pending + AsciiBytes(a) == pending;
    } else {
      var s := a + t;
      assert s[0] == a[0] && s[1..] == a[1..] + t;
      assert pending + [a[0] as int as Utf8.byte] + AsciiBytes(a[1..]) == pending + AsciiBytes(a);
      UnquoteRunPlain(a[1..], t, pending + [a[0] as int as Utf8.byte]);
    }
  }

  /** An escape of an ASCII byte between plain ASCII text decodes to that character. */
  lemma EscapedAscii(a: string, hi: char, lo: char, b: string)
    requires IsPlainAscii(a) && IsPlainAscii(b)
    requires IsHexDigit(hi) && IsHexDigit(lo) && HexValue(hi) * 16 + HexValue(lo) < 0x80
    ensures Unquote(a + ['%', hi, lo] + b) == a + [(HexValue(hi) * 16 + HexValue(lo)) as char] + b
  {
    var v := HexValue(hi) * 16 + HexValue(lo);
    var s := a + ['%', hi, lo] + b;
    assert s[|a|] == '%';
    var t := ['%', hi, lo] + b;
    assert s == a + t;
    UnquoteRunPlain(a, t, []);
    var p := [] + AsciiBytes(a);
    assert StartsWithEscape(t) && t[3..] == b;
    assert UnquoteRun(t, p) == UnquoteRun(b, p + [v as Utf8.byte]);
    assert forall k :: 0 <= k < |b| ==> b[k] != '%';
    Utf8.DecodeAscii(p + [v as Utf8.byte]);
    UnquoteRunNoPercent(b, p + [v as Utf8.byte]);
    assert Utf8.Decode(p + [v as Utf8.byte]) == a + [v as char];
  }

  // ---------------------------------------------------------------------
  // The reference encoder: every UTF-8 byte as %HH
  // ---------------------------------------------------------------------

  function HexDigit(v: nat): (c: char)
    requires v < 16
    ensures IsHexDigit(c) && HexValue(c) == v
  {
    if v < 10 then ('0' as int + v) as char else ('A' as int + v - 10) as char
  }

  function EscapeBytes(bs: seq<Utf8.byte>): (s: string)
    ensures |s| == 3 * |bs|
    ensures forall c :: c in s ==> c == '%' || IsHexDigit(c)
  {
    if bs == [] then []
    else ['%', HexDigit(bs[0] as int / 16), HexDigit(bs[0] as int % 16)] + EscapeBytes(bs[1..])
  }

  /** Percent-encodes every byte of the UTF-8 encoding of `s`. */
  function Quote(s: string): (q: string)
    ensures forall c :: c in q ==> c == '%' || IsHexDigit(c)
    ensures s != [] ==> '%' in q
  {
    EscapeBytes(Utf8.Encode(s))
  }

  /** The escape of the first byte comes first, and it reads back as that byte. */
  lemma EscapeFirst(bs: seq<Utf8.byte>)
    requires bs != []
    ensures StartsWithEscape(EscapeBytes(bs))
    ensures EscapeBytes(bs)[3..] == EscapeBytes(bs[1..])
    ensures (HexValue(EscapeBytes(bs)[1]) * 16 + HexValue(EscapeBytes(bs)[2])) as Utf8.byte == bs[0]
  {
    var e := EscapeBytes(bs);
    var b := bs[0];
    assert e[..3] == ['%', HexDigit(b as int / 16), HexDigit(b as int % 16)];
  }

  /** Unquoting an escaped byte sequence adds its first byte to the pending run. */
  lemma EscapeStep(bs: seq<Utf8.byte>, pending: seq<Utf8.byte>)
    requires bs != []
    ensures UnquoteRun(EscapeBytes(bs), pending) == UnquoteRun(EscapeBytes(bs[1..]), pending + [bs[0]])
  {
    EscapeFirst(bs);
  }

  lemma MoveFirst(pending: seq<Utf8.byte>, bs: seq<Utf8.byte>)
    requires bs != []
    ensures pending + [bs[0]] + bs[1..] == pending + bs
  {
  }

  lemma {:induction false} UnquoteRunEscapes(bs: seq<Utf8.byte>, pending: seq<Utf8.byte>)
    ensures UnquoteRun(EscapeBytes(bs), pending) == Utf8.Decode(pending + bs)
    decreases |bs|
  {
    if bs == [] {
      assert pending + bs == pending;
    } else {
      EscapeStep(bs, pending);
      UnquoteRunEscapes(bs[1..], pending + [bs[0]]);
      MoveFirst(pending, bs);
    }
  }

  /** Round trip: `unquote` reads back what the reference encoder wrote. */
  lemma UnquoteQuote(s: string)
    ensures Unquote(Quote(s)) == s
  {
    if s != [] {
      UnquoteRunEscapes(Utf8.Encode(s), []);
      assert [] + Utf8.Encode(s) == Utf8.Encode(s);
      Utf8.DecodeEncode(s);
    }
  }
}
