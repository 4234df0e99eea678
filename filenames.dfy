/**
 The filename resolver (app.py `get_filename_from_url`): the last segment of
 the URL's path, percent-decoded, or "file.jpg" when that segment is empty.
 */
module Filenames {
  import opened Urls
  import opened Paths
  import Utf8

  const Fallback: string := "file.jpg"

  /**
   The undecoded last path segment, `basename(urlparse(url).path)`, which
   the resolver tests for emptiness; located by index in the cleaned URL.
   */
  function RawName(url: string): (raw: string)
    ensures |raw| <= |UrlPath(url)| && raw == UrlPath(url)[|UrlPath(url)| - |raw|..]
  {
    LastSegmentOf(Cleaned(url))
  }

  /** The last path segment of an already cleaned URL. */
  function LastSegmentOf(s: string): string {
    var start := PathStart(s, SchemeLength(s));
    var end := PathEnd(s, start);
    s[SegmentStart(s, start, end)..ParamsCut(s, start, end, SchemeName(s) in UsesParams)]
  }

  /** The scheme `urlparse` finds, in lower case ("" when there is none). */
  function Scheme(url: string): string {
    SchemeName(Cleaned(url))
  }

  function FromUrl(url: string): (name: string)
    ensures name != []
  {
    var raw := RawName(url);
    if raw != [] then Unquote(raw) else Fallback
  }

  /** `RawName` is the basename of the path `urlparse` finds. */
  lemma RawNameIsBasename(url: string)
    ensures RawName(url) == Basename(UrlPath(url))
  {
    var s := Cleaned(url);
    var start := PathStart(s, SchemeLength(s));
    var end := PathEnd(s, start);
    var seg := SegmentStart(s, start, end);
    var cut := ParamsCut(s, start, end, SchemeName(s) in UsesParams);
    BasenameOfSlice(s, start, seg, cut);
  }

  // ---------------------------------------------------------------------
  // What the raw segment can hold
  // ---------------------------------------------------------------------

  /**
   The raw segment never holds `/`, `?` or `#`: the query and the fragment
   are not part of it, and neither are `;params` under a scheme that has them.
   */
  lemma RawNameShape(url: string)
    ensures '/' !in RawName(url) && '?' !in RawName(url) && '#' !in RawName(url)
    ensures Scheme(url) in UsesParams ==> ';' !in RawName(url)
  {
    SegmentShape(Cleaned(url));
  }

  /** The shape of the last segment, for an already cleaned URL. */
  lemma SegmentShape(s: string)
    ensures var raw := LastSegmentOf(s);
      && '/' !in raw && '?' !in raw && '#' !in raw
      && (SchemeName(s) in UsesParams ==> ';' !in raw)
  {
    var start := PathStart(s, SchemeLength(s));
    var end := PathEnd(s, start);
    var seg := SegmentStart(s, start, end);
    var cut := ParamsCut(s, start, end, SchemeName(s) in UsesParams);
    var raw := s[seg..cut];
    forall k | 0 <= k < |raw|
      ensures raw[k] != '/' && raw[k] != '?' && raw[k] != '#'
      ensures SchemeName(s) in UsesParams ==> raw[k] != ';'
    {
      assert raw[k] == s[seg + k];
    }
  }

  // ---------------------------------------------------------------------
  // Plain http(s) URLs
  // ---------------------------------------------------------------------

  lemma {:induction false} RemoveUnsafeConcat(a: string, b: string)
    ensures RemoveUnsafe(a + b) == RemoveUnsafe(a) + RemoveUnsafe(b)
  {
    if a == [] {
      assert a + b == b;
    } else {
      assert (a + b)[1..] == a[1..] + b;
      assert (a + b)[0] == a[0];
      RemoveUnsafeConcat(a[1..], b);
    }
  }

  lemma {:induction false} RemoveUnsafeKeeps(a: string)
    requires forall k :: 0 <= k < |a| ==> !IsUnsafe(a[k])
    ensures RemoveUnsafe(a) == a
  {
    if a != [] {
      RemoveUnsafeKeeps(a[1..]);
      assert [a[0]] + a[1..] == a;
    }
  }

  /** A character allowed in the authority of a plain URL. */
  predicate IsHostChar(c: char) {
    !EndsNetloc(c) && !IsUnsafe(c) && c != '[' && c != ']'
  }

  /** A character allowed in the path of a plain URL. */
  predicate IsPathChar(c: char) {
    c != '?' && c != '#' && !IsUnsafe(c)
  }

  /** `scheme://host` + `path` + `tail`, where the tail is empty or a query or fragment. */
  predicate IsPlainUrl(scheme: string, host: string, path: string, tail: string) {
    && (scheme == "http" || scheme == "https")
    && (forall k :: 0 <= k < |host| ==> IsHostChar(host[k]))
    && (forall k :: 0 <= k < |path| ==> IsPathChar(path[k]))
    && (path == [] || path[0] == '/')
    && (tail == [] || tail[0] == '?' || tail[0] == '#')
  }

  lemma RemoveUnsafeAfter(a: string, b: string)
    requires forall k :: 0 <= k < |a| ==> !IsUnsafe(a[k])
    ensures RemoveUnsafe(a + b) == a + RemoveUnsafe(b)
  {
    RemoveUnsafeConcat(a, b);
    RemoveUnsafeKeeps(a);
  }

  /** A plain URL, grouped from the right the way the lemmas below take it apart. */
  function PlainUrl(scheme: string, host: string, path: string, tail: string): string {
    scheme + (":" + ("//" + (host + (path + tail))))
  }

  lemma LStripKeeps(scheme: string, rest: string)
    requires scheme == "http" || scheme == "https"
    ensures LStrip(scheme + rest) == scheme + rest
  {
    assert (scheme + rest)[0] == 'h';
    assert BlanksEnd(scheme + rest, 0) == 0;
  }

  /** The fixed parts of a plain URL hold no character that cleaning removes. */
  lemma FixedPartsSafe(scheme: string)
    requires scheme == "http" || scheme == "https"
    ensures forall k :: 0 <= k < |scheme| ==> !IsUnsafe(scheme[k])
    ensures forall k :: 0 <= k < |"//"| ==> !IsUnsafe("//"[k])
    ensures forall k :: 0 <= k < |":"| ==> !IsUnsafe(":"[k])
  {
  }

  /** Removing tabs and newlines from a plain URL only touches its tail. */
  lemma PlainUrlSafe(scheme: string, host: string, path: string, tail: string)
    requires IsPlainUrl(scheme, host, path, tail)
    ensures RemoveUnsafe(PlainUrl(scheme, host, path, tail)) == PlainUrl(scheme, host, path, RemoveUnsafe(tail))
  {
    FixedPartsSafe(scheme);
    RemoveUnsafeAfter(path, tail);
    RemoveUnsafeAfter(host, path + tail);
    RemoveUnsafeAfter("//", host + (path + tail));
    RemoveUnsafeAfter(":", "//" + (host + (path + tail)));
    RemoveUnsafeAfter(scheme, ":" + ("//" + (host + (path + tail))));
  }

  lemma PlainUrlCleaned(scheme: string, host: string, path: string, tail: string)
    requires IsPlainUrl(scheme, host, path, tail)
    ensures Cleaned(PlainUrl(scheme, host, path, tail)) == PlainUrl(scheme, host, path, RemoveUnsafe(tail))
  {
    LStripKeeps(scheme, ":" + ("//" + (host + (path + tail))));
    PlainUrlSafe(scheme, host, path, tail);
  }

  lemma {:induction false} LowerKeeps(s: string)
    requires forall k :: 0 <= k < |s| ==> !('A' <= s[k] <= 'Z')
    ensures Lower(s) == s
  {
    if s != [] {
      LowerKeeps(s[1..]);
      assert [s[0]] + s[1..] == s;
    }
  }

  /** `c` spells `scheme://host` + `path` + `t`: where each part stands. */
  ghost predicate Layout(c: string, scheme: string, host: string, path: string, t: string) {
    var h0 := |scheme| + 3;
    var p0 := h0 + |host|;
    var t0 := p0 + |path|;
    && |c| == t0 + |t|
    && (forall i :: 0 <= i < |scheme| ==> c[i] == scheme[i])
    && c[|scheme|] == ':' && c[|scheme| + 1] == '/' && c[|scheme| + 2] == '/'
    && (forall i :: h0 <= i < p0 ==> c[i] == host[i - h0])
    && (forall i :: p0 <= i < t0 ==> c[i] == path[i - p0])
    && (forall i :: t0 <= i < |c| ==> c[i] == t[i - t0])
  }

  lemma PlainUrlLayout(scheme: string, host: string, path: string, t: string)
    ensures Layout(PlainUrl(scheme, host, path, t), scheme, host, path, t)
  {
  }

  lemma LayoutScheme(c: string, scheme: string, host: string, path: string, t: string)
    requires Layout(c, scheme, host, path, t)
    requires scheme == "http" || scheme == "https"
    ensures SchemeLength(c) == |scheme| + 1
    ensures SchemeName(c) == scheme
  {
    IndexOfUnique(c, ':', |scheme|);
    assert IsAsciiAlpha(c[0]);
    assert forall k :: 0 <= k < |scheme| ==> IsSchemeChar(c[k]);
    assert c[..|scheme|] == scheme;
    LowerKeeps(scheme);
  }

  /** The path of a plain URL starts after its host and ends where its tail begins. */
  lemma LayoutBounds(c: string, scheme: string, host: string, path: string, t: string)
    requires Layout(c, scheme, host, path, t)
    requires IsPlainUrl(scheme, host, path, t)
    ensures PathStart(c, SchemeLength(c)) == |scheme| + 3 + |host|
    ensures PathEnd(c, |scheme| + 3 + |host|) == |scheme| + 3 + |host| + |path|
  {
    var h0 := |scheme| + 3;
    var p0 := h0 + |host|;
    var t0 := p0 + |path|;
    LayoutScheme(c, scheme, host, path, t);
    assert p0 < |c| ==> EndsNetloc(c[p0]) by {
      if p0 < t0 {
        assert c[p0] == path[0];
      } else if p0 < |c| {
        assert c[p0] == t[0];
      }
    }
    NetlocEndFromUnique(c, h0, p0);
    assert t0 < |c| ==> c[t0] == t[0];
    PathEndUnique(c, p0, t0);
  }

  /**
   Where a path `dir/segment` stands in `c` from index `p0` on, its last
   segment is `segment`, cut at its first `;`.
   */
  lemma SegmentAt(c: string, p0: nat, path: string, dir: string, segment: string)
    requires path == dir + "/" + segment && '/' !in segment
    requires p0 + |path| <= |c| && c[p0..p0 + |path|] == path
    ensures c[SegmentStart(c, p0, p0 + |path|)..ParamsCut(c, p0, p0 + |path|, true)]
         == segment[..IndexOf(segment, ';')]
  {
    var t0 := p0 + |path|;
    var s0 := p0 + |dir| + 1;
    var j := IndexOf(segment, ';');
    assert c[s0 - 1] == c[p0..t0][|dir|] == '/';
    forall k | s0 <= k < t0
      ensures c[k] == segment[k - s0]
    {
      assert c[k] == c[p0..t0][k - p0] == path[k - p0];
    }
    AfterLastBeforeUnique(c, '/', t0, s0);
    if j < |segment| {
      IndexFromUnique(c, ';', s0, s0 + j);
    } else {
      assert forall k :: s0 <= k < t0 ==> c[k] != ';';
    }
    assert c[s0..s0 + j] == segment[..j];
  }

  /** The raw name read off the cleaned URL once the path's bounds are known. */
  lemma RawNameWithin(c: string, p0: nat, t0: nat, seg: nat, cut: nat)
    requires p0 <= t0 <= |c|
    requires PathStart(c, SchemeLength(c)) == p0 && PathEnd(c, p0) == t0
    requires SchemeName(c) == "http" || SchemeName(c) == "https"
    requires SegmentStart(c, p0, t0) == seg && ParamsCut(c, p0, t0, true) == cut
    ensures seg <= cut <= |c| && LastSegmentOf(c) == c[seg..cut]
  {
    assert SchemeName(c) in UsesParams;
  }

  /** The raw name of a cleaned URL whose path `dir/segment` stands at `p0`. */
  lemma PathRawName(c: string, p0: nat, path: string, dir: string, segment: string)
    requires path == dir + "/" + segment && '/' !in segment
    requires p0 + |path| <= |c|
    requires PathStart(c, SchemeLength(c)) == p0 && PathEnd(c, p0) == p0 + |path|
    requires SchemeName(c) == "http" || SchemeName(c) == "https"
    requires c[p0..p0 + |path|] == path
    ensures LastSegmentOf(c) == segment[..IndexOf(segment, ';')]
  {
    SegmentAt(c, p0, path, dir, segment);
    RawNameWithin(c, p0, p0 + |path|, SegmentStart(c, p0, p0 + |path|), ParamsCut(c, p0, p0 + |path|, true));

  }

  /** The raw name of a URL that cleans to a plain one with path `dir/segment`. */
  lemma LayoutRawName(c: string, scheme: string, host: string, dir: string, segment: string, t: string)
    requires Layout(c, scheme, host, dir + "/" + segment, t)
    requires IsPlainUrl(scheme, host, dir + "/" + segment, t)
    requires '/' !in segment
    ensures LastSegmentOf(c) == segment[..IndexOf(segment, ';')]
  {
    var path := dir + "/" + segment;
    LayoutScheme(c, scheme, host, path, t);
    LayoutBounds(c, scheme, host, path, t);
    var p0 := |scheme| + 3 + |host|;
    assert c[p0..p0 + |path|] == path;
    PathRawName(c, p0, path, dir, segment);
  }

  /** In a plain URL whose path is `dir/segment`, the raw name is the segment up to its first `;`. */
  lemma PlainUrlRawName(scheme: string, host: string, dir: string, segment: string, tail: string)
    requires IsPlainUrl(scheme, host, dir + "/" + segment, tail)
    requires '/' !in segment
    ensures RawName(PlainUrl(scheme, host, dir + "/" + segment, tail)) == segment[..IndexOf(segment, ';')]
  {
    var path := dir + "/" + segment;
    var t := RemoveUnsafe(tail);
    assert t == [] || t[0] == tail[0];
    PlainUrlCleaned(scheme, host, path, tail);
    PlainUrlLayout(scheme, host, path, t);
    LayoutRawName(PlainUrl(scheme, host, path, t), scheme, host, dir, segment, t);
  }

  // ---------------------------------------------------------------------
  // Round trip with the reference encoder
  // ---------------------------------------------------------------------

  /**
   A plain URL whose last segment is the reference encoding of `name`
   resolves to `name`, whatever the host, the directories before it and the
   query or fragment after it.
   */
  lemma ResolvesEncodedName(scheme: string, host: string, dir: string, name: string, tail: string)
    requires IsPlainUrl(scheme, host, dir + "/", tail)
    requires name != []
    ensures FromUrl(PlainUrl(scheme, host, dir + "/" + Quote(name), tail)) == name
  {
    var q := Quote(name);
    assert '/' !in q && ';' !in q && '?' !in q && '#' !in q;
    assert forall c :: c in q ==> !IsUnsafe(c);
    assert IsPlainUrl(scheme, host, dir + "/" + q, tail);
    PlainUrlRawName(scheme, host, dir, q, tail);
    assert q[..IndexOf(q, ';')] == q;
    UnquoteQuote(name);
  }

  // ---------------------------------------------------------------------
  // Concrete cases
  // ---------------------------------------------------------------------

  lemma IndexOfAbsent(s: string, c: char)
    requires c !in s
    ensures IndexOf(s, c) == |s|
  {
  }

  /** A name character that needs no escaping and is not cut off by the parser. */
  predicate IsNameChar(c: char) {
    c as int < 0x80 && c !in "%/;?#" && !IsUnsafe(c)
  }

  /** An escaped ASCII character in the last segment comes back decoded. */
  lemma DecodesEscapedAscii(scheme: string, host: string, dir: string, a: string, hi: char, lo: char, b: string, tail: string)
    requires IsPlainUrl(scheme, host, dir + "/", tail)
    requires forall k :: 0 <= k < |a| ==> IsNameChar(a[k])
    requires forall k :: 0 <= k < |b| ==> IsNameChar(b[k])
    requires IsHexDigit(hi) && IsHexDigit(lo) && HexValue(hi) * 16 + HexValue(lo) < 0x80
    ensures FromUrl(PlainUrl(scheme, host, dir + "/" + (a + ['%', hi, lo] + b), tail))
         == a + [(HexValue(hi) * 16 + HexValue(lo)) as char] + b
  {
    var segment := a + ['%', hi, lo] + b;
    forall k | 0 <= k < |segment|
      ensures IsPathChar(segment[k]) && segment[k] != '/' && segment[k] != ';'
    {
      if k < |a| {
        assert segment[k] == a[k];
      } else if k >= |a| + 3 {
        assert segment[k] == b[k - |a| - 3];
      }
    }
    var path := dir + "/" + segment;
    forall k | 0 <= k < |path|
      ensures IsPathChar(path[k])
    {
      if k > |dir| {
        assert path[k] == segment[k - |dir| - 1];
      } else {
        assert path[k] == (dir + "/")[k];
      }
    }
    assert IsPlainUrl(scheme, host, path, tail);
    PlainUrlRawName(scheme, host, dir, segment, tail);
    IndexOfAbsent(segment, ';');
    assert segment[..IndexOf(segment, ';')] == segment;
    EscapedAscii(a, hi, lo, b);
  }

  /** A space escaped as %20 in the last segment comes back as a space. */
  lemma DecodesEscapedSpace(scheme: string, host: string, dir: string, a: string, b: string, tail: string)
    requires IsPlainUrl(scheme, host, dir + "/", tail)
    requires forall k :: 0 <= k < |a| ==> IsNameChar(a[k])
    requires forall k :: 0 <= k < |b| ==> IsNameChar(b[k])
    ensures FromUrl(PlainUrl(scheme, host, dir + "/" + (a + "%20" + b), tail)) == a + " " + b
  {
    DecodesEscapedAscii(scheme, host, dir, a, '2', '0', b, tail);
  }

  /** `%2F` in the last segment comes back as a `/`: the name is then not a single path component. */
  lemma DecodesEscapedSlash(scheme: string, host: string, dir: string, a: string, b: string, tail: string)
    requires IsPlainUrl(scheme, host, dir + "/", tail)
    requires forall k :: 0 <= k < |a| ==> IsNameChar(a[k])
    requires forall k :: 0 <= k < |b| ==> IsNameChar(b[k])
    ensures FromUrl(PlainUrl(scheme, host, dir + "/" + (a + "%2F" + b), tail)) == a + "/" + b
  {
    DecodesEscapedAscii(scheme, host, dir, a, '2', 'F', b, tail);
  }

  /** `https://x.com/a%20b.png` resolves to "a b.png". */
  lemma SpaceExample(url: string)
    requires url == "https://x.com/a%20b.png"
    ensures FromUrl(url) == "a b.png"
  {
    SpaceExampleParts(url, "a", "b.png");
  }

  /** The same, with the text around the escape passed in (which keeps the solver from evaluating the literals). */
  lemma SpaceExampleParts(url: string, a: string, b: string)
    requires url == "https://x.com/a%20b.png" && a == "a" && b == "b.png"
    ensures FromUrl(url) == "a b.png"
  {
    ExampleParts(a, b);
    DecodesEscapedSpace("https", "x.com", "", a, b, "");
    ExampleSpelling(a, b);
  }

  lemma ExampleSpelling(a: string, b: string)
    requires a == "a" && b == "b.png"
    ensures PlainUrl("https", "x.com", "" + "/" + (a + "%20" + b), "") == "https://x.com/a%20b.png"
    ensures a + " " + b == "a b.png"
  {
  }

  lemma ExampleParts(a: string, b: string)
    requires a == "a" && b == "b.png"
    ensures IsPlainUrl("https", "x.com", "" + "/", "")
    ensures forall k :: 0 <= k < |a| ==> IsNameChar(a[k])
    ensures forall k :: 0 <= k < |b| ==> IsNameChar(b[k])
  {
    assert forall k :: 0 <= k < |"x.com"| ==> IsHostChar("x.com"[k]);
    forall k | 0 <= k < |b| ensures IsNameChar(b[k]) {
      assert b[k] in {'b', '.', 'p', 'n', 'g'};
    }
  }

  /** `https://x.com/` has an empty last segment and resolves to "file.jpg". */
  lemma RootExample(url: string)
    requires url == "https://x.com/"
    ensures FromUrl(url) == "file.jpg"
  {
    RootExampleParts(url, "https", "x.com");
  }

  /** The same, with the scheme and the host passed in (which keeps the solver from evaluating the literals). */
  lemma RootExampleParts(url: string, scheme: string, host: string)
    requires url == "https://x.com/" && scheme == "https" && host == "x.com"
    ensures FromUrl(url) == "file.jpg"
  {
    assert IsPlainUrl(scheme, host, "" + "/", "") by {
      assert forall k :: 0 <= k < |host| ==> IsHostChar(host[k]);
    }
    EmptySegmentFallsBack(scheme, host, "", "");
    assert PlainUrl(scheme, host, "" + "/", "") == url;
  }

  /** An empty last segment falls back to "file.jpg". */
  lemma EmptySegmentFallsBack(scheme: string, host: string, dir: string, tail: string)
    requires IsPlainUrl(scheme, host, dir + "/", tail)
    ensures FromUrl(PlainUrl(scheme, host, dir + "/", tail)) == Fallback
  {
    assert dir + "/" + "" == dir + "/";
    PlainUrlRawName(scheme, host, dir, "", tail);
  }
}
