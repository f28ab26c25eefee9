/** Paths as the request handler sees them: a URL pathname split into
    segments, `join` as segment concatenation, `extname` on the last
    segment, and ASCII lower-casing of an extension. */
module Paths {

  type Segment = string
  type Path = seq<Segment>

  /** A segment as `join` leaves it: non-empty and free of separators. */
  predicate ValidSegment(s: string) {
    |s| > 0 && '/' !in s
  }

  predicate ValidPath(p: Path) {
    forall i :: 0 <= i < |p| ==> ValidSegment(p[i])
  }

  lemma ValidConcat(a: Path, b: Path)
    requires ValidPath(a) && ValidPath(b)
    ensures ValidPath(a + b)
  {
    forall i | 0 <= i < |a + b| ensures ValidSegment((a + b)[i]) {
      if i >= |a| { assert (a + b)[i] == b[i - |a|]; }
    }
  }

  /** Length of the leading segment of `s`: up to the first '/' or the end. */
  function SegmentLength(s: string): (n: nat)
    ensures n <= |s|
    ensures '/' !in s[..n]
    ensures n == |s| || s[n] == '/'
  {
    if s == [] || s[0] == '/' then 0
    else
      var m := SegmentLength(s[1..]);
      assert s[..m + 1] == [s[0]] + s[1..][..m];
      m + 1
  }

  /** The segments of a slash-separated string; empty segments (from a
      leading, trailing or doubled '/') disappear, as `join` normalises them. */
  function Segments(s: string): (r: Path)
    ensures ValidPath(r)
    decreases |s|
  {
    if s == [] then []
    else if s[0] == '/' then Segments(s[1..])
    else
      var n := SegmentLength(s);
      [s[..n]] + Segments(s[n..])
  }

  /** The pathname that names `p` below a root: "/a/b" for ["a", "b"]. */
  function Render(p: Path): string {
    if p == [] then "" else "/" + p[0] + Render(p[1..])
  }

  /** `s` ends with a separator, which `join` keeps at the end of its result. */
  predicate EndsWithSeparator(s: string) {
    |s| > 0 && s[|s| - 1] == '/'
  }

  /** The rendered form of a non-empty path ends with its last segment, not
      with a separator. */
  lemma {:induction false} RenderEndsWithName(p: Path)
    requires ValidPath(p) && p != []
    ensures !EndsWithSeparator(Render(p))
  {
    var rest := Render(p[1..]);
    assert Render(p) == "/" + p[0] + rest;
    if p[1..] == [] {
      assert rest == "";
      assert Render(p)[|Render(p)| - 1] == p[0][|p[0]| - 1];
    } else {
      RenderEndsWithName(p[1..]);
      assert Render(p)[|Render(p)| - 1] == rest[|rest| - 1];
    }
  }

  /** `join(base, relative)`: the segments of `relative` appended to `base`. */
  function Join(base: Path, relative: string): (r: Path)
    ensures |r| >= |base| && r[..|base|] == base
    ensures ValidPath(base) ==> ValidPath(r)
  {
    base + Segments(relative)
  }

  lemma {:induction false} SegmentLengthOfPrefixed(seg: string, rest: string)
    requires ValidSegment(seg)
    requires rest == [] || rest[0] == '/'
    ensures SegmentLength(seg + rest) == |seg|
    decreases |seg|
  {
    if |seg| > 1 {
      assert (seg + rest)[1..] == seg[1..] + rest;
      SegmentLengthOfPrefixed(seg[1..], rest);
    }
  }

  /** Splitting the rendered form of a path gives the path back. */
  lemma {:induction false} SegmentsOfRender(p: Path)
    requires ValidPath(p)
    ensures Segments(Render(p)) == p
  {
    if p != [] {
      SegmentsOfRender(p[1..]);
      var rest := Render(p[1..]);
      assert Render(p) == "/" + p[0] + rest;
      assert rest == [] || rest[0] == '/';
      SegmentsOfPrefixed(p[0], rest);
    }
  }

  /** A trailing separator after the rendered form of a path changes
      nothing in its split. */
  lemma {:induction false} SegmentsOfRenderSlash(p: Path)
    requires ValidPath(p)
    ensures Segments(Render(p) + "/") == p
  {
    if p == [] {
      assert ("/")[1..] == "";
    } else {
      SegmentsOfRenderSlash(p[1..]);
      var slashed := Render(p[1..]) + "/";
      assert slashed[0] == '/';
      assert Render(p) + "/" == "/" + p[0] + slashed;
      SegmentsOfPrefixed(p[0], slashed);
    }
  }

  /** The leading segment ends where it did when more text follows a
      separator. */
  lemma {:induction false} SegmentLengthOfExtended(s: string, t: string)
    requires t != [] && t[0] == '/'
    ensures SegmentLength(s + t) == SegmentLength(s)
    decreases |s|
  {
    if s != [] && s[0] != '/' {
      assert (s + t)[1..] == s[1..] + t;
      SegmentLengthOfExtended(s[1..], t);
    }
  }

  /** A trailing separator adds no segment: `Segments` drops it. */
  lemma {:induction false} SegmentsDropTrailing(s: string)
    ensures Segments(s + "/") == Segments(s)
    decreases |s|
  {
    var t := s + "/";
    if s == [] {
      assert t[1..] == "";
    } else if s[0] == '/' {
      assert t[1..] == s[1..] + "/";
      SegmentsDropTrailing(s[1..]);
    } else {
      var n := SegmentLength(s);
      SegmentLengthOfExtended(s, "/");
      assert t[..n] == s[..n];
      assert t[n..] == s[n..] + "/";
      SegmentsDropTrailing(s[n..]);
    }
  }

  /** A valid segment followed by nothing or by a separator splits off as
      the first segment. */
  lemma SegmentsOfPrefixed(seg: string, rest: string)
    requires ValidSegment(seg)
    requires rest == [] || rest[0] == '/'
    ensures Segments("/" + seg + rest) == [seg] + Segments(rest)
  {
    var s := "/" + seg + rest;
    assert s[1..] == seg + rest;
    SegmentLengthOfPrefixed(seg, rest);
    assert (seg + rest)[..|seg|] == seg;
    assert (seg + rest)[|seg|..] == rest;
  }

  /** A single valid segment, with or without a leading '/', splits to itself. */
  lemma SegmentsOfName(name: string)
    requires ValidSegment(name)
    ensures Segments(name) == [name]
    ensures Segments("/" + name) == [name]
  {
    SegmentsOfRender([name]);
    assert Render([name]) == "/" + name;
    assert ("/" + name)[1..] == name;
  }

  /** The suffix of `name` from its last '.', or "" when it has no '.'. */
  function DotSuffix(name: string): (r: string)
    ensures r == "" <==> '.' !in name
    ensures r != "" ==> r[0] == '.' && '.' !in r[1..]
    ensures |r| <= |name| && r == name[|name| - |r|..]
  {
    if name == [] then ""
    else
      var last := name[|name| - 1];
      var init := name[..|name| - 1];
      assert name == init + [last];
      if last == '.' then "."
      else
        var d := DotSuffix(init);
        if d == "" then "" else d + [last]
  }

  /** `extname` of one path segment: the suffix from the last '.', except
      that a name without '.', a name whose only '.' leads it (".bashrc")
      and the name ".." have none. */
  function ExtOfName(name: string): (r: string)
    ensures r == "" || (|r| < |name| && r[0] == '.' && '.' !in r[1..] && r == name[|name| - |r|..])
    ensures r == "" <==> ('.' !in name || name == ".." || (name[0] == '.' && '.' !in name[1..]))
  {
    var d := DotSuffix(name);
    if d == "" then ""
    else
      assert name == name[..|name| - |d|] + d;
      if |d| == |name| || name == ".." then
        assert |d| == |name| ==> name[1..] == d[1..];
        ""
      else
        assert name[0] == '.' ==> '.' in name[1..] by {
          if name[0] == '.' {
            assert name[1..][|name| - |d| - 1] == '.';
          }
        }
        d
  }

  /** A name made of a stem and a '.'-led suffix with no further '.' has
      that suffix as its extension. */
  lemma ExtOfNameOf(stem: string, ext: string)
    requires stem != [] && |ext| > 0 && ext[0] == '.' && '.' !in ext[1..]
    requires stem + ext != ".."
    ensures ExtOfName(stem + ext) == ext
  {
    var name := stem + ext;
    assert name[|stem|] == '.';
    var r := DotSuffix(name);
    assert r == ext by {
      assert |r| == |ext|;
      assert name[|name| - |ext|..] == ext;
    }
    assert name[1..][|stem| - 1] == '.';
  }

  /** `extname` of a path: that of its last segment. */
  function ExtName(p: Path): (r: string)
    ensures p == [] ==> r == ""
    ensures p != [] ==> r == ExtOfName(p[|p| - 1])
  {
    if p == [] then "" else ExtOfName(p[|p| - 1])
  }

  function LowerChar(c: char): char {
    if 'A' <= c <= 'Z' then (c as int - 'A' as int + 'a' as int) as char else c
  }

  predicate IsLower(s: string) {
    forall i :: 0 <= i < |s| ==> !('A' <= s[i] <= 'Z')
  }

  /** `toLowerCase` on the ASCII letters, character by character (see
      `ToLowerAsciiChars`): the result has no upper-case letter, and a
      lower-case string is kept. */
  function ToLowerAscii(s: string): (r: string)
    ensures |r| == |s|
    ensures IsLower(r)
    ensures IsLower(s) ==> r == s
  {
    seq(|s|, i requires 0 <= i < |s| => LowerChar(s[i]))
  }

  /** Each upper-case ASCII letter becomes the letter 32 code points above
      it; every other character is kept. */
  lemma ToLowerAsciiChars(s: string)
    ensures forall i :: 0 <= i < |s| ==>
      if 'A' <= s[i] <= 'Z' then ToLowerAscii(s)[i] as int == s[i] as int + 32
      else ToLowerAscii(s)[i] == s[i]
  {
  }

  lemma LowerSplit(name: string)
    requires name != []
    ensures ToLowerAscii(name) == ToLowerAscii(name[..|name| - 1]) + [LowerChar(name[|name| - 1])]
  {
  }

  /** Lower-casing commutes with taking the suffix from the last '.'. */
  lemma {:induction false} DotSuffixLower(name: string)
    ensures DotSuffix(ToLowerAscii(name)) == ToLowerAscii(DotSuffix(name))
  {
    if name != [] {
      var last := name[|name| - 1];
      var init := name[..|name| - 1];
      LowerSplit(name);
      var low := ToLowerAscii(init) + [LowerChar(last)];
      assert low[..|low| - 1] == ToLowerAscii(init);
      if last == '.' {
        assert ToLowerAscii(".") == ".";
      } else {
        DotSuffixLower(init);
        var d := DotSuffix(init);
        if d != "" {
          LowerSplit(d + [last]);
          assert (d + [last])[..|d|] == d;
        }
      }
    }
  }

  /** Lower-casing a name and then taking its extension is the same as
      taking its extension and lower-casing that. */
  lemma ExtOfNameLower(name: string)
    ensures ExtOfName(ToLowerAscii(name)) == ToLowerAscii(ExtOfName(name))
  {
    DotSuffixLower(name);
    var low := ToLowerAscii(name);
    assert low == ".." <==> name == "..";
  }
}
