/** The photo carousel of src/components/PasadosSlideshow.jsx: the path
    encoder applied to the photo list, the wrap-around index arithmetic of
    the arrows, and the index state changed by the arrows and the dots. */
module Slideshow {
  import opened JsRuntime

  // ---------------------------------------------------------------------
  // encodeURIComponent

  type Byte = b: int | 0 <= b < 256

  /** The characters encodeURIComponent leaves as they are. */
  predicate Unreserved(c: char)
  {
    ('A' <= c <= 'Z') || ('a' <= c <= 'z') || ('0' <= c <= '9')
    || c == '-' || c == '_' || c == '.' || c == '!' || c == '~'
    || c == '*' || c == '\'' || c == '(' || c == ')'
  }

  /** The UTF-8 encoding of one code point. */
  function Utf8(c: char): (bs: seq<Byte>)
    ensures 1 <= |bs| <= 4
    ensures |bs| == 1 <==> c as int < 0x80
    ensures |bs| == 1 ==> bs[0] == c as int
  {
    var cp := c as int;
    if cp < 0x80 then [cp]
    else if cp < 0x800 then [0xC0 + cp / 64, 0x80 + cp % 64]
    else if cp < 0x10000 then [0xE0 + cp / 4096, 0x80 + (cp / 64) % 64, 0x80 + cp % 64]
    else [0xF0 + cp / 262144, 0x80 + (cp / 4096) % 64, 0x80 + (cp / 64) % 64, 0x80 + cp % 64]
  }

  function Utf8String(s: string): seq<Byte>
  {
    if s == [] then [] else Utf8(s[0]) + Utf8String(s[1..])
  }

  predicate IsHex(c: char)
  {
    ('0' <= c <= '9') || ('A' <= c <= 'F')
  }

  /** An upper-case hexadecimal digit. */
  function HexChar(d: nat): (c: char)
    requires d < 16
    ensures IsHex(c)
  {
    if d < 10 then ('0' as int + d) as char else ('A' as int + d - 10) as char
  }

  function HexValue(c: char): (v: nat)
    requires IsHex(c)
    ensures v < 16 && HexChar(v) == c
  {
    if c <= '9' then c as int - '0' as int else c as int - 'A' as int + 10
  }

  lemma HexRoundTrip(d: nat)
    requires d < 16
    ensures HexValue(HexChar(d)) == d
  {
  }

  /** `%XX`, upper-case hexadecimal. */
  function PercentByte(b: Byte): (r: string)
    ensures |r| == 3 && r[0] == '%' && IsHex(r[1]) && IsHex(r[2])
    ensures 16 * HexValue(r[1]) + HexValue(r[2]) == b
  {
    HexRoundTrip(b / 16);
    HexRoundTrip(b % 16);
    ['%', HexChar(b / 16), HexChar(b % 16)]
  }

  function PercentBytes(bs: seq<Byte>): (r: string)
    ensures |r| == 3 * |bs|
  {
    if bs == [] then [] else PercentByte(bs[0]) + PercentBytes(bs[1..])
  }

  /** One character: itself when unreserved, its UTF-8 bytes as `%XX`
      otherwise. */
  function EncodeChar(c: char): (r: string)
    ensures Unreserved(c) ==> r == [c]
    ensures !Unreserved(c) ==> |r| >= 3
  {
    if Unreserved(c) then [c] else PercentBytes(Utf8(c))
  }

  /** encodeURIComponent: the output is never shorter than the input, and
      is made of unreserved characters and `%` only. */
  function EncodeURIComponent(s: string): (r: string)
    ensures |r| >= |s|
    ensures AllUriSafe(r)
  {
    if s == [] then []
    else
      var head, tail := EncodeChar(s[0]), EncodeURIComponent(s[1..]);
      EncodeCharSafe(s[0]);
      SafeConcat(head, tail);
      head + tail
  }

  lemma EncodeCharSafe(c: char)
    ensures AllUriSafe(EncodeChar(c))
  {
    if !Unreserved(c) {
      PercentBytesSafe(Utf8(c));
    }
  }

  /** The characters encodeURIComponent can produce. */
  predicate UriSafe(c: char)
  {
    Unreserved(c) || c == '%'
  }

  predicate AllUriSafe(s: string)
  {
    forall k :: 0 <= k < |s| ==> UriSafe(s[k])
  }

  lemma SafeConcat(a: string, b: string)
    requires AllUriSafe(a) && AllUriSafe(b)
    ensures AllUriSafe(a + b)
  {
    forall k | 0 <= k < |a + b|
      ensures UriSafe((a + b)[k])
    {
      if k >= |a| {
        assert (a + b)[k] == b[k - |a|];
      }
    }
  }

  lemma {:induction false} PercentBytesSafe(bs: seq<Byte>)
    ensures AllUriSafe(PercentBytes(bs))
  {
    if bs != [] {
      PercentBytesSafe(bs[1..]);
      SafeConcat(PercentByte(bs[0]), PercentBytes(bs[1..]));
    }
  }

  /** The output is made of unreserved characters and `%` only; in
      particular it never holds a `/`. */
  lemma {:induction false} EncodeIsUriSafe(s: string)
    ensures AllUriSafe(EncodeURIComponent(s))
    ensures '/' !in EncodeURIComponent(s)
  {
    if s != [] {
      EncodeIsUriSafe(s[1..]);
      if !Unreserved(s[0]) {
        PercentBytesSafe(Utf8(s[0]));
      }
      SafeConcat(EncodeChar(s[0]), EncodeURIComponent(s[1..]));
    }
  }

  predicate AllUnreserved(s: string)
  {
    forall k :: 0 <= k < |s| ==> Unreserved(s[k])
  }

  lemma {:induction false} EncodeLength(s: string)
    ensures |EncodeURIComponent(s)| >= |s|
    ensures |EncodeURIComponent(s)| == |s| <==> AllUnreserved(s)
  {
    if s != [] {
      EncodeLength(s[1..]);
      assert forall k :: 1 <= k < |s| ==> s[k] == s[1..][k - 1];
    }
  }

  /** A string is left unchanged exactly when all its characters are
      unreserved. */
  lemma {:induction false} EncodeUnchangedIff(s: string)
    ensures EncodeURIComponent(s) == s <==> AllUnreserved(s)
  {
    EncodeLength(s);
    if AllUnreserved(s) {
      EncodeUnreserved(s);
    }
  }

  lemma {:induction false} EncodeUnreserved(s: string)
    requires AllUnreserved(s)
    ensures EncodeURIComponent(s) == s
  {
    if s != [] {
      EncodeUnreserved(s[1..]);
      assert [s[0]] + s[1..] == s;
    }
  }

  lemma {:induction false} EncodeConcat(a: string, b: string)
    ensures EncodeURIComponent(a + b) == EncodeURIComponent(a) + EncodeURIComponent(b)
  {
    if a != [] {
      assert (a + b)[1..] == a[1..] + b;
      EncodeConcat(a[1..], b);
    } else {
      assert a + b == b;
    }
  }

  // Percent-decoding, the inverse that recovers the UTF-8 bytes.

  /** Reads `%XX` as one byte and any other character as its code. */
  function PercentDecode(t: string): seq<int>
  {
    if t == [] then []
    else if t[0] == '%' && |t| >= 3 && IsHex(t[1]) && IsHex(t[2]) then
      [16 * HexValue(t[1]) + HexValue(t[2])] + PercentDecode(t[3..])
    else [t[0] as int] + PercentDecode(t[1..])
  }

  lemma DecodeOnePercent(b: Byte, tail: string)
    ensures PercentDecode(PercentByte(b) + tail) == [b] + PercentDecode(tail)
  {
    var t := PercentByte(b) + tail;
    assert t[0] == '%' && t[1] == PercentByte(b)[1] && t[2] == PercentByte(b)[2];
    assert t[3..] == tail;
  }

  lemma {:induction false} DecodePercentBytes(bs: seq<Byte>, rest: string)
    ensures PercentDecode(PercentBytes(bs) + rest) == bs + PercentDecode(rest)
  {
    if bs == [] {
      assert PercentBytes(bs) + rest == rest;
    } else {
      var tail := PercentBytes(bs[1..]) + rest;
      assert PercentBytes(bs) + rest == PercentByte(bs[0]) + tail by {
        AppendAssoc(PercentByte(bs[0]), PercentBytes(bs[1..]), rest);
      }
      DecodeOnePercent(bs[0], tail);
      DecodePercentBytes(bs[1..], rest);
      assert [bs[0]] + (bs[1..] + PercentDecode(rest)) == bs + PercentDecode(rest) by {
        assert bs == [bs[0]] + bs[1..];
      }
    }
  }

  /** Percent-decoding the output gives back the UTF-8 bytes of the input. */
  lemma {:induction false} DecodeEncode(s: string)
    ensures PercentDecode(EncodeURIComponent(s)) == Utf8String(s)
  {
    if s != [] {
      DecodeEncode(s[1..]);
      var c := s[0];
      var rest := EncodeURIComponent(s[1..]);
      if Unreserved(c) {
        assert EncodeURIComponent(s) == [c] + rest;
        assert ([c] + rest)[1..] == rest;
      } else {
        DecodePercentBytes(Utf8(c), rest);
      }
    }
  }

  lemma EncodeExamples()
    ensures EncodeURIComponent(" ") == "%20"
    ensures EncodeURIComponent("/") == "%2F"
    ensures EncodeURIComponent("ñ") == "%C3%B1"
  {
    assert EncodeURIComponent(" ") == EncodeChar(' ');
    assert EncodeChar(' ') == PercentByte(32);
    assert EncodeURIComponent("/") == EncodeChar('/');
    assert EncodeChar('/') == PercentByte(47);
    assert EncodeURIComponent("ñ") == EncodeChar('ñ');
    assert Utf8('ñ') == [0xC3, 0xB1];
    assert EncodeChar('ñ') == PercentByte(0xC3) + PercentBytes([0xB1]);
  }

  // ---------------------------------------------------------------------
  // encodePath

  /** What follows the last `/`. */
  function LastSegment(p: string): string
  {
    Split(p, '/')[|Split(p, '/')| - 1]
  }

  /** Splits on `/`, encodes only the last segment, and joins again. The
      path keeps its segments: as many as before, all but the last
      unchanged, the last one encoded. */
  function EncodePath(p: string): (r: string)
    ensures |Split(r, '/')| == |Split(p, '/')|
    ensures forall k :: 0 <= k < |Split(p, '/')| - 1 ==> Split(r, '/')[k] == Split(p, '/')[k]
    ensures Split(r, '/')[|Split(p, '/')| - 1] == EncodeURIComponent(LastSegment(p))
  {
    var parts := Split(p, '/');
    var encoded := EncodeLast(parts);
    SplitEncodeLast(parts);
    Join(encoded, '/')
  }

  /** The segments with only the last one encoded. */
  function EncodeLast(parts: seq<string>): seq<string>
    requires |parts| >= 1
  {
    parts[..|parts| - 1] + [EncodeURIComponent(parts[|parts| - 1])]
  }

  /** Joining the segments and splitting again gives them back, because no
      segment, the encoded last one included, holds a `/`. */
  lemma SplitEncodeLast(parts: seq<string>)
    requires |parts| >= 1
    requires forall k :: 0 <= k < |parts| ==> '/' !in parts[k]
    ensures Split(Join(EncodeLast(parts), '/'), '/') == EncodeLast(parts)
  {
    var encoded := EncodeLast(parts);
    EncodeIsUriSafe(parts[|parts| - 1]);
    forall k | 0 <= k < |encoded|
      ensures '/' !in encoded[k]
    {
      if k < |parts| - 1 {
        assert encoded[k] == parts[k];
      }
    }
    SplitJoin(encoded, '/');
  }

  /** A path whose last segment is all unreserved characters is unchanged. */
  lemma EncodePathUnchanged(p: string)
    requires AllUnreserved(LastSegment(p))
    ensures EncodePath(p) == p
  {
    var parts := Split(p, '/');
    EncodeUnreserved(parts[|parts| - 1]);
    assert parts[..|parts| - 1] + [parts[|parts| - 1]] == parts;
    JoinSplit(p, '/');
  }

  /** `/images/<name>` is split into "", "images" and the name. */
  lemma ImagesPath(name: string)
    requires '/' !in name
    ensures Split("/images/" + name, '/') == ["", "images", name]
  {
    SplitNoSep(name, '/');
    SplitPrefix("images", name, '/');
    assert "images/" + name == "images" + ['/'] + name;
    SplitPrefix("", "images/" + name, '/');
    assert "/images/" + name == "" + ['/'] + ("images/" + name);
  }

  /** Under /images/ only the file name is encoded. */
  lemma EncodeImagesPath(name: string)
    requires '/' !in name
    ensures EncodePath("/images/" + name) == "/images/" + EncodeURIComponent(name)
  {
    assert "/images/" == "" + ['/'] + ("images" + ['/']);
    ImagesPath(name);
    var enc := EncodeURIComponent(name);
    var parts: seq<string> := ["", "images", name];
    var encoded: seq<string> := ["", "images", enc];
    assert parts[..2] + [enc] == encoded;
    assert encoded[1..][1..] == [enc];
    assert Join(encoded[1..][1..], '/') == enc;
    assert Join(encoded[1..], '/') == "images" + ['/'] + enc;
    assert Join(encoded, '/') == "" + ['/'] + ("images" + ['/'] + enc);
    AppendAssoc("images", ['/'], enc);
    AppendAssoc("" + ['/'], "images" + ['/'], enc);
  }

  /** A space between two runs of unreserved characters becomes %20 and
      the runs stay as they are. */
  lemma EncodeAroundSpace(a: string, c: string)
    requires AllUnreserved(a) && AllUnreserved(c)
    ensures EncodeURIComponent(a + " " + c) == a + "%20" + c
  {
    EncodeUnreserved(a);
    EncodeUnreserved(c);
    EncodeConcat(a, " ");
    EncodeConcat(a + " ", c);
    EncodeExamples();
  }

  /** The space in a file name becomes %20. */
  lemma TallerName()
    ensures EncodeURIComponent("taller 3.jpg") == "taller%203.jpg"
  {
    EncodeAroundSpace("taller", "3.jpg");
    assert "taller" + " " + "3.jpg" == "taller 3.jpg";
    assert "taller" + "%20" + "3.jpg" == "taller%203.jpg";
  }

  lemma TallerExample()
    ensures EncodePath("/images/taller 3.jpg") == "/images/taller%203.jpg"
  {
    var name := "taller 3.jpg";
    assert "/images/taller 3.jpg" == "/images/" + name;
    assert "/images/taller%203.jpg" == "/images/" + "taller%203.jpg";
    EncodeImagesPath(name);
    TallerName();
  }

  /** Under /images/ a name of unreserved characters is kept as it is. */
  lemma PlainImagesPath(name: string)
    requires '/' !in name && AllUnreserved(name)
    ensures EncodePath("/images/" + name) == "/images/" + name
  {
    EncodeImagesPath(name);
    EncodeUnreserved(name);
  }

  lemma PlainNameExample()
    ensures EncodePath("/images/P19.jpg") == "/images/P19.jpg"
  {
    PlainImagesPath("P19.jpg");
    assert "/images/" + "P19.jpg" == "/images/P19.jpg";
  }

  // ---------------------------------------------------------------------
  // The carousel

  /** The photo paths as written, before encoding. */
  const PhotoPaths: seq<string> := [
    "/images/P19.jpg",
    "/images/P18.jpg",
    "/images/P17.jpg",
    "/images/P16.jpg",
    "/images/taller 3.jpg",
    "/images/taller 4.jpg",
    "/images/taller 3.1.jpg"
  ]

  /** `paths.map(encodePath)`: one encoded path per path, in order. */
  function EncodeAll(paths: seq<string>): (r: seq<string>)
    ensures |r| == |paths|
    ensures forall k :: 0 <= k < |paths| ==> r[k] == EncodePath(paths[k])
  {
    if paths == [] then [] else [EncodePath(paths[0])] + EncodeAll(paths[1..])
  }

  /** The photo list, each path passed through encodePath. */
  const Photos: seq<string> := EncodeAll(PhotoPaths)

  const PhotoCount: Pos := 7

  /** A plain name keeps its path. */
  lemma FirstPhotoPlain()
    ensures Photos[0] == "/images/P19.jpg"
  {
    assert PhotoPaths[0] == "/images/P19.jpg";
    PlainNameExample();
  }

  /** The space in "taller 3.jpg" is percent-encoded. */
  lemma FifthPhotoEncoded()
    ensures Photos[4] == "/images/taller%203.jpg"
  {
    assert PhotoPaths[4] == "/images/taller 3.jpg";
    TallerExample();
  }

  lemma PhotosCount()
    ensures |Photos| == PhotoCount
  {
  }

  /** `(v + 1) % n` with JavaScript's `%`. */
  function NextIndex(v: int, n: Pos): (r: int)
    ensures v >= -1 ==> 0 <= r < n
  {
    Rem(v + 1, n)
  }

  /** `(v - 1 + n) % n` with JavaScript's `%`. */
  function PrevIndex(v: int, n: Pos): (r: int)
    ensures v >= 1 - n ==> 0 <= r < n
  {
    Rem(v - 1 + n, n)
  }

  /** The arrow forward stays in range, steps by one and wraps the last
      photo to the first. */
  lemma NextStep(v: int, n: Pos)
    requires 0 <= v < n
    ensures 0 <= NextIndex(v, n) < n
    ensures v < n - 1 ==> NextIndex(v, n) == v + 1
    ensures v == n - 1 ==> NextIndex(v, n) == 0
  {
    RemOfNonNegative(v + 1, n);
  }

  /** The arrow back stays in range, steps by one and wraps the first
      photo to the last. */
  lemma PrevStep(v: int, n: Pos)
    requires 0 <= v < n
    ensures 0 <= PrevIndex(v, n) < n
    ensures v > 0 ==> PrevIndex(v, n) == v - 1
    ensures v == 0 ==> PrevIndex(v, n) == n - 1
  {
    RemOfNonNegative(v - 1 + n, n);
    if v > 0 {
      DivModUnique(v - 1 + n, n, 1, v - 1);
    } else {
      DivModUnique(n - 1, n, 0, n - 1);
    }
  }

  /** The two arrows undo each other. */
  lemma ArrowsAreInverse(v: int, n: Pos)
    requires 0 <= v < n
    ensures PrevIndex(NextIndex(v, n), n) == v
    ensures NextIndex(PrevIndex(v, n), n) == v
  {
    NextStep(v, n);
    PrevStep(v, n);
    NextStep(PrevIndex(v, n), n);
    PrevStep(NextIndex(v, n), n);
  }

  /** k presses of the forward arrow. */
  function NextTimes(v: int, n: Pos, k: nat): int
  {
    if k == 0 then v else NextIndex(NextTimes(v, n, k - 1), n)
  }

  lemma {:induction false} NextTimesIsSum(v: int, n: Pos, k: nat)
    requires 0 <= v < n
    ensures NextTimes(v, n, k) == (v + k) % n
  {
    if k > 0 {
      var w := NextTimes(v, n, k - 1);
      calc {
        NextTimes(v, n, k);
        Rem(w + 1, n);
        { NextTimesIsSum(v, n, k - 1); RemOfNonNegative(w + 1, n); }
        ((v + k - 1) % n + 1) % n;
        { ModSucc(v + k - 1, n); }
        (v + k) % n;
      }
    }
  }

  lemma ModSucc(a: nat, n: Pos)
    ensures (a % n + 1) % n == (a + 1) % n
  {
    var q, r := a / n, a % n;
    assert a == q * n + r;
    if r + 1 < n {
      DivModUnique(a + 1, n, q, r + 1);
      DivModUnique(r + 1, n, 0, r + 1);
    } else {
      assert (q + 1) * n == q * n + n;
      DivModUnique(a + 1, n, q + 1, 0);
      DivModUnique(r + 1, n, 1, 0);
    }
  }

  /** n presses of the forward arrow come back to the starting photo. */
  lemma FullTurn(v: int, n: Pos)
    requires 0 <= v < n
    ensures NextTimes(v, n, n) == v
  {
    NextTimesIsSum(v, n, n);
    DivModUnique(v + n, n, 1, v);
  }

  /** The component's state: the index of the photo on screen. */
  class Carousel {
    var idx: int

    predicate Valid()
      reads this
    {
      0 <= idx < PhotoCount
    }

    /** `useState(0)`: the first photo. */
    constructor ()
      ensures idx == 0 && Valid()
    {
      idx := 0;
    }

    /** `photos[idx]`: the photo on screen is the encoded form of the
        idx-th path of the list. */
    function Current(): (r: string)
      reads this
      requires Valid()
      ensures r == EncodePath(PhotoPaths[idx])
    {
      PhotosCount();
      Photos[idx]
    }

    method Next()
      requires Valid()
      modifies this
      ensures idx == NextIndex(old(idx), PhotoCount)
      ensures Valid()
    {
      NextStep(idx, PhotoCount);
      idx := Rem(idx + 1, PhotoCount);
    }

    method Prev()
      requires Valid()
      modifies this
      ensures idx == PrevIndex(old(idx), PhotoCount)
      ensures Valid()
    {
      PrevStep(idx, PhotoCount);
      idx := Rem(idx - 1 + PhotoCount, PhotoCount);
    }

    /** A click on dot i; the dots are drawn for the indices of Photos. */
    method GoTo(i: int)
      requires 0 <= i < PhotoCount
      modifies this
      ensures idx == i && Valid()
    {
      idx := i;
    }

    /** `idx === i`: the dot drawn dark. */
    predicate DotActive(i: int)
      reads this
    {
      idx == i
    }
  }

  /** What the carousel shows at the first photo, where it starts, and at
      the fifth, whose name has a space. */
  lemma CurrentExamples(c: Carousel)
    requires c.Valid()
    ensures c.idx == 0 ==> c.Current() == "/images/P19.jpg"
    ensures c.idx == 4 ==> c.Current() == "/images/taller%203.jpg"
  {
    FirstPhotoPlain();
    FifthPhotoEncoded();
  }

  /** In a valid state exactly one of the dots is active, the one of the
      photo on screen. */
  lemma ExactlyOneDot(c: Carousel)
    requires c.Valid()
    ensures exists i :: 0 <= i < PhotoCount && c.DotActive(i)
    ensures forall i, j :: 0 <= i < PhotoCount && 0 <= j < PhotoCount && c.DotActive(i) && c.DotActive(j) ==> i == j
  {
    assert c.DotActive(c.idx);
  }
}
