/**
 * The background remover (scripts/remove_bg.py): the `r,g,b` argument parser, the squared colour
 * distance, the corner sample, the border positions, and the flood fill that makes transparent
 * every pixel joined to the border by a path of pixels close to the background colour. The image
 * is a two-dimensional array of RGBA pixels indexed `[x, y]`, as PIL's pixel access is.
 */
module RemoveBg {
  import opened Wrappers
  import JsText
  import Sequences

  datatype Rgb = Rgb(r: int, g: int, b: int)

  // ---- parse_rgb ----

  /** Python's `str.isspace` characters: what `strip()` removes. */
  predicate IsPySpace(c: char) {
    ('\t' <= c <= '\r') || ('\U{1C}' <= c <= '\U{1F}') || c == ' ' || c == '\U{85}' || c == '\U{A0}'
    || c == '\U{1680}' || ('\U{2000}' <= c <= '\U{200A}') || c == '\U{2028}' || c == '\U{2029}'
    || c == '\U{202F}' || c == '\U{205F}' || c == '\U{3000}'
  }

  /** `s.strip()`. */
  function Strip(s: string): (t: string)
    ensures t != [] ==> !IsPySpace(t[0]) && !IsPySpace(t[|t| - 1])
  {
    if s == [] then []
    else if IsPySpace(s[0]) then Strip(s[1..])
    else if IsPySpace(s[|s| - 1]) then Strip(s[..|s| - 1])
    else s
  }

  /** Decimal digits, with single underscores allowed between two digits, as `int()` reads them. */
  predicate IsDigitRun(s: string) {
    && |s| > 0 && JsText.IsDecimalDigit(s[0]) && JsText.IsDecimalDigit(s[|s| - 1])
    && (forall i | 0 <= i < |s| :: JsText.IsDecimalDigit(s[i]) || s[i] == '_')
    && (forall i | 0 <= i < |s| - 1 :: s[i] == '_' ==> s[i + 1] != '_')
  }

  /** The digits of a run, underscores dropped. */
  function DigitsOnly(s: string): string {
    if s == [] then [] else (if s[0] == '_' then [] else [s[0]]) + DigitsOnly(s[1..])
  }

  /** `int(t)` on an already stripped string; `None` is the `ValueError`. */
  function PyInt(t: string): Option<int> {
    if t != [] && (t[0] == '+' || t[0] == '-') then
      if !IsDigitRun(t[1..]) then None
      else if t[0] == '-' then Some(-DigitsValue(t[1..]))
      else Some(DigitsValue(t[1..]))
    else if IsDigitRun(t) then Some(DigitsValue(t))
    else None
  }

  function DigitsValue(run: string): int {
    JsText.DigitsValue(DigitsOnly(run), 10)
  }

  /** The three ways `parse_rgb` refuses a value, each raised with its own message. */
  datatype RgbError = FormError | IntegerError | RangeError {
    function Message(): string {
      match this
      case FormError => "RGB must be in form r,g,b"
      case IntegerError => "RGB values must be integers"
      case RangeError => "RGB values must be between 0 and 255"
    }
  }

  predicate InRange(c: Rgb) {
    0 <= c.r <= 255 && 0 <= c.g <= 255 && 0 <= c.b <= 255
  }

  /**
   * `parse_rgb`: exactly three comma-separated parts, each an integer after stripping white
   * space, each in 0..255; the error is the `ArgumentTypeError`'s message, checked in that order.
   */
  function ParseRgb(value: string): (r: Result<Rgb, RgbError>)
    ensures r.Ok? ==> InRange(r.value) && |JsText.Split(value, ',')| == 3
    ensures |JsText.Split(value, ',')| != 3 <==> r == Err(FormError)
  {
    var parts := JsText.Split(value, ',');
    if |parts| != 3 then Err(FormError)
    else
      var r, g, b := PyInt(Strip(parts[0])), PyInt(Strip(parts[1])), PyInt(Strip(parts[2]));
      if r.None? || g.None? || b.None? then Err(IntegerError)
      else if !InRange(Rgb(r.value, g.value, b.value)) then Err(RangeError)
      else Ok(Rgb(r.value, g.value, b.value))
  }

  /** A channel written in decimal with white space `pad` around it. */
  function Channel(n: int, pad: string): string {
    pad + JsText.IntToString(n) + pad
  }

  function FormatRgb(c: Rgb, pad: string): string {
    Channel(c.r, pad) + "," + Channel(c.g, pad) + "," + Channel(c.b, pad)
  }

  /**
   * The checks in their order, on a value made of comma-free parts: the count of parts first,
   * then that each is an integer, then the range.
   */
  lemma ParseRgbOfParts(parts: seq<string>)
    requires parts != [] && forall i | 0 <= i < |parts| :: ',' !in parts[i]
    ensures |parts| != 3 ==> ParseRgb(JsText.Join(parts, [','])) == Err(FormError)
    ensures |parts| == 3 && (exists i | 0 <= i < 3 :: PyInt(Strip(parts[i])).None?) ==>
      ParseRgb(JsText.Join(parts, [','])) == Err(IntegerError)
    ensures |parts| == 3 && (forall i | 0 <= i < 3 :: PyInt(Strip(parts[i])).Some?) ==>
      var c := Rgb(PyInt(Strip(parts[0])).value, PyInt(Strip(parts[1])).value, PyInt(Strip(parts[2])).value);
      ParseRgb(JsText.Join(parts, [','])) == if InRange(c) then Ok(c) else Err(RangeError)
  {
    JsText.SplitJoin(parts, ',');
    ParseRgbBySplit(JsText.Join(parts, [',']), parts);
  }

  lemma ParseRgbBySplit(value: string, parts: seq<string>)
    requires JsText.Split(value, ',') == parts
    ensures |parts| != 3 ==> ParseRgb(value) == Err(FormError)
    ensures |parts| == 3 && (exists i | 0 <= i < 3 :: PyInt(Strip(parts[i])).None?) ==>
      ParseRgb(value) == Err(IntegerError)
    ensures |parts| == 3 && (forall i | 0 <= i < 3 :: PyInt(Strip(parts[i])).Some?) ==>
      var c := Rgb(PyInt(Strip(parts[0])).value, PyInt(Strip(parts[1])).value, PyInt(Strip(parts[2])).value);
      ParseRgb(value) == if InRange(c) then Ok(c) else Err(RangeError)
  {
    if |parts| == 3 {
      var r, g, b := PyInt(Strip(parts[0])), PyInt(Strip(parts[1])), PyInt(Strip(parts[2]));
      ParseThreeParts(value, parts, r, g, b);
      if exists i | 0 <= i < 3 :: PyInt(Strip(parts[i])).None? {
        var i :| 0 <= i < 3 && PyInt(Strip(parts[i])).None?;
        assert i == 0 || i == 1 || i == 2;
      }
    }
  }

  /** Three parts: the verdict from the three channels as `int()` read them. */
  lemma ParseThreeParts(value: string, parts: seq<string>, r: Option<int>, g: Option<int>, b: Option<int>)
    requires JsText.Split(value, ',') == parts && |parts| == 3
    requires r == PyInt(Strip(parts[0])) && g == PyInt(Strip(parts[1])) && b == PyInt(Strip(parts[2]))
    ensures ParseRgb(value) == if r.None? || g.None? || b.None? then Err(IntegerError)
      else if !InRange(Rgb(r.value, g.value, b.value)) then Err(RangeError)
      else Ok(Rgb(r.value, g.value, b.value))
  {
  }

  /** A value without a comma is refused for its form; so is one with three commas. */
  lemma ParseRgbFormErrors(a: string, b: string, d: string, e: string)
    requires ',' !in a && ',' !in b && ',' !in d && ',' !in e
    ensures ParseRgb(a) == Err(FormError)
    ensures ParseRgb(a + "," + b + "," + d + "," + e) == Err(FormError)
  {
    ParseRgbOfParts([a]);
    ParseRgbOfParts([a, b, d, e]);
    assert JsText.Join([e], [',']) == e;
    assert JsText.Join([d, e], [',']) == d + "," + e;
    assert JsText.Join([b, d, e], [',']) == b + "," + (d + "," + e);
    assert JsText.Join([a, b, d, e], [',']) == a + "," + (b + "," + (d + "," + e));
    assert a + "," + (b + "," + (d + "," + e)) == a + "," + b + "," + d + "," + e;
  }

  /**
   * Three integers written `r,g,b`, with any white space around each, parse back to themselves
   * exactly when all three are in 0..255; otherwise the range error is raised.
   */
  lemma ParseRgbOfFormat(c: Rgb, pad: string)
    requires forall i | 0 <= i < |pad| :: IsPySpace(pad[i])
    ensures ParseRgb(FormatRgb(c, pad)) == if InRange(c) then Ok(c) else Err(RangeError)
  {
    var a, b, d := Channel(c.r, pad), Channel(c.g, pad), Channel(c.b, pad);
    ChannelParses(c.r, pad);
    ChannelParses(c.g, pad);
    ChannelParses(c.b, pad);
    JoinThree(a, b, d);
    JsText.SplitJoin([a, b, d], ',');
    ParseThreeParts(FormatRgb(c, pad), [a, b, d], Some(c.r), Some(c.g), Some(c.b));
  }

  lemma JoinThree(a: string, b: string, d: string)
    ensures JsText.Join([a, b, d], [',']) == a + "," + b + "," + d
  {
    assert JsText.Join([d], [',']) == d;
    assert [a, b, d][1..] == [b, d] && [b, d][1..] == [d];
    assert JsText.Join([b, d], [',']) == b + "," + d;
    assert JsText.Join([a, b, d], [',']) == a + "," + (b + "," + d);
  }

  /** A padded channel has no comma and strips and parses back to its value. */
  lemma ChannelParses(n: int, pad: string)
    requires forall i | 0 <= i < |pad| :: IsPySpace(pad[i])
    ensures ',' !in Channel(n, pad)
    ensures PyInt(Strip(Channel(n, pad))) == Some(n)
  {
    var t := JsText.IntToString(n);
    IntToStringShape(n);
    StripPadded(t, pad);
    PyIntOfIntToString(n);
    assert ',' !in pad by {
      assert forall i | 0 <= i < |pad| :: pad[i] != ',';
    }
  }

  /** `str(n)` starts with '-' or a digit, ends with a digit and has no comma. */
  lemma IntToStringShape(n: int)
    ensures var t := JsText.IntToString(n);
      && t != [] && !IsPySpace(t[0]) && !IsPySpace(t[|t| - 1]) && ',' !in t
  {
    var m: nat := if n < 0 then -n else n;
    var d := JsText.NatToString(m);
    assert forall i | 0 <= i < |d| :: d[i] != ',';
  }

  /** `int(str(n)) == n`. */
  lemma PyIntOfIntToString(n: int)
    ensures PyInt(JsText.IntToString(n)) == Some(n)
  {
    var m: nat := if n < 0 then -n else n;
    var d := JsText.NatToString(m);
    PyIntOfDigits(d);
    JsText.DigitsValueOfNatToString(m);
    if n < 0 {
      var t := JsText.IntToString(n);
      assert t == "-" + d;
      assert t[0] == '-' && t[1..] == d;
    }
  }

  /** A string of digits reads as its decimal value, with or without a minus sign. */
  lemma PyIntOfDigits(d: string)
    requires d != [] && forall i | 0 <= i < |d| :: JsText.IsDecimalDigit(d[i])
    ensures PyInt(d) == Some(JsText.DigitsValue(d, 10))
    ensures PyInt("-" + d) == Some(-(JsText.DigitsValue(d, 10) as int))
  {
    DigitRunOfDigits(d);
    assert ("-" + d)[1..] == d;
  }

  lemma {:induction false} DigitRunOfDigits(d: string)
    requires d != [] && forall i | 0 <= i < |d| :: JsText.IsDecimalDigit(d[i])
    ensures IsDigitRun(d) && DigitsOnly(d) == d
  {
    if |d| > 1 {
      DigitRunOfDigits(d[1..]);
    }
  }

  /** White space around a string that neither starts nor ends with white space is stripped off. */
  lemma StripPadded(t: string, pad: string)
    requires t != [] && !IsPySpace(t[0]) && !IsPySpace(t[|t| - 1])
    requires forall i | 0 <= i < |pad| :: IsPySpace(pad[i])
    ensures Strip(pad + t + pad) == t
  {
    assert pad + t + pad == pad + (t + pad);
    StripLeft(pad, t + pad);
    StripRight(t, pad);
  }

  lemma {:induction false} StripRight(t: string, pad: string)
    requires t != [] && !IsPySpace(t[0]) && !IsPySpace(t[|t| - 1])
    requires forall i | 0 <= i < |pad| :: IsPySpace(pad[i])
    ensures Strip(t + pad) == t
    decreases |pad|
  {
    if pad == [] {
      assert t + pad == t;
    } else {
      var s := t + pad;
      assert s[..|s| - 1] == t + pad[..|pad| - 1];
      StripRight(t, pad[..|pad| - 1]);
    }
  }

  lemma {:induction false} StripLeft(pad: string, u: string)
    requires forall i | 0 <= i < |pad| :: IsPySpace(pad[i])
    requires u != [] && !IsPySpace(u[0])
    ensures Strip(pad + u) == Strip(u)
    decreases |pad|
  {
    if pad != [] {
      assert (pad + u)[1..] == pad[1..] + u;
      StripLeft(pad[1..], u);
    } else {
      assert pad + u == u;
    }
  }

  /** A part that is not an integer: the integer error, once there are three parts. */
  lemma ParseRgbIntegerError(a: string, d: string)
    requires ',' !in a && ',' !in d
    ensures ParseRgb(a + ",x," + d) == Err(IntegerError)
  {
    JoinThree(a, "x", d);
    CommaX(a, d);
    JsText.SplitJoin([a, "x", d], ',');
    PyIntOfX();
    ParseThreeParts(a + ",x," + d, [a, "x", d], PyInt(Strip(a)), None, PyInt(Strip(d)));
  }

  lemma CommaX(a: string, d: string)
    ensures a + "," + "x" + "," + d == a + ",x," + d
  {
    Sequences.Associative(a + ",", "x", ",");
    Sequences.Associative(a, ",", "x,");
    assert "," + "x," == ",x,";
  }

  /** `int("x")` raises: "x" has no digit. */
  lemma PyIntOfX()
    ensures PyInt(Strip("x")) == None
  {
    var x := "x";
    assert !IsPySpace(x[0]);
    assert Strip(x) == x;
    assert !JsText.IsDecimalDigit(x[0]);
  }

  // ---- color_distance_sq ----

  /** `color_distance_sq`: the squared Euclidean distance between two colours. */
  function ColorDistanceSq(a: Rgb, b: Rgb): int {
    var dr, dg, db := a.r - b.r, a.g - b.g, a.b - b.b;
    dr * dr + dg * dg + db * db
  }

  /** The distance is never negative, does not depend on the order, and is 0 only between equal colours. */
  lemma ColorDistanceMetric(a: Rgb, b: Rgb)
    ensures ColorDistanceSq(a, b) >= 0
    ensures ColorDistanceSq(a, b) == ColorDistanceSq(b, a)
    ensures ColorDistanceSq(a, b) == 0 <==> a == b
  {
    var dr, dg, db := a.r - b.r, a.g - b.g, a.b - b.b;
    assert dr * dr >= 0 && dg * dg >= 0 && db * db >= 0;
    assert (b.r - a.r) * (b.r - a.r) == dr * dr;
    assert (b.g - a.g) * (b.g - a.g) == dg * dg;
    assert (b.b - a.b) * (b.b - a.b) == db * db;
    if ColorDistanceSq(a, b) == 0 {
      assert dr * dr == 0 && dg * dg == 0 && db * db == 0;
    }
  }

  // ---- The image ----

  /** An RGBA pixel. */
  datatype Pixel = Pixel(r: int, g: int, b: int, a: int)

  /** `pixel[:3]`. */
  function RgbOf(p: Pixel): Rgb {
    Rgb(p.r, p.g, p.b)
  }

  /** The same pixel made fully transparent. */
  function Cleared(p: Pixel): Pixel {
    Pixel(p.r, p.g, p.b, 0)
  }

  type Pos = (int, int)

  function Min4(a: int, b: int, c: int, d: int): int {
    var ab := if a <= b then a else b;
    var cd := if c <= d then c else d;
    if ab <= cd then ab else cd
  }

  function Max4(a: int, b: int, c: int, d: int): int {
    var ab := if a >= b then a else b;
    var cd := if c >= d then c else d;
    if ab >= cd then ab else cd
  }

  /** The mean of four values rounded down (`sum(...) // 4`): between the smallest and the largest. */
  function Mean4(a: int, b: int, c: int, d: int): (m: int)
    ensures Min4(a, b, c, d) <= m <= Max4(a, b, c, d)
  {
    (a + b + c + d) / 4
  }

  /**
   * `sample_corners`: per channel, the rounded-down mean of the four corner pixels; each channel
   * lies between the corners' smallest and largest values.
   */
  function SampleCorners(pixels: array2<Pixel>): (c: Rgb)
    requires pixels.Length0 > 0 && pixels.Length1 > 0
    reads pixels
    ensures var w, h := pixels.Length0, pixels.Length1;
      var p0, p1, p2, p3 := pixels[0, 0], pixels[w - 1, 0], pixels[0, h - 1], pixels[w - 1, h - 1];
      && Min4(p0.r, p1.r, p2.r, p3.r) <= c.r <= Max4(p0.r, p1.r, p2.r, p3.r)
      && Min4(p0.g, p1.g, p2.g, p3.g) <= c.g <= Max4(p0.g, p1.g, p2.g, p3.g)
      && Min4(p0.b, p1.b, p2.b, p3.b) <= c.b <= Max4(p0.b, p1.b, p2.b, p3.b)
  {
    var w, h := pixels.Length0, pixels.Length1;
    var p0, p1, p2, p3 := pixels[0, 0], pixels[w - 1, 0], pixels[0, h - 1], pixels[w - 1, h - 1];
    Rgb(Mean4(p0.r, p1.r, p2.r, p3.r), Mean4(p0.g, p1.g, p2.g, p3.g), Mean4(p0.b, p1.b, p2.b, p3.b))
  }

  /** Four equal corners are sampled as their own colour. */
  lemma SampleUniformCorners(pixels: array2<Pixel>)
    requires pixels.Length0 > 0 && pixels.Length1 > 0
    requires var w, h := pixels.Length0, pixels.Length1;
      RgbOf(pixels[w - 1, 0]) == RgbOf(pixels[0, 0]) && RgbOf(pixels[0, h - 1]) == RgbOf(pixels[0, 0])
      && RgbOf(pixels[w - 1, h - 1]) == RgbOf(pixels[0, 0])
    ensures SampleCorners(pixels) == RgbOf(pixels[0, 0])
  {
  }

  // ---- edge_positions ----

  predicate OnEdge(p: Pos, w: int, h: int) {
    p.0 == 0 || p.0 == w - 1 || p.1 == 0 || p.1 == h - 1
  }

  predicate InBounds(p: Pos, w: int, h: int) {
    0 <= p.0 < w && 0 <= p.1 < h
  }

  /**
   * `edge_positions`: for each column the top and bottom pixel, then for each row the left and
   * right pixel, in that order.
   */
  function EdgePositions(w: nat, h: nat): (e: seq<Pos>)
    ensures |e| == 2 * w + 2 * h
  {
    seq(2 * w, i requires 0 <= i < 2 * w => if i % 2 == 0 then (i / 2, 0) else (i / 2, h - 1))
    + seq(2 * h, i requires 0 <= i < 2 * h => if i % 2 == 0 then (0, i / 2) else (w - 1, i / 2))
  }

  /** The positions produced are exactly the border pixels (corners come more than once). */
  lemma EdgePositionsExact(w: nat, h: nat, p: Pos)
    requires w > 0 && h > 0
    ensures p in EdgePositions(w, h) <==> InBounds(p, w, h) && OnEdge(p, w, h)
  {
    var e := EdgePositions(w, h);
    if InBounds(p, w, h) && OnEdge(p, w, h) {
      if p.1 == 0 {
        assert e[2 * p.0] == p;
      } else if p.1 == h - 1 {
        assert e[2 * p.0 + 1] == p;
      } else if p.0 == 0 {
        assert e[2 * w + 2 * p.1] == p;
      } else {
        assert e[2 * w + 2 * p.1 + 1] == p;
      }
    }
  }

  // ---- remove_background ----

  /** The image as columns of pixels: `Grid(pixels)[x][y] == pixels[x, y]`. */
  ghost function Grid(pixels: array2<Pixel>): (g: seq<seq<Pixel>>)
    reads pixels
    ensures |g| == pixels.Length0
    ensures forall x | 0 <= x < pixels.Length0 :: |g[x]| == pixels.Length1
    ensures forall x, y | 0 <= x < pixels.Length0 && 0 <= y < pixels.Length1 :: g[x][y] == pixels[x, y]
  {
    seq(pixels.Length0, x requires 0 <= x < pixels.Length0 reads pixels =>
      seq(pixels.Length1, y requires 0 <= y < pixels.Length1 reads pixels => pixels[x, y]))
  }

  /** A pixel of the image within `maxDistSq` of the background colour. */
  ghost predicate Bg(img: seq<seq<Pixel>>, h: int, bg: Rgb, maxDistSq: int, p: Pos) {
    && 0 <= p.0 < |img| && 0 <= p.1 < h && p.1 < |img[p.0]|
    && ColorDistanceSq(RgbOf(img[p.0][p.1]), bg) <= maxDistSq
  }

  /** Horizontal or vertical neighbours. */
  predicate Adjacent(p: Pos, q: Pos) {
    (p.1 == q.1 && (p.0 - q.0 == 1 || q.0 - p.0 == 1)) || (p.0 == q.0 && (p.1 - q.1 == 1 || q.1 - p.1 == 1))
  }

  /** The four neighbours in the order the fill visits them: left, right, up, down. */
  function Neighbours(p: Pos): (ns: seq<Pos>)
    ensures |ns| == 4 && forall k | 0 <= k < 4 :: Adjacent(p, ns[k])
  {
    [(p.0 - 1, p.1), (p.0 + 1, p.1), (p.0, p.1 - 1), (p.0, p.1 + 1)]
  }

  /** Every neighbour is among the four. */
  lemma NeighbourIndex(p: Pos, q: Pos) returns (k: int)
    requires Adjacent(p, q)
    ensures 0 <= k < 4 && Neighbours(p)[k] == q
  {
    if q == (p.0 - 1, p.1) {
      k := 0;
    } else if q == (p.0 + 1, p.1) {
      k := 1;
    } else if q == (p.0, p.1 - 1) {
      k := 2;
    } else {
      k := 3;
    }
  }

  /** A path of background-close pixels that starts on the border and moves one step at a time. */
  ghost predicate IsPath(img: seq<seq<Pixel>>, h: int, bg: Rgb, maxDistSq: int, path: seq<Pos>) {
    && |path| > 0 && OnEdge(path[0], |img|, h)
    && (forall i | 0 <= i < |path| :: Bg(img, h, bg, maxDistSq, path[i]))
    && (forall i | 1 <= i < |path| :: Adjacent(path[i - 1], path[i]))
  }

  /** The pixels the flood fill is meant to clear. */
  ghost predicate Reachable(img: seq<seq<Pixel>>, h: int, bg: Rgb, maxDistSq: int, p: Pos) {
    exists path :: IsPath(img, h, bg, maxDistSq, path) && path[|path| - 1] == p
  }

  /**
   * The enqueued pixels in order, with for each the one it was reached from (`-1` for a border
   * pixel): every one is close to the background and joined to an earlier one or to the border.
   */
  ghost predicate Chain(img: seq<seq<Pixel>>, h: int, bg: Rgb, maxDistSq: int, order: seq<Pos>, parent: seq<int>) {
    && |parent| == |order|
    && forall k | 0 <= k < |order| ::
      && Bg(img, h, bg, maxDistSq, order[k])
      && (if parent[k] < 0 then OnEdge(order[k], |img|, h) else parent[k] < k && Adjacent(order[parent[k]], order[k]))
  }

  predicate Distinct(s: seq<Pos>) {
    forall i, j | 0 <= i < j < |s| :: s[i] != s[j]
  }

  /** Every enqueued pixel is reachable: the parents spell out a path to it. */
  lemma {:induction false} ChainReachable(img: seq<seq<Pixel>>, h: int, bg: Rgb, maxDistSq: int,
                                          order: seq<Pos>, parent: seq<int>, k: int)
    requires Chain(img, h, bg, maxDistSq, order, parent) && 0 <= k < |order|
    ensures Reachable(img, h, bg, maxDistSq, order[k])
    decreases k
  {
    if parent[k] < 0 {
      assert IsPath(img, h, bg, maxDistSq, [order[k]]);
    } else {
      ChainReachable(img, h, bg, maxDistSq, order, parent, parent[k]);
      var path :| IsPath(img, h, bg, maxDistSq, path) && path[|path| - 1] == order[parent[k]];
      var longer := path + [order[k]];
      assert IsPath(img, h, bg, maxDistSq, longer) by {
        assert forall i | 0 <= i < |path| :: longer[i] == path[i];
      }
    }
  }

  /**
   * A set of pixels holding every close border pixel and every close neighbour of its members
   * holds every reachable pixel.
   */
  lemma {:induction false} PathInside(img: seq<seq<Pixel>>, h: int, bg: Rgb, maxDistSq: int,
                                      order: seq<Pos>, path: seq<Pos>)
    requires IsPath(img, h, bg, maxDistSq, path)
    requires forall p | Bg(img, h, bg, maxDistSq, p) && OnEdge(p, |img|, h) :: p in order
    requires forall k, q | 0 <= k < |order| && Adjacent(order[k], q) && Bg(img, h, bg, maxDistSq, q) :: q in order
    ensures path[|path| - 1] in order
    decreases |path|
  {
    if |path| > 1 {
      var prefix := path[..|path| - 1];
      assert IsPath(img, h, bg, maxDistSq, prefix);
      PathInside(img, h, bg, maxDistSq, order, prefix);
      var k :| 0 <= k < |order| && order[k] == prefix[|prefix| - 1];
      assert Adjacent(order[k], path[|path| - 1]);
    }
  }

  /** What was enqueued stays enqueued. */
  lemma Grows(before: seq<Pos>, after: seq<Pos>)
    requires |before| <= |after| && after[..|before|] == before
    ensures forall q | q in before :: q in after
  {
    forall q | q in before
      ensures q in after
    {
      var k :| 0 <= k < |before| && before[k] == q;
      assert after[k] == q;
    }
  }

  /**
   * When the search stops, the enqueued pixels are exactly the reachable ones: each is joined to
   * the border by its parents, and the set is closed under taking close neighbours.
   */
  lemma SearchComplete(img: seq<seq<Pixel>>, h: int, bg: Rgb, maxDistSq: int, order: seq<Pos>, parent: seq<int>)
    requires Chain(img, h, bg, maxDistSq, order, parent)
    requires forall p | Bg(img, h, bg, maxDistSq, p) && OnEdge(p, |img|, h) :: p in order
    requires forall k, q | 0 <= k < |order| && Adjacent(order[k], q) && Bg(img, h, bg, maxDistSq, q) :: q in order
    ensures forall p :: p in order <==> Reachable(img, h, bg, maxDistSq, p)
  {
    forall p
      ensures p in order <==> Reachable(img, h, bg, maxDistSq, p)
    {
      if p in order {
        var k :| 0 <= k < |order| && order[k] == p;
        ChainReachable(img, h, bg, maxDistSq, order, parent, k);
      }
      if Reachable(img, h, bg, maxDistSq, p) {
        var path :| IsPath(img, h, bg, maxDistSq, path) && path[|path| - 1] == p;
        PathInside(img, h, bg, maxDistSq, order, path);
      }
    }
  }

  /** `visited[x][y]` is set exactly for the enqueued pixels. */
  ghost predicate Marks(visited: array2<bool>, order: seq<Pos>)
    reads visited
  {
    forall x, y | 0 <= x < visited.Length0 && 0 <= y < visited.Length1 :: visited[x, y] <==> (x, y) in order
  }

  /** The pixels of the grid not yet enqueued. */
  ghost function Unseen(w: int, h: int, order: seq<Pos>): set<Pos> {
    set x, y | 0 <= x < w && 0 <= y < h && (x, y) !in order :: (x, y)
  }

  /** Column `x` of an image `h` pixels high. */
  ghost function Column(x: int, h: int): set<Pos> {
    set y | 0 <= y < h :: (x, y)
  }

  lemma {:induction false} ColumnSize(x: int, h: nat)
    ensures |Column(x, h)| == h
  {
    if h > 0 {
      ColumnSize(x, h - 1);
      assert Column(x, h) == Column(x, h - 1) + {(x, h - 1)};
    }
  }

  /** Before the search every one of the `w * h` pixels is unseen. */
  lemma {:induction false} UnseenAtStart(w: nat, h: nat)
    ensures |Unseen(w, h, [])| == w * h
  {
    if w > 0 {
      UnseenAtStart(w - 1, h);
      ColumnSize(w - 1, h);
      UnseenByColumns(w, h);
      assert w * h == (w - 1) * h + h;
    } else {
      assert Unseen(w, h, []) == {};
    }
  }

  /** The unseen pixels of a fresh search: those of the first `w - 1` columns, then the last column. */
  lemma UnseenByColumns(w: int, h: int)
    requires w > 0
    ensures Unseen(w, h, []) == Unseen(w - 1, h, []) + Column(w - 1, h)
    ensures Unseen(w - 1, h, []) !! Column(w - 1, h)
  {
  }

  /**
   * The search's bookkeeping: `visited` marks exactly the enqueued pixels; each was enqueued
   * once, lies in the image, is close to the background and is joined to the border or to an
   * earlier one; and each has left the set of unseen pixels.
   */
  ghost predicate Searching(visited: array2<bool>, img: seq<seq<Pixel>>, bg: Rgb, maxDistSq: int,
                           order: seq<Pos>, parent: seq<int>)
    reads visited
  {
    && visited.Length0 == |img| && (forall x | 0 <= x < |img| :: |img[x]| == visited.Length1)
    && Marks(visited, order) && Distinct(order)
    && Chain(img, visited.Length1, bg, maxDistSq, order, parent)
    && (forall k | 0 <= k < |order| :: InBounds(order[k], |img|, visited.Length1))
    && |Unseen(|img|, visited.Length1, order)| + |order| == |Unseen(|img|, visited.Length1, [])|
  }

  /** The pixels have the colours of `img` (their transparency may differ). */
  ghost predicate Colours(pixels: array2<Pixel>, img: seq<seq<Pixel>>)
    reads pixels
  {
    && |img| == pixels.Length0 && (forall x | 0 <= x < |img| :: |img[x]| == pixels.Length1)
    && forall x, y | 0 <= x < pixels.Length0 && 0 <= y < pixels.Length1 :: RgbOf(pixels[x, y]) == RgbOf(img[x][y])
  }

  /** An element of a sequence without repeats is not among those before it. */
  lemma DistinctAt(order: seq<Pos>, k: int)
    requires Distinct(order) && 0 <= k < |order|
    ensures order[k] !in order[..k]
  {
  }

  /**
   * One candidate pixel: enqueued and marked when not yet visited and close to the background,
   * otherwise left alone. `from` is the position in `order` of the pixel it neighbours, or -1 for
   * a border pixel.
   */
  method Offer(pixels: array2<Pixel>, visited: array2<bool>, bg: Rgb, maxDistSq: int, p: Pos,
               queue: seq<Pos>, ghost img: seq<seq<Pixel>>, ghost order: seq<Pos>,
               ghost parent: seq<int>, ghost from: int)
    returns (queue': seq<Pos>, ghost order': seq<Pos>, ghost parent': seq<int>)
    requires visited.Length0 == pixels.Length0 && visited.Length1 == pixels.Length1
    requires Colours(pixels, img) && Searching(visited, img, bg, maxDistSq, order, parent)
    requires InBounds(p, pixels.Length0, pixels.Length1)
    requires if from < 0 then OnEdge(p, |img|, pixels.Length1) else from < |order| && Adjacent(order[from], p)
    modifies visited
    ensures Searching(visited, img, bg, maxDistSq, order', parent')
    ensures p in order' <==> p in order || Bg(img, pixels.Length1, bg, maxDistSq, p)
    ensures |order| <= |order'| && order'[..|order|] == order
    ensures queue' == queue + order'[|order|..]
  {
    var w, h := pixels.Length0, pixels.Length1;
    if !visited[p.0, p.1] && ColorDistanceSq(RgbOf(pixels[p.0, p.1]), bg) <= maxDistSq {
      visited[p.0, p.1] := true;
      queue', order', parent' := queue + [p], order + [p], parent + [from];
      assert order'[|order|..] == [p];
      assert Unseen(w, h, order') == Unseen(w, h, order) - {p};
      assert p in Unseen(w, h, order);
      forall k | 0 <= k < |order'|
        ensures && Bg(img, h, bg, maxDistSq, order'[k])
                && (if parent'[k] < 0 then OnEdge(order'[k], |img|, h)
                    else parent'[k] < k && Adjacent(order'[parent'[k]], order'[k]))
      {
        if k < |order| {
          assert order'[k] == order[k] && parent'[k] == parent[k];
        }
      }
    } else {
      queue', order', parent' := queue, order, parent;
      assert order'[|order|..] == [];
    }
  }

  /** The first loop: every border pixel close to the background is marked and enqueued. */
  method SeedEdges(pixels: array2<Pixel>, visited: array2<bool>, bg: Rgb, maxDistSq: int, ghost img: seq<seq<Pixel>>)
    returns (queue: seq<Pos>, ghost order: seq<Pos>, ghost parent: seq<int>)
    requires pixels.Length0 > 0 && pixels.Length1 > 0
    requires visited.Length0 == pixels.Length0 && visited.Length1 == pixels.Length1
    requires Colours(pixels, img)
    requires forall x, y | 0 <= x < visited.Length0 && 0 <= y < visited.Length1 :: !visited[x, y]
    modifies visited
    ensures Searching(visited, img, bg, maxDistSq, order, parent) && queue == order
    ensures forall p | Bg(img, pixels.Length1, bg, maxDistSq, p) && OnEdge(p, |img|, pixels.Length1) :: p in order
  {
    var w, h := pixels.Length0, pixels.Length1;
    queue, order, parent := [], [], [];
    var edges := EdgePositions(w, h);
    var i := 0;
    while i < |edges|
      invariant 0 <= i <= |edges|
      invariant Searching(visited, img, bg, maxDistSq, order, parent) && queue == order
      invariant forall j | 0 <= j < i && Bg(img, h, bg, maxDistSq, edges[j]) :: edges[j] in order
    {
      EdgePositionsExact(w, h, edges[i]);
      ghost var before := order;
      queue, order, parent := Offer(pixels, visited, bg, maxDistSq, edges[i], queue, img, order, parent, -1);
      OfferedKept(img, h, bg, maxDistSq, edges, i, before, order);
      i := i + 1;
    }
    forall p | Bg(img, h, bg, maxDistSq, p) && OnEdge(p, w, h)
      ensures p in order
    {
      EdgePositionsExact(w, h, p);
    }
  }

  /**
   * The body of the second loop after `p` (the pixel at `at` in `order`) is cleared: each of its
   * four neighbours inside the image is offered, so every close neighbour ends up enqueued.
   */
  method Expand(pixels: array2<Pixel>, visited: array2<bool>, bg: Rgb, maxDistSq: int, p: Pos,
                queue: seq<Pos>, ghost img: seq<seq<Pixel>>, ghost order: seq<Pos>,
                ghost parent: seq<int>, ghost at: int)
    returns (queue': seq<Pos>, ghost order': seq<Pos>, ghost parent': seq<int>)
    requires visited.Length0 == pixels.Length0 && visited.Length1 == pixels.Length1
    requires Colours(pixels, img) && Searching(visited, img, bg, maxDistSq, order, parent)
    requires 0 <= at < |order| && order[at] == p
    modifies visited
    ensures Searching(visited, img, bg, maxDistSq, order', parent')
    ensures |order| <= |order'| && order'[..|order|] == order
    ensures queue' == queue + order'[|order|..]
    ensures forall q | Adjacent(p, q) && Bg(img, pixels.Length1, bg, maxDistSq, q) :: q in order'
  {
    var w, h := pixels.Length0, pixels.Length1;
    var ns := Neighbours(p);
    queue', order', parent' := queue, order, parent;
    var j := 0;
    while j < 4
      invariant 0 <= j <= 4 && |order| <= |order'| && order'[..|order|] == order
      invariant queue' == queue + order'[|order|..]
      invariant Searching(visited, img, bg, maxDistSq, order', parent')
      invariant forall j0 | 0 <= j0 < j && Bg(img, h, bg, maxDistSq, ns[j0]) :: ns[j0] in order'
    {
      var q := ns[j];
      ghost var before := order';
      if 0 <= q.0 < w && 0 <= q.1 < h {
        assert order'[at] == p;
        queue', order', parent' := Offer(pixels, visited, bg, maxDistSq, q, queue', img, order', parent', at);
        Sequences.GrowsTwice(order, before, order');
        Sequences.Associative(queue, before[|order|..], order'[|before|..]);
      }
      OfferedKept(img, h, bg, maxDistSq, ns, j, before, order');
      j := j + 1;
    }
    forall q | Adjacent(p, q) && Bg(img, h, bg, maxDistSq, q)
      ensures q in order'
    {
      var k := NeighbourIndex(p, q);
    }
  }

  /** The candidates before `j` that were enqueued stay enqueued, and candidate `j` joins them. */
  lemma OfferedKept(img: seq<seq<Pixel>>, h: int, bg: Rgb, maxDistSq: int, ns: seq<Pos>, j: int,
                    before: seq<Pos>, after: seq<Pos>)
    requires 0 <= j < |ns| && |before| <= |after| && after[..|before|] == before
    requires forall j0 | 0 <= j0 < j && Bg(img, h, bg, maxDistSq, ns[j0]) :: ns[j0] in before
    requires Bg(img, h, bg, maxDistSq, ns[j]) ==> ns[j] in after
    ensures forall j0 | 0 <= j0 < j + 1 && Bg(img, h, bg, maxDistSq, ns[j0]) :: ns[j0] in after
  {
    Grows(before, after);
  }

  /** Every close border pixel is enqueued. */
  ghost predicate EdgesIn(img: seq<seq<Pixel>>, h: int, bg: Rgb, maxDistSq: int, order: seq<Pos>) {
    forall p | Bg(img, h, bg, maxDistSq, p) && OnEdge(p, |img|, h) :: p in order
  }

  /** Every close neighbour of the first `head` enqueued pixels is enqueued. */
  ghost predicate ClosedUpTo(img: seq<seq<Pixel>>, h: int, bg: Rgb, maxDistSq: int, order: seq<Pos>, head: int) {
    && head <= |order|
    && forall k, q | 0 <= k < head && Adjacent(order[k], q) && Bg(img, h, bg, maxDistSq, q) :: q in order
  }

  /** Exactly the first `head` enqueued pixels have been made transparent. */
  ghost predicate ClearedUpTo(pixels: array2<Pixel>, img: seq<seq<Pixel>>, order: seq<Pos>, head: int)
    requires Colours(pixels, img) && 0 <= head <= |order|
    reads pixels
  {
    forall x, y | 0 <= x < pixels.Length0 && 0 <= y < pixels.Length1 ::
      pixels[x, y] == if (x, y) in order[..head] then Cleared(img[x][y]) else img[x][y]
  }

  /** Growing the queue keeps the processed pixels' neighbours enqueued; adding `p`'s extends it by one. */
  lemma ClosedStep(img: seq<seq<Pixel>>, h: int, bg: Rgb, maxDistSq: int, before: seq<Pos>, order: seq<Pos>, head: int)
    requires 0 <= head < |before| <= |order| && order[..|before|] == before
    requires ClosedUpTo(img, h, bg, maxDistSq, before, head)
    requires forall q | Adjacent(before[head], q) && Bg(img, h, bg, maxDistSq, q) :: q in order
    ensures ClosedUpTo(img, h, bg, maxDistSq, order, head + 1)
  {
    Grows(before, order);
    forall k, q | 0 <= k < head + 1 && Adjacent(order[k], q) && Bg(img, h, bg, maxDistSq, q)
      ensures q in order
    {
      assert order[k] == before[k];
      if k < head {
        assert q in before;
      }
    }
  }

  /** A queue that grew at the back after its front was taken off. */
  lemma Extended(before: seq<Pos>, order: seq<Pos>, head: int)
    requires 0 <= head < |before| <= |order| && order[..|before|] == before
    ensures before[head + 1..] + order[|before|..] == order[head + 1..]
    ensures order[..head + 1] == before[..head + 1]
  {
    assert order == before + order[|before|..];
  }

  /** `pixels[x, y] = (r, g, b, 0)` for the next pixel taken from the queue. */
  method ClearNext(pixels: array2<Pixel>, ghost img: seq<seq<Pixel>>, ghost order: seq<Pos>, ghost head: int, p: Pos)
    requires Colours(pixels, img) && Distinct(order) && 0 <= head < |order| && order[head] == p
    requires InBounds(p, pixels.Length0, pixels.Length1)
    requires ClearedUpTo(pixels, img, order, head)
    modifies pixels
    ensures Colours(pixels, img) && ClearedUpTo(pixels, img, order, head + 1)
  {
    DistinctAt(order, head);
    assert order[..head + 1] == order[..head] + [p];
    pixels[p.0, p.1] := Pixel(pixels[p.0, p.1].r, pixels[p.0, p.1].g, pixels[p.0, p.1].b, 0);
  }

  /**
   * The second loop: take the next pixel off the queue, make it transparent and offer its
   * neighbours, until the queue is empty. At the end every enqueued pixel has been cleared and the
   * enqueued set is closed under close neighbours.
   */
  method Flood(pixels: array2<Pixel>, visited: array2<bool>, bg: Rgb, maxDistSq: int, queue0: seq<Pos>,
               ghost img: seq<seq<Pixel>>, ghost order0: seq<Pos>, ghost parent0: seq<int>)
    returns (ghost order: seq<Pos>, ghost parent: seq<int>)
    requires visited.Length0 == pixels.Length0 && visited.Length1 == pixels.Length1
    requires Searching(visited, img, bg, maxDistSq, order0, parent0) && Colours(pixels, img) && queue0 == order0
    requires EdgesIn(img, pixels.Length1, bg, maxDistSq, order0)
    requires forall x, y | 0 <= x < pixels.Length0 && 0 <= y < pixels.Length1 :: pixels[x, y] == img[x][y]
    modifies pixels, visited
    ensures Chain(img, pixels.Length1, bg, maxDistSq, order, parent) && Colours(pixels, img)
    ensures EdgesIn(img, pixels.Length1, bg, maxDistSq, order)
    ensures ClosedUpTo(img, pixels.Length1, bg, maxDistSq, order, |order|)
    ensures ClearedUpTo(pixels, img, order, |order|)
    ensures |order| <= |Unseen(pixels.Length0, pixels.Length1, [])|
  {
    var w, h := pixels.Length0, pixels.Length1;
    var queue := queue0;
    order, parent := order0, parent0;
    ghost var head := 0;
    assert order[..0] == [];
    while queue != []
      invariant 0 <= head <= |order| && queue == order[head..]
      invariant Searching(visited, img, bg, maxDistSq, order, parent) && Colours(pixels, img)
      invariant EdgesIn(img, h, bg, maxDistSq, order) && ClosedUpTo(img, h, bg, maxDistSq, order, head)
      invariant ClearedUpTo(pixels, img, order, head)
      decreases |Unseen(w, h, order)| + |order| - head
    {
      var p := queue[0];
      queue := queue[1..];
      ClearNext(pixels, img, order, head, p);
      ghost var before := order;
      queue, order, parent := Expand(pixels, visited, bg, maxDistSq, p, queue, img, order, parent, head);
      ClosedStep(img, h, bg, maxDistSq, before, order, head);
      Extended(before, order, head);
      Grows(before, order);
      head := head + 1;
    }
    assert order[..head] == order;
  }

  /**
   * `remove_background` on the loaded pixels: an empty image is refused before anything is
   * touched; otherwise the background is the given colour or the corner sample, and exactly the
   * pixels reachable from the border through pixels within `tolerance` of it become transparent,
   * their colour kept; every other pixel is left as it was. `steps`, the number of pixels taken
   * from the queue, is at most the number of pixels.
   */
  method RemoveBackground(pixels: array2<Pixel>, tolerance: int, backgroundRgb: Option<Rgb>)
    returns (r: Result<Rgb, string>, ghost steps: nat)
    modifies pixels
    ensures pixels.Length0 == 0 || pixels.Length1 == 0 ==> r == Err("Input image is empty") && unchanged(pixels)
    ensures pixels.Length0 > 0 && pixels.Length1 > 0 ==>
      r == Ok(if backgroundRgb.Some? then backgroundRgb.value else old(SampleCorners(pixels)))
    ensures r.Ok? ==> forall x, y | 0 <= x < pixels.Length0 && 0 <= y < pixels.Length1 ::
      pixels[x, y] == if Reachable(old(Grid(pixels)), pixels.Length1, r.value, tolerance * tolerance, (x, y))
                      then Cleared(old(pixels[x, y])) else old(pixels[x, y])
    ensures steps <= pixels.Length0 * pixels.Length1
  {
    var w, h := pixels.Length0, pixels.Length1;
    if w == 0 || h == 0 {
      return Err("Input image is empty"), 0;
    }
    var bg := if backgroundRgb.Some? then backgroundRgb.value else SampleCorners(pixels);
    var maxDistSq := tolerance * tolerance;
    ghost var img := Grid(pixels);
    var visited := new bool[w, h]((x, y) => false);
    var queue: seq<Pos>;
    ghost var order: seq<Pos>, parent: seq<int>;
    queue, order, parent := SeedEdges(pixels, visited, bg, maxDistSq, img);
    order, parent := Flood(pixels, visited, bg, maxDistSq, queue, img, order, parent);
    steps := |order|;
    UnseenAtStart(w, h);
    SearchComplete(img, h, bg, maxDistSq, order, parent);
    assert order[..|order|] == order;
    r := Ok(bg);
  }
}
