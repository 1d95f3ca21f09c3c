/**
 * The pieces of JavaScript's string and number semantics that the client code leans on:
 * `parseInt`, `Number.prototype.toString`, the `\s` character class, `split`/`join`
 * with a one-character separator, and `toUpperCase` (on ASCII letters).
 */
module JsText {
  import opened Wrappers

  /** ECMAScript WhiteSpace and LineTerminator code points: what `\s`, `trim` and `parseInt` skip. */
  predicate IsJsSpace(c: char) {
    c == '\t' || c == '\n' || c == '\U{B}' || c == '\U{C}' || c == '\r' || c == ' '
    || c == '\U{A0}' || c == '\U{1680}' || ('\U{2000}' <= c <= '\U{200A}')
    || c == '\U{2028}' || c == '\U{2029}' || c == '\U{202F}' || c == '\U{205F}'
    || c == '\U{3000}' || c == '\U{FEFF}'
  }

  /** The code points the regular-expression `.` does not match. */
  predicate IsLineTerminator(c: char) {
    c == '\n' || c == '\r' || c == '\U{2028}' || c == '\U{2029}'
  }

  /** `s` with its leading white space removed, as `parseInt` does first. */
  function TrimStart(s: string): (t: string)
    ensures |t| <= |s| && t == s[|s| - |t|..]
    ensures t != [] ==> !IsJsSpace(t[0])
  {
    if s != [] && IsJsSpace(s[0]) then TrimStart(s[1..]) else s
  }

  predicate IsDecimalDigit(c: char) {
    '0' <= c <= '9'
  }

  /** Whether `c` is a digit in base `radix` (10 or 16; letters in either case). */
  predicate IsRadixDigit(c: char, radix: nat) {
    IsDecimalDigit(c) || (radix == 16 && (('a' <= c <= 'f') || ('A' <= c <= 'F')))
  }

  function DigitValue(c: char): (v: nat)
    ensures v < 16
  {
    if IsDecimalDigit(c) then (c - '0') as nat
    else if 'a' <= c <= 'f' then (c - 'a') as nat + 10
    else if 'A' <= c <= 'F' then (c - 'A') as nat + 10
    else 0
  }

  /** The longest prefix of `s` made of digits of base `radix`. */
  function DigitPrefix(s: string, radix: nat): (ds: string)
    ensures |ds| <= |s| && ds == s[..|ds|]
    ensures forall i | 0 <= i < |ds| :: IsRadixDigit(ds[i], radix)
    ensures |ds| < |s| ==> !IsRadixDigit(s[|ds|], radix)
  {
    if s == [] || !IsRadixDigit(s[0], radix) then [] else [s[0]] + DigitPrefix(s[1..], radix)
  }

  /** The number a digit string denotes in base `radix`, most significant digit first. */
  function DigitsValue(ds: string, radix: nat): nat {
    if ds == [] then 0 else DigitsValue(ds[..|ds| - 1], radix) * radix + DigitValue(ds[|ds| - 1])
  }

  /**
   * `parseInt(s, radix)` for radix 10 (also what `parseInt(s)` uses) and 16: skip leading white
   * space, take an optional sign, and read the rest with `ParseUnsigned`. `NaN` is `None`.
   */
  function ParseIntRadix(s: string, radix: nat): Option<int>
    requires radix == 10 || radix == 16
  {
    var t := TrimStart(s);
    if t != [] && t[0] == '-' then
      match ParseUnsigned(t[1..], radix)
      case None => None
      case Some(v) => Some(-v)
    else if t != [] && t[0] == '+' then ParseUnsigned(t[1..], radix)
    else ParseUnsigned(t, radix)
  }

  /** The digits after the sign: base 16 after a `0x`/`0X` prefix, else `radix`; no digit is `NaN`. */
  function ParseUnsigned(u: string, radix: nat): (r: Option<int>)
    ensures r.Some? ==> r.value >= 0
    requires radix == 10 || radix == 16
  {
    var hex := |u| >= 2 && u[0] == '0' && (u[1] == 'x' || u[1] == 'X');
    var r := if hex then 16 else radix;
    var ds := DigitPrefix(if hex then u[2..] else u, r);
    var v: int := DigitsValue(ds, r);
    if ds == [] then None else Some(v)
  }

  /** `parseInt(s)`: base 10 unless the digits start with `0x`. */
  function ParseInt(s: string): Option<int> {
    ParseIntRadix(s, 10)
  }

  function DecimalChar(d: nat): (c: char)
    requires d < 10
    ensures IsDecimalDigit(c) && DigitValue(c) == d
  {
    ('0' as int + d) as char
  }

  /** The decimal digits of `n`, as `n.toString()` writes them. */
  function NatToString(n: nat): (s: string)
    ensures s != []
    ensures forall i | 0 <= i < |s| :: IsDecimalDigit(s[i])
  {
    if n < 10 then [DecimalChar(n)] else NatToString(n / 10) + [DecimalChar(n % 10)]
  }

  /** `n.toString()` for an integer `n`. */
  function IntToString(n: int): string {
    if n < 0 then "-" + NatToString(-n) else NatToString(n)
  }

  lemma {:induction false} DigitsValueOfNatToString(n: nat)
    ensures DigitsValue(NatToString(n), 10) == n
  {
    var s := NatToString(n);
    if n >= 10 {
      DigitsValueOfNatToString(n / 10);
      assert s[..|s| - 1] == NatToString(n / 10);
    }
  }

  lemma {:induction false} DigitPrefixOfDigits(s: string, radix: nat)
    requires forall i | 0 <= i < |s| :: IsRadixDigit(s[i], radix)
    ensures DigitPrefix(s, radix) == s
  {
    if s != [] {
      DigitPrefixOfDigits(s[1..], radix);
    }
  }

  /** A digit is never white space. */
  lemma RadixDigitNotSpace(c: char, radix: nat)
    requires IsRadixDigit(c, radix)
    ensures !IsJsSpace(c)
  {
  }

  /** A string made only of digits of base `radix` is read as the number those digits denote. */
  lemma ParseRadixDigits(s: string, radix: nat)
    requires radix == 10 || radix == 16
    requires s != [] && forall i | 0 <= i < |s| :: IsRadixDigit(s[i], radix)
    ensures ParseIntRadix(s, radix) == Some(DigitsValue(s, radix) as int)
  {
    RadixDigitNotSpace(s[0], radix);
    assert TrimStart(s) == s;
    assert s[0] != '-' && s[0] != '+';
    ParseUnsignedRadixDigits(s, radix);
  }

  lemma ParseUnsignedRadixDigits(s: string, radix: nat)
    requires radix == 10 || radix == 16
    requires s != [] && forall i | 0 <= i < |s| :: IsRadixDigit(s[i], radix)
    ensures ParseUnsigned(s, radix) == Some(DigitsValue(s, radix) as int)
  {
    DigitPrefixOfDigits(s, radix);
    if |s| >= 2 {
      assert IsRadixDigit(s[1], radix);
    }
  }

  /** Two digits denote the first one's value times the radix plus the second one's. */
  lemma TwoDigitsValue(c0: char, c1: char, radix: nat)
    ensures DigitsValue([c0, c1], radix) == DigitValue(c0) * radix + DigitValue(c1)
  {
    var s := [c0, c1];
    assert s[..1] == [c0];
    assert DigitsValue([c0], radix) == DigitValue(c0) by {
      assert [c0][..0] == [];
      assert DigitsValue([], radix) * radix == 0;
    }
    assert DigitsValue(s, radix) == DigitsValue(s[..1], radix) * radix + DigitValue(c1);
  }

  /** `parseInt` reads back exactly what `toString` wrote: the round trip the edit forms rely on. */
  lemma {:induction false} ParseIntOfIntToString(n: int)
    ensures ParseInt(IntToString(n)) == Some(n)
  {
    var m: nat := if n < 0 then -n else n;
    var d := NatToString(m);
    DigitsValueOfNatToString(m);
    ParseUnsignedDigits(d);
    if n < 0 {
      ParseNegativeDigits(d, m);
    } else {
      ParseUnsignedStart(d);
    }
  }

  /** A minus sign in front of what `ParseUnsigned` reads negates it. */
  lemma ParseNegativeDigits(d: string, v: int)
    requires ParseUnsigned(d, 10) == Some(v)
    ensures ParseInt("-" + d) == Some(-v)
  {
    var t := "-" + d;
    assert t[1..] == d;
    ParseNegativeStart(t);
  }

  lemma ParseUnsignedDigits(d: string)
    requires d != [] && forall i | 0 <= i < |d| :: IsDecimalDigit(d[i])
    ensures ParseUnsigned(d, 10) == Some(DigitsValue(d, 10) as int)
  {
    ParseUnsignedRadixDigits(d, 10);
  }

  lemma ParseUnsignedStart(t: string)
    requires t != [] && IsDecimalDigit(t[0])
    ensures ParseInt(t) == ParseUnsigned(t, 10)
  {
    assert TrimStart(t) == t;
    assert t[0] != '-' && t[0] != '+';
  }

  lemma ParseNegativeStart(t: string)
    requires t != [] && t[0] == '-'
    ensures ParseInt(t) == match ParseUnsigned(t[1..], 10) case None => None case Some(v) => Some(-v)
  {
    assert TrimStart(t) == t;
  }

  /** `c.toUpperCase()` on ASCII letters; other characters are left as they are. */
  function ToUpperAscii(c: char): char {
    if 'a' <= c <= 'z' then (c as int - 32) as char else c
  }

  function ToUpper(s: string): (r: string)
    ensures |r| == |s|
    ensures forall i | 0 <= i < |s| :: r[i] == ToUpperAscii(s[i])
  {
    if s == [] then [] else [ToUpperAscii(s[0])] + ToUpper(s[1..])
  }

  /** `s.split(sep)` for a one-character separator: the pieces between separators, empty ones kept. */
  function Split(s: string, sep: char): (parts: seq<string>)
    ensures parts != []
    ensures forall i | 0 <= i < |parts| :: sep !in parts[i]
  {
    if s == [] then [""]
    else
      var rest := Split(s[1..], sep);
      if s[0] == sep then [""] + rest else [[s[0]] + rest[0]] + rest[1..]
  }

  /** `parts.join(sep)`. */
  function Join(parts: seq<string>, sep: string): string {
    if parts == [] then ""
    else if |parts| == 1 then parts[0]
    else parts[0] + sep + Join(parts[1..], sep)
  }

  /** Splitting and joining again with the same separator gives back the string. */
  lemma {:induction false} JoinSplit(s: string, sep: char)
    ensures Join(Split(s, sep), [sep]) == s
  {
    if s != [] {
      JoinSplit(s[1..], sep);
      var rest := Split(s[1..], sep);
      if s[0] != sep {
        if |rest| == 1 {
          assert Split(s, sep) == [[s[0]] + rest[0]];
        } else {
          assert Join(Split(s, sep), [sep]) == [s[0]] + rest[0] + [sep] + Join(rest[1..], [sep]);
        }
      }
    }
  }

  /** Joining pieces that hold no separator and splitting again gives back the pieces. */
  lemma {:induction false} SplitJoin(parts: seq<string>, sep: char)
    requires parts != []
    requires forall i | 0 <= i < |parts| :: sep !in parts[i]
    ensures Split(Join(parts, [sep]), sep) == parts
  {
    var p := parts[0];
    if |parts| == 1 {
      SplitPrefix(p, "", sep);
      assert p + "" == p;
    } else {
      var tail := Join(parts[1..], [sep]);
      SplitJoin(parts[1..], sep);
      var t := [sep] + tail;
      assert t[1..] == tail;
      assert Split(t, sep) == [""] + parts[1..];
      SplitPrefix(p, t, sep);
      assert Join(parts, [sep]) == p + t;
      assert p + "" == p;
      assert [p] + parts[1..] == parts;
    }
  }

  /** A leading run without the separator becomes the front of the first piece. */
  lemma {:induction false} SplitPrefix(a: string, rest: string, sep: char)
    requires sep !in a
    ensures Split(a + rest, sep) == [a + Split(rest, sep)[0]] + Split(rest, sep)[1..]
    decreases |a|
  {
    if a == [] {
      var first := Split(rest, sep)[0];
      assert a + rest == rest && a + first == first;
      assert Split(rest, sep) == [first] + Split(rest, sep)[1..];
    } else {
      SplitPrefix(a[1..], rest, sep);
      assert (a + rest)[1..] == a[1..] + rest;
      assert (a + rest)[0] == a[0];
      assert [a[0]] + (a[1..] + Split(rest, sep)[0]) == a + Split(rest, sep)[0];
    }
  }
}
