/**
 * The `service_item_ids` column holds a JSON array of item ids. This module reads such an array
 * the way `JSON.parse` does, and writes one the way `JSON.stringify` writes an array of integers.
 */
module JsonIds {
  import opened Wrappers
  import JsText
  import Sequences

  /** `JSON.parse` throws a `SyntaxError` on text that is not JSON. */
  datatype JsonError = SyntaxError

  /** JSON's four white-space characters. */
  predicate IsJsonSpace(c: char) {
    c == ' ' || c == '\t' || c == '\n' || c == '\r'
  }

  function SkipSpace(s: string): (t: string)
    ensures |t| <= |s| && t == s[|s| - |t|..]
    ensures t != [] ==> !IsJsonSpace(t[0])
  {
    if s != [] && IsJsonSpace(s[0]) then SkipSpace(s[1..]) else s
  }

  /**
   * A JSON integer at the front of `s` (`-?(0|[1-9][0-9]*)`) and what follows it. A leading zero
   * followed by more digits is a syntax error in JSON.
   */
  function ParseNumber(s: string): (r: Option<(int, string)>)
    ensures r.Some? ==> |r.value.1| < |s|
  {
    var neg := s != [] && s[0] == '-';
    var t := if neg then s[1..] else s;
    var ds := JsText.DigitPrefix(t, 10);
    var v: int := JsText.DigitsValue(ds, 10);
    if ds == [] || (ds[0] == '0' && |ds| > 1) then None
    else Some((if neg then -v else v, t[|ds|..]))
  }

  /** The elements of a non-empty array, from the first number up to and including the closing `]`. */
  function ParseElements(s: string): (r: Result<(seq<int>, string), JsonError>)
    ensures r.Ok? ==> |r.value.1| < |s| && r.value.0 != []
    decreases |s|
  {
    match ParseNumber(s)
    case None => Err(SyntaxError)
    case Some((n, after)) =>
      var t := SkipSpace(after);
      if t != [] && t[0] == ',' then
        match ParseElements(SkipSpace(t[1..]))
        case Err(e) => Err(e)
        case Ok((ns, rest)) => Ok(([n] + ns, rest))
      else if t != [] && t[0] == ']' then Ok(([n], t[1..]))
      else Err(SyntaxError)
  }

  /** `JSON.parse(s)` for text that holds an array of integers; any other text is a `SyntaxError` here. */
  function DecodeIds(s: string): Result<seq<int>, JsonError> {
    var t := SkipSpace(s);
    if t == [] || t[0] != '[' then Err(SyntaxError)
    else
      var u := SkipSpace(t[1..]);
      if u != [] && u[0] == ']' then
        if SkipSpace(u[1..]) == [] then Ok([]) else Err(SyntaxError)
      else
        match ParseElements(u)
        case Err(e) => Err(e)
        case Ok((ids, rest)) => if SkipSpace(rest) == [] then Ok(ids) else Err(SyntaxError)
  }

  /** The elements of `JSON.stringify(ids)`: each number in decimal, separated by commas. */
  function JoinIds(ids: seq<int>): string {
    if ids == [] then ""
    else if |ids| == 1 then JsText.IntToString(ids[0])
    else JsText.IntToString(ids[0]) + "," + JoinIds(ids[1..])
  }

  /** `JSON.stringify(ids)` for an array of integers. */
  function EncodeIds(ids: seq<int>): string {
    "[" + JoinIds(ids) + "]"
  }

  /** `toString` never writes a leading zero in front of other digits. */
  lemma {:induction false} NatToStringNoLeadingZero(n: nat)
    ensures var s := JsText.NatToString(n); s[0] == '0' ==> |s| == 1
  {
    if n >= 10 {
      NatToStringNoLeadingZero(n / 10);
      assert JsText.NatToString(n)[0] == JsText.NatToString(n / 10)[0];
    }
  }

  /** The digit run of `d + rest` is `d` when `rest` does not start with a digit. */
  lemma {:induction false} DigitPrefixStops(d: string, rest: string)
    requires forall i | 0 <= i < |d| :: JsText.IsDecimalDigit(d[i])
    requires rest != [] && !JsText.IsDecimalDigit(rest[0])
    ensures JsText.DigitPrefix(d + rest, 10) == d
  {
    if d != [] {
      assert (d + rest)[1..] == d[1..] + rest;
      DigitPrefixStops(d[1..], rest);
    }
  }

  /** A number written by `toString`, followed by a non-digit, is read back by `ParseNumber`. */
  lemma ParseNumberOfIntToString(n: int, rest: string)
    requires rest != [] && !JsText.IsDecimalDigit(rest[0])
    ensures ParseNumber(JsText.IntToString(n) + rest) == Some((n, rest))
  {
    var m: nat := if n < 0 then -n else n;
    var d := JsText.NatToString(m);
    CanonicalDigits(m, rest);
    SignAndDigits(n, rest);
    if n < 0 {
      ParseNegative(d + rest, d, rest, m);
    } else {
      ParseNonNegative(d + rest, d, rest, m);
    }
  }

  /** `toString` of `n` is its sign, then the digits of its magnitude. */
  lemma SignAndDigits(n: int, rest: string)
    ensures n < 0 ==> JsText.IntToString(n) + rest == "-" + (JsText.NatToString(-n) + rest)
    ensures n >= 0 ==> JsText.IntToString(n) + rest == JsText.NatToString(n) + rest
  {
    if n < 0 {
      Sequences.Associative("-", JsText.NatToString(-n), rest);
    }
  }

  /** The digits `toString` writes for `m` are read back as one canonical run with value `m`. */
  lemma CanonicalDigits(m: nat, rest: string)
    requires rest != [] && !JsText.IsDecimalDigit(rest[0])
    ensures var d := JsText.NatToString(m);
      && JsText.DigitPrefix(d + rest, 10) == d && (d[0] == '0' ==> |d| == 1)
      && JsText.DigitsValue(d, 10) == m && (d + rest)[|d|..] == rest
  {
    var d := JsText.NatToString(m);
    NatToStringNoLeadingZero(m);
    DigitPrefixStops(d, rest);
    JsText.DigitsValueOfNatToString(m);
    Sequences.DropPrefix(d, rest);
  }

  /** A digit run `ds` in canonical form, with `rest` after it. */
  lemma ParseNonNegative(t: string, ds: string, rest: string, v: int)
    requires JsText.DigitPrefix(t, 10) == ds && ds != [] && (ds[0] == '0' ==> |ds| == 1)
    requires JsText.DigitsValue(ds, 10) == v && t[|ds|..] == rest
    ensures ParseNumber(t) == Some((v, rest))
  {
    assert t[0] == ds[0] && JsText.IsRadixDigit(t[0], 10);
  }

  /** A minus sign, then a digit run `ds` in canonical form, with `rest` after it. */
  lemma ParseNegative(t: string, ds: string, rest: string, v: int)
    requires JsText.DigitPrefix(t, 10) == ds && ds != [] && (ds[0] == '0' ==> |ds| == 1)
    requires JsText.DigitsValue(ds, 10) == v && t[|ds|..] == rest
    ensures ParseNumber("-" + t) == Some((-v, rest))
  {
    Sequences.DropPrefix("-", t);
  }

  lemma {:induction false} ParseJoinIds(ids: seq<int>, tail: string)
    requires ids != []
    ensures ParseElements(JoinIds(ids) + "]" + tail) == Ok((ids, tail))
  {
    if |ids| == 1 {
      ParseOneId(ids, tail);
    } else {
      ParseJoinIds(ids[1..], tail);
      ParseMoreIds(ids, tail);
    }
  }

  lemma ParseOneId(ids: seq<int>, tail: string)
    requires |ids| == 1
    ensures ParseElements(JoinIds(ids) + "]" + tail) == Ok((ids, tail))
  {
    JoinIdsStep(ids, tail);
    ParseLastElement(ids[0], tail);
    assert [ids[0]] == ids;
  }

  lemma ParseMoreIds(ids: seq<int>, tail: string)
    requires |ids| > 1
    requires ParseElements(JoinIds(ids[1..]) + "]" + tail) == Ok((ids[1..], tail))
    ensures ParseElements(JoinIds(ids) + "]" + tail) == Ok((ids, tail))
  {
    var more := JoinIds(ids[1..]) + "]" + tail;
    JoinIdsStep(ids, tail);
    ElementsStartWithNumber(ids[1..], tail);
    ParseNextElement(ids[0], more);
    Sequences.HeadTail(ids);
  }

  /** The first number of the elements text, then either the closing `]` or a comma and the rest. */
  lemma JoinIdsStep(ids: seq<int>, tail: string)
    requires ids != []
    ensures |ids| == 1 ==> JoinIds(ids) + "]" + tail == JsText.IntToString(ids[0]) + "]" + tail
    ensures |ids| > 1 ==>
      JoinIds(ids) + "]" + tail == JsText.IntToString(ids[0]) + "," + (JoinIds(ids[1..]) + "]" + tail)
  {
    if |ids| > 1 {
      var x, b := JsText.IntToString(ids[0]) + ",", JoinIds(ids[1..]);
      assert JoinIds(ids) == x + b;
      Sequences.Associative(x, b, "]");
      Sequences.Associative(x, b + "]", tail);
    }
  }

  lemma ParseLastElement(n: int, tail: string)
    ensures ParseElements(JsText.IntToString(n) + "]" + tail) == Ok(([n], tail))
  {
    var after := "]" + tail;
    assert JsText.IntToString(n) + "]" + tail == JsText.IntToString(n) + after;
    ParseNumberOfIntToString(n, after);
    ElementsClose(JsText.IntToString(n) + after, n, after);
    assert after[1..] == tail;
  }

  lemma ParseNextElement(n: int, more: string)
    requires more != [] && (more[0] == '-' || JsText.IsDecimalDigit(more[0]))
    ensures ParseElements(JsText.IntToString(n) + "," + more)
      == match ParseElements(more)
         case Err(e) => Err(e)
         case Ok((ns, rest)) => Ok(([n] + ns, rest))
  {
    var after := "," + more;
    assert JsText.IntToString(n) + "," + more == JsText.IntToString(n) + after;
    ParseNumberOfIntToString(n, after);
    assert after[1..] == more;
    ElementsContinue(JsText.IntToString(n) + after, n, after);
  }

  /** One number, then `]`: the array ends there. */
  lemma ElementsClose(s: string, n: int, after: string)
    requires ParseNumber(s) == Some((n, after)) && after != [] && after[0] == ']'
    ensures ParseElements(s) == Ok(([n], after[1..]))
  {
    assert SkipSpace(after) == after;
  }

  /** One number, then `,` and the next number: the rest of the elements follow. */
  lemma ElementsContinue(s: string, n: int, after: string)
    requires ParseNumber(s) == Some((n, after)) && |after| >= 2 && after[0] == ','
    requires after[1] == '-' || JsText.IsDecimalDigit(after[1])
    ensures ParseElements(s)
      == match ParseElements(after[1..])
         case Err(e) => Err(e)
         case Ok((ns, rest)) => Ok(([n] + ns, rest))
  {
    SkipNoSpace(after);
    SkipNoSpace(after[1..]);
  }

  /** Text that does not start with white space is left as it is by `SkipSpace`. */
  lemma SkipNoSpace(s: string)
    requires s != [] && !IsJsonSpace(s[0])
    ensures SkipSpace(s) == s
  {
  }

  /** The elements text of a non-empty array starts with a `-` or a digit, never with space. */
  lemma ElementsStartWithNumber(ids: seq<int>, tail: string)
    requires ids != []
    ensures var body := JoinIds(ids) + "]" + tail;
      body != [] && (body[0] == '-' || JsText.IsDecimalDigit(body[0]))
  {
    var s := JsText.IntToString(ids[0]);
    assert (JoinIds(ids) + "]" + tail)[0] == s[0];
  }

  /** `JSON.parse(JSON.stringify(ids))` gives back `ids`. */
  lemma DecodeEncodeIds(ids: seq<int>)
    ensures DecodeIds(EncodeIds(ids)) == Ok(ids)
  {
    var s := EncodeIds(ids);
    var body := JoinIds(ids) + "]" + "";
    EncodeIdsShape(ids);
    SkipNoSpace(s);
    if ids == [] {
      assert body[0] == ']' && body[1..] == [] by {
        Sequences.DropPrefix("]", "");
      }
      SkipNoSpace(body);
    } else {
      ElementsStartWithNumber(ids, "");
      SkipNoSpace(body);
      ParseJoinIds(ids, "");
    }
  }

  /** The array text is `[`, then the elements text with its closing `]`. */
  lemma EncodeIdsShape(ids: seq<int>)
    ensures var s := EncodeIds(ids);
      s != [] && s[0] == '[' && s[1..] == JoinIds(ids) + "]" + ""
  {
    var j := JoinIds(ids);
    Sequences.Associative("[", j, "]");
    Sequences.DropPrefix("[", j + "]");
    Sequences.DropPrefix(j + "]", "");
  }
}
