/**
 * The password and session encoding of the server (src/auth.ts): bytes written as lowercase hex,
 * the stored `saltHex:hashHex` string, its decoding in `verifyPassword`, session ids and their
 * expiry. PBKDF2 (with the password's UTF-8 encoding folded in) is a function parameter, and
 * the random salt and session bytes are parameters too.
 */
module Auth {
  import opened Wrappers
  import JsText
  import Calendar

  /** An element of a `Uint8Array`. */
  type Byte = b: int | 0 <= b < 256

  /** PBKDF2-SHA-256 with 100000 iterations over the password and salt, taken as given. */
  type Pbkdf2 = (string, seq<Byte>) -> seq<Byte>

  // ---- Encoding ----

  /** The digit `Number.prototype.toString(16)` writes for 0..15: lowercase letters. */
  function HexChar(d: nat): (c: char)
    requires d < 16
    ensures JsText.IsRadixDigit(c, 16) && JsText.DigitValue(c) == d
    ensures IsLowerHex(c)
  {
    if d < 10 then ('0' as int + d) as char else ('a' as int + d - 10) as char
  }

  predicate IsLowerHex(c: char) {
    ('0' <= c <= '9') || ('a' <= c <= 'f')
  }

  /** `n.toString(16)`: no leading zeros. */
  function HexString(n: nat): (s: string)
    ensures s != []
  {
    if n < 16 then [HexChar(n)] else HexString(n / 16) + [HexChar(n % 16)]
  }

  /** `s.padStart(2, '0')`. */
  function PadStart2(s: string): string {
    if |s| >= 2 then s else seq(2 - |s|, _ => '0') + s
  }

  /** `b.toString(16).padStart(2, '0')`. */
  function ByteHex(b: Byte): string {
    PadStart2(HexString(b))
  }

  /** Every byte is written as exactly two lowercase hex digits, high nibble first. */
  lemma ByteHexDigits(b: Byte)
    ensures ByteHex(b) == [HexChar(b / 16), HexChar(b % 16)]
  {
    if b >= 16 {
      assert HexString(b / 16) == [HexChar(b / 16)];
    }
  }

  /** `Array.from(bytes).map(b => b.toString(16).padStart(2, '0')).join('')`. */
  function HexEncode(bytes: seq<Byte>): string {
    if bytes == [] then "" else ByteHex(bytes[0]) + HexEncode(bytes[1..])
  }

  /** The encoding is two lowercase hex digits per byte, in order. */
  lemma HexEncodeShape(bytes: seq<Byte>)
    ensures |HexEncode(bytes)| == 2 * |bytes|
    ensures forall i | 0 <= i < |bytes| ::
      HexEncode(bytes)[2 * i] == HexChar(bytes[i] / 16) && HexEncode(bytes)[2 * i + 1] == HexChar(bytes[i] % 16)
    ensures forall i | 0 <= i < |HexEncode(bytes)| :: IsLowerHex(HexEncode(bytes)[i])
  {
    HexEncodePairs(bytes);
    HexEncodeLower(bytes);
  }

  /** `s` holds two hex digits per byte of `bytes`, high nibble first. */
  ghost predicate IsPairsOf(s: string, bytes: seq<Byte>) {
    && |s| == 2 * |bytes|
    && forall i | 0 <= i < |bytes| :: s[2 * i] == HexChar(bytes[i] / 16) && s[2 * i + 1] == HexChar(bytes[i] % 16)
  }

  lemma {:induction false} HexEncodePairs(bytes: seq<Byte>)
    ensures IsPairsOf(HexEncode(bytes), bytes)
  {
    if bytes != [] {
      HexEncodePairs(bytes[1..]);
      ByteHexDigits(bytes[0]);
      assert HexEncode(bytes) == ByteHex(bytes[0]) + HexEncode(bytes[1..]);
      assert bytes == [bytes[0]] + bytes[1..];
      PairsCons(bytes[0], bytes[1..], HexEncode(bytes[1..]));
    }
  }

  /** One more byte in front puts its two digits in front. */
  lemma PairsCons(b: Byte, bs: seq<Byte>, rest: string)
    requires IsPairsOf(rest, bs)
    ensures IsPairsOf([HexChar(b / 16), HexChar(b % 16)] + rest, [b] + bs)
  {
    var s, bytes := [HexChar(b / 16), HexChar(b % 16)] + rest, [b] + bs;
    forall i | 1 <= i < |bytes|
      ensures s[2 * i] == HexChar(bytes[i] / 16) && s[2 * i + 1] == HexChar(bytes[i] % 16)
    {
      var j := i - 1;
      assert 2 * i == 2 * j + 2;
      assert bytes[i] == bs[j];
    }
  }

  lemma {:induction false} HexEncodeLower(bytes: seq<Byte>)
    ensures forall i | 0 <= i < |HexEncode(bytes)| :: IsLowerHex(HexEncode(bytes)[i])
  {
    if bytes != [] {
      HexEncodeLower(bytes[1..]);
      ByteHexDigits(bytes[0]);
      assert HexEncode(bytes) == ByteHex(bytes[0]) + HexEncode(bytes[1..]);
    }
  }

  // ---- Decoding ----

  /**
   * `s.match(/.{1,2}/g)`: left to right, two characters at a time (one at the end, or before a
   * line terminator, which `.` does not match and which is skipped). `[]` stands for `null`.
   */
  function MatchPairs(s: string): seq<string> {
    if s == [] then []
    else if JsText.IsLineTerminator(s[0]) then MatchPairs(s[1..])
    else if |s| >= 2 && !JsText.IsLineTerminator(s[1]) then [s[..2]] + MatchPairs(s[2..])
    else [s[..1]] + MatchPairs(s[1..])
  }

  /** Storing a number into a `Uint8Array`: `NaN` becomes 0, anything else is taken modulo 256. */
  function ToUint8(n: Option<int>): Byte {
    if n.None? then 0 else n.value % 256
  }

  /** `.map(byte => parseInt(byte, 16))` stored into a `Uint8Array`. */
  function DecodeChunks(chunks: seq<string>): (bytes: seq<Byte>)
    ensures |bytes| == |chunks|
  {
    if chunks == [] then [] else [ToUint8(JsText.ParseIntRadix(chunks[0], 16))] + DecodeChunks(chunks[1..])
  }

  /** Two hex digits read back in base 16 give the byte they were written from. */
  lemma ParseByteHex(b: Byte)
    ensures JsText.ParseIntRadix(ByteHex(b), 16) == Some(b)
  {
    ByteHexDigits(b);
    ParseTwoDigits(b);
  }

  lemma ParseTwoDigits(b: Byte)
    ensures JsText.ParseIntRadix([HexChar(b / 16), HexChar(b % 16)], 16) == Some(b)
  {
    var hi, lo := HexChar(b / 16), HexChar(b % 16);
    JsText.ParseRadixDigits([hi, lo], 16);
    JsText.TwoDigitsValue(hi, lo, 16);
  }

  /** Each byte's two digits, in order: what `.map(...)` produces before the `.join('')`. */
  function ByteHexes(bytes: seq<Byte>): (chunks: seq<string>)
    ensures |chunks| == |bytes| && forall i | 0 <= i < |bytes| :: chunks[i] == ByteHex(bytes[i])
  {
    if bytes == [] then [] else [ByteHex(bytes[0])] + ByteHexes(bytes[1..])
  }

  /** Splitting an encoding into pairs gives back each byte's two digits. */
  lemma {:induction false} MatchPairsOfHex(bytes: seq<Byte>)
    ensures MatchPairs(HexEncode(bytes)) == ByteHexes(bytes)
  {
    if bytes != [] {
      ByteHexDigits(bytes[0]);
      var s := HexEncode(bytes);
      var h := ByteHex(bytes[0]);
      assert s == h + HexEncode(bytes[1..]);
      assert s[..2] == h && s[2..] == HexEncode(bytes[1..]);
      MatchPairsOfHex(bytes[1..]);
    }
  }

  /** Decoding what `HexEncode` wrote gives back the bytes: the salt survives the round trip. */
  lemma {:induction false} HexRoundTrip(bytes: seq<Byte>)
    ensures DecodeChunks(MatchPairs(HexEncode(bytes))) == bytes
  {
    MatchPairsOfHex(bytes);
    DecodeByteHexes(bytes);
  }

  lemma DecodeByteHexes(bytes: seq<Byte>)
    ensures DecodeChunks(ByteHexes(bytes)) == bytes
  {
    var chunks := ByteHexes(bytes);
    forall i | 0 <= i < |bytes|
      ensures ToUint8(JsText.ParseIntRadix(chunks[i], 16)) == bytes[i]
    {
      DecodeByteHex(chunks[i], bytes[i]);
    }
    DecodeEach(chunks, bytes);
  }

  lemma DecodeByteHex(chunk: string, b: Byte)
    requires chunk == ByteHex(b)
    ensures ToUint8(JsText.ParseIntRadix(chunk, 16)) == b
  {
    ParseByteHex(b);
    ToUint8OfByte(b);
  }

  /** A number that is already a byte is stored unchanged. */
  lemma ToUint8OfByte(b: Byte)
    ensures ToUint8(Some(b)) == b
  {
  }

  /** The chunks decode to the bytes when each one does. */
  lemma {:induction false} DecodeEach(chunks: seq<string>, bytes: seq<Byte>)
    requires |chunks| == |bytes|
    requires forall i | 0 <= i < |bytes| :: ToUint8(JsText.ParseIntRadix(chunks[i], 16)) == bytes[i]
    ensures DecodeChunks(chunks) == bytes
  {
    if bytes != [] {
      DecodeEach(chunks[1..], bytes[1..]);
    }
  }

  /** Different byte strings encode differently. */
  lemma HexEncodeInjective(a: seq<Byte>, b: seq<Byte>)
    ensures HexEncode(a) == HexEncode(b) ==> a == b
  {
    HexRoundTrip(a);
    HexRoundTrip(b);
  }

  // ---- Passwords ----

  /** `hashPassword`: the salt and the derived key, each hex-encoded, joined by a colon. */
  function HashPassword(password: string, salt: seq<Byte>, derive: Pbkdf2): string {
    HexEncode(salt) + ":" + HexEncode(derive(password, salt))
  }

  /** With a 16-byte salt and a 256-bit key: 32 hex digits, a colon, 64 hex digits. */
  lemma HashFormat(password: string, salt: seq<Byte>, derive: Pbkdf2)
    requires |salt| == 16 && |derive(password, salt)| == 32
    ensures var h := HashPassword(password, salt, derive);
      && |h| == 97 && h[32] == ':'
      && (forall i | 0 <= i < 97 && i != 32 :: IsLowerHex(h[i]))
  {
    HexEncodeShape(salt);
    HexEncodeShape(derive(password, salt));
    var h := HashPassword(password, salt, derive);
    var k := HexEncode(derive(password, salt));
    assert forall i | 33 <= i < 97 :: h[i] == k[i - 33];
  }

  /** `saltHex.match(...)` came back `null` and `.map` on it threw. */
  datatype TypeError = MatchIsNull

  /**
   * `verifyPassword`: split the stored string at colons, decode the first piece's hex pairs as
   * the salt, derive the key from the given password and compare its hex with the second piece
   * (`undefined` when there is no colon, which never compares equal). An empty salt piece makes
   * the match `null` and the call throws.
   */
  function VerifyPassword(password: string, stored: string, derive: Pbkdf2): (r: Result<bool, TypeError>)
    ensures r.Err? <==> MatchPairs(JsText.Split(stored, ':')[0]) == []
  {
    var parts := JsText.Split(stored, ':');
    var chunks := MatchPairs(parts[0]);
    if chunks == [] then Err(MatchIsNull)
    else
      var salt := DecodeChunks(chunks);
      Ok(|parts| >= 2 && HexEncode(derive(password, salt)) == parts[1])
  }

  /** The stored string splits back into its salt and key halves. */
  lemma SplitStored(password: string, salt: seq<Byte>, derive: Pbkdf2)
    ensures JsText.Split(HashPassword(password, salt, derive), ':')
         == [HexEncode(salt), HexEncode(derive(password, salt))]
  {
    var a := HexEncode(salt);
    var b := HexEncode(derive(password, salt));
    HexEncodeShape(salt);
    HexEncodeShape(derive(password, salt));
    assert ':' !in a && ':' !in b by {
      assert !IsLowerHex(':');
    }
    JsText.SplitJoin([a, b], ':');
    assert JsText.Join([a, b], [':']) == a + [':'] + JsText.Join([b], [':']);
  }

  /**
   * Checking a password against its own stored hash succeeds (for a non-empty salt), and
   * another password is accepted exactly when PBKDF2 gives it the same key under that salt.
   */
  lemma VerifyHashed(password: string, other: string, salt: seq<Byte>, derive: Pbkdf2)
    requires salt != []
    ensures VerifyPassword(password, HashPassword(password, salt, derive), derive) == Ok(true)
    ensures VerifyPassword(other, HashPassword(password, salt, derive), derive)
         == Ok(derive(other, salt) == derive(password, salt))
  {
    SplitStored(password, salt, derive);
    HexRoundTrip(salt);
    HexEncodeShape(salt);
    HexEncodeInjective(derive(other, salt), derive(password, salt));
  }

  /** An empty salt half makes `verifyPassword` throw instead of answering. */
  lemma VerifyEmptySalt(password: string, rest: string, derive: Pbkdf2)
    ensures VerifyPassword(password, ":" + rest, derive) == Err(MatchIsNull)
  {
    var s := ":" + rest;
    assert s[1..] == rest;
  }

  // ---- Sessions ----

  /** `generateSessionId`: the 32 random bytes, hex-encoded. */
  function SessionId(random: seq<Byte>): string {
    HexEncode(random)
  }

  /** 32 bytes give 64 lowercase hex digits, and different bytes give different ids. */
  lemma SessionIdShape(random: seq<Byte>, other: seq<Byte>)
    requires |random| == 32
    ensures |SessionId(random)| == 64
    ensures forall i | 0 <= i < 64 :: IsLowerHex(SessionId(random)[i])
    ensures SessionId(random) == SessionId(other) ==> random == other
  {
    HexEncodeShape(random);
    HexEncodeInjective(random, other);
  }

  /** The session lifetime: `30 * 24 * 60 * 60 * 1000` milliseconds. */
  const SessionLifetimeMs: int := 30 * 24 * 60 * 60 * 1000

  /** `createSession`'s expiry instant, in milliseconds since the epoch. */
  function SessionExpiry(nowMs: int): (e: int)
    ensures e - nowMs == 30 * Calendar.MsPerDay
    ensures Calendar.FloorDays(e) == Calendar.FloorDays(nowMs) + 30
  {
    nowMs + SessionLifetimeMs
  }
}
