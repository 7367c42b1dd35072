/** The decoding properties that `StringExt.kt` adds to `String` for the four
    RFC 4648 alphabets (section 4, standard, and section 5, URL-safe, each with
    and without padding). Each getter runs the Base64 decoder and then trims
    its output from the end: first by a count taken from the input string, and
    in the unpadded variants once more by the number of zero bytes in what is
    left. The decoder itself is a parameter. */
module Base64Ext {
  import opened Kotlin

  /** The `Encoding` values the getters pass to the decoder. */
  datatype Encoding = Standard | StandardPad | UrlSafe | UrlSafePad

  /** `Base64.decode(string, encoding)`, taken to yield Kotlin bytes. */
  type Decoder = (string, Encoding) -> seq<int8>

  /** `ByteArray.decodeToString()`, UTF-8 decoding, taken as given. */
  type Utf8Decoder = seq<int8> -> string

  /** `count { p(it) }` on a string or a list. */
  function Count<T>(s: seq<T>, p: T -> bool): (n: nat)
    ensures n <= |s|
    ensures n == 0 <==> forall i :: 0 <= i < |s| ==> !p(s[i])
    decreases |s|
  {
    if s == [] then 0 else Count(s[..|s| - 1], p) + (if p(s[|s| - 1]) then 1 else 0)
  }

  /** `dropLast(n)`: all but the last `n` elements, or nothing when there are fewer. */
  function DropLast<T>(s: seq<T>, n: nat): (r: seq<T>)
    ensures |r| == if n <= |s| then |s| - n else 0
    ensures r == s[..|r|]
  {
    if n <= |s| then s[..|s| - n] else []
  }

  predicate IsPad(c: char) {
    c == '='
  }

  /** The URL-safe getter also counts characters whose code is 0. */
  predicate IsPadOrNul(c: char) {
    c == '=' || c == 0 as char
  }

  predicate IsZero(b: int8) {
    b == 0
  }

  /** `Byte.toChar()`: the byte is sign-extended to a 16-bit code unit. */
  function ToChar(b: int8): char {
    if b < 0 then (b + 0x1_0000) as char else b as char
  }

  function ToChars(bytes: seq<int8>): (r: string)
    ensures |r| == |bytes|
    ensures forall i :: 0 <= i < |bytes| ==> r[i] == ToChar(bytes[i])
  {
    seq(|bytes|, i requires 0 <= i < |bytes| => ToChar(bytes[i]))
  }

  /** The second trim of the unpadded getters: one trailing byte removed per
      zero byte anywhere in the list. */
  function ZeroTrim(bytes: seq<int8>): (r: seq<int8>)
    ensures |r| == |bytes| - Count(bytes, IsZero)
    ensures r == bytes[..|r|]
  {
    DropLast(bytes, Count(bytes, IsZero))
  }

  // ---------------------------------------------------------------------------
  // The getters.

  /** `base64Decoded`: the decoded bytes as characters, less one trailing
      character per `'='` in the input. */
  function Base64Decoded(decode: Decoder, s: string): (r: string)
    ensures var chars := ToChars(decode(s, Standard));
      |r| == (if Count(s, IsPad) <= |chars| then |chars| - Count(s, IsPad) else 0) &&
      r == chars[..|r|]
    ensures forall i :: 0 <= i < |r| ==> r[i] == ToChar(decode(s, Standard)[i])
  {
    DropLast(ToChars(decode(s, Standard)), Count(s, IsPad))
  }

  /** `base64DecodedBytes`: one trailing byte dropped per `'='` in the input,
      then one more per zero byte left anywhere in the result. */
  function Base64DecodedBytes(decode: Decoder, s: string): (r: seq<int8>)
    ensures var decoded := decode(s, Standard);
      var bytes := DropLast(decoded, Count(s, IsPad));
      |r| == |bytes| - Count(bytes, IsZero) && r == decoded[..|r|]
  {
    ZeroTrim(DropLast(decode(s, Standard), Count(s, IsPad)))
  }

  /** `base64PadDecodedBytes`: one trailing byte dropped per `'='` in the input. */
  function Base64PadDecodedBytes(decode: Decoder, s: string): (r: seq<int8>)
    ensures var decoded := decode(s, StandardPad);
      |r| == (if Count(s, IsPad) <= |decoded| then |decoded| - Count(s, IsPad) else 0) &&
      r == decoded[..|r|]
  {
    DropLast(decode(s, StandardPad), Count(s, IsPad))
  }

  /** `base64UrlDecodedBytes`: one trailing byte dropped per `'='` or NUL in
      the input, then one more per zero byte left anywhere in the result. */
  function Base64UrlDecodedBytes(decode: Decoder, s: string): (r: seq<int8>)
    ensures var decoded := decode(s, UrlSafe);
      var bytes := DropLast(decoded, Count(s, IsPadOrNul));
      |r| == |bytes| - Count(bytes, IsZero) && r == decoded[..|r|]
  {
    ZeroTrim(DropLast(decode(s, UrlSafe), Count(s, IsPadOrNul)))
  }

  /** `base64UrlPadDecodedBytes`: one trailing byte dropped per `'='` in the input. */
  function Base64UrlPadDecodedBytes(decode: Decoder, s: string): (r: seq<int8>)
    ensures var decoded := decode(s, UrlSafePad);
      |r| == (if Count(s, IsPad) <= |decoded| then |decoded| - Count(s, IsPad) else 0) &&
      r == decoded[..|r|]
  {
    DropLast(decode(s, UrlSafePad), Count(s, IsPad))
  }

  /** The string getters of the other three variants decode their byte
      getter's result as UTF-8. */
  function Base64PadDecoded(decode: Decoder, utf8: Utf8Decoder, s: string): string {
    utf8(Base64PadDecodedBytes(decode, s))
  }

  function Base64UrlDecoded(decode: Decoder, utf8: Utf8Decoder, s: string): string {
    utf8(Base64UrlDecodedBytes(decode, s))
  }

  function Base64UrlPadDecoded(decode: Decoder, utf8: Utf8Decoder, s: string): string {
    utf8(Base64UrlPadDecodedBytes(decode, s))
  }

  // ---------------------------------------------------------------------------
  // Properties.

  /** Every byte getter returns a prefix of what the decoder produced, never
      longer than it. */
  lemma DecodedBytesArePrefixes(decode: Decoder, s: string)
    ensures var r, d := Base64DecodedBytes(decode, s), decode(s, Standard); |r| <= |d| && r == d[..|r|]
    ensures var r, d := Base64PadDecodedBytes(decode, s), decode(s, StandardPad); |r| <= |d| && r == d[..|r|]
    ensures var r, d := Base64UrlDecodedBytes(decode, s), decode(s, UrlSafe); |r| <= |d| && r == d[..|r|]
    ensures var r, d := Base64UrlPadDecodedBytes(decode, s), decode(s, UrlSafePad); |r| <= |d| && r == d[..|r|]
  {
  }

  /** Input without padding (or NUL) characters and a decoding without zero
      bytes come back untrimmed. */
  lemma NothingToTrim(decode: Decoder, s: string)
    requires forall i :: 0 <= i < |s| ==> !IsPadOrNul(s[i])
    ensures (forall i :: 0 <= i < |decode(s, Standard)| ==> decode(s, Standard)[i] != 0) ==>
      Base64DecodedBytes(decode, s) == decode(s, Standard)
    ensures (forall i :: 0 <= i < |decode(s, UrlSafe)| ==> decode(s, UrlSafe)[i] != 0) ==>
      Base64UrlDecodedBytes(decode, s) == decode(s, UrlSafe)
    ensures Base64PadDecodedBytes(decode, s) == decode(s, StandardPad)
    ensures Base64UrlPadDecodedBytes(decode, s) == decode(s, UrlSafePad)
  {
    assert Count(s, IsPad) == 0;
    assert Count(s, IsPadOrNul) == 0;
  }

  // ---------------------------------------------------------------------------
  // The zero-byte trim removes one trailing byte per zero byte anywhere in the
  // list, so a zero inside the data costs the data its last byte. Trailing
  // zeros are evidently what it means to remove.

  /** The decoder yields `[0, 65]` for "AEE" (the bytes 0x00 0x41, unpadded);
      the getter returns `[0]`, where stripping trailing zeros keeps both bytes. */
  lemma ZeroTrimLosesData(decode: Decoder)
    requires decode("AEE", Standard) == [0, 65]
    ensures Base64DecodedBytes(decode, "AEE") == [0]
    ensures Base64DecodedBytesTrimmed(decode, "AEE") == [0, 65]
  {
    assert Count("AEE", IsPad) == 0;
    var d: seq<int8> := [0, 65];
    assert Count(d, IsZero) == 1 by {
      assert d[..1] == [0];
      assert Count(d[..1], IsZero) == 1 by {
        assert d[..1][..0] == [];
      }
    }
  }

  /** The trailing zero bytes removed, and nothing else. */
  function TrimTrailingZeros(bytes: seq<int8>): (r: seq<int8>)
    ensures |r| <= |bytes| && r == bytes[..|r|]
    ensures forall i :: |r| <= i < |bytes| ==> bytes[i] == 0
    ensures |r| > 0 ==> r[|r| - 1] != 0
    decreases |bytes|
  {
    if bytes != [] && bytes[|bytes| - 1] == 0 then TrimTrailingZeros(bytes[..|bytes| - 1]) else bytes
  }

  /** `base64DecodedBytes` with trailing zeros stripped. */
  function Base64DecodedBytesTrimmed(decode: Decoder, s: string): (r: seq<int8>)
    ensures var decoded := decode(s, Standard); |r| <= |decoded| && r == decoded[..|r|]
    ensures var bytes := DropLast(decode(s, Standard), Count(s, IsPad));
      |r| <= |bytes| && r == bytes[..|r|] &&
      (forall i :: |r| <= i < |bytes| ==> bytes[i] == 0)
    ensures |r| > 0 ==> r[|r| - 1] != 0
  {
    TrimTrailingZeros(DropLast(decode(s, Standard), Count(s, IsPad)))
  }

  /** `base64UrlDecodedBytes` with trailing zeros stripped. */
  function Base64UrlDecodedBytesTrimmed(decode: Decoder, s: string): (r: seq<int8>)
    ensures var decoded := decode(s, UrlSafe); |r| <= |decoded| && r == decoded[..|r|]
    ensures var bytes := DropLast(decode(s, UrlSafe), Count(s, IsPadOrNul));
      |r| <= |bytes| && r == bytes[..|r|] &&
      (forall i :: |r| <= i < |bytes| ==> bytes[i] == 0)
    ensures |r| > 0 ==> r[|r| - 1] != 0
  {
    TrimTrailingZeros(DropLast(decode(s, UrlSafe), Count(s, IsPadOrNul)))
  }

  /** Where every zero byte belongs to the trailing run of zeros, the two trims agree. */
  lemma {:induction false} TrimsAgreeOnTrailingZeros(bytes: seq<int8>)
    requires forall i, j :: 0 <= i < j < |bytes| && bytes[i] == 0 ==> bytes[j] == 0
    ensures ZeroTrim(bytes) == TrimTrailingZeros(bytes)
    decreases |bytes|
  {
    if bytes == [] {
    } else if bytes[|bytes| - 1] == 0 {
      var init := bytes[..|bytes| - 1];
      TrimsAgreeOnTrailingZeros(init);
      assert Count(bytes, IsZero) == Count(init, IsZero) + 1;
      assert ZeroTrim(bytes) == ZeroTrim(init);
    } else {
      assert Count(bytes, IsZero) == 0;
    }
  }
}
