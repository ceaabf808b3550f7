/**
  Percent-coding of byte strings (section 2.1 of RFC 3986), as `PercentCoded` does it:
  the unreserved bytes of section 2.3 of RFC 3986 pass through, every other byte becomes
  `%` and two upper-case hex digits; decoding accepts both letter cases.
 */
module PercentCoding {
  import opened Errors
  import opened Bytes

  /** Some percent-coded data. `data` holds the DECODED bytes; `PercentCoded(d)` is `new`
      and reading `data` is `deref`. */
  datatype PercentCoded = PercentCoded(data: Bytes)

  /** The escape introducer `%`. */
  const PERCENT: Byte := 0x25

  /** The consecutive bytes `first`, ..., `last`. */
  function Span(first: Byte, last: Byte): Bytes
    requires first <= last
  {
    seq(last - first + 1, i requires 0 <= i <= last - first => first + i)
  }

  /** The bytes `encode` copies verbatim, in the order of the source's byte string
      `abcdefghijklmnopqrstuvwxyzABCDEFGHIJKLMNOPQRSTUVWXYZ0123456789-._~`. */
  const ALLOWED_CHARS: Bytes :=
    Span(0x61, 0x7A) + Span(0x41, 0x5A) + Span(0x30, 0x39) + [0x2D, 0x2E, 0x5F, 0x7E]

  /** The unreserved characters of section 2.3 of RFC 3986: ALPHA / DIGIT / "-" / "." / "_" / "~". */
  predicate IsUnreserved(b: Byte) {
    || 0x41 <= b <= 0x5A  // A-Z
    || 0x61 <= b <= 0x7A  // a-z
    || 0x30 <= b <= 0x39  // 0-9
    || b == 0x2D || b == 0x2E || b == 0x5F || b == 0x7E
  }

  /** A hex digit in either case: `0-9`, `a-f`, `A-F`. */
  predicate IsHexDigit(c: Byte) {
    0x30 <= c <= 0x39 || 0x61 <= c <= 0x66 || 0x41 <= c <= 0x46
  }

  /** A hex digit as `encode` writes it: `0-9`, `A-F`. */
  predicate IsUpperHexDigit(c: Byte) {
    0x30 <= c <= 0x39 || 0x41 <= c <= 0x46
  }

  /** `ALLOWED_CHARS` is exactly the unreserved set. */
  lemma AllowedCharsAreUnreserved(b: Byte)
    ensures b in ALLOWED_CHARS <==> IsUnreserved(b)
  {
    if 0x61 <= b <= 0x7A {
      assert ALLOWED_CHARS[b - 0x61] == b;
    } else if 0x41 <= b <= 0x5A {
      assert ALLOWED_CHARS[b - 0x41 + 26] == b;
    } else if 0x30 <= b <= 0x39 {
      assert ALLOWED_CHARS[b - 0x30 + 52] == b;
    } else if IsUnreserved(b) {
      assert b in ALLOWED_CHARS[62..];
    }
  }

  // ---------------------------------------------------------------- nibbles and bytes

  /** `decode_nibble`: the value of one hex digit of either case. */
  function DecodeNibble(nibble: Byte): (r: Result<Byte>)
    ensures r.Ok? <==> IsHexDigit(nibble)
    ensures r.Ok? ==> r.value < 16
    ensures r.Err? ==> r.error == PercentEncoding
  {
    if 0x30 <= nibble <= 0x39 then Ok(nibble - 0x30)
    else if 0x61 <= nibble <= 0x66 then Ok((nibble - 0x61) + 0xA)
    else if 0x41 <= nibble <= 0x46 then Ok((nibble - 0x41) + 0xA)
    else Err(PercentEncoding)
  }

  /** Both letter cases of a hex digit decode to the same value. */
  lemma DecodeNibbleIgnoresCase(nibble: Byte)
    requires 0x61 <= nibble <= 0x66
    ensures DecodeNibble(nibble) == DecodeNibble(nibble - 0x20)
  {
  }

  /** `encode_nibble`: the upper-case hex digit of a value below 16 (the source panics on more). */
  function EncodeNibble(nibble: Byte): (r: Byte)
    requires nibble < 16
    ensures IsUpperHexDigit(r)
    ensures DecodeNibble(r) == Ok(nibble)
  {
    if nibble <= 0x9 then nibble + 0x30 else (nibble - 0xA) + 0x41
  }

  /** `decode_byte`: the byte whose high and low nibbles the two digits spell
      (`high << 4 | low`, written `16 * high + low` on integers). */
  function DecodeByte(high: Byte, low: Byte): (r: Result<Byte>)
    ensures r.Ok? <==> IsHexDigit(high) && IsHexDigit(low)
    ensures r.Ok? ==> r.value / 16 == DecodeNibble(high).value && r.value % 16 == DecodeNibble(low).value
    ensures r.Err? ==> r.error == PercentEncoding
  {
    match DecodeNibble(high)
    case Err(e) => Err(e)
    case Ok(h) =>
      match DecodeNibble(low)
      case Err(e) => Err(e)
      case Ok(l) => Ok(16 * h + l)
  }

  /** `encode_byte`: the two upper-case hex digits of a byte (`byte >> 4` and `byte & 0xF`),
      which `decode_byte` turns back into it. */
  function EncodeByte(byte: Byte): (r: (Byte, Byte))
    ensures IsUpperHexDigit(r.0) && IsUpperHexDigit(r.1)
    ensures DecodeByte(r.0, r.1) == Ok(byte)
  {
    var (high, low) := (byte / 16, byte % 16);
    (EncodeNibble(high), EncodeNibble(low))
  }

  // ---------------------------------------------------------------- specification of the codec

  /** What `encode` writes for one byte: the byte itself, or `%XX`. */
  function EncodeOne(byte: Byte): (r: Bytes)
    ensures r == [byte] <==> IsUnreserved(byte)
    ensures !IsUnreserved(byte) ==>
      |r| == 3 && r[0] == PERCENT && IsUpperHexDigit(r[1]) && IsUpperHexDigit(r[2])
      && DecodeByte(r[1], r[2]) == Ok(byte)
  {
    if IsUnreserved(byte) then [byte]
    else var (high, low) := EncodeByte(byte); [PERCENT, high, low]
  }

  /** The percent-encoding of `data`, byte after byte. */
  function Encoded(data: Bytes): (r: Bytes)
    ensures |data| <= |r| <= 3 * |data|
  {
    if data == [] then [] else EncodeOne(data[0]) + Encoded(data[1..])
  }

  /** The number of bytes `encode` escapes. */
  function EscapeCount(data: Bytes): (n: nat)
    ensures n <= |data|
  {
    if data == [] then 0 else (if IsUnreserved(data[0]) then 0 else 1) + EscapeCount(data[1..])
  }

  /** `p` in front of a successful decoding; an error stays an error. */
  function Prepend(p: Bytes, r: Result<Bytes>): Result<Bytes> {
    match r
    case Ok(v) => Ok(p + v)
    case Err(e) => Err(e)
  }

  lemma PrependTwice(a: Bytes, b: Bytes, r: Result<Bytes>)
    ensures Prepend(a, Prepend(b, r)) == Prepend(a + b, r)
    ensures Prepend([], r) == r
  {
    if r.Ok? {
      assert a + (b + r.value) == (a + b) + r.value;
      assert [] + r.value == r.value;
    }
  }

  /** The percent-decoding of `source`: other bytes are copied, `%HH` becomes one byte,
      a truncated escape or a non-hex digit is an error. */
  function Decoded(source: Bytes): (r: Result<Bytes>)
    ensures r.Ok? ==> |r.value| <= |source|
    ensures r.Err? ==> r.error == PercentEncoding
  {
    if source == [] then Ok([])
    else if source[0] != PERCENT then Prepend([source[0]], Decoded(source[1..]))
    else if |source| < 3 then Err(PercentEncoding)
    else
      match DecodeByte(source[1], source[2])
      case Err(e) => Err(e)
      case Ok(byte) => Prepend([byte], Decoded(source[3..]))
  }

  // ---------------------------------------------------------------- the loops of the source

  /** `PercentCoded::decode`: pulls bytes off the source and pushes the decoded ones. */
  method Decode(source: Bytes) returns (r: Result<PercentCoded>)
    ensures r.Ok? <==> Decoded(source).Ok?
    ensures r.Ok? ==> r.value.data == Decoded(source).value
    ensures r.Err? ==> r.error == PercentEncoding
  {
    var i, decoded := 0, [];
    assert source[i..] == source;
    PrependTwice([], [], Decoded(source));
    while i < |source|
      invariant 0 <= i <= |source|
      invariant Decoded(source) == Prepend(decoded, Decoded(source[i..]))
    {
      ghost var rest := source[i..];
      ghost var before := decoded;
      var byte := source[i];
      i := i + 1;
      if byte == PERCENT {
        if i == |source| {
          return Err(PercentEncoding);
        }
        var high := source[i];
        i := i + 1;
        if i == |source| {
          return Err(PercentEncoding);
        }
        var low := source[i];
        i := i + 1;
        var d := DecodeByte(high, low);
        if d.Err? {
          return Err(d.error);
        }
        byte := d.value;
        assert rest[3..] == source[i..];
      } else {
        assert rest[1..] == source[i..];
      }
      decoded := decoded + [byte];
      PrependTwice(before, [byte], Decoded(source[i..]));
    }
    return Ok(PercentCoded(decoded));
  }

  /** `PercentCoded::encode`: writes `buf[..buf_len]` for every byte of the data. */
  method Encode(coded: PercentCoded) returns (encoded: Bytes)
    ensures encoded == Encoded(coded.data)
  {
    encoded := [];
    for i := 0 to |coded.data|
      invariant encoded == Encoded(coded.data[..i])
    {
      var byte := coded.data[i];
      var buf, bufLen := [byte, 0, 0], 1;
      AllowedCharsAreUnreserved(byte);
      if byte !in ALLOWED_CHARS {
        var (high, low) := EncodeByte(byte);
        buf, bufLen := [PERCENT, high, low], 3;
      }
      EncodedPrefixStep(coded.data, i);
      assert buf[..bufLen] == EncodeOne(byte);
      encoded := encoded + buf[..bufLen];
    }
    assert coded.data[..|coded.data|] == coded.data;
  }

  /** One turn of the encoding loop appends the encoding of the next byte. */
  lemma EncodedPrefixStep(data: Bytes, i: nat)
    requires i < |data|
    ensures Encoded(data[..i + 1]) == Encoded(data[..i]) + EncodeOne(data[i])
  {
    EncodedConcat(data[..i], [data[i]]);
    assert data[..i + 1] == data[..i] + [data[i]];
    assert [data[i]][1..] == [];
  }

  // ---------------------------------------------------------------- properties

  /** Encoding distributes over concatenation. */
  lemma {:induction false} EncodedConcat(a: Bytes, b: Bytes)
    ensures Encoded(a + b) == Encoded(a) + Encoded(b)
  {
    if a == [] {
      assert a + b == b;
    } else {
      assert (a + b)[0] == a[0];
      assert (a + b)[1..] == a[1..] + b;
      EncodedConcat(a[1..], b);
    }
  }

  /** Every escaped byte adds exactly two bytes to the output. */
  lemma {:induction false} EncodedLength(data: Bytes)
    ensures |Encoded(data)| == |data| + 2 * EscapeCount(data)
  {
    if data != [] {
      EncodedLength(data[1..]);
    }
  }

  /** Encoding leaves the data unchanged exactly when every byte is unreserved. */
  lemma {:induction false} EncodedIsIdentityIffAllUnreserved(data: Bytes)
    ensures Encoded(data) == data <==> forall i | 0 <= i < |data| :: IsUnreserved(data[i])
  {
    if data != [] {
      EncodedIsIdentityIffAllUnreserved(data[1..]);
      if IsUnreserved(data[0]) {
        assert Encoded(data) == [data[0]] + Encoded(data[1..]);
        assert data == [data[0]] + data[1..];
        assert (forall i | 0 <= i < |data| :: IsUnreserved(data[i]))
          <==> (forall i | 0 <= i < |data[1..]| :: IsUnreserved(data[1..][i]));
      } else {
        EncodedLength(data);
        EncodedLength(data[1..]);
        assert |Encoded(data)| > |data|;
      }
    }
  }

  /** Decoding copies a run without `%` verbatim, whatever its bytes. */
  lemma {:induction false} DecodedPlain(s: Bytes)
    requires PERCENT !in s
    ensures Decoded(s) == Ok(s)
  {
    if s != [] {
      assert s[0] in s;
      assert forall b | b in s[1..] :: b in s;
      DecodedPlain(s[1..]);
      assert s == [s[0]] + s[1..];
    }
  }

  /** A prefix that decodes on its own is decoded independently of what follows it. */
  lemma {:induction false} DecodedConcat(p: Bytes, s: Bytes)
    requires Decoded(p).Ok?
    ensures Decoded(p + s) == Prepend(Decoded(p).value, Decoded(s))
  {
    if p == [] {
      assert p + s == s;
      PrependTwice([], [], Decoded(s));
    } else if p[0] != PERCENT {
      assert (p + s)[0] == p[0] && (p + s)[1..] == p[1..] + s;
      DecodedConcat(p[1..], s);
      PrependTwice([p[0]], Decoded(p[1..]).value, Decoded(s));
    } else {
      assert (p + s)[..3] == p[..3] && (p + s)[3..] == p[3..] + s;
      DecodedConcat(p[3..], s);
      PrependTwice([DecodeByte(p[1], p[2]).value], Decoded(p[3..]).value, Decoded(s));
    }
  }

  /** A `%` with fewer than two bytes after it fails the decoding. */
  lemma TruncatedEscapeFails(p: Bytes, t: Bytes)
    requires Decoded(p).Ok? && |t| < 2
    ensures Decoded(p + [PERCENT] + t) == Err(PercentEncoding)
  {
    DecodedConcat(p, [PERCENT] + t);
    assert p + [PERCENT] + t == p + ([PERCENT] + t);
  }

  /** An escape with a digit outside `0-9`, `a-f`, `A-F` fails the decoding. */
  lemma BadHexDigitFails(p: Bytes, high: Byte, low: Byte, s: Bytes)
    requires Decoded(p).Ok? && !(IsHexDigit(high) && IsHexDigit(low))
    ensures Decoded(p + [PERCENT, high, low] + s) == Err(PercentEncoding)
  {
    DecodedConcat(p, [PERCENT, high, low] + s);
    assert p + [PERCENT, high, low] + s == p + ([PERCENT, high, low] + s);
  }

  /** A valid escape decodes to the byte `16 * high + low`, which `decode_byte` computes. */
  lemma ValidEscapeDecodes(p: Bytes, high: Byte, low: Byte, s: Bytes)
    requires Decoded(p).Ok? && IsHexDigit(high) && IsHexDigit(low)
    ensures Decoded(p + [PERCENT, high, low] + s)
         == Prepend(Decoded(p).value + [DecodeByte(high, low).value], Decoded(s))
  {
    var t := [PERCENT, high, low] + s;
    DecodedConcat(p, t);
    assert p + [PERCENT, high, low] + s == p + t;
    assert t[3..] == s;
    PrependTwice(Decoded(p).value, [DecodeByte(high, low).value], Decoded(s));
  }

  /** One encoded byte decodes back to that byte, whatever follows. */
  lemma DecodedEncodeOne(byte: Byte, rest: Bytes)
    ensures Decoded(EncodeOne(byte) + rest) == Prepend([byte], Decoded(rest))
  {
    var e := EncodeOne(byte) + rest;
    if IsUnreserved(byte) {
      assert e[1..] == rest;
    } else {
      assert e[3..] == rest;
    }
  }

  /** Round trip: decoding the encoding of any data succeeds and gives the data back. */
  lemma {:induction false} DecodeEncodeRoundTrip(data: Bytes)
    ensures Decoded(Encoded(data)) == Ok(data)
  {
    if data != [] {
      DecodeEncodeRoundTrip(data[1..]);
      DecodedEncodeOne(data[0], Encoded(data[1..]));
      assert data == [data[0]] + data[1..];
    }
  }

  /** Encoding canonicalises: a lower-case escape decodes, but re-encodes in upper case. */
  lemma LowerCaseEscapeIsNotReproduced()
    ensures Decoded([PERCENT, 0x32, 0x66]) == Ok([0x2F])    // "%2f" decodes to "/"
    ensures Encoded([0x2F]) == [PERCENT, 0x32, 0x46]         // "/" encodes to "%2F"
  {
    assert [PERCENT, 0x32, 0x66][3..] == [];
    assert [0x2F as Byte] + [] == [0x2F];
    assert [0x2F as Byte][1..] == [];
    assert EncodeOne(0x2F) == [PERCENT, 0x32, 0x46];
    assert [PERCENT, 0x32, 0x46] + [] == [PERCENT, 0x32, 0x46];
  }

  /** `%2` is truncated and `%G0` has a non-hex digit: both fail. */
  lemma MalformedEscapesFail()
    ensures Decoded(Ascii("%2")).Err?
    ensures Decoded(Ascii("%G0")).Err?
  {
    assert Ascii("%2") == [PERCENT, 0x32];
    assert Ascii("%G0") == [PERCENT, 0x47, 0x30];
  }

  /** The unreserved bytes pass through encoding unchanged. */
  lemma UnreservedPassThrough()
    ensures Encoded(Ascii("abcXYZ019-._~")) == Ascii("abcXYZ019-._~")
  {
    var s := Ascii("abcXYZ019-._~");
    assert s == [0x61, 0x62, 0x63, 0x58, 0x59, 0x5A, 0x30, 0x31, 0x39, 0x2D, 0x2E, 0x5F, 0x7E];
    assert forall i | 0 <= i < |s| :: IsUnreserved(s[i]);
    EncodedIsIdentityIffAllUnreserved(s);
  }

  /** The encoding of one byte that is not unreserved. */
  lemma EncodedEscapedByte(b: Byte)
    requires !IsUnreserved(b)
    ensures Encoded([b]) == [PERCENT] + [EncodeNibble(b / 16), EncodeNibble(b % 16)]
  {
    assert [b][1..] == [];
  }

  /** `/Volumes/Data/` followed by the UTF-8 bytes of an emoji and a line feed encodes to
      `%2FVolumes%2FData%2F%F0%9F%8D%86%0A`, and that decodes back to it. */
  lemma VolumesExample(plain: Bytes, raw: Bytes)
    requires plain == Ascii("/Volumes/Data/") + [0xF0, 0x9F, 0x8D, 0x86, 0x0A]
    requires raw == Ascii("%2FVolumes%2FData%2F%F0%9F%8D%86%0A")
    ensures Encoded(plain) == raw
    ensures Decoded(raw) == Ok(plain)
  {
    var slash: Bytes := [0x2F];
    var volumes: Bytes := [0x56, 0x6F, 0x6C, 0x75, 0x6D, 0x65, 0x73];
    var data: Bytes := [0x44, 0x61, 0x74, 0x61];
    var tail: Bytes := [0xF0, 0x9F, 0x8D, 0x86, 0x0A];
    var escSlash: Bytes := [PERCENT, 0x32, 0x46];
    var escTail: Bytes := [PERCENT, 0x46, 0x30, PERCENT, 0x39, 0x46, PERCENT, 0x38, 0x44,
                           PERCENT, 0x38, 0x36, PERCENT, 0x30, 0x41];
    VolumesPlainText(plain, slash, volumes, data, tail);
    VolumesRawText(raw, volumes, data, escSlash, escTail);
    VolumesFromParts(plain, raw, slash, volumes, data, tail, escSlash, escTail);
  }

  lemma VolumesFromParts(plain: Bytes, raw: Bytes, slash: Bytes, volumes: Bytes, data: Bytes, tail: Bytes,
                         escSlash: Bytes, escTail: Bytes)
    requires slash == [0x2F] && escSlash == [PERCENT, 0x32, 0x46]
    requires volumes == [0x56, 0x6F, 0x6C, 0x75, 0x6D, 0x65, 0x73] && data == [0x44, 0x61, 0x74, 0x61]
    requires tail == [0xF0, 0x9F, 0x8D, 0x86, 0x0A]
    requires escTail == [PERCENT, 0x46, 0x30, PERCENT, 0x39, 0x46, PERCENT, 0x38, 0x44,
                         PERCENT, 0x38, 0x36, PERCENT, 0x30, 0x41]
    requires plain == slash + volumes + slash + data + slash + tail
    requires raw == escSlash + volumes + escSlash + data + escSlash + escTail
    ensures Encoded(plain) == raw
    ensures Decoded(raw) == Ok(plain)
  {
    EncodedByteExample(0x2F, 0x32, 0x46);
    EncodedIsIdentityIffAllUnreserved(volumes);
    EncodedIsIdentityIffAllUnreserved(data);
    EncodedTail(tail, escTail);
    EncodedFromParts(plain, raw, slash, volumes, data, tail, escSlash, escTail);
    DecodeEncodeRoundTrip(plain);
  }

  lemma VolumesPlainText(plain: Bytes, slash: Bytes, volumes: Bytes, data: Bytes, tail: Bytes)
    requires plain == Ascii("/Volumes/Data/") + [0xF0, 0x9F, 0x8D, 0x86, 0x0A]
    requires slash == [0x2F]
    requires volumes == [0x56, 0x6F, 0x6C, 0x75, 0x6D, 0x65, 0x73] && data == [0x44, 0x61, 0x74, 0x61]
    requires tail == [0xF0, 0x9F, 0x8D, 0x86, 0x0A]
    ensures plain == slash + volumes + slash + data + slash + tail
  {
    AsciiPath();
  }

  lemma VolumesRawText(raw: Bytes, volumes: Bytes, data: Bytes, escSlash: Bytes, escTail: Bytes)
    requires raw == Ascii("%2FVolumes%2FData%2F%F0%9F%8D%86%0A")
    requires escSlash == [PERCENT, 0x32, 0x46]
    requires volumes == [0x56, 0x6F, 0x6C, 0x75, 0x6D, 0x65, 0x73] && data == [0x44, 0x61, 0x74, 0x61]
    requires escTail == [PERCENT, 0x46, 0x30, PERCENT, 0x39, 0x46, PERCENT, 0x38, 0x44,
                         PERCENT, 0x38, 0x36, PERCENT, 0x30, 0x41]
    ensures raw == escSlash + volumes + escSlash + data + escSlash + escTail
  {
    var directories, file := "%2FVolumes%2FData%2F", "%F0%9F%8D%86%0A";
    assert "%2FVolumes%2FData%2F%F0%9F%8D%86%0A" == directories + file;
    AsciiConcat(directories, file);
    AsciiEscapedDirectories(escSlash, volumes, data);
    AsciiEscapedFile();
  }

  lemma AsciiPath()
    ensures Ascii("/Volumes/Data/") == [0x2F, 0x56, 0x6F, 0x6C, 0x75, 0x6D, 0x65, 0x73, 0x2F, 0x44, 0x61, 0x74, 0x61, 0x2F]
  {
  }

  lemma AsciiEscapedDirectories(escSlash: Bytes, volumes: Bytes, data: Bytes)
    requires escSlash == [PERCENT, 0x32, 0x46]
    requires volumes == [0x56, 0x6F, 0x6C, 0x75, 0x6D, 0x65, 0x73] && data == [0x44, 0x61, 0x74, 0x61]
    ensures Ascii("%2FVolumes%2FData%2F") == escSlash + volumes + escSlash + data + escSlash
  {
    assert Ascii("%2FVolumes%2FData%2F")
        == [0x25, 0x32, 0x46, 0x56, 0x6F, 0x6C, 0x75, 0x6D, 0x65, 0x73, 0x25, 0x32, 0x46, 0x44, 0x61, 0x74, 0x61,
            0x25, 0x32, 0x46];
  }

  lemma AsciiEscapedFile()
    ensures Ascii("%F0%9F%8D%86%0A") == [PERCENT, 0x46, 0x30, PERCENT, 0x39, 0x46, PERCENT, 0x38, 0x44,
                                         PERCENT, 0x38, 0x36, PERCENT, 0x30, 0x41]
  {
  }

  lemma EncodedTail(tail: Bytes, escTail: Bytes)
    requires |tail| == 5
    requires tail[0] == 0xF0 && tail[1] == 0x9F && tail[2] == 0x8D && tail[3] == 0x86 && tail[4] == 0x0A
    requires escTail == [PERCENT, 0x46, 0x30, PERCENT, 0x39, 0x46, PERCENT, 0x38, 0x44,
                         PERCENT, 0x38, 0x36, PERCENT, 0x30, 0x41]
    ensures Encoded(tail) == escTail
  {
    EscapedTailParts(escTail);
    EncodedFiveBytes(tail);
    EncodedByteExample(0xF0, 0x46, 0x30);
    EncodedByteExample(0x9F, 0x39, 0x46);
    EncodedByteExample(0x8D, 0x38, 0x44);
    EncodedByteExample(0x86, 0x38, 0x36);
    EncodedByteExample(0x0A, 0x30, 0x41);
  }

  lemma EscapedTailParts(escTail: Bytes)
    requires escTail == [PERCENT, 0x46, 0x30, PERCENT, 0x39, 0x46, PERCENT, 0x38, 0x44,
                         PERCENT, 0x38, 0x36, PERCENT, 0x30, 0x41]
    ensures escTail == [PERCENT, 0x46, 0x30] + [PERCENT, 0x39, 0x46] + [PERCENT, 0x38, 0x44]
                       + [PERCENT, 0x38, 0x36] + [PERCENT, 0x30, 0x41]
  {
  }

  lemma EncodedFromParts(plain: Bytes, raw: Bytes, slash: Bytes, volumes: Bytes, data: Bytes, tail: Bytes,
                         escSlash: Bytes, escTail: Bytes)
    requires plain == slash + volumes + slash + data + slash + tail
    requires raw == escSlash + volumes + escSlash + data + escSlash + escTail
    requires Encoded(slash) == escSlash && Encoded(tail) == escTail
    requires Encoded(volumes) == volumes && Encoded(data) == data
    ensures Encoded(plain) == raw
  {
    EncodedSixParts(slash, volumes, slash, data, slash, tail);
  }

  lemma EncodedFiveBytes(s: Bytes)
    requires |s| == 5
    ensures Encoded(s) == Encoded([s[0]]) + Encoded([s[1]]) + Encoded([s[2]]) + Encoded([s[3]]) + Encoded([s[4]])
  {
    assert s == [s[0]] + [s[1]] + [s[2]] + [s[3]] + [s[4]];
    EncodedSixParts([s[0]], [s[1]], [s[2]], [s[3]], [s[4]], []);
    assert [s[0]] + [s[1]] + [s[2]] + [s[3]] + [s[4]] + [] == s;
  }

  lemma EncodedByteExample(b: Byte, high: Byte, low: Byte)
    requires !IsUnreserved(b)
    requires high == EncodeNibble(b / 16) && low == EncodeNibble(b % 16)
    ensures Encoded([b]) == [PERCENT, high, low]
  {
    EncodedEscapedByte(b);
  }

  lemma EncodedSixParts(a: Bytes, b: Bytes, c: Bytes, d: Bytes, e: Bytes, f: Bytes)
    ensures Encoded(a + b + c + d + e + f)
         == Encoded(a) + Encoded(b) + Encoded(c) + Encoded(d) + Encoded(e) + Encoded(f)
  {
    EncodedConcat(a + b + c + d + e, f);
    EncodedConcat(a + b + c + d, e);
    EncodedConcat(a + b + c, d);
    EncodedConcat(a + b, c);
    EncodedConcat(a, b);
  }
}
