/**
 ECMAScript `encodeURIComponent` (section 19.2.6.5 of ECMA-262) over Unicode
 scalar values: the unreserved characters `A-Z a-z 0-9 - _ . ! ~ * ' ( )` are
 kept, every other character becomes the `%XX` escapes (upper-case hex, as in
 section 2.1 of RFC 3986) of its UTF-8 bytes. `decodeURIComponent` is given
 beside it as the inverse the round trip is proved against.
 */
module UriComponent {
  import opened Wrappers
  import opened Seqs

  type Byte = b: int | 0 <= b < 256

  /** The characters `encodeURIComponent` leaves alone. */
  predicate IsUnreserved(c: char) {
    ('A' <= c <= 'Z') || ('a' <= c <= 'z') || ('0' <= c <= '9') || c in "-_.!~*'()"
  }

  /** A code point Dafny accepts as a `char`: a Unicode scalar value. */
  predicate IsScalarValue(n: int) {
    (0 <= n < 0xD800) || (0xE000 <= n < 0x11_0000)
  }

  /** The UTF-8 encoding of one character (section 3 of RFC 3629). */
  function Utf8(c: char): (bs: seq<Byte>)
    ensures 1 <= |bs| <= 4
  {
    var n := c as int;
    if n < 0x80 then [n]
    else if n < 0x800 then [0xC0 + n / 64, 0x80 + n % 64]
    else if n < 0x1_0000 then [0xE0 + n / 4096, 0x80 + (n / 64) % 64, 0x80 + n % 64]
    else [0xF0 + n / 262144, 0x80 + (n / 4096) % 64, 0x80 + (n / 64) % 64, 0x80 + n % 64]
  }

  const HexDigits: string := "0123456789ABCDEF"

  /** `%XX` for one byte. */
  function PercentEscape(b: Byte): string {
    ['%', HexDigits[b / 16], HexDigits[b % 16]]
  }

  function EscapeBytes(bs: seq<Byte>): (r: string)
    ensures |r| == 3 * |bs|
  {
    if bs == [] then [] else PercentEscape(bs[0]) + EscapeBytes(bs[1..])
  }

  /** One character: itself, or three characters per UTF-8 byte. */
  function EncodeChar(c: char): (r: string)
    ensures 1 <= |r| <= 12
    ensures |r| == 1 <==> IsUnreserved(c)
  {
    if IsUnreserved(c) then [c] else EscapeBytes(Utf8(c))
  }

  /** `encodeURIComponent(s)`. */
  function EncodeURIComponent(s: string): (r: string)
    ensures |s| <= |r|
  {
    if s == [] then [] else EncodeChar(s[0]) + EncodeURIComponent(s[1..])
  }

  /** The encoding holds only unreserved characters and `%`, so none of `&`,
      `=`, `,`, `?` or `#` survives into it. */
  lemma {:induction false} EncodedAlphabet(s: string)
    ensures forall i :: 0 <= i < |EncodeURIComponent(s)| ==>
              IsUnreserved(EncodeURIComponent(s)[i]) || EncodeURIComponent(s)[i] == '%'
  {
    if s != [] {
      EncodedAlphabet(s[1..]);
      var head := EncodeChar(s[0]);
      if !IsUnreserved(s[0]) {
        EscapedBytesCharacters(Utf8(s[0]));
      }
      var r := EncodeURIComponent(s);
      assert r == head + EncodeURIComponent(s[1..]);
      forall i | 0 <= i < |r| ensures IsUnreserved(r[i]) || r[i] == '%' {
        if i >= |head| {
          assert r[i] == EncodeURIComponent(s[1..])[i - |head|];
        }
      }
    }
  }

  /** A string of unreserved characters is its own encoding. */
  lemma {:induction false} EncodeUnreserved(s: string)
    requires forall i :: 0 <= i < |s| ==> IsUnreserved(s[i])
    ensures EncodeURIComponent(s) == s
  {
    if s != [] {
      EncodeUnreserved(s[1..]);
      assert s == [s[0]] + s[1..];
    }
  }

  lemma {:induction false} EscapedBytesCharacters(bs: seq<Byte>)
    ensures forall i :: 0 <= i < |EscapeBytes(bs)| ==> EscapeBytes(bs)[i] == '%' || IsUnreserved(EscapeBytes(bs)[i])
  {
    if bs != [] {
      EscapedBytesCharacters(bs[1..]);
      var e := PercentEscape(bs[0]);
      assert IsUnreserved(e[1]) && IsUnreserved(e[2]);
    }
  }

  // ---------------------------------------------------------------------------
  // decodeURIComponent, the partner of the encoder

  /** The value of a hex digit, either case. */
  function HexValue(c: char): Option<nat> {
    if '0' <= c <= '9' then Some(c as int - '0' as int)
    else if 'A' <= c <= 'F' then Some(c as int - 'A' as int + 10)
    else if 'a' <= c <= 'f' then Some(c as int - 'a' as int + 10)
    else None
  }

  /** The byte of the escape `%XX` starting at position `p`, if one is there. */
  function ByteAt(s: string, p: nat): (r: Option<Byte>)
    ensures r.Some? ==> p + 3 <= |s|
  {
    if p + 3 <= |s| && s[p] == '%' then
      match (HexValue(s[p + 1]), HexValue(s[p + 2]))
      case (Some(hi), Some(lo)) => if hi < 16 && lo < 16 then Some(hi * 16 + lo) else None
      case _ => None
    else None
  }

  /** From a UTF-8 lead byte: the length of its sequence and the payload bits it carries. */
  function LeadByte(b: Byte): Option<(nat, nat)> {
    if b < 0x80 then Some((1, b))
    else if 0xC0 <= b < 0xE0 then Some((2, b - 0xC0))
    else if 0xE0 <= b < 0xF0 then Some((3, b - 0xE0))
    else if 0xF0 <= b < 0xF8 then Some((4, b - 0xF0))
    else None
  }

  /** The smallest code point a sequence of `n` bytes may carry (no overlong forms). */
  function MinCodePoint(n: nat): nat {
    if n <= 1 then 0 else if n == 2 then 0x80 else if n == 3 then 0x800 else 0x1_0000
  }

  /** Folds `count` continuation escapes, the first at escape index `i`, into `acc`. */
  function Continuations(s: string, i: nat, count: nat, acc: nat): (r: Option<nat>)
    ensures r.Some? ==> 3 * (i + count) <= |s| || count == 0
    decreases count
  {
    if count == 0 then Some(acc)
    else match ByteAt(s, 3 * i)
      case Some(b) =>
        if 0x80 <= b < 0xC0 then Continuations(s, i + 1, count - 1, acc * 64 + (b - 0x80)) else None
      case None => None
  }

  /** The character one UTF-8 sequence of escapes at the front of `s` stands
      for, with the number of characters it spans. */
  function DecodeEscape(s: string): (r: Option<(char, nat)>)
    ensures r.Some? ==> 3 <= r.value.1 <= |s|
  {
    match ByteAt(s, 0)
    case None => None
    case Some(b0) =>
      match LeadByte(b0)
      case None => None
      case Some((n, bits)) =>
        match Continuations(s, 1, n - 1, bits)
        case None => None
        case Some(cp) =>
          if MinCodePoint(n) <= cp && IsScalarValue(cp) then Some((cp as char, 3 * n)) else None
  }

  /** `decodeURIComponent(s)`, with `None` for its URIError. */
  function DecodeURIComponent(s: string): Option<string>
    decreases |s|
  {
    if s == [] then Some([])
    else if s[0] != '%' then
      match DecodeURIComponent(s[1..])
      case Some(t) => Some([s[0]] + t)
      case None => None
    else
      match DecodeEscape(s)
      case None => None
      case Some((c, k)) =>
        match DecodeURIComponent(s[k..])
        case Some(t) => Some([c] + t)
        case None => None
  }

  // ---------------------------------------------------------------------------
  // The round trip

  /** Decoding undoes encoding, for every string. */
  lemma {:induction false} DecodeEncode(s: string)
    ensures DecodeURIComponent(EncodeURIComponent(s)) == Some(s)
  {
    if s != [] {
      var t := EncodeURIComponent(s[1..]);
      assert EncodeURIComponent(s) == EncodeChar(s[0]) + t;
      DecodeEncode(s[1..]);
      DecodeEncodeChar(s[0], t);
      HeadTail(s);
    }
  }

  /** The escapes of one character decode to that character, whatever follows them. */
  lemma DecodeEncodeChar(c: char, t: string)
    ensures DecodeURIComponent(EncodeChar(c) + t) ==
            match DecodeURIComponent(t)
            case Some(u) => Some([c] + u)
            case None => None
  {
    var s := EncodeChar(c) + t;
    if IsUnreserved(c) {
      assert s[0] == c && s[1..] == t;
    } else {
      DecodeEscapeOfChar(c, t);
      assert s[|EncodeChar(c)|..] == t;
    }
  }

  lemma HexDigitValue(d: nat)
    requires d < 16
    ensures HexValue(HexDigits[d]) == Some(d)
  {
  }

  lemma EscapeByteAt(b: Byte, t: string)
    ensures ByteAt(PercentEscape(b) + t, 0) == Some(b)
  {
    HexDigitValue(b / 16);
    HexDigitValue(b % 16);
    var s := PercentEscape(b) + t;
    assert s[0] == '%' && s[1] == HexDigits[b / 16] && s[2] == HexDigits[b % 16];
  }

  /** The `k`-th escape of an escaped byte string reads back as the `k`-th byte. */
  lemma {:induction false} EscapeBytesAt(bs: seq<Byte>, t: string, k: nat)
    requires k < |bs|
    ensures ByteAt(EscapeBytes(bs) + t, 3 * k) == Some(bs[k])
  {
    var s := EscapeBytes(bs) + t;
    if k == 0 {
      assert s == PercentEscape(bs[0]) + (EscapeBytes(bs[1..]) + t);
      EscapeByteAt(bs[0], EscapeBytes(bs[1..]) + t);
    } else {
      EscapeBytesAt(bs[1..], t, k - 1);
      var s' := EscapeBytes(bs[1..]) + t;
      assert s == PercentEscape(bs[0]) + s';
      ByteAtShift(PercentEscape(bs[0]), s', 3 * (k - 1));
    }
  }

  /** Reading an escape is unaffected by what stands in front of it. */
  lemma ByteAtShift(a: string, s: string, p: nat)
    ensures ByteAt(a + s, |a| + p) == ByteAt(s, p)
  {
    var u := a + s;
    if p + 3 <= |s| {
      assert u[|a| + p] == s[p] && u[|a| + p + 1] == s[p + 1] && u[|a| + p + 2] == s[p + 2];
    }
  }

  lemma Utf8DigitsTwo(n: int)
    requires 0 <= n
    ensures (n / 64) * 64 + n % 64 == n
  {
  }

  lemma Utf8DigitsThree(n: int)
    requires 0 <= n
    ensures ((n / 4096) * 64 + (n / 64) % 64) * 64 + n % 64 == n
  {
    var q := n / 64;
    assert q / 64 == n / 4096;
    assert q == (q / 64) * 64 + q % 64;
  }

  lemma Utf8DigitsFour(n: int)
    requires 0 <= n
    ensures (((n / 262144) * 64 + (n / 4096) % 64) * 64 + (n / 64) % 64) * 64 + n % 64 == n
  {
    var q := n / 64;
    var p := q / 64;
    assert p == n / 4096;
    assert p / 64 == n / 262144;
    assert p == (p / 64) * 64 + p % 64;
    assert q == p * 64 + q % 64;
  }

  /** The escapes of a reserved character decode to it and span exactly its encoding. */
  lemma DecodeEscapeOfChar(c: char, t: string)
    requires !IsUnreserved(c)
    ensures DecodeEscape(EncodeChar(c) + t) == Some((c, |EncodeChar(c)|))
  {
    var bs := Utf8(c);
    var s := EscapeBytes(bs) + t;
    var n := c as int;
    forall k | 0 <= k < |bs| ensures ByteAt(s, 3 * k) == Some(bs[k]) {
      EscapeBytesAt(bs, t, k);
    }
    if n < 0x80 {
      assert ByteAt(s, 0) == Some(bs[0]);
    } else if n < 0x800 {
      DecodeTwoBytes(c, s);
    } else if n < 0x1_0000 {
      DecodeThreeBytes(c, s);
    } else {
      DecodeFourBytes(c, s);
    }
  }

  lemma DecodeTwoBytes(c: char, s: string)
    requires 0x80 <= c as int < 0x800
    requires ByteAt(s, 0) == Some(Utf8(c)[0]) && ByteAt(s, 3) == Some(Utf8(c)[1])
    ensures DecodeEscape(s) == Some((c, 6))
  {
    Utf8DigitsTwo(c as int);
  }

  lemma DecodeThreeBytes(c: char, s: string)
    requires 0x800 <= c as int < 0x1_0000
    requires ByteAt(s, 0) == Some(Utf8(c)[0]) && ByteAt(s, 3) == Some(Utf8(c)[1])
    requires ByteAt(s, 6) == Some(Utf8(c)[2])
    ensures DecodeEscape(s) == Some((c, 9))
  {
    Utf8DigitsThree(c as int);
  }

  lemma DecodeFourBytes(c: char, s: string)
    requires 0x1_0000 <= c as int
    requires ByteAt(s, 0) == Some(Utf8(c)[0]) && ByteAt(s, 3) == Some(Utf8(c)[1])
    requires ByteAt(s, 6) == Some(Utf8(c)[2]) && ByteAt(s, 9) == Some(Utf8(c)[3])
    ensures DecodeEscape(s) == Some((c, 12))
  {
    Utf8DigitsFour(c as int);
  }

  // ---------------------------------------------------------------------------
  // Encoding piece by piece

  /** The encoding of a concatenation is the concatenation of the encodings. */
  lemma {:induction false} EncodeAppend(x: string, y: string)
    ensures EncodeURIComponent(x + y) == EncodeURIComponent(x) + EncodeURIComponent(y)
  {
    if x != [] {
      ConsAppend(x, y);
      EncodeAppend(x[1..], y);
      AppendAssoc(EncodeChar(x[0]), EncodeURIComponent(x[1..]), EncodeURIComponent(y));
    } else {
      EmptyAppend(y);
    }
  }

  /** One reserved ASCII character between two runs of unreserved characters
      becomes its single `%XX` escape. */
  lemma EncodeAround(a: string, c: char, b: string)
    requires forall i :: 0 <= i < |a| ==> IsUnreserved(a[i])
    requires forall i :: 0 <= i < |b| ==> IsUnreserved(b[i])
    requires !IsUnreserved(c) && c < '\U{0080}'
    ensures EncodeURIComponent(a + [c] + b) == a + PercentEscape(c as int) + b
  {
    EncodeOneReserved(c);
    assert EncodeURIComponent(a + [c]) == a + PercentEscape(c as int) by {
      EncodeAppend(a, [c]);
      EncodeUnreserved(a);
    }
    EncodeAppend(a + [c], b);
    EncodeUnreserved(b);
  }

  lemma EncodeOneReserved(c: char)
    requires !IsUnreserved(c) && c < '\U{0080}'
    ensures EncodeURIComponent([c]) == PercentEscape(c as int)
  {
    assert [c][1..] == [];
    assert Utf8(c) == [c as int];
    assert EscapeBytes([c as int]) == PercentEscape(c as int) + EscapeBytes([]);
    assert EncodeURIComponent([c]) == EncodeChar(c) + EncodeURIComponent([]);
  }

  /** A space between two runs of unreserved characters is sent as `%20`. */
  lemma EncodeSpace(a: string, b: string)
    requires forall i :: 0 <= i < |a| ==> IsUnreserved(a[i])
    requires forall i :: 0 <= i < |b| ==> IsUnreserved(b[i])
    ensures EncodeURIComponent(a + " " + b) == a + "%20" + b
  {
    EncodeAround(a, ' ', b);
    assert PercentEscape(32) == "%20";
  }

  /** The subject `Test Subject` is sent as `Test%20Subject`. */
  lemma ExampleSpaceInSubject()
    ensures EncodeURIComponent("Test Subject") == "Test%20Subject"
  {
    EncodeSpace("Test", "Subject");
    assert "Test" + " " + "Subject" == "Test Subject";
    assert "Test" + "%20" + "Subject" == "Test%20Subject";
  }

  /** The body `Body Content` is sent as `Body%20Content`. */
  lemma ExampleSpaceInBody()
    ensures EncodeURIComponent("Body Content") == "Body%20Content"
  {
    EncodeSpace("Body", "Content");
    assert "Body" + " " + "Content" == "Body Content";
    assert "Body" + "%20" + "Content" == "Body%20Content";
  }

  /** An address of unreserved characters around one `@`. */
  lemma EncodeAtSign(local: string, domain: string)
    requires forall i :: 0 <= i < |local| ==> IsUnreserved(local[i])
    requires forall i :: 0 <= i < |domain| ==> IsUnreserved(domain[i])
    ensures EncodeURIComponent(local + "@" + domain) == local + "%40" + domain
  {
    EncodeAround(local, '@', domain);
    assert PercentEscape(64) == "%40";
  }

  /** An `@` is sent as `%40`, as in the recipients of the query example. */
  lemma ExampleAtInAddress()
    ensures EncodeURIComponent("test@example.com") == "test%40example.com"
  {
    EncodeAtSign("test", "example.com");
    AddressParts();
  }

  lemma AddressParts()
    ensures "test" + "@" + "example.com" == "test@example.com"
    ensures "test" + "%40" + "example.com" == "test%40example.com"
  {
    assert "test" + "@" + "example.com" == "test@example.com";
  }}
