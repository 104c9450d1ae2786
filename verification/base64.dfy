/** The standard base64 encoding of section 4 of RFC 4648 with `=` padding, as
    Go's `base64.StdEncoding` implements it: `EncodeToString` and
    `DecodeString`. `StdEncoding` is not in strict mode, so the decoder accepts a
    final quantum whose unused low bits are not zero and simply drops them. */
module Base64 {
  import opened Wrappers
  import opened Bytes

  /** The padding character `=`. */
  const Pad: uint8 := 61

  /** `A`-`Z`, `a`-`z`, `0`-`9`, `+` and `/`: the 64 characters of the alphabet. */
  predicate IsAlphabetChar(c: uint8) {
    (65 <= c <= 90) || (97 <= c <= 122) || (48 <= c <= 57) || c == 43 || c == 47
  }

  /** The character that encodes the 6-bit value `v` (table 1 of RFC 4648). */
  function CharOf(v: int): (c: uint8)
    requires 0 <= v < 64
    ensures IsAlphabetChar(c)
  {
    if v < 26 then 65 + v
    else if v < 52 then 97 + (v - 26)
    else if v < 62 then 48 + (v - 52)
    else if v == 62 then 43
    else 47
  }

  /** The 6-bit value an alphabet character stands for. */
  function IndexOf(c: uint8): (v: int)
    requires IsAlphabetChar(c)
    ensures 0 <= v < 64
  {
    if 65 <= c <= 90 then c - 65
    else if 97 <= c <= 122 then c - 97 + 26
    else if 48 <= c <= 57 then c - 48 + 52
    else if c == 43 then 62
    else 63
  }

  /** The character of a 6-bit value indexes back to the value. */
  lemma IndexOfCharOf(v: int)
    requires 0 <= v < 64
    ensures IndexOf(CharOf(v)) == v
  {
  }

  /** The value of an alphabet character names that character; with
      `IndexOfCharOf`, the alphabet is a bijection onto the 6-bit values. */
  lemma CharOfIndexOf(c: uint8)
    requires IsAlphabetChar(c)
    ensures CharOf(IndexOf(c)) == c
  {
  }

  // ---------------------------------------------------------------- encoding

  /** Three octets become four characters. */
  function EncodeGroup(b0: uint8, b1: uint8, b2: uint8): Bytes {
    [CharOf(b0 / 4), CharOf((b0 % 4) * 16 + b1 / 16), CharOf((b1 % 16) * 4 + b2 / 64), CharOf(b2 % 64)]
  }

  /** `base64.StdEncoding.EncodeToString`: whole groups of three octets, then a
      final group of one or two octets padded with `=` to four characters. */
  function Encode(b: Bytes): (s: Bytes)
    ensures |s| == 4 * ((|b| + 2) / 3)
    decreases |b|
  {
    if |b| == 0 then []
    else if |b| == 1 then [CharOf(b[0] / 4), CharOf((b[0] % 4) * 16), Pad, Pad]
    else if |b| == 2 then [CharOf(b[0] / 4), CharOf((b[0] % 4) * 16 + b[1] / 16), CharOf((b[1] % 16) * 4), Pad]
    else EncodeGroup(b[0], b[1], b[2]) + Encode(b[3..])
  }

  // ---------------------------------------------------------------- decoding

  /** Four sextets become three octets. */
  function Regroup(v0: int, v1: int, v2: int, v3: int): (b: Bytes)
    requires 0 <= v0 < 64 && 0 <= v1 < 64 && 0 <= v2 < 64 && 0 <= v3 < 64
    ensures |b| == 3
  {
    [v0 * 4 + v1 / 16, (v1 % 16) * 16 + v2 / 4, (v2 % 4) * 64 + v3]
  }

  /** Four alphabet characters become three octets; anything else is corrupt. */
  function DecodeGroup(c0: uint8, c1: uint8, c2: uint8, c3: uint8): Option<Bytes> {
    if IsAlphabetChar(c0) && IsAlphabetChar(c1) && IsAlphabetChar(c2) && IsAlphabetChar(c3) then
      Some(Regroup(IndexOf(c0), IndexOf(c1), IndexOf(c2), IndexOf(c3)))
    else None
  }

  /** The last quantum, which may end in `==` (one octet) or `=` (two octets).
      A padded quantum is decoded as if its `=` were zero sextets and only its
      leading octets are kept, so the bits it leaves unused are discarded
      whatever they are. */
  function DecodeLast(c0: uint8, c1: uint8, c2: uint8, c3: uint8): Option<Bytes> {
    if c2 == Pad && c3 == Pad then
      if IsAlphabetChar(c0) && IsAlphabetChar(c1) then Some(Regroup(IndexOf(c0), IndexOf(c1), 0, 0)[..1])
      else None
    else if c3 == Pad then
      if IsAlphabetChar(c0) && IsAlphabetChar(c1) && IsAlphabetChar(c2) then
        Some(Regroup(IndexOf(c0), IndexOf(c1), IndexOf(c2), 0)[..2])
      else None
    else DecodeGroup(c0, c1, c2, c3)
  }

  /** `base64.StdEncoding.DecodeString`: `None` is the `CorruptInputError`. The
      input is read in quanta of four; padding may only close the last one. */
  function Decode(s: Bytes): Option<Bytes>
    decreases |s|
  {
    if |s| == 0 then Some([])
    else if |s| < 4 then None
    else if |s| == 4 then DecodeLast(s[0], s[1], s[2], s[3])
    else
      match DecodeGroup(s[0], s[1], s[2], s[3])
      case None => None
      case Some(g) =>
        match Decode(s[4..])
        case None => None
        case Some(rest) => Some(g + rest)
  }

  // ------------------------------------------------- reference definitions

  /** The two characters that may close a well-formed encoding. */
  predicate IsTail(x: uint8, y: uint8) {
    (IsAlphabetChar(x) && (IsAlphabetChar(y) || y == Pad)) || (x == Pad && y == Pad)
  }

  /** A well-formed padded encoding, stated without reference to the decoder:
      a multiple of four characters, all from the alphabet except that the last
      one or two may be `=`. */
  predicate IsBase64(s: Bytes) {
    && |s| % 4 == 0
    && (forall i :: 0 <= i < |s| - 2 ==> IsAlphabetChar(s[i]))
    && (|s| > 0 ==> IsTail(s[|s| - 2], s[|s| - 1]))
  }

  /** A well-formed encoding whose padded last quantum has its unused bits
      clear: exactly the strings `Encode` produces. */
  predicate IsCanonical(s: Bytes) {
    && IsBase64(s)
    && (|s| > 0 && s[|s| - 1] == Pad && s[|s| - 2] == Pad ==> IndexOf(s[|s| - 3]) % 16 == 0)
    && (|s| > 0 && s[|s| - 1] == Pad && s[|s| - 2] != Pad ==> IndexOf(s[|s| - 2]) % 4 == 0)
  }

  // ---------------------------------------------------------- test vectors

  /** Test vectors of section 10 of RFC 4648, spelled as octets:
      "f" is [102], "fo" [102, 111], "foo" [102, 111, 111];
      "Zg==" is [90, 103, 61, 61], "Zm8=" [90, 109, 56, 61], "Zm9v" [90, 109, 57, 118]. */
  lemma KnownVectorsEncode()
    ensures Encode([102]) == [90, 103, 61, 61]
    ensures Encode([102, 111]) == [90, 109, 56, 61]
    ensures Encode([102, 111, 111]) == [90, 109, 57, 118]
  {
  }

  /** The same vectors decoded; "Zh==" ([90, 104, 61, 61]) has non-zero unused
      bits, which the non-strict decoder accepts; "Zm9" is short and "Zg=a"
      pads before its end, and both are corrupt. */
  lemma KnownVectorsDecode()
    ensures Decode([90, 103, 61, 61]) == Some([102])
    ensures Decode([90, 109, 56, 61]) == Some([102, 111])
    ensures Decode([90, 104, 61, 61]) == Some([102]) && !IsCanonical([90, 104, 61, 61])
    ensures Decode([90, 109, 57]) == None && Decode([90, 103, 61, 97]) == None
  {
    KnownVectorsEncode();
    DecodeEncode([102]);
    DecodeEncode([102, 111]);
    assert IndexOf(90) == 25 && IndexOf(104) == 33;
    assert Regroup(25, 33, 0, 0)[..1] == [102];
  }

  // ------------------------------------------------------------ properties

  /** The arithmetic of regrouping three octets into four sextets and back. */
  lemma SextetsRegroup(b0: uint8, b1: uint8, b2: uint8)
    ensures Regroup(b0 / 4, (b0 % 4) * 16 + b1 / 16, (b1 % 16) * 4 + b2 / 64, b2 % 64) == [b0, b1, b2]
  {
    var r0, h1 := b0 % 4, b1 / 16;
    assert (r0 * 16 + h1) / 16 == r0 && (r0 * 16 + h1) % 16 == h1;
    var r1, h2 := b1 % 16, b2 / 64;
    assert (r1 * 4 + h2) / 4 == r1 && (r1 * 4 + h2) % 4 == h2;
  }

  /** The arithmetic of regrouping four sextets into three octets and back. */
  lemma OctetsRegroup(v0: int, v1: int, v2: int, v3: int)
    requires 0 <= v0 < 64 && 0 <= v1 < 64 && 0 <= v2 < 64 && 0 <= v3 < 64
    ensures var b := Regroup(v0, v1, v2, v3);
      && b[0] / 4 == v0 && (b[0] % 4) * 16 + b[1] / 16 == v1
      && (b[1] % 16) * 4 + b[2] / 64 == v2 && b[2] % 64 == v3
  {
    var h1, r1 := v1 / 16, v1 % 16;
    assert (v0 * 4 + h1) / 4 == v0 && (v0 * 4 + h1) % 4 == h1;
    var h2, r2 := v2 / 4, v2 % 4;
    assert (r1 * 16 + h2) / 16 == r1 && (r1 * 16 + h2) % 16 == h2;
    assert (r2 * 64 + v3) / 64 == r2 && (r2 * 64 + v3) % 64 == v3;
  }

  lemma EncodeGroupRoundTrip(b0: uint8, b1: uint8, b2: uint8)
    ensures var e := EncodeGroup(b0, b1, b2); DecodeGroup(e[0], e[1], e[2], e[3]) == Some([b0, b1, b2])
  {
    var v0, v1, v2, v3 := b0 / 4, (b0 % 4) * 16 + b1 / 16, (b1 % 16) * 4 + b2 / 64, b2 % 64;
    IndexOfCharOf(v0);
    IndexOfCharOf(v1);
    IndexOfCharOf(v2);
    IndexOfCharOf(v3);
    SextetsRegroup(b0, b1, b2);
  }

  /** One trailing octet: `xy==`. */
  lemma EncodeOneRoundTrip(b0: uint8)
    ensures DecodeLast(CharOf(b0 / 4), CharOf((b0 % 4) * 16), Pad, Pad) == Some([b0])
  {
    var v0, v1 := b0 / 4, (b0 % 4) * 16;
    IndexOfCharOf(v0);
    IndexOfCharOf(v1);
    assert v1 / 16 == b0 % 4;
    assert Regroup(v0, v1, 0, 0)[..1] == [b0];
  }

  /** Two trailing octets: `xyz=`. */
  lemma EncodeTwoRoundTrip(b0: uint8, b1: uint8)
    ensures DecodeLast(CharOf(b0 / 4), CharOf((b0 % 4) * 16 + b1 / 16), CharOf((b1 % 16) * 4), Pad) == Some([b0, b1])
  {
    var v0, v1, v2 := b0 / 4, (b0 % 4) * 16 + b1 / 16, (b1 % 16) * 4;
    IndexOfCharOf(v0);
    IndexOfCharOf(v1);
    IndexOfCharOf(v2);
    SextetsRegroup(b0, b1, 0);
    assert Regroup(v0, v1, v2, 0)[..2] == [b0, b1];
  }

  /** Three octets encode as one group. */
  lemma EncodeThree(b: Bytes)
    requires |b| == 3
    ensures Encode(b) == EncodeGroup(b[0], b[1], b[2])
  {
    assert b[3..] == [];
  }

  /** Encoding a string that starts with a whole group. */
  lemma EncodePrefixGroup(g: Bytes, rest: Bytes)
    requires |g| == 3
    ensures Encode(g + rest) == EncodeGroup(g[0], g[1], g[2]) + Encode(rest)
  {
    var b := g + rest;
    assert b[0] == g[0] && b[1] == g[1] && b[2] == g[2];
    assert b[3..] == rest;
  }

  /** Decoding a full quantum followed by more input. */
  lemma DecodePrefixGroup(q: Bytes, rest: Bytes)
    requires |q| == 4 && |rest| > 0
    requires DecodeGroup(q[0], q[1], q[2], q[3]).Some? && Decode(rest).Some?
    ensures Decode(q + rest) == Some(DecodeGroup(q[0], q[1], q[2], q[3]).value + Decode(rest).value)
  {
    var s := q + rest;
    assert s[0] == q[0] && s[1] == q[1] && s[2] == q[2] && s[3] == q[3];
    assert s[4..] == rest;
  }

  /** The inductive step of `DecodeEncode`: one more group in front. */
  lemma DecodeEncodeStep(g: Bytes, rest: Bytes)
    requires |g| == 3 && |rest| > 0 && Decode(Encode(rest)) == Some(rest)
    ensures Decode(Encode(g + rest)) == Some(g + rest)
  {
    var q := EncodeGroup(g[0], g[1], g[2]);
    EncodePrefixGroup(g, rest);
    EncodeGroupRoundTrip(g[0], g[1], g[2]);
    assert [g[0], g[1], g[2]] == g;
    DecodePrefixGroup(q, Encode(rest));
  }

  /** Decoding undoes encoding: `DecodeString(EncodeToString(b)) == b` for every
      octet string. */
  lemma {:induction false} DecodeEncode(b: Bytes)
    ensures Decode(Encode(b)) == Some(b)
    decreases |b|
  {
    if |b| == 1 {
      EncodeOneRoundTrip(b[0]);
      assert b == [b[0]];
    } else if |b| == 2 {
      EncodeTwoRoundTrip(b[0], b[1]);
      assert b == [b[0], b[1]];
    } else if |b| == 3 {
      EncodeThree(b);
      EncodeGroupRoundTrip(b[0], b[1], b[2]);
      assert b == [b[0], b[1], b[2]];
    } else if |b| > 3 {
      DecodeEncode(b[3..]);
      DecodeEncodeStep(b[..3], b[3..]);
      assert b[..3] + b[3..] == b;
    }
  }

  /** A four-character string is well formed exactly when it is one quantum
      the decoder accepts. */
  lemma DecodeLastAccepts(s: Bytes)
    requires |s| == 4
    ensures Decode(s).Some? <==> IsBase64(s)
  {
  }

  /** Well-formedness of a string longer than one quantum, quantum by quantum. */
  lemma IsBase64Step(s: Bytes)
    requires |s| > 4
    ensures IsBase64(s) <==>
      && IsAlphabetChar(s[0]) && IsAlphabetChar(s[1]) && IsAlphabetChar(s[2]) && IsAlphabetChar(s[3])
      && IsBase64(s[4..])
  {
    var t := s[4..];
    assert forall i :: 0 <= i < |t| - 2 ==> t[i] == s[i + 4];
    if IsAlphabetChar(s[0]) && IsAlphabetChar(s[1]) && IsAlphabetChar(s[2]) && IsAlphabetChar(s[3]) && IsBase64(t) {
      assert forall i :: 0 <= i < |s| - 2 ==> IsAlphabetChar(s[i]) by {
        forall i | 0 <= i < |s| - 2 ensures IsAlphabetChar(s[i]) {
          if i >= 4 { assert s[i] == t[i - 4]; }
        }
      }
    }
  }

  /** The decoder accepts exactly the well-formed encodings. */
  lemma {:induction false} DecodeAcceptsExactlyBase64(s: Bytes)
    ensures Decode(s).Some? <==> IsBase64(s)
    decreases |s|
  {
    if |s| == 4 {
      DecodeLastAccepts(s);
    } else if |s| > 4 {
      DecodeAcceptsExactlyBase64(s[4..]);
      IsBase64Step(s);
    }
  }

  /** A whole group in front of a canonical encoding keeps it canonical. */
  lemma CanonicalPrefixGroup(g: Bytes, t: Bytes)
    requires |g| == 4 && IsAlphabetChar(g[0]) && IsAlphabetChar(g[1]) && IsAlphabetChar(g[2]) && IsAlphabetChar(g[3])
    requires IsCanonical(t)
    ensures IsCanonical(g + t)
  {
    var s := g + t;
    assert forall i :: 4 <= i < |s| ==> s[i] == t[i - 4];
  }

  /** Every octet string encodes to a canonical encoding. */
  lemma {:induction false} EncodeIsCanonical(b: Bytes)
    ensures IsCanonical(Encode(b))
    decreases |b|
  {
    if |b| == 1 {
      IndexOfCharOf((b[0] % 4) * 16);
    } else if |b| == 2 {
      IndexOfCharOf((b[1] % 16) * 4);
    } else if |b| > 2 {
      EncodeIsCanonical(b[3..]);
      CanonicalPrefixGroup(EncodeGroup(b[0], b[1], b[2]), Encode(b[3..]));
    }
  }

  /** Four sextets, regrouped into octets and encoded again, give back their
      own characters. */
  lemma SextetsReencode(v0: int, v1: int, v2: int, v3: int)
    requires 0 <= v0 < 64 && 0 <= v1 < 64 && 0 <= v2 < 64 && 0 <= v3 < 64
    ensures var b := Regroup(v0, v1, v2, v3);
      EncodeGroup(b[0], b[1], b[2]) == [CharOf(v0), CharOf(v1), CharOf(v2), CharOf(v3)]
  {
    OctetsRegroup(v0, v1, v2, v3);
  }

  /** A full quantum decodes to three octets that encode back to it. */
  lemma DecodeGroupRoundTrip(c0: uint8, c1: uint8, c2: uint8, c3: uint8)
    requires IsAlphabetChar(c0) && IsAlphabetChar(c1) && IsAlphabetChar(c2) && IsAlphabetChar(c3)
    ensures var b := Regroup(IndexOf(c0), IndexOf(c1), IndexOf(c2), IndexOf(c3));
      DecodeGroup(c0, c1, c2, c3) == Some(b) && EncodeGroup(b[0], b[1], b[2]) == [c0, c1, c2, c3]
  {
    SextetsReencode(IndexOf(c0), IndexOf(c1), IndexOf(c2), IndexOf(c3));
    CharOfIndexOf(c0);
    CharOfIndexOf(c1);
    CharOfIndexOf(c2);
    CharOfIndexOf(c3);
  }

  /** A canonical `xy==` quantum re-encodes to itself. */
  lemma DecodeOneRoundTrip(c0: uint8, c1: uint8)
    requires IsAlphabetChar(c0) && IsAlphabetChar(c1) && IndexOf(c1) % 16 == 0
    ensures DecodeLast(c0, c1, Pad, Pad).Some?
    ensures Encode(DecodeLast(c0, c1, Pad, Pad).value) == [c0, c1, Pad, Pad]
  {
    OctetsRegroup(IndexOf(c0), IndexOf(c1), 0, 0);
    CharOfIndexOf(c0);
    CharOfIndexOf(c1);
  }

  /** A canonical `xyz=` quantum re-encodes to itself. */
  lemma DecodeTwoRoundTrip(c0: uint8, c1: uint8, c2: uint8)
    requires IsAlphabetChar(c0) && IsAlphabetChar(c1) && IsAlphabetChar(c2) && IndexOf(c2) % 4 == 0
    ensures DecodeLast(c0, c1, c2, Pad).Some?
    ensures Encode(DecodeLast(c0, c1, c2, Pad).value) == [c0, c1, c2, Pad]
  {
    OctetsRegroup(IndexOf(c0), IndexOf(c1), IndexOf(c2), 0);
    CharOfIndexOf(c0);
    CharOfIndexOf(c1);
    CharOfIndexOf(c2);
  }

  /** An unpadded final quantum re-encodes to itself. */
  lemma EncodeDecodeFull(c0: uint8, c1: uint8, c2: uint8, c3: uint8)
    requires IsAlphabetChar(c0) && IsAlphabetChar(c1) && IsAlphabetChar(c2) && IsAlphabetChar(c3)
    ensures DecodeLast(c0, c1, c2, c3).Some?
    ensures Encode(DecodeLast(c0, c1, c2, c3).value) == [c0, c1, c2, c3]
  {
    var b := Regroup(IndexOf(c0), IndexOf(c1), IndexOf(c2), IndexOf(c3));
    assert DecodeLast(c0, c1, c2, c3) == DecodeGroup(c0, c1, c2, c3);
    DecodeGroupRoundTrip(c0, c1, c2, c3);
    EncodeThree(b);
  }

  /** A canonical final quantum re-encodes to itself, one padding case at a time. */
  lemma EncodeDecodeLastOne(s: Bytes)
    requires |s| == 4 && IsCanonical(s) && s[2] == Pad
    ensures Decode(s).Some? && Encode(Decode(s).value) == s
  {
    assert s == [s[0], s[1], s[2], s[3]];
    DecodeOneRoundTrip(s[0], s[1]);
  }

  lemma EncodeDecodeLastTwo(s: Bytes)
    requires |s| == 4 && IsCanonical(s) && s[2] != Pad && s[3] == Pad
    ensures Decode(s).Some? && Encode(Decode(s).value) == s
  {
    assert s == [s[0], s[1], s[2], s[3]];
    DecodeTwoRoundTrip(s[0], s[1], s[2]);
  }

  lemma EncodeDecodeLastFull(s: Bytes)
    requires |s| == 4 && IsCanonical(s) && s[3] != Pad
    ensures Decode(s).Some? && Encode(Decode(s).value) == s
  {
    assert s == [s[0], s[1], s[2], s[3]];
    EncodeDecodeFull(s[0], s[1], s[2], s[3]);
  }

  lemma EncodeDecodeLast(s: Bytes)
    requires |s| == 4 && IsCanonical(s)
    ensures Decode(s).Some? && Encode(Decode(s).value) == s
  {
    if s[2] == Pad {
      EncodeDecodeLastOne(s);
    } else if s[3] == Pad {
      EncodeDecodeLastTwo(s);
    } else {
      EncodeDecodeLastFull(s);
    }
  }

  /** Dropping a leading quantum keeps an encoding canonical. */
  lemma CanonicalSuffix(s: Bytes)
    requires |s| > 4 && IsCanonical(s)
    ensures IsAlphabetChar(s[0]) && IsAlphabetChar(s[1]) && IsAlphabetChar(s[2]) && IsAlphabetChar(s[3])
    ensures IsCanonical(s[4..])
  {
    var t := s[4..];
    assert forall i :: 0 <= i < |t| - 2 ==> t[i] == s[i + 4];
  }

  /** A quantum of alphabet characters, spelled out through its sextets. */
  lemma QuantumChars(q: Bytes)
    requires |q| == 4
    requires IsAlphabetChar(q[0]) && IsAlphabetChar(q[1]) && IsAlphabetChar(q[2]) && IsAlphabetChar(q[3])
    ensures q == [CharOf(IndexOf(q[0])), CharOf(IndexOf(q[1])), CharOf(IndexOf(q[2])), CharOf(IndexOf(q[3]))]
  {
    CharOfIndexOf(q[0]);
    CharOfIndexOf(q[1]);
    CharOfIndexOf(q[2]);
    CharOfIndexOf(q[3]);
  }

  /** A full quantum, as a string, re-encodes to itself. */
  lemma DecodeQuantumRoundTrip(q: Bytes)
    requires |q| == 4
    requires IsAlphabetChar(q[0]) && IsAlphabetChar(q[1]) && IsAlphabetChar(q[2]) && IsAlphabetChar(q[3])
    ensures DecodeGroup(q[0], q[1], q[2], q[3]).Some?
    ensures var g := DecodeGroup(q[0], q[1], q[2], q[3]).value; |g| == 3 && EncodeGroup(g[0], g[1], g[2]) == q
  {
    QuantumChars(q);
    SextetsReencode(IndexOf(q[0]), IndexOf(q[1]), IndexOf(q[2]), IndexOf(q[3]));
  }

  /** The inductive step of `EncodeDecode`: one more full quantum in front. */
  lemma EncodeDecodeStep(q: Bytes, t: Bytes)
    requires |q| == 4 && |t| > 0
    requires IsAlphabetChar(q[0]) && IsAlphabetChar(q[1]) && IsAlphabetChar(q[2]) && IsAlphabetChar(q[3])
    requires Decode(t).Some? && Encode(Decode(t).value) == t
    ensures Decode(q + t).Some? && Encode(Decode(q + t).value) == q + t
  {
    DecodeQuantumRoundTrip(q);
    DecodePrefixGroup(q, t);
    EncodePrefixGroup(DecodeGroup(q[0], q[1], q[2], q[3]).value, Decode(t).value);
  }

  /** On canonical input encoding undoes decoding, so canonical encodings and
      octet strings are in one-to-one correspondence. */
  lemma {:induction false} EncodeDecode(s: Bytes)
    requires IsCanonical(s)
    ensures Decode(s).Some? && Encode(Decode(s).value) == s
    decreases |s|
  {
    if |s| == 4 {
      EncodeDecodeLast(s);
    } else if |s| > 4 {
      CanonicalSuffix(s);
      EncodeDecode(s[4..]);
      EncodeDecodeStep(s[..4], s[4..]);
      assert s[..4] + s[4..] == s;
    }
  }
}
