/** Storing the API key (os-agent/src/setup_wizard.rs and os-agent/src/config.rs). Strings are their UTF-8 bytes. */
module ApiKey {
  import opened Options

  type Bytes = seq<bv8>

  // ---- Base16, section 8 of RFC 4648, in lower case

  function HexDigit(n: bv8): bv8
    requires n < 16
  {
    if n < 10 then 48 + n else 87 + n
  }

  function HexEncode(s: Bytes): (r: Bytes)
    ensures |r| == 2 * |s|
  {
    if s == [] then [] else [HexDigit(s[0] >> 4), HexDigit(s[0] & 15)] + HexEncode(s[1..])
  }

  /** Upper and lower case are read alike. */
  function HexValue(c: bv8): (v: Option<bv8>)
    ensures v.Some? ==> v.value < 16
  {
    if 48 <= c <= 57 then Some(c - 48)
    else if 97 <= c <= 102 then Some(c - 87)
    else if 65 <= c <= 70 then Some(c - 55)
    else None
  }

  /** Fails on odd length and on any other character. */
  function HexDecode(s: Bytes): (r: Option<Bytes>)
    ensures r.Some? ==> |s| == 2 * |r.value|
  {
    if s == [] then Some([])
    else if |s| == 1 then None
    else
      var hi, lo, rest := HexValue(s[0]), HexValue(s[1]), HexDecode(s[2..]);
      if hi.None? || lo.None? || rest.None? then None
      else Some([(hi.value << 4) | lo.value] + rest.value)
  }

  // ---- UTF-8, section 4 of RFC 3629

  predicate IsTail(b: bv8) {
    0x80 <= b <= 0xBF
  }

  predicate ValidUtf8(s: Bytes) {
    || s == []
    || (s[0] <= 0x7F && ValidUtf8(s[1..]))
    || (|s| >= 2 && 0xC2 <= s[0] <= 0xDF && IsTail(s[1]) && ValidUtf8(s[2..]))
    || (|s| >= 3 && Starts3(s[0], s[1]) && IsTail(s[2]) && ValidUtf8(s[3..]))
    || (|s| >= 4 && Starts4(s[0], s[1]) && IsTail(s[2]) && IsTail(s[3]) && ValidUtf8(s[4..]))
  }

  predicate Starts3(a: bv8, b: bv8) {
    || (a == 0xE0 && 0xA0 <= b <= 0xBF)
    || (0xE1 <= a <= 0xEC && IsTail(b))
    || (a == 0xED && 0x80 <= b <= 0x9F)
    || (0xEE <= a <= 0xEF && IsTail(b))
  }

  predicate Starts4(a: bv8, b: bv8) {
    || (a == 0xF0 && 0x90 <= b <= 0xBF)
    || (0xF1 <= a <= 0xF3 && IsTail(b))
    || (a == 0xF4 && 0x80 <= b <= 0x8F)
  }

  type Scalar = c: bv32 | c < 0xD800 || 0xE000 <= c < 0x11_0000

  /** The last six bits of a code point, in a tail byte. */
  function TailByte(c: bv32): bv8 {
    (0x80 | (c & 0x3F)) as bv8
  }

  /** The one to four bytes of a code point. */
  function EncodeScalar(c: Scalar): Bytes {
    if c < 0x80 then [c as bv8]
    else if c < 0x800 then [(0xC0 | (c >> 6)) as bv8, TailByte(c)]
    else if c < 0x1_0000 then [(0xE0 | (c >> 12)) as bv8, TailByte(c >> 6), TailByte(c)]
    else [(0xF0 | (c >> 18)) as bv8, TailByte(c >> 12), TailByte(c >> 6), TailByte(c)]
  }

  function EncodeUtf8(text: seq<Scalar>): Bytes {
    if text == [] then [] else EncodeScalar(text[0]) + EncodeUtf8(text[1..])
  }

  /** How many bytes the first code point takes, by its first bytes; 0 if they start none. */
  function FirstLength(s: Bytes): (n: nat)
    ensures n <= |s|
  {
    if s == [] then 0
    else if s[0] <= 0x7F then 1
    else if |s| >= 2 && 0xC2 <= s[0] <= 0xDF && IsTail(s[1]) then 2
    else if |s| >= 3 && Starts3(s[0], s[1]) && IsTail(s[2]) then 3
    else if |s| >= 4 && Starts4(s[0], s[1]) && IsTail(s[2]) && IsTail(s[3]) then 4
    else 0
  }

  lemma ValidByFirst(s: Bytes)
    requires s != []
    ensures ValidUtf8(s) <==> FirstLength(s) > 0 && ValidUtf8(s[FirstLength(s)..])
  {
  }

  // The code points of two, three and four bytes.

  lemma ScalarOfTwo(a: bv8, b: bv8) returns (n: Scalar)
    requires 0xC2 <= a <= 0xDF && IsTail(b)
    ensures EncodeScalar(n) == [a, b]
  {
    n := ((a & 0x1F) as bv32 << 6) | (b & 0x3F) as bv32;
  }

  lemma ScalarOfThree(a: bv8, b: bv8, c: bv8) returns (n: Scalar)
    requires Starts3(a, b) && IsTail(c)
    ensures EncodeScalar(n) == [a, b, c]
  {
    n := ((a & 0x0F) as bv32 << 12) | ((b & 0x3F) as bv32 << 6) | (c & 0x3F) as bv32;
  }

  lemma JoinFour(a: bv8, b: bv8, c: bv8, d: bv8) returns (n: bv32)
    requires Starts4(a, b) && IsTail(c) && IsTail(d)
    ensures 0x1_0000 <= n < 0x11_0000
    ensures (0xF0 | (n >> 18)) as bv8 == a && TailByte(n >> 12) == b && TailByte(n >> 6) == c && TailByte(n) == d
  {
    n := ((a & 0x07) as bv32 << 18) | ((b & 0x3F) as bv32 << 12) | ((c & 0x3F) as bv32 << 6) | (d & 0x3F) as bv32;
  }

  lemma ScalarOfFour(a: bv8, b: bv8, c: bv8, d: bv8) returns (n: Scalar)
    requires Starts4(a, b) && IsTail(c) && IsTail(d)
    ensures EncodeScalar(n) == [a, b, c, d]
  {
    n := JoinFour(a, b, c, d);
  }

  lemma FirstScalar(s: Bytes) returns (n: Scalar)
    requires FirstLength(s) > 0
    ensures EncodeScalar(n) == s[..FirstLength(s)]
  {
    match FirstLength(s)
    case 1 => n := s[0] as bv32;
    case 2 => n := ScalarOfTwo(s[0], s[1]);
    case 3 => n := ScalarOfThree(s[0], s[1], s[2]);
    case _ => n := ScalarOfFour(s[0], s[1], s[2], s[3]);
  }

  lemma ScalarIsFirst(c: Scalar, rest: Bytes)
    ensures FirstLength(EncodeScalar(c) + rest) == |EncodeScalar(c)|
  {
  }

  lemma EncodeOneMore(first: Scalar, rest: seq<Scalar>)
    ensures EncodeUtf8([first] + rest) == EncodeScalar(first) + EncodeUtf8(rest)
  {
    assert ([first] + rest)[1..] == rest;
  }

  /** Valid are exactly the encodings of sequences of Unicode scalar values. */
  lemma {:induction false} ValidUtf8IsEncoded(s: Bytes) returns (text: seq<Scalar>)
    ensures ValidUtf8(s) ==> EncodeUtf8(text) == s
  {
    text := [];
    if ValidUtf8(s) && s != [] {
      var n := FirstLength(s);
      ValidByFirst(s);
      var first := FirstScalar(s);
      var rest := ValidUtf8IsEncoded(s[n..]);
      text := [first] + rest;
      EncodeOneMore(first, rest);
      assert s == s[..n] + s[n..];
    }
  }

  lemma {:induction false} EncodedIsValidUtf8(text: seq<Scalar>)
    ensures ValidUtf8(EncodeUtf8(text))
  {
    if text != [] {
      var first, rest := EncodeScalar(text[0]), EncodeUtf8(text[1..]);
      EncodedIsValidUtf8(text[1..]);
      ScalarIsFirst(text[0], rest);
      ValidByFirst(first + rest);
      assert (first + rest)[|first|..] == rest;
    }
  }

  lemma Utf8IsExact(s: Bytes)
    ensures ValidUtf8(s) <==> exists text :: EncodeUtf8(text) == s
  {
    var text := ValidUtf8IsEncoded(s);
    if text :| EncodeUtf8(text) == s {
      EncodedIsValidUtf8(text);
    }
  }

  // ---- the codec

  /** A panic is the remainder by the length of an empty machine id. */
  datatype Outcome = Done(text: Bytes) | Panic

  /** The text with the machine id laid over it again and again. */
  function Masked(s: Bytes, machineId: Bytes): (r: Bytes)
    requires machineId != [] || s == []
    ensures |r| == |s|
  {
    seq(|s|, i requires 0 <= i < |s| => s[i] ^ machineId[i % |machineId|])
  }

  function EncryptApiKey(key: Bytes, machineId: Bytes): Outcome {
    if machineId == [] && key != [] then Panic else Done(HexEncode(Masked(key, machineId)))
  }

  /** Text that is not hex is taken as it is; a result that is not UTF-8 is replaced by the input. */
  function DecryptApiKey(stored: Bytes, machineId: Bytes): Outcome {
    var bytes := HexDecode(stored).GetOr(stored);
    if machineId == [] && bytes != [] then Panic
    else
      var plain := Masked(bytes, machineId);
      Done(if ValidUtf8(plain) then plain else stored)
  }

  lemma ByteThroughHex(b: bv8)
    ensures HexValue(HexDigit(b >> 4)) == Some(b >> 4) && HexValue(HexDigit(b & 15)) == Some(b & 15)
    ensures ((b >> 4) << 4) | (b & 15) == b
  {
  }

  lemma {:induction false} HexRoundTrip(s: Bytes)
    ensures HexDecode(HexEncode(s)) == Some(s)
  {
    if s != [] {
      ByteThroughHex(s[0]);
      assert HexEncode(s)[2..] == HexEncode(s[1..]);
      assert s == [s[0]] + s[1..];
      HexRoundTrip(s[1..]);
    }
  }

  lemma MaskTwice(s: Bytes, machineId: Bytes)
    requires machineId != [] || s == []
    ensures Masked(Masked(s, machineId), machineId) == s
  {
  }

  /**
   * Every key comes back from the stored form, exactly when there is a machine id to mask it with
   * (or nothing to mask); without one the wizard panics.
   */
  lemma KeyRoundTrip(key: Bytes, machineId: Bytes)
    requires ValidUtf8(key)
    ensures var stored := EncryptApiKey(key, machineId);
      (stored.Done? && DecryptApiKey(stored.text, machineId) == Done(key)) <==> (machineId != [] || key == [])
  {
    if machineId != [] || key == [] {
      HexRoundTrip(Masked(key, machineId));
      MaskTwice(key, machineId);
    }
  }

  predicate IsHexDigit(c: bv8) {
    48 <= c <= 57 || 65 <= c <= 70 || 97 <= c <= 102
  }

  /** What a hex digit, in either case, stands for. */
  function DigitOf(c: bv8): bv8
    requires IsHexDigit(c)
  {
    if c <= 57 then c - 48 else (c & 0x0F) + 9
  }

  lemma HexValueIsDigit(c: bv8)
    ensures HexValue(c) == if IsHexDigit(c) then Some(DigitOf(c)) else None
  {
  }

  ghost predicate AllHexDigits(s: Bytes) {
    forall i :: 0 <= i < |s| ==> IsHexDigit(s[i])
  }

  lemma PairOfDigits(s: Bytes)
    requires |s| >= 2
    ensures AllHexDigits(s) <==> IsHexDigit(s[0]) && IsHexDigit(s[1]) && AllHexDigits(s[2..])
  {
    assert forall i :: 2 <= i < |s| ==> s[i] == s[2..][i - 2];
  }

  /** Exactly the texts of even length and of hex digits alone decode, upper case like lower. */
  lemma {:induction false} HexDecodesExactly(s: Bytes)
    ensures HexDecode(s).Some? <==> |s| % 2 == 0 && AllHexDigits(s)
  {
    if |s| >= 2 {
      HexDecodesExactly(s[2..]);
      PairOfDigits(s);
      HexValueIsDigit(s[0]);
      HexValueIsDigit(s[1]);
    }
  }

  /** The `i`-th byte is the one of the `i`-th pair of digits. */
  lemma {:induction false} DecodedByte(s: Bytes, i: nat)
    requires HexDecode(s).Some? && i < |HexDecode(s).value|
    ensures IsHexDigit(s[2 * i]) && IsHexDigit(s[2 * i + 1])
    ensures HexDecode(s).value[i] == (DigitOf(s[2 * i]) << 4) | DigitOf(s[2 * i + 1])
  {
    if i > 0 {
      DecodedByte(s[2..], i - 1);
    } else {
      HexValueIsDigit(s[0]);
      HexValueIsDigit(s[1]);
    }
  }

  /**
   * What is stored is the key under the machine id and nothing else: it decodes to as many bytes as
   * the key has, and each of them differs from the key's in the bits of the id's byte at that place,
   * the id being repeated as often as needed.
   */
  lemma StoredIsMasked(key: Bytes, machineId: Bytes)
    requires machineId != []
    ensures var stored := EncryptApiKey(key, machineId);
      && stored.Done? && HexDecode(stored.text).Some?
      && var bytes := HexDecode(stored.text).value;
      && |bytes| == |key|
      && forall i :: 0 <= i < |key| ==> bytes[i] ^ key[i] == machineId[i % |machineId|]
  {
    HexRoundTrip(Masked(key, machineId));
  }

  /** The `i`-th byte of the id repeated as often as needed. */
  function MaskByte(machineId: Bytes, i: nat): bv8
    requires machineId != []
  {
    machineId[i % |machineId|]
  }

  /** The two ids, each repeated as often as needed, agree on the first `n` bytes. */
  ghost predicate SameMask(a: Bytes, b: Bytes, n: nat)
    requires a != [] && b != []
  {
    forall i :: 0 <= i < n ==> MaskByte(a, i) == MaskByte(b, i)
  }

  lemma MaskedAt(s: Bytes, machineId: Bytes, otherId: Bytes, i: nat)
    requires machineId != [] && otherId != [] && i < |s|
    ensures Masked(s, machineId)[i] == Masked(s, otherId)[i] <==> MaskByte(machineId, i) == MaskByte(otherId, i)
  {
  }

  lemma OtherMask(key: Bytes, machineId: Bytes, otherId: Bytes)
    requires machineId != [] && otherId != []
    ensures Masked(Masked(key, machineId), otherId) == key <==> SameMask(machineId, otherId, |key|)
  {
    MaskTwice(Masked(key, machineId), otherId);
    MaskTwice(key, otherId);
    forall i | 0 <= i < |key|
      ensures Masked(key, machineId)[i] == Masked(key, otherId)[i] <==> MaskByte(machineId, i) == MaskByte(otherId, i)
    {
      MaskedAt(key, machineId, otherId, i);
    }
    assert Masked(key, machineId) == Masked(key, otherId) <==> SameMask(machineId, otherId, |key|);
  }

  /** A machine with another id decrypts to the key exactly when the two ids agree on the key's length. */
  lemma OtherMachineReads(key: Bytes, machineId: Bytes, otherId: Bytes)
    requires ValidUtf8(key) && machineId != [] && otherId != []
    ensures var stored := EncryptApiKey(key, machineId);
      && stored.Done?
      && (DecryptApiKey(stored.text, otherId) == Done(key) <==> SameMask(machineId, otherId, |key|))
  {
    HexRoundTrip(Masked(key, machineId));
    OtherMask(key, machineId, otherId);
  }

  /** `a` and `b` are as long and differ, byte for byte, in the bits of the repeated id. */
  ghost predicate DifferByMask(a: Bytes, b: Bytes, machineId: Bytes)
    requires machineId != []
  {
    |a| == |b| && forall i :: 0 <= i < |a| ==> a[i] ^ b[i] == MaskByte(machineId, i)
  }

  lemma MaskedDiffers(s: Bytes, machineId: Bytes, other: Bytes)
    requires machineId != []
    ensures DifferByMask(other, s, machineId) <==> other == Masked(s, machineId)
  {
    var masked := Masked(s, machineId);
    assert DifferByMask(masked, s, machineId);
    if DifferByMask(other, s, machineId) {
      forall i | 0 <= i < |s|
        ensures other[i] == masked[i]
      {
        XorBack(other[i], s[i]);
        XorBack(masked[i], s[i]);
      }
    }
  }

  lemma XorBack(a: bv8, b: bv8)
    ensures (a ^ b) ^ b == a
  {
  }

  /**
   * Decrypting any text, stored by the wizard or not: the bytes are what the hex stands for, or the
   * text itself if it is no hex; unmasked they are the result if that is UTF-8, else the text is.
   */
  lemma DecryptedText(stored: Bytes, machineId: Bytes)
    requires machineId != []
    ensures var bytes := if HexDecode(stored).Some? then HexDecode(stored).value else stored;
      var plain := DecryptApiKey(stored, machineId);
      && plain.Done?
      && (|| (ValidUtf8(plain.text) && DifferByMask(plain.text, bytes, machineId))
          || (plain.text == stored
              && forall other :: DifferByMask(other, bytes, machineId) ==> !ValidUtf8(other)))
  {
    var bytes := HexDecode(stored).GetOr(stored);
    forall other: Bytes
      ensures DifferByMask(other, bytes, machineId) <==> other == Masked(bytes, machineId)
    {
      MaskedDiffers(bytes, machineId, other);
    }
  }

  ghost predicate IsLowerHex(s: Bytes) {
    |s| % 2 == 0 && forall i :: 0 <= i < |s| ==> 48 <= s[i] <= 57 || 97 <= s[i] <= 102
  }

  lemma LowerHexDigits(hi: bv8, lo: bv8)
    requires 48 <= hi <= 57 || 97 <= hi <= 102
    requires 48 <= lo <= 57 || 97 <= lo <= 102
    ensures HexValue(hi).Some? && HexValue(lo).Some?
    ensures var b := (HexValue(hi).value << 4) | HexValue(lo).value;
      HexDigit(b >> 4) == hi && HexDigit(b & 15) == lo
  {
  }

  lemma EncodeFirst(b: bv8, rest: Bytes)
    ensures HexEncode([b] + rest) == [HexDigit(b >> 4), HexDigit(b & 15)] + HexEncode(rest)
  {
    assert ([b] + rest)[1..] == rest;
  }

  lemma LowerHexFirst(s: Bytes) returns (b: bv8)
    requires |s| >= 2 && IsLowerHex(s) && HexDecode(s[2..]).Some?
    ensures HexDecode(s) == Some([b] + HexDecode(s[2..]).value)
    ensures HexDigit(b >> 4) == s[0] && HexDigit(b & 15) == s[1]
  {
    LowerHexDigits(s[0], s[1]);
    b := (HexValue(s[0]).value << 4) | HexValue(s[1]).value;
  }

  /** Lower-case hex text is the encoding of what it decodes to. */
  lemma {:induction false} HexReads(s: Bytes)
    requires IsLowerHex(s)
    ensures HexDecode(s).Some? && HexEncode(HexDecode(s).value) == s
  {
    if s != [] {
      HexReads(s[2..]);
      var b := LowerHexFirst(s);
      EncodeFirst(b, HexDecode(s[2..]).value);
      assert s == [s[0], s[1]] + s[2..];
    }
  }

  lemma {:induction false} EncodingIsLowerHex(s: Bytes)
    ensures IsLowerHex(HexEncode(s))
  {
    if s != [] {
      EncodingIsLowerHex(s[1..]);
    }
  }

  /** A text the wizard can have stored: lower-case hex that unmasks to UTF-8. */
  ghost predicate IsStoredKey(stored: Bytes, machineId: Bytes)
    requires machineId != []
  {
    IsLowerHex(stored) && ValidUtf8(Masked(HexDecode(stored).GetOr(stored), machineId))
  }

  /**
   * What the wizard stores has that form, and every text of that form is what the wizard stores for
   * the key it decrypts to.
   */
  lemma StoredFormIsExact(stored: Bytes, machineId: Bytes)
    requires machineId != []
    ensures IsStoredKey(stored, machineId)
       <==> exists key :: ValidUtf8(key) && EncryptApiKey(key, machineId) == Done(stored)
    ensures IsStoredKey(stored, machineId) ==>
      var key := DecryptApiKey(stored, machineId);
      key.Done? && ValidUtf8(key.text) && EncryptApiKey(key.text, machineId) == Done(stored)
  {
    if IsStoredKey(stored, machineId) {
      HexReads(stored);
      MaskTwice(HexDecode(stored).value, machineId);
      var key := DecryptApiKey(stored, machineId).text;
      assert ValidUtf8(key) && EncryptApiKey(key, machineId) == Done(stored);
    }
    if key :| ValidUtf8(key) && EncryptApiKey(key, machineId) == Done(stored) {
      EncodingIsLowerHex(Masked(key, machineId));
      HexRoundTrip(Masked(key, machineId));
      MaskTwice(key, machineId);
    }
  }
}
