/** The hex-to-text decoder of helper.js: `removeTrailingZeroes`, `toArray` and
    `hexToString`, which turn a `0x`-prefixed, zero-padded hex string (an event
    topic, say) into the text it spells. */
module HexText {
  import opened Wrappers

  // ---------------------------------------------------------------------------
  // Hex digits and byte pairs
  // ---------------------------------------------------------------------------

  predicate IsHexDigit(c: char) {
    '0' <= c <= '9' || 'a' <= c <= 'f' || 'A' <= c <= 'F'
  }

  predicate IsHex(s: string) {
    forall i :: 0 <= i < |s| ==> IsHexDigit(s[i])
  }

  /** The value `parseInt` gives one hex digit in base 16. */
  function DigitValue(c: char): (v: nat)
    requires IsHexDigit(c)
    ensures v < 16
    ensures v == 0 <==> c == '0'
  {
    if c <= '9' then c as nat - '0' as nat
    else if c <= 'F' then c as nat - 'A' as nat + 10
    else c as nat - 'a' as nat + 10
  }

  /** `parseInt` reads hex digits case-insensitively: an upper-case digit has
      the value of its lower-case form. */
  lemma DigitValueIgnoresCase(c: char)
    requires 'A' <= c <= 'F'
    ensures IsHexDigit((c as int + 32) as char)
    ensures DigitValue(c) == DigitValue((c as int + 32) as char)
  {
  }

  /** Pair `p` of `s` (characters `2p` and `2p + 1`) is the zero byte "00". */
  predicate ZeroPair(s: string, p: nat)
    requires 2 * p + 1 < |s|
  {
    s[2 * p] == '0' && s[2 * p + 1] == '0'
  }

  /** The number of rounds of `toArray`'s loop: one per pair, a lone last digit
      making a round of its own. */
  function NumPairs(s: string): nat {
    (|s| + 1) / 2
  }

  /** The base-16 value of the two digits at `i` and `i + 1`. A position past
      the end contributes no digit, so a lone last digit is read on its own. */
  function ParsePair(s: string, i: nat): (b: nat)
    requires IsHex(s) && i < |s|
    ensures b < 256
    ensures i + 1 < |s| ==> (b == 0 <==> s[i] == '0' && s[i + 1] == '0')
  {
    if i + 1 < |s| then 16 * DigitValue(s[i]) + DigitValue(s[i + 1])
    else DigitValue(s[i])
  }

  /** The byte values of all pairs of `s`, in order, before any filtering. */
  function ByteValues(s: string): (bs: seq<nat>)
    requires IsHex(s)
    ensures |bs| == NumPairs(s)
    ensures forall p :: 0 <= p < |bs| ==> bs[p] == ParsePair(s, 2 * p)
  {
    seq(NumPairs(s), p requires 0 <= p < NumPairs(s) => ParsePair(s, 2 * p))
  }

  // ---------------------------------------------------------------------------
  // removeTrailingZeroes
  // ---------------------------------------------------------------------------

  /** What `removeTrailingZeroes(s)` promises of its result `r` on an
      even-length `s`: `r` is an even-length prefix of `s` that keeps at least
      the first pair, every pair of `s` after `r` is "00", and the last pair of
      `r` is not "00" unless `r` is just the first pair. */
  ghost predicate IsTrimOf(s: string, r: string) {
    && |r| % 2 == 0
    && r <= s
    && (|s| >= 2 ==> |r| >= 2)
    && (forall p :: |r| <= 2 * p && 2 * p + 1 < |s| ==> ZeroPair(s, p))
    && (|r| > 2 ==> !(r[|r| - 2] == '0' && r[|r| - 1] == '0'))
  }

  /** The string `removeTrailingZeroes` returns on an even-length input. */
  function Trim(s: string): (r: string)
    requires |s| % 2 == 0
    ensures |r| % 2 == 0 && r <= s
  {
    if |s| > 2 && s[|s| - 2] == '0' && s[|s| - 1] == '0' then Trim(s[..|s| - 2])
    else s
  }

  lemma {:induction false} TrimIsTrim(s: string)
    requires |s| % 2 == 0
    ensures IsTrimOf(s, Trim(s))
    decreases |s|
  {
    if |s| > 2 && s[|s| - 2] == '0' && s[|s| - 1] == '0' {
      var t := s[..|s| - 2];
      TrimIsTrim(t);
      var r := Trim(t);
      assert Trim(s) == r;
      forall p | |r| <= 2 * p && 2 * p + 1 < |s|
        ensures ZeroPair(s, p)
      {
        if 2 * p + 1 < |t| {
          assert ZeroPair(t, p);
        }
      }
    }
  }

  /** Every even-length prefix of `s` longer than a trim of `s` ends in "00". */
  lemma LongerPrefixEndsInZero(s: string, a: string, b: string)
    requires |s| % 2 == 0 && IsTrimOf(s, a)
    requires |b| % 2 == 0 && b <= s && |a| < |b|
    ensures b[|b| - 2] == '0' && b[|b| - 1] == '0'
  {
    var p := (|b| - 2) / 2;
    assert ZeroPair(s, p);
  }

  /** Two trims of the same string cannot differ in length: the longer one
      would end in a pair that the shorter one says is "00". */
  lemma TrimsNotShorter(s: string, a: string, b: string)
    requires |s| % 2 == 0 && IsTrimOf(s, a) && IsTrimOf(s, b)
    ensures |b| <= |a|
  {
    if |a| < |b| {
      LongerPrefixEndsInZero(s, a, b);
    }
  }

  /** `IsTrimOf` determines its result: whatever satisfies it is `Trim(s)`. */
  lemma {:induction false} TrimUnique(s: string, r: string)
    requires |s| % 2 == 0 && IsTrimOf(s, r)
    ensures r == Trim(s)
  {
    TrimIsTrim(s);
    TrimsNotShorter(s, r, Trim(s));
    TrimsNotShorter(s, Trim(s), r);
    assert r == s[..|r|] && Trim(s) == s[..|Trim(s)|];
  }

  /** Trimming an already trimmed string changes nothing. */
  lemma {:induction false} TrimIdempotent(s: string)
    requires |s| % 2 == 0
    ensures |Trim(s)| % 2 == 0 && Trim(Trim(s)) == Trim(s)
  {
    TrimIsTrim(s);
    var r := Trim(s);
    assert IsTrimOf(r, r);
    TrimUnique(r, r);
  }

  /** `removeTrailingZeroes(str)`: throws on an odd length; otherwise scans the
      pairs backwards, from the last one down to pair 1, for one that is not
      "00", and cuts the string after it. Pair 0 is never examined. */
  method RemoveTrailingZeroes(str: string) returns (r: Result<string>)
    ensures r.Failure? <==> |str| % 2 != 0
    ensures r.Failure? ==> r.error == "Wrong hex str: " + str
    ensures r.Success? ==> IsTrimOf(str, r.value) && r.value == Trim(str)
  {
    if |str| % 2 != 0 {
      return Failure("Wrong hex str: " + str);
    }
    var lastNonZeroByte := 0;
    var i := |str| - 2;
    while i >= 2
      invariant i % 2 == 0
      invariant if |str| == 0 then i == -2 else 0 <= i <= |str| - 2
      invariant forall p :: i + 2 <= 2 * p && 2 * p + 1 < |str| ==> ZeroPair(str, p)
    {
      if str[i] != '0' || str[i + 1] != '0' {
        lastNonZeroByte := i;
        break;
      }
      i := i - 2;
    }
    // `substr(0, n)` stops at the end of the string
    var n := if lastNonZeroByte + 2 <= |str| then lastNonZeroByte + 2 else |str|;
    TrimUnique(str, str[..n]);
    r := Success(str[..n]);
  }

  // ---------------------------------------------------------------------------
  // toArray
  // ---------------------------------------------------------------------------

  /** The filter of `toArray`: codes 0..9 are taken for control bytes and
      dropped, the rest are kept in order. */
  function KeepPrintable(codes: seq<nat>): (r: seq<nat>)
    ensures |r| <= |codes|
  {
    if codes == [] then []
    else
      var last := codes[|codes| - 1];
      KeepPrintable(codes[..|codes| - 1]) + (if last > 9 then [last] else [])
  }

  /** The filter keeps exactly the codes above 9. */
  lemma {:induction false} KeepPrintableMembers(codes: seq<nat>)
    ensures forall c :: c in KeepPrintable(codes) <==> c in codes && c > 9
    decreases |codes|
  {
    if codes != [] {
      var init := codes[..|codes| - 1];
      KeepPrintableMembers(init);
      assert codes == init + [codes[|codes| - 1]];
    }
  }

  /** Kept codes lie between 10 and any bound the input respects. */
  lemma KeepPrintableBounds(codes: seq<nat>, bound: nat)
    requires forall i :: 0 <= i < |codes| ==> codes[i] < bound
    ensures forall i :: 0 <= i < |KeepPrintable(codes)| ==> 9 < KeepPrintable(codes)[i] < bound
  {
  }

  /** Filtering splits over concatenation, so it never reorders codes. */
  lemma {:induction false} KeepPrintableAppend(a: seq<nat>, b: seq<nat>)
    ensures KeepPrintable(a + b) == KeepPrintable(a) + KeepPrintable(b)
    decreases |b|
  {
    if b != [] {
      var init := b[..|b| - 1];
      assert (a + b)[..|a + b| - 1] == a + init;
      KeepPrintableAppend(a, init);
    } else {
      assert a + b == a;
    }
  }

  /** One more round of the filter: the next code is pushed when above 9. */
  lemma KeepPrintableSnoc(codes: seq<nat>, k: nat)
    requires k < |codes|
    ensures KeepPrintable(codes[..k + 1])
         == KeepPrintable(codes[..k]) + (if codes[k] > 9 then [codes[k]] else [])
  {
    assert codes[..k + 1][..k] == codes[..k];
  }

  /** Codes that are all printable pass the filter unchanged. */
  lemma {:induction false} KeepPrintableAll(codes: seq<nat>)
    requires forall i :: 0 <= i < |codes| ==> codes[i] > 9
    ensures KeepPrintable(codes) == codes
    decreases |codes|
  {
    if codes != [] {
      var init := codes[..|codes| - 1];
      KeepPrintableAll(init);
      assert codes == init + [codes[|codes| - 1]];
    }
  }

  /** Codes that are all control bytes are all dropped. */
  lemma {:induction false} KeepPrintableNone(codes: seq<nat>)
    requires forall i :: 0 <= i < |codes| ==> codes[i] <= 9
    ensures KeepPrintable(codes) == []
    decreases |codes|
  {
    if codes != [] {
      KeepPrintableNone(codes[..|codes| - 1]);
    }
  }

  /** The array `toArray(str)` returns. */
  function DecodedCodes(s: string): (codes: seq<nat>)
    requires IsHex(s)
    ensures |codes| <= NumPairs(s)
    ensures forall i :: 0 <= i < |codes| ==> 10 <= codes[i] < 256
  {
    KeepPrintableBounds(ByteValues(s), 256);
    KeepPrintable(ByteValues(s))
  }

  /** `toArray(str)`: reads `str` two digits at a time and pushes every byte
      value above 9. An odd length is only logged; the lone last digit makes a
      byte of its own. */
  method ToArray(str: string) returns (arr: seq<nat>)
    requires IsHex(str)
    ensures arr == DecodedCodes(str)
  {
    ghost var bytes := ByteValues(str);
    ghost var p := 0;
    arr := [];
    var i := 0;
    while i < |str|
      invariant i == 2 * p && p <= |bytes|
      invariant arr == KeepPrintable(bytes[..p])
    {
      var code := ParsePair(str, i);
      assert code == bytes[p];
      KeepPrintableSnoc(bytes, p);
      if code > 9 {
        arr := arr + [code];
      }
      i, p := i + 2, p + 1;
    }
    assert bytes[..p] == bytes;
  }

  /** The byte values of `s` are those of an even-length prefix `t` followed
      by those of the rest of `s`. */
  lemma ByteValuesSplit(s: string, t: string)
    requires IsHex(s) && |s| % 2 == 0 && |t| % 2 == 0 && t <= s
    ensures IsHex(t)
    ensures ByteValues(s) == ByteValues(t) + ByteValues(s)[|t| / 2..]
  {
  }

  /** The pairs after a trim are all "00", so their byte values are 0. */
  lemma TrailingBytesZero(s: string, t: string)
    requires |s| % 2 == 0 && IsHex(s) && IsTrimOf(s, t)
    ensures |t| / 2 <= |ByteValues(s)|
    ensures forall i :: 0 <= i < |ByteValues(s)[|t| / 2..]| ==> ByteValues(s)[|t| / 2..][i] == 0
  {
    var bs := ByteValues(s);
    var k := |t| / 2;
    assert 2 * k == |t| && 2 * |bs| == |s|;
    forall i | 0 <= i < |bs| - k ensures bs[k..][i] == 0 {
      assert ZeroPair(s, k + i);
    }
  }

  /** Appending codes that are all control bytes changes nothing. */
  lemma DropControlTail(head: seq<nat>, tail: seq<nat>)
    requires forall i :: 0 <= i < |tail| ==> tail[i] <= 9
    ensures KeepPrintable(head + tail) == KeepPrintable(head)
  {
    KeepPrintableNone(tail);
    KeepPrintableAppend(head, tail);
  }

  /** Trailing "00" pairs decode to 0 and are filtered out anyway, so trimming
      never changes the decoded codes. */
  lemma {:induction false} TrimKeepsCodes(s: string)
    requires |s| % 2 == 0 && IsHex(s)
    ensures IsHex(Trim(s)) && DecodedCodes(Trim(s)) == DecodedCodes(s)
  {
    TrimIsTrim(s);
    var t := Trim(s);
    ByteValuesSplit(s, t);
    TrailingBytesZero(s, t);
    DropControlTail(ByteValues(t), ByteValues(s)[|t| / 2..]);
  }

  // ---------------------------------------------------------------------------
  // hexToString
  // ---------------------------------------------------------------------------

  /** `hex.substr(2)`: the first two characters are dropped without checking
      that they are "0x"; a shorter string leaves "". */
  function Remainder(hex: string): (r: string)
    ensures |hex| <= 2 ==> r == ""
    ensures |hex| > 2 ==> hex[..2] + r == hex
  {
    if |hex| <= 2 then "" else hex[2..]
  }

  /** `String.fromCharCode` applied to byte codes. */
  function FromCharCodes(codes: seq<nat>): (s: string)
    requires forall i :: 0 <= i < |codes| ==> codes[i] < 256
    ensures |s| == |codes|
    ensures forall i :: 0 <= i < |s| ==> s[i] == codes[i] as char && s[i] as nat == codes[i]
  {
    seq(|codes|, i requires 0 <= i < |codes| => codes[i] as char)
  }

  /** Digits are required only where `parseInt` reads them: an odd remainder
      throws before any digit is parsed. */
  predicate HexReadable(hex: string) {
    |Remainder(hex)| % 2 == 0 ==> IsHex(Remainder(hex))
  }

  /** `hexToString(hex)`: drop the prefix, trim the trailing zero bytes, keep
      the printable byte codes and build a string from them. */
  function HexToString(hex: string): (r: Result<string>)
    requires HexReadable(hex)
    ensures r.Failure? <==> |Remainder(hex)| % 2 != 0
    ensures r.Failure? ==> r.error == "Wrong hex str: " + Remainder(hex)
    ensures r.Success? ==> |r.value| <= |Remainder(hex)| / 2
  {
    var str := Remainder(hex);
    if |str| % 2 != 0 then Failure("Wrong hex str: " + str)
    else
      TrimKeepsCodes(str);
      Success(FromCharCodes(DecodedCodes(Trim(str))))
  }

  /** `hexToString` throws exactly when the remainder has odd length, and
      otherwise returns the characters of `toArray` of the untrimmed remainder:
      codes 10..255, at most one per pair. */
  lemma {:induction false} HexToStringDecodes(hex: string)
    requires HexReadable(hex)
    ensures HexToString(hex).Failure? <==> |Remainder(hex)| % 2 != 0
    ensures HexToString(hex).Failure? ==> HexToString(hex).error == "Wrong hex str: " + Remainder(hex)
    ensures HexToString(hex).Success? ==>
      && HexToString(hex).value == FromCharCodes(DecodedCodes(Remainder(hex)))
      && |HexToString(hex).value| <= |Remainder(hex)| / 2
      && forall i :: 0 <= i < |HexToString(hex).value| ==> 10 <= HexToString(hex).value[i] as nat < 256
  {
    var str := Remainder(hex);
    if |str| % 2 == 0 {
      TrimKeepsCodes(str);
    }
  }

  /** A remainder made only of zero digits decodes to the empty string: only
      the first pair is kept, and its value 0 is filtered out. */
  lemma {:induction false} AllZeroesDecodeEmpty(hex: string)
    requires |Remainder(hex)| % 2 == 0
    requires forall i :: 0 <= i < |Remainder(hex)| ==> Remainder(hex)[i] == '0'
    ensures HexReadable(hex) && HexToString(hex) == Success("")
  {
    var str := Remainder(hex);
    TrimKeepsCodes(str);
    var bs := ByteValues(str);
    forall p | 0 <= p < |bs| ensures bs[p] <= 9 {
      assert ZeroPair(str, p);
    }
    KeepPrintableNone(bs);
  }

  // ---------------------------------------------------------------------------
  // Round trip
  // ---------------------------------------------------------------------------

  /** The lower-case digit of a value below 16. */
  function HexDigit(d: nat): (c: char)
    requires d < 16
    ensures IsHexDigit(c) && DigitValue(c) == d
  {
    if d < 10 then ('0' as nat + d) as char else ('a' as nat + d - 10) as char
  }

  /** Two lower-case hex digits per byte, in order. */
  function EncodeHex(bs: seq<nat>): (s: string)
    requires forall i :: 0 <= i < |bs| ==> bs[i] < 256
    ensures |s| == 2 * |bs| && IsHex(s)
  {
    if bs == [] then ""
    else
      var b := bs[|bs| - 1];
      EncodeHex(bs[..|bs| - 1]) + [HexDigit(b / 16), HexDigit(b % 16)]
  }

  lemma {:induction false} EncodeHexAt(bs: seq<nat>, p: nat)
    requires forall i :: 0 <= i < |bs| ==> bs[i] < 256
    requires p < |bs|
    ensures EncodeHex(bs)[2 * p] == HexDigit(bs[p] / 16)
    ensures EncodeHex(bs)[2 * p + 1] == HexDigit(bs[p] % 16)
    decreases |bs|
  {
    if p < |bs| - 1 {
      EncodeHexAt(bs[..|bs| - 1], p);
    }
  }

  lemma {:induction false} EncodeHexValues(bs: seq<nat>)
    requires forall i :: 0 <= i < |bs| ==> bs[i] < 256
    ensures ByteValues(EncodeHex(bs)) == bs
  {
    var str := EncodeHex(bs);
    forall p | 0 <= p < |bs| ensures ParsePair(str, 2 * p) == bs[p] {
      EncodeHexAt(bs, p);
      assert ParsePair(str, 2 * p) == 16 * (bs[p] / 16) + bs[p] % 16;
    }
  }

  /** An odd-length string ends in a lone digit, which `toArray` reads as a
      one-digit value of its own. */
  lemma {:induction false} LoneDigitValue(bs: seq<nat>, d: nat)
    requires forall i :: 0 <= i < |bs| ==> bs[i] < 256
    requires d < 16
    ensures IsHex(EncodeHex(bs) + [HexDigit(d)])
    ensures ByteValues(EncodeHex(bs) + [HexDigit(d)]) == bs + [d]
  {
    var enc := EncodeHex(bs);
    var str := enc + [HexDigit(d)];
    assert IsHex(str) by {
      forall i | 0 <= i < |str| ensures IsHexDigit(str[i]) {
        if i < |enc| {
          assert str[i] == enc[i];
        }
      }
    }
    EncodeHexValues(bs);
    var vs := ByteValues(str);
    assert |vs| == |bs| + 1;
    forall p | 0 <= p < |vs| ensures vs[p] == (bs + [d])[p] {
      if p < |bs| {
        assert str[2 * p] == enc[2 * p] && str[2 * p + 1] == enc[2 * p + 1];
        assert ParsePair(str, 2 * p) == ParsePair(enc, 2 * p);
      } else {
        assert str[2 * p] == HexDigit(d);
      }
    }
  }

  lemma {:induction false} EncodeHexDecodes(bs: seq<nat>)
    requires forall i :: 0 <= i < |bs| ==> bs[i] < 256
    ensures DecodedCodes(EncodeHex(bs)) == KeepPrintable(bs)
  {
    EncodeHexValues(bs);
  }

  /** Proof aid: stated on its own, this arithmetic fact keeps the solver from
      searching for it inside `RoundTrip`. */
  lemma EvenDouble(n: nat)
    ensures (2 * n) % 2 == 0
  {
  }

  /** `substr(2)` undoes prepending "0x". */
  lemma RemainderOfPrefixed(s: string)
    ensures Remainder("0x" + s) == s
  {
  }

  /** A hex string whose even remainder decodes to `codes` yields their characters. */
  lemma DecodesTo(hex: string, codes: seq<nat>)
    requires |Remainder(hex)| % 2 == 0 && IsHex(Remainder(hex))
    requires DecodedCodes(Remainder(hex)) == codes
    ensures forall i :: 0 <= i < |codes| ==> codes[i] < 256
    ensures HexReadable(hex) && HexToString(hex) == Success(FromCharCodes(codes))
  {
    HexToStringDecodes(hex);
  }

  /** Decoding the hex encoding of a byte sequence gives back those bytes with
      every code 0..9 removed; trailing zero padding included. */
  lemma {:induction false} RoundTrip(bs: seq<nat>)
    requires forall i :: 0 <= i < |bs| ==> bs[i] < 256
    ensures HexReadable("0x" + EncodeHex(bs))
    ensures forall i :: 0 <= i < |KeepPrintable(bs)| ==> KeepPrintable(bs)[i] < 256
    ensures HexToString("0x" + EncodeHex(bs)) == Success(FromCharCodes(KeepPrintable(bs)))
  {
    var str := EncodeHex(bs);
    RemainderOfPrefixed(str);
    EncodeHexDecodes(bs);
    EvenDouble(|bs|);
    DecodesTo("0x" + str, KeepPrintable(bs));
  }

  lemma HelloCodes()
    ensures FromCharCodes([72, 101, 108, 108, 111]) == "Hello"
  {
  }

  lemma HelloBytes(str: string)
    requires str == "48656c6c6f000000"
    ensures IsHex(str) && ByteValues(str) == [72, 101, 108, 108, 111, 0, 0, 0]
  {
  }

  lemma HelloFilter(bs: seq<nat>)
    requires bs == [72, 101, 108, 108, 111, 0, 0, 0]
    ensures KeepPrintable(bs) == [72, 101, 108, 108, 111]
  {
    assert bs == bs[..5] + bs[5..];
    KeepPrintableAll(bs[..5]);
    KeepPrintableNone(bs[5..]);
    KeepPrintableAppend(bs[..5], bs[5..]);
  }

  /** The worked example: "0x48656c6c6f000000" decodes to "Hello". */
  lemma HelloExample(hex: string)
    requires hex == "0x48656c6c6f000000"
    ensures HexReadable(hex) && HexToString(hex) == Success("Hello")
  {
    var str := Remainder(hex);
    assert str == "48656c6c6f000000";
    HelloBytes(str);
    HelloFilter(ByteValues(str));
    HelloCodes();
    DecodesTo(hex, [72, 101, 108, 108, 111]);
  }
}
