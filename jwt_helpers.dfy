/** The helpers every panel uses: the Base64url codec (Appendix C of RFC 7515:
    standard Base64, then the URL-safe alphabet of section 5 of RFC 4648,
    without padding) and the toy signer, a 32-bit rolling hash written out
    in hex.  Both codec functions return a sentinel string instead of
    throwing. */
module JwtHelpers {
  import opened Wrappers
  import opened Base64

  // ---------------------------------------------------------------------
  // Base64url codec
  // ---------------------------------------------------------------------

  /** The alphabet of section 5 of RFC 4648. */
  predicate IsUrlSafeChar(c: char) {
    ('A' <= c <= 'Z') || ('a' <= c <= 'z') || ('0' <= c <= '9') || c == '-' || c == '_'
  }

  predicate AllUrlSafe(s: string) {
    forall i :: 0 <= i < |s| ==> IsUrlSafeChar(s[i])
  }

  function ToUrlChar(c: char): char {
    if c == '+' then '-' else if c == '/' then '_' else c
  }

  function FromUrlChar(c: char): char {
    if c == '-' then '+' else if c == '_' then '/' else c
  }

  /** The two global replacements `+` to `-` and `/` to `_`. */
  function ToUrlAlphabet(s: string): (r: string)
    ensures |r| == |s|
    ensures forall i :: 0 <= i < |r| ==> r[i] != '+' && r[i] != '/'
    ensures forall i :: 0 <= i < |s| && s[i] != '+' && s[i] != '/' ==> r[i] == s[i]
  {
    seq(|s|, i requires 0 <= i < |s| => ToUrlChar(s[i]))
  }

  /** The two global replacements `-` to `+` and `_` to `/`. */
  function FromUrlAlphabet(s: string): (r: string)
    ensures |r| == |s|
    ensures forall i :: 0 <= i < |r| ==> r[i] != '-' && r[i] != '_'
    ensures forall i :: 0 <= i < |s| && s[i] != '-' && s[i] != '_' ==> r[i] == s[i]
  {
    seq(|s|, i requires 0 <= i < |s| => FromUrlChar(s[i]))
  }

  /** The replacement of the pattern `=+$`: the maximal run of `=` at the end
      of the string is removed. */
  function StripTrailingEquals(s: string): (r: string)
    ensures r <= s
    ensures r == [] || r[|r| - 1] != '='
    ensures forall i :: |r| <= i < |s| ==> s[i] == '='
    decreases |s|
  {
    if s != [] && s[|s| - 1] == '=' then StripTrailingEquals(s[..|s| - 1]) else s
  }

  /** `base64UrlEncode`, seen through the parts of `btoa`'s output. */
  lemma UrlEncodeOfLatin1(s: string)
    requires IsLatin1(s)
    ensures StripTrailingEquals(ToUrlAlphabet(Encode(s))) == ToUrlAlphabet(EncodeUnpadded(s))
  {
    var u, k := EncodeUnpadded(s), PadCount(|s|);
    ToUrlKeepsPadding(u, k);
    UrlEndsInAlphabet(u);
    StripPadding(ToUrlAlphabet(u), k);
  }

  /** The replacements leave `=` alone. */
  lemma ToUrlKeepsPadding(u: string, k: nat)
    ensures ToUrlAlphabet(u + Equals(k)) == ToUrlAlphabet(u) + Equals(k)
  {
    var l, r := ToUrlAlphabet(u + Equals(k)), ToUrlAlphabet(u) + Equals(k);
    forall i | 0 <= i < |l|
      ensures l[i] == r[i]
    {
      if i >= |u| {
        assert (u + Equals(k))[i] == '=';
      }
    }
  }

  /** Standard Base64 text in the URL-safe alphabet does not end in `=`. */
  lemma UrlEndsInAlphabet(u: string)
    requires AllAlphabet(u)
    ensures var t := ToUrlAlphabet(u); t == [] || t[|t| - 1] != '='
  {
    if u != [] {
      assert IsAlphabetChar(u[|u| - 1]);
    }
  }

  /** Stripping removes exactly the `=` appended to text not ending in `=`. */
  lemma {:induction false} StripPadding(t: string, k: nat)
    requires t == [] || t[|t| - 1] != '='
    ensures StripTrailingEquals(t + Equals(k)) == t
  {
    if k > 0 {
      var w := t + Equals(k);
      assert w[..|w| - 1] == t + Equals(k - 1);
      StripPadding(t, k - 1);
    } else {
      assert t + Equals(k) == t;
    }
  }

  /** `base64UrlEncode`: the Base64url text of a Latin-1 string, `"Error"`
      when `btoa` throws. */
  function Base64UrlEncode(s: string): (r: string)
    ensures IsLatin1(s) ==> r == ToUrlAlphabet(EncodeUnpadded(s))
    ensures IsLatin1(s) ==> AllUrlSafe(r) && |r| == (4 * |s| + 2) / 3
    ensures r == "Error" <==> !IsLatin1(s)
  {
    match Btoa(s)
    case None => "Error"
    case Some(b) =>
      UrlEncodeOfLatin1(s);
      UnpaddedLengthFormula(|s|);
      StripTrailingEquals(ToUrlAlphabet(b))
  }

  /** The string the padding loop leaves: `str` followed by the fewest `=`
      that make its length a multiple of four. */
  function PadTo4(str: string): (r: string)
    ensures |r| % 4 == 0
    ensures str <= r && |r| - |str| <= 3
    ensures forall i :: |str| <= i < |r| ==> r[i] == '='
  {
    str + Equals((4 - |str| % 4) % 4)
  }

  /** What `base64UrlDecode` returns: the text `atob` decodes from the
      re-padded standard form, or `"Invalid Base64"` when `atob` throws. */
  function UrlDecode(s: string): (r: string)
    ensures IsLatin1(r)
  {
    match Atob(PadTo4(FromUrlAlphabet(s)))
    case None => "Invalid Base64"
    case Some(t) => t
  }

  /** Fewer `=` than the padding needs leave a length that is not yet a
      multiple of four; that many leave one that is. */
  lemma PadCountIsLeast(n: nat, k: nat)
    requires k <= (4 - n % 4) % 4
    ensures (n + k) % 4 == 0 <==> k == (4 - n % 4) % 4
  {
  }

  /** `base64UrlDecode`, with its padding loop. */
  method Base64UrlDecode(input: string) returns (r: string)
    ensures r == UrlDecode(input)
  {
    var str := FromUrlAlphabet(input);
    ghost var swapped, k := str, 0;
    ghost var pad := (4 - |swapped| % 4) % 4;
    while |str| % 4 != 0
      invariant k <= pad && |str| == |swapped| + k
      invariant str == swapped + Equals(k)
      decreases pad - k
    {
      PadCountIsLeast(|swapped|, k);
      assert Equals(k + 1) == Equals(k) + "=";
      str, k := str + "=", k + 1;
    }
    PadCountIsLeast(|swapped|, k);
    assert str == PadTo4(swapped);
    match Atob(str)
    case None => r := "Invalid Base64";
    case Some(t) => r := t;
  }

  lemma FromToUrl(s: string)
    requires AllAlphabet(s)
    ensures FromUrlAlphabet(ToUrlAlphabet(s)) == s
  {
    forall i | 0 <= i < |s|
      ensures FromUrlAlphabet(ToUrlAlphabet(s))[i] == s[i]
    {
      assert IsAlphabetChar(s[i]);
    }
  }

  /** The decoder's padding loop adds back exactly the `=` that `btoa` wrote. */
  lemma RepadCount(n: nat)
    ensures (4 - (4 * n + 2) / 3 % 4) % 4 == PadCount(n)
  {
    PaddedLength(n);
    var k, u, pad := (n + 2) / 3, (4 * n + 2) / 3, PadCount(n);
    assert u == 4 * k - pad;
    if pad == 0 {
      assert u % 4 == 0;
    } else {
      assert u == 4 * (k - 1) + (4 - pad);
      assert u % 4 == 4 - pad;
    }
  }

  /** Round trip: `base64UrlDecode(base64UrlEncode(s)) == s` for every
      Latin-1 string. */
  lemma UrlRoundTrip(s: string)
    requires IsLatin1(s)
    ensures UrlDecode(Base64UrlEncode(s)) == s
  {
    var u := EncodeUnpadded(s);
    FromToUrl(u);
    RepadRestoresPadding(s);
    EncodeRoundTrip(s);
  }

  /** Re-padding the unpadded encoding gives back `btoa`'s output. */
  lemma RepadRestoresPadding(s: string)
    requires IsLatin1(s)
    ensures PadTo4(EncodeUnpadded(s)) == Encode(s)
  {
    var u, n := EncodeUnpadded(s), |s|;
    UnpaddedLengthFormula(n);
    RepadCount(n);
    var pad := (4 - |u| % 4) % 4;
    assert pad == PadCount(n);
    assert PadTo4(u) == u + Equals(pad);
  }

  /** The encoder never loses information on Latin-1 text. */
  lemma UrlEncodeInjective(s: string, t: string)
    requires IsLatin1(s) && IsLatin1(t)
    requires Base64UrlEncode(s) == Base64UrlEncode(t)
    ensures s == t
  {
    UrlRoundTrip(s);
    UrlRoundTrip(t);
  }

  /** Any character outside both alphabets, other than `=` and whitespace,
      makes `base64UrlDecode` return the sentinel. */
  lemma ForeignCharIsInvalid(s: string, i: int)
    requires 0 <= i < |s|
    requires !IsUrlSafeChar(s[i]) && !IsAlphabetChar(s[i]) && s[i] != '=' && !IsAsciiWhitespace(s[i])
    ensures UrlDecode(s) == "Invalid Base64"
  {
    var p := PadTo4(FromUrlAlphabet(s));
    assert p[i] == s[i];
    ForeignCharRejected(p, i);
  }

  lemma NotBase64IsInvalid()
    ensures UrlDecode("!!!not-base64!!!") == "Invalid Base64"
  {
    ForeignCharIsInvalid("!!!not-base64!!!", 0);
  }

  lemma EmptyEncodesToEmpty()
    ensures Base64UrlEncode("") == ""
  {
  }

  // ---------------------------------------------------------------------
  // Mock signer
  // ---------------------------------------------------------------------

  const TwoTo31: int := 0x8000_0000
  const TwoTo32: int := 0x1_0000_0000

  /** ECMAScript's ToInt32: the signed 32-bit integer congruent to `x`
      modulo 2^32.  The operators `<<` and `&` apply it to their result. */
  function ToInt32(x: int): (r: int)
    ensures -TwoTo31 <= r < TwoTo31
    ensures (x - r) % TwoTo32 == 0
  {
    var m := x % TwoTo32;
    if m >= TwoTo31 then m - TwoTo32 else m
  }

  /** Congruent numbers have the same 32-bit value. */
  lemma ToInt32Congruent(x: int, y: int)
    requires (x - y) % TwoTo32 == 0
    ensures ToInt32(x) == ToInt32(y)
  {
    var q := (x - y) / TwoTo32;
    assert x == y + q * TwoTo32;
    assert x % TwoTo32 == y % TwoTo32;
  }

  /** One step of the rolling hash: `31 * h + code`, wrapped to 32 bits. */
  function Step(h: int, c: char): (r: int)
    ensures -TwoTo31 <= r < TwoTo31
    ensures (31 * h + c as int - r) % TwoTo32 == 0
  {
    ToInt32(31 * h + c as int)
  }

  /** The left fold of `Step` over `s`, starting from `h`. */
  function HashFrom(h: int, s: string): (r: int)
    ensures s == [] ==> r == h
    ensures s != [] ==> -TwoTo31 <= r < TwoTo31
    decreases |s|
  {
    if s == [] then h else HashFrom(Step(h, s[0]), s[1..])
  }

  /** The hash `mockSignature` computes: the fold from 0. */
  function Hash(s: string): (r: int)
    ensures -TwoTo31 <= r < TwoTo31
  {
    HashFromRange(0, s);
    HashFrom(0, s)
  }

  lemma {:induction false} HashFromRange(h: int, s: string)
    requires -TwoTo31 <= h < TwoTo31
    ensures -TwoTo31 <= HashFrom(h, s) < TwoTo31
    decreases |s|
  {
    if s != [] {
      HashFromRange(Step(h, s[0]), s[1..]);
    }
  }

  /** Folding one more character is one more step. */
  lemma {:induction false} HashFromSnoc(h: int, s: string, c: char)
    ensures HashFrom(h, s + [c]) == Step(HashFrom(h, s), c)
    decreases |s|
  {
    if s == [] {
      assert [c][1..] == [];
    } else {
      assert (s + [c])[1..] == s[1..] + [c];
      HashFromSnoc(Step(h, s[0]), s[1..], c);
    }
  }

  /** Folding a concatenation folds its parts in turn. */
  lemma {:induction false} HashFromAppend(h: int, a: string, b: string)
    ensures HashFrom(h, a + b) == HashFrom(HashFrom(h, a), b)
    decreases |a|
  {
    if a == [] {
      assert a + b == b;
    } else {
      assert (a + b)[1..] == a[1..] + b;
      HashFromAppend(Step(h, a[0]), a[1..], b);
    }
  }

  /** The source's `((h << 5) - h) + code`, then `& ` itself: for a 32-bit
      `h` it is the step of the rolling hash.  (The subtraction and the
      addition are exact in double precision, as both operands stay far
      below 2^53.) */
  lemma ShiftStepIsRollingStep(h: int, c: char)
    requires -TwoTo31 <= h < TwoTo31
    ensures ToInt32(ToInt32(h * 32) - h + c as int) == Step(h, c)
  {
    var sh := ToInt32(h * 32);
    var k := (h * 32 - sh) / TwoTo32;
    assert h * 32 - sh == k * TwoTo32;
    assert (sh - h + c as int) - (31 * h + c as int) == -k * TwoTo32;
    ToInt32Congruent(sh - h + c as int, 31 * h + c as int);
  }

  function Abs(x: int): nat {
    if x < 0 then -x else x
  }

  const HexDigits: string := "0123456789abcdef"

  predicate IsHexDigit(c: char) {
    ('0' <= c <= '9') || ('a' <= c <= 'f')
  }

  function HexDigitValue(c: char): (v: nat)
    requires IsHexDigit(c)
    ensures v < 16 && HexDigits[v] == c
  {
    if '0' <= c <= '9' then c as int - '0' as int else c as int - 'a' as int + 10
  }

  /** `Number.prototype.toString(16)` on a non-negative integer: lowercase
      hex digits with no leading zero. */
  function Hex(n: nat): (r: string)
    ensures r != [] && forall i :: 0 <= i < |r| ==> IsHexDigit(r[i])
    ensures r[0] == '0' ==> n == 0
    decreases n
  {
    if n < 16 then [HexDigits[n]] else Hex(n / 16) + [HexDigits[n % 16]]
  }

  /** The number a string of hex digits denotes. */
  function HexValue(s: string): nat
    requires forall i :: 0 <= i < |s| ==> IsHexDigit(s[i])
    decreases |s|
  {
    if s == [] then 0 else HexValue(s[..|s| - 1]) * 16 + HexDigitValue(s[|s| - 1])
  }

  /** Reading the hex text back gives the number. */
  lemma {:induction false} HexRoundTrip(n: nat)
    ensures HexValue(Hex(n)) == n
    decreases n
  {
    var r := Hex(n);
    if n < 16 {
      DigitRoundTrip(n);
      assert r[..0] == [];
    } else {
      HexRoundTrip(n / 16);
      DigitRoundTrip(n % 16);
      assert r[..|r| - 1] == Hex(n / 16);
      assert HexValue(r) == n / 16 * 16 + n % 16;
    }
  }

  lemma DigitRoundTrip(d: nat)
    requires d < 16
    ensures HexDigitValue(HexDigits[d]) == d
  {
  }

  function Repeat(s: string, n: nat): (r: string)
    ensures |r| == n * |s|
  {
    if n == 0 then "" else s + Repeat(s, n - 1)
  }

  /** The text that is Base64url-encoded into the signature:
      `SIG` then four copies of the hex of `|hash|`. */
  function SignatureText(hash: int): (r: string)
    ensures IsLatin1(r)
  {
    var hex := Hex(Abs(hash));
    var r := "SIG" + Repeat(hex, 4);
    assert forall i :: 0 <= i < |r| ==> r[i] as int < 128 by {
      RepeatHex(hex, 4);
    }
    r
  }

  lemma {:induction false} RepeatHex(hex: string, n: nat)
    requires forall i :: 0 <= i < |hex| ==> IsHexDigit(hex[i])
    ensures forall i :: 0 <= i < |Repeat(hex, n)| ==> IsHexDigit(Repeat(hex, n)[i])
  {
    if n > 0 {
      RepeatHex(hex, n - 1);
      var r := Repeat(hex, n);
      assert r == hex + Repeat(hex, n - 1);
      forall i | 0 <= i < |r|
        ensures IsHexDigit(r[i])
      {
        if i >= |hex| {
          assert r[i] == Repeat(hex, n - 1)[i - |hex|];
        }
      }
    }
  }

  /** Different magnitudes of the hash give different signature texts. */
  lemma SignatureTextInjective(h1: int, h2: int)
    requires SignatureText(h1) == SignatureText(h2)
    ensures Abs(h1) == Abs(h2)
  {
    var x, y := Hex(Abs(h1)), Hex(Abs(h2));
    var rx, ry := Repeat(x, 4), Repeat(y, 4);
    assert rx == ("SIG" + rx)[3..] == ("SIG" + ry)[3..] == ry;
    assert |x| == |y|;
    assert x == rx[..|x|] == ry[..|y|] == y;
    HexRoundTrip(Abs(h1));
    HexRoundTrip(Abs(h2));
  }

  /** The signature `mockSignature` returns, as a function of its inputs:
      the signature text of the hash of `header.payload.secret`,
      Base64url-encoded.  It is never the sentinel and always URL-safe. */
  function Signature(header: string, payload: string, secret: string): (r: string)
    ensures AllUrlSafe(r) && r != "Error"
  {
    Base64UrlEncode(SignatureText(Hash(header + "." + payload + "." + secret)))
  }

  /** Signatures differ whenever the hashes differ in magnitude. */
  lemma SignatureSeparates(h: string, p1: string, p2: string, secret: string)
    requires Abs(Hash(h + "." + p1 + "." + secret)) != Abs(Hash(h + "." + p2 + "." + secret))
    ensures Signature(h, p1, secret) != Signature(h, p2, secret)
  {
    var t1 := SignatureText(Hash(h + "." + p1 + "." + secret));
    var t2 := SignatureText(Hash(h + "." + p2 + "." + secret));
    if Base64UrlEncode(t1) == Base64UrlEncode(t2) {
      UrlEncodeInjective(t1, t2);
      SignatureTextInjective(Hash(h + "." + p1 + "." + secret), Hash(h + "." + p2 + "." + secret));
    }
  }

  predicate IsOdd(n: int) {
    n % 2 == 1
  }

  /** Whether the code units of `s` add up to an odd number. */
  function OddSum(s: string): bool
    decreases |s|
  {
    if s == [] then false else IsOdd(s[0] as int) != OddSum(s[1..])
  }

  lemma {:induction false} OddSumAppend(a: string, b: string)
    ensures OddSum(a + b) == (OddSum(a) != OddSum(b))
    decreases |a|
  {
    if a == [] {
      assert a + b == b;
    } else {
      assert (a + b)[1..] == a[1..] + b;
      OddSumAppend(a[1..], b);
    }
  }

  lemma ParityShift(a: int, m: int)
    ensures (a + 2 * m) % 2 == a % 2
  {
  }

  lemma OddAdd(a: int, b: int)
    ensures IsOdd(a + b) == (IsOdd(a) != IsOdd(b))
  {
  }

  /** Wrapping to 32 bits keeps the parity, and 31 is odd: each step adds the
      code unit's parity to the hash's. */
  lemma StepParity(h: int, c: char)
    ensures IsOdd(Step(h, c)) == (IsOdd(h) != IsOdd(c as int))
  {
    var x := 31 * h + c as int;
    var r := ToInt32(x);
    var k := (x - r) / TwoTo32;
    assert x - r == k * TwoTo32;
    ParityShift(x, -k * TwoTo31);
    assert r == x + 2 * (-k * TwoTo31);
    ParityShift(h + c as int, 15 * h);
    assert x == h + c as int + 2 * (15 * h);
    OddAdd(h, c as int);
  }

  lemma {:induction false} HashFromParity(h: int, s: string)
    ensures IsOdd(HashFrom(h, s)) == (IsOdd(h) != OddSum(s))
    decreases |s|
  {
    if s != [] {
      StepParity(h, s[0]);
      HashFromParity(Step(h, s[0]), s[1..]);
    }
  }

  /** The hash is odd exactly when the code units it folds add up to an odd
      number. */
  lemma HashParity(s: string)
    ensures IsOdd(Hash(s)) == OddSum(s)
  {
    HashFromParity(0, s);
  }

  /** The URL-safe replacements change a code unit by 2 or by 48, so they
      keep the parity of the sum. */
  lemma {:induction false} UrlAlphabetParity(s: string)
    ensures OddSum(ToUrlAlphabet(s)) == OddSum(s)
    decreases |s|
  {
    if s != [] {
      var u := ToUrlAlphabet(s);
      assert u[0] == ToUrlChar(s[0]) && u[1..] == ToUrlAlphabet(s[1..]);
      UrlAlphabetParity(s[1..]);
    }
  }

  lemma AbsParity(x: int)
    ensures IsOdd(Abs(x)) == IsOdd(x)
  {
    ParityShift(-x, x);
  }

  /** The signer is sensitive to every payload change that flips the parity
      of the payload's code-unit sum: the two hashes then differ in parity,
      so their magnitudes differ, and so do the signatures. */
  lemma SignatureParitySensitive(header: string, p1: string, p2: string, secret: string)
    requires OddSum(p1) != OddSum(p2)
    ensures Signature(header, p1, secret) != Signature(header, p2, secret)
  {
    InputParity(header, p1, secret);
    InputParity(header, p2, secret);
    HashMagnitudesDiffer(header + "." + p1 + "." + secret, header + "." + p2 + "." + secret);
    SignatureSeparates(header, p1, p2, secret);
  }

  /** Texts whose code-unit sums differ in parity hash to different
      magnitudes. */
  lemma HashMagnitudesDiffer(i1: string, i2: string)
    requires OddSum(i1) != OddSum(i2)
    ensures Abs(Hash(i1)) != Abs(Hash(i2))
  {
    HashParity(i1);
    HashParity(i2);
    AbsParity(Hash(i1));
    AbsParity(Hash(i2));
  }

  /** The parity of the hashed text splits around the payload. */
  lemma InputParity(header: string, p: string, secret: string)
    ensures OddSum(header + "." + p + "." + secret) == (OddSum(header + ".") != (OddSum(p) != OddSum("." + secret)))
  {
    assert header + "." + p + "." + secret == (header + ".") + (p + ("." + secret));
    OddSumAppend(header + ".", p + ("." + secret));
    OddSumAppend(p, "." + secret);
  }

  /** `mockSignature`, with its hash loop written as the source writes it. */
  method MockSignature(header: string, payload: string, secret: string) returns (sig: string)
    ensures sig == Signature(header, payload, secret)
  {
    var input := header + "." + payload + "." + secret;
    var hash := 0;
    for i := 0 to |input|
      invariant hash == HashFrom(0, input[..i])
      invariant -TwoTo31 <= hash < TwoTo31
    {
      var code := input[i] as int;
      ShiftStepIsRollingStep(hash, input[i]);
      HashFromSnoc(0, input[..i], input[i]);
      assert input[..i + 1] == input[..i] + [input[i]];
      hash := ToInt32(hash * 32) - hash + code;
      hash := ToInt32(hash);
    }
    assert input[..|input|] == input;
    sig := Base64UrlEncode("SIG" + Repeat(Hex(Abs(hash)), 4));
  }

  // ---------------------------------------------------------------------
  // Token shape
  // ---------------------------------------------------------------------

  /** How many times `c` occurs in `s`. */
  function CountChar(s: string, c: char): nat
    decreases |s|
  {
    if s == [] then 0 else (if s[0] == c then 1 else 0) + CountChar(s[1..], c)
  }

  lemma {:induction false} CountCharAppend(a: string, b: string, c: char)
    ensures CountChar(a + b, c) == CountChar(a, c) + CountChar(b, c)
    decreases |a|
  {
    if a == [] {
      assert a + b == b;
    } else {
      assert (a + b)[1..] == a[1..] + b;
      CountCharAppend(a[1..], b, c);
    }
  }

  lemma {:induction false} NoDotInUrlSafe(s: string)
    requires AllUrlSafe(s)
    ensures CountChar(s, '.') == 0
    decreases |s|
  {
    if s != [] {
      NoDotInUrlSafe(s[1..]);
    }
  }

  /** No output of the encoder, not even the `"Error"` sentinel, contains a
      dot, so a dot can only be a segment separator. */
  lemma EncodedHasNoDot(s: string)
    ensures CountChar(Base64UrlEncode(s), '.') == 0
  {
    if IsLatin1(s) {
      NoDotInUrlSafe(Base64UrlEncode(s));
    } else {
      assert AllUrlSafe("Error");
      NoDotInUrlSafe("Error");
    }
  }

  /** Three dot-free segments joined by dots make a text with exactly two
      dots. */
  lemma ThreeSegments(h: string, p: string, sig: string)
    requires CountChar(h, '.') == 0 && CountChar(p, '.') == 0 && CountChar(sig, '.') == 0
    ensures CountChar(h + "." + p + "." + sig, '.') == 2
  {
    CountCharAppend(h, ".", '.');
    CountCharAppend(h + ".", p, '.');
    CountCharAppend(h + "." + p, ".", '.');
    CountCharAppend(h + "." + p + ".", sig, '.');
  }
}
