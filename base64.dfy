/** The browser's `btoa` and `atob`, modelled as Base64 over Latin-1 code units.

    `btoa` is the Base64 encoding of section 4 of RFC 4648 (with `=` padding);
    it throws when a code unit is above 255.  `atob` is the "forgiving-base64
    decode" of the WHATWG Infra standard: it drops ASCII whitespace, drops one
    or two trailing `=` when the length is a multiple of 4, rejects a length
    that leaves remainder 1, rejects any character outside the standard
    alphabet, and discards the leftover bits of a final partial quantum.
    A JavaScript string is a sequence of code units; each `char` here stands
    for one code unit. */
module Base64 {
  import opened Wrappers

  /** Code units `btoa` accepts: those that fit in one byte. */
  predicate IsLatin1(s: string) {
    forall i :: 0 <= i < |s| ==> s[i] as int < 256
  }

  /** The 64 characters of the standard alphabet (RFC 4648, table 1). */
  predicate IsAlphabetChar(c: char) {
    ('A' <= c <= 'Z') || ('a' <= c <= 'z') || ('0' <= c <= '9') || c == '+' || c == '/'
  }

  predicate AllAlphabet(s: string) {
    forall i :: 0 <= i < |s| ==> IsAlphabetChar(s[i])
  }

  /** The character that encodes the 6-bit value `v`. */
  function Chr(v: int): (c: char)
    requires 0 <= v < 64
    ensures IsAlphabetChar(c)
  {
    if v < 26 then ('A' as int + v) as char
    else if v < 52 then ('a' as int + (v - 26)) as char
    else if v < 62 then ('0' as int + (v - 52)) as char
    else if v == 62 then '+'
    else '/'
  }

  /** The 6-bit value that the alphabet character `c` encodes. */
  function Ord(c: char): (v: int)
    requires IsAlphabetChar(c)
    ensures 0 <= v < 64
  {
    if 'A' <= c <= 'Z' then c as int - 'A' as int
    else if 'a' <= c <= 'z' then c as int - 'a' as int + 26
    else if '0' <= c <= '9' then c as int - '0' as int + 52
    else if c == '+' then 62
    else 63
  }

  lemma OrdChr(v: int)
    requires 0 <= v < 64
    ensures Ord(Chr(v)) == v
  {
  }

  /** Four characters for three bytes. */
  function EncodeQuantum(b0: int, b1: int, b2: int): (r: string)
    requires 0 <= b0 < 256 && 0 <= b1 < 256 && 0 <= b2 < 256
    ensures |r| == 4 && AllAlphabet(r)
  {
    [Chr(b0 / 4), Chr(b0 % 4 * 16 + b1 / 16), Chr(b1 % 16 * 4 + b2 / 64), Chr(b2 % 64)]
  }

  /** Two characters for one trailing byte; the low four bits are zero. */
  function EncodeOne(b0: int): (r: string)
    requires 0 <= b0 < 256
    ensures |r| == 2 && AllAlphabet(r)
  {
    [Chr(b0 / 4), Chr(b0 % 4 * 16)]
  }

  /** Three characters for two trailing bytes; the low two bits are zero. */
  function EncodeTwo(b0: int, b1: int): (r: string)
    requires 0 <= b0 < 256 && 0 <= b1 < 256
    ensures |r| == 3 && AllAlphabet(r)
  {
    [Chr(b0 / 4), Chr(b0 % 4 * 16 + b1 / 16), Chr(b1 % 16 * 4)]
  }

  /** The number of characters `btoa` writes for `n` code units before its
      padding: four per whole group, then two or three for the rest. */
  function UnpaddedLength(n: nat): nat {
    if n == 0 then 0 else if n == 1 then 2 else if n == 2 then 3
    else 4 + UnpaddedLength(n - 3)
  }

  /** The closed form of `UnpaddedLength`; it never leaves remainder 1 mod 4. */
  lemma {:induction false} UnpaddedLengthFormula(n: nat)
    ensures UnpaddedLength(n) == (4 * n + 2) / 3
    ensures UnpaddedLength(n) % 4 != 1
  {
    if n >= 3 {
      UnpaddedLengthFormula(n - 3);
      assert 4 * n + 2 == (4 * (n - 3) + 2) + 4 * 3;
    }
  }

  /** The encoding without its `=` padding: four characters per whole group of
      three code units, then two characters for one trailing unit or three for
      two trailing units (the unused low bits are zero). */
  function EncodeUnpadded(s: string): (r: string)
    requires IsLatin1(s)
    ensures AllAlphabet(r)
    ensures |r| == UnpaddedLength(|s|)
    decreases |s|
  {
    if |s| == 0 then ""
    else if |s| == 1 then EncodeOne(s[0] as int)
    else if |s| == 2 then EncodeTwo(s[0] as int, s[1] as int)
    else
      EncodeQuantum(s[0] as int, s[1] as int, s[2] as int) + EncodeUnpadded(s[3..])
  }

  /** Whole groups of three code units encode independently of what follows. */
  lemma {:induction false} EncodeUnpaddedAppend(a: string, b: string)
    requires |a| % 3 == 0 && IsLatin1(a) && IsLatin1(b)
    ensures IsLatin1(a + b)
    ensures EncodeUnpadded(a + b) == EncodeUnpadded(a) + EncodeUnpadded(b)
    decreases |a|
  {
    if a == [] {
      assert a + b == b;
    } else {
      assert (a + b)[3..] == a[3..] + b;
      EncodeUnpaddedAppend(a[3..], b);
    }
  }

  /** `n` copies of the padding character. */
  function Equals(n: nat): (r: string)
    ensures |r| == n && forall i :: 0 <= i < n ==> r[i] == '='
  {
    if n == 0 then "" else Equals(n - 1) + "="
  }

  /** How many `=` close the encoding of `n` code units. */
  function PadCount(n: nat): nat {
    (3 - n % 3) % 3
  }

  /** The unpadded length plus the padding is the next multiple of four. */
  lemma PaddedLength(n: nat)
    ensures (4 * n + 2) / 3 + PadCount(n) == 4 * ((n + 2) / 3)
    ensures ((4 * n + 2) / 3 + PadCount(n)) % 4 == 0
    ensures PadCount(n) <= 2
    ensures (4 * n + 2) / 3 % 4 != 1
  {
    var q, m := n / 3, n % 3;
    assert n == 3 * q + m;
    if m == 0 {
      assert (4 * n + 2) / 3 == 4 * q;
    } else if m == 1 {
      assert (4 * n + 2) / 3 == 4 * q + 2;
    } else {
      assert (4 * n + 2) / 3 == 4 * q + 3;
    }
  }

  /** Section 4 of RFC 4648: the unpadded characters, then `=` up to a
      multiple of four. */
  function Encode(s: string): (r: string)
    requires IsLatin1(s)
    ensures |r| % 4 == 0 && |r| == 4 * ((|s| + 2) / 3)
  {
    PaddedLength(|s|);
    UnpaddedLengthFormula(|s|);
    var u, pad := EncodeUnpadded(s), Equals(PadCount(|s|));
    assert |u + pad| == |u| + |pad|;
    u + pad
  }

  /** `btoa`: throws (here `None`) exactly when a code unit is above 255. */
  function Btoa(s: string): (r: Option<string>)
    ensures r.None? <==> !IsLatin1(s)
    ensures r.Some? ==> |r.value| % 4 == 0
  {
    if IsLatin1(s) then Some(Encode(s)) else None
  }

  /** ASCII whitespace as the WHATWG Infra standard defines it. */
  predicate IsAsciiWhitespace(c: char) {
    c == '\t' || c == '\n' || c == '\U{C}' || c == '\r' || c == ' '
  }

  function RemoveAsciiWhitespace(s: string): (r: string)
    ensures |r| <= |s|
    ensures forall i :: 0 <= i < |r| ==> !IsAsciiWhitespace(r[i])
  {
    if s == [] then ""
    else if IsAsciiWhitespace(s[|s| - 1]) then RemoveAsciiWhitespace(s[..|s| - 1])
    else RemoveAsciiWhitespace(s[..|s| - 1]) + [s[|s| - 1]]
  }

  /** Step 2 of forgiving-base64 decode: when the length is a multiple of
      four, one or two trailing `=` are dropped. */
  function DropPadding(d: string): (r: string)
    ensures r <= d && |d| - 2 <= |r|
  {
    if |d| % 4 == 0 && |d| >= 2 && d[|d| - 1] == '=' && d[|d| - 2] == '=' then d[..|d| - 2]
    else if |d| % 4 == 0 && |d| >= 1 && d[|d| - 1] == '=' then d[..|d| - 1]
    else d
  }

  /** Three bytes from four characters. */
  function DecodeQuantum(c0: char, c1: char, c2: char, c3: char): (r: string)
    requires IsAlphabetChar(c0) && IsAlphabetChar(c1) && IsAlphabetChar(c2) && IsAlphabetChar(c3)
    ensures |r| == 3 && IsLatin1(r)
  {
    [(Ord(c0) * 4 + Ord(c1) / 16) as char,
     (Ord(c1) % 16 * 16 + Ord(c2) / 4) as char,
     (Ord(c2) % 4 * 64 + Ord(c3)) as char]
  }

  /** One byte from a final group of two characters. */
  function DecodeTwo(c0: char, c1: char): (r: string)
    requires IsAlphabetChar(c0) && IsAlphabetChar(c1)
    ensures |r| == 1 && IsLatin1(r)
  {
    [(Ord(c0) * 4 + Ord(c1) / 16) as char]
  }

  /** Two bytes from a final group of three characters. */
  function DecodeThree(c0: char, c1: char, c2: char): (r: string)
    requires IsAlphabetChar(c0) && IsAlphabetChar(c1) && IsAlphabetChar(c2)
    ensures |r| == 2 && IsLatin1(r)
  {
    [(Ord(c0) * 4 + Ord(c1) / 16) as char, (Ord(c1) % 16 * 16 + Ord(c2) / 4) as char]
  }

  /** Decodes alphabet characters four at a time; a final group of two or
      three characters yields one or two bytes and its leftover bits are
      discarded. */
  function DecodeUnpadded(d: string): (r: string)
    requires AllAlphabet(d) && |d| % 4 != 1
    ensures IsLatin1(r)
    ensures |r| == |d| * 3 / 4
    decreases |d|
  {
    if |d| == 0 then ""
    else if |d| == 2 then DecodeTwo(d[0], d[1])
    else if |d| == 3 then DecodeThree(d[0], d[1], d[2])
    else
      var rest := d[4..];
      DropQuantum(d);
      DecodeQuantum(d[0], d[1], d[2], d[3]) + DecodeUnpadded(rest)
  }

  /** What is left after the first four characters is again decodable, and
      decodes to three fewer bytes. */
  lemma DropQuantum(d: string)
    requires AllAlphabet(d) && |d| % 4 != 1 && |d| >= 4
    ensures AllAlphabet(d[4..]) && |d[4..]| % 4 != 1
    ensures |d| * 3 / 4 == 3 + |d[4..]| * 3 / 4
  {
    var n := |d|;
    assert |d[4..]| == n - 4;
    assert (n - 4) * 3 == n * 3 - 12;
  }

  /** `atob`: throws (here `None`) on a bad length or a character outside the
      alphabet once whitespace and padding are gone. */
  function Atob(s: string): (r: Option<string>)
    ensures r.Some? ==> IsLatin1(r.value)
  {
    var d := DropPadding(RemoveAsciiWhitespace(s));
    if |d| % 4 == 1 || !AllAlphabet(d) then None else Some(DecodeUnpadded(d))
  }

  /** Dividing a value built from a high part and a low part recovers both. */
  lemma Split16(a: int, t: int)
    requires 0 <= a && 0 <= t < 16
    ensures (a * 16 + t) / 16 == a && (a * 16 + t) % 16 == t
  {
  }

  lemma Split4(a: int, t: int)
    requires 0 <= a && 0 <= t < 4
    ensures (a * 4 + t) / 4 == a && (a * 4 + t) % 4 == t
  {
  }

  /** Decoding four characters undoes encoding three bytes. */
  lemma QuantumRoundTrip(b0: int, b1: int, b2: int)
    requires 0 <= b0 < 256 && 0 <= b1 < 256 && 0 <= b2 < 256
    ensures var e := EncodeQuantum(b0, b1, b2);
            DecodeQuantum(e[0], e[1], e[2], e[3]) == [b0 as char, b1 as char, b2 as char]
  {
    var v0, v1, v2, v3 := b0 / 4, b0 % 4 * 16 + b1 / 16, b1 % 16 * 4 + b2 / 64, b2 % 64;
    QuantumSextets(b0, b1, b2);
    var e := EncodeQuantum(b0, b1, b2);
    OrdChr(v0);
    OrdChr(v1);
    OrdChr(v2);
    OrdChr(v3);
    assert Ord(e[0]) == v0 && Ord(e[1]) == v1 && Ord(e[2]) == v2 && Ord(e[3]) == v3;
  }

  /** The four 6-bit values of a quantum put back together give its bytes. */
  lemma QuantumSextets(b0: int, b1: int, b2: int)
    requires 0 <= b0 < 256 && 0 <= b1 < 256 && 0 <= b2 < 256
    ensures var v0, v1, v2, v3 := b0 / 4, b0 % 4 * 16 + b1 / 16, b1 % 16 * 4 + b2 / 64, b2 % 64;
            0 <= v0 < 64 && 0 <= v1 < 64 && 0 <= v2 < 64 && 0 <= v3 < 64 &&
            v0 * 4 + v1 / 16 == b0 && v1 % 16 * 16 + v2 / 4 == b1 && v2 % 4 * 64 + v3 == b2
  {
    Split16(b0 % 4, b1 / 16);
    Split4(b1 % 16, b2 / 64);
  }

  /** One trailing code unit: its two characters decode back to it. */
  lemma OneUnitRoundTrip(b0: int)
    requires 0 <= b0 < 256
    ensures var e := EncodeOne(b0); DecodeTwo(e[0], e[1]) == [b0 as char]
  {
    var v0, v1 := b0 / 4, b0 % 4 * 16;
    OrdChr(v0);
    OrdChr(v1);
    Split16(b0 % 4, 0);
    assert v0 * 4 + v1 / 16 == b0;
  }

  /** Two trailing code units: their three characters decode back to them. */
  lemma TwoUnitRoundTrip(b0: int, b1: int)
    requires 0 <= b0 < 256 && 0 <= b1 < 256
    ensures var e := EncodeTwo(b0, b1); DecodeThree(e[0], e[1], e[2]) == [b0 as char, b1 as char]
  {
    var v0, v1, v2 := b0 / 4, b0 % 4 * 16 + b1 / 16, b1 % 16 * 4;
    OrdChr(v0);
    OrdChr(v1);
    OrdChr(v2);
    Split16(b0 % 4, b1 / 16);
    Split4(b1 % 16, 0);
    assert v0 * 4 + v1 / 16 == b0;
    assert v1 % 16 * 16 + v2 / 4 == b1;
  }

  /** One or two code units: the short final group decodes back. */
  lemma ShortRoundTrip(s: string)
    requires IsLatin1(s) && 1 <= |s| <= 2
    ensures DecodeUnpadded(EncodeUnpadded(s)) == s
  {
    if |s| == 1 {
      OneUnitDecodes(s);
    } else {
      TwoUnitsDecode(s);
    }
  }

  lemma OneUnitDecodes(s: string)
    requires IsLatin1(s) && |s| == 1
    ensures DecodeUnpadded(EncodeUnpadded(s)) == s
  {
    var e := EncodeUnpadded(s);
    assert e == EncodeOne(s[0] as int);
    OneUnitRoundTrip(s[0] as int);
    assert DecodeUnpadded(e) == DecodeTwo(e[0], e[1]);
    assert s == [s[0]];
  }

  lemma TwoUnitsDecode(s: string)
    requires IsLatin1(s) && |s| == 2
    ensures DecodeUnpadded(EncodeUnpadded(s)) == s
  {
    var e := EncodeUnpadded(s);
    assert e == EncodeTwo(s[0] as int, s[1] as int);
    TwoUnitRoundTrip(s[0] as int, s[1] as int);
    assert DecodeUnpadded(e) == DecodeThree(e[0], e[1], e[2]);
    assert s == [s[0], s[1]];
  }

  /** A leading group of four characters decodes on its own. */
  lemma DecodeUnpaddedStep(q: string, rest: string)
    requires |q| == 4 && AllAlphabet(q) && AllAlphabet(rest) && |rest| % 4 != 1
    ensures AllAlphabet(q + rest) && |q + rest| % 4 != 1
    ensures DecodeUnpadded(q + rest) == DecodeQuantum(q[0], q[1], q[2], q[3]) + DecodeUnpadded(rest)
  {
    var d := q + rest;
    assert d[4..] == rest;
    assert d[0] == q[0] && d[1] == q[1] && d[2] == q[2] && d[3] == q[3];
  }

  /** Decoding the unpadded encoding gives back the code units. */
  lemma {:induction false} UnpaddedRoundTrip(s: string)
    requires IsLatin1(s)
    ensures var e := EncodeUnpadded(s); |e| % 4 != 1 && DecodeUnpadded(e) == s
    decreases |s|
  {
    UnpaddedLengthFormula(|s|);
    if 1 <= |s| <= 2 {
      ShortRoundTrip(s);
    } else if |s| >= 3 {
      var q := EncodeQuantum(s[0] as int, s[1] as int, s[2] as int);
      var rest := EncodeUnpadded(s[3..]);
      UnpaddedRoundTrip(s[3..]);
      assert EncodeUnpadded(s) == q + rest;
      DecodeUnpaddedStep(q, rest);
      QuantumRoundTrip(s[0] as int, s[1] as int, s[2] as int);
      SplitThree(s);
    }
  }

  lemma SplitThree(s: string)
    requires |s| >= 3
    ensures s == [s[0], s[1], s[2]] + s[3..]
  {
  }

  lemma {:induction false} RemoveAsciiWhitespaceKeeps(s: string)
    requires forall i :: 0 <= i < |s| ==> !IsAsciiWhitespace(s[i])
    ensures RemoveAsciiWhitespace(s) == s
    decreases |s|
  {
    if s != [] {
      RemoveAsciiWhitespaceKeeps(s[..|s| - 1]);
    }
  }

  /** A character that is not whitespace survives whitespace removal. */
  lemma {:induction false} RemoveAsciiWhitespaceKeepsChar(s: string, i: int)
    requires 0 <= i < |s| && !IsAsciiWhitespace(s[i])
    ensures s[i] in RemoveAsciiWhitespace(s)
    decreases |s|
  {
    if i < |s| - 1 {
      RemoveAsciiWhitespaceKeepsChar(s[..|s| - 1], i);
    }
  }

  /** No character of a padded encoding is whitespace. */
  lemma EncodeHasNoWhitespace(s: string)
    requires IsLatin1(s)
    ensures forall i :: 0 <= i < |Encode(s)| ==> !IsAsciiWhitespace(Encode(s)[i])
  {
    var u := EncodeUnpadded(s);
    var p := Equals(PadCount(|s|));
    var e := Encode(s);
    forall i | 0 <= i < |e|
      ensures !IsAsciiWhitespace(e[i])
    {
      if i < |u| {
        assert e[i] == u[i];
      } else {
        assert e[i] == p[i - |u|];
      }
    }
  }

  /** The forgiving decoder drops exactly the padding that the encoder added. */
  lemma DropEncodePadding(s: string)
    requires IsLatin1(s)
    ensures DropPadding(Encode(s)) == EncodeUnpadded(s)
  {
    var n := |s|;
    var u, k := EncodeUnpadded(s), PadCount(n);
    PaddedLength(n);
    UnpaddedLengthFormula(n);
    assert k > 0 ==> n > 0;
    DropAppendedPadding(u, k);
  }

  /** Up to two `=` that complete a group are removed, and only they. */
  lemma DropAppendedPadding(u: string, k: nat)
    requires AllAlphabet(u) && k <= 2 && (|u| + k) % 4 == 0 && (k > 0 ==> u != [])
    ensures DropPadding(u + Equals(k)) == u
  {
    var d := u + Equals(k);
    if k == 2 {
      assert d[..|d| - 2] == u;
    } else if k == 1 {
      assert d[|d| - 2] == u[|u| - 1] && IsAlphabetChar(u[|u| - 1]);
      assert d[..|d| - 1] == u;
    } else {
      assert d == u;
      assert u == [] || IsAlphabetChar(u[|u| - 1]);
    }
  }

  /** Once whitespace and padding are gone, `atob` decodes what is left if
      it is made of whole or final groups of alphabet characters. */
  lemma AtobAccepts(s: string, d: string)
    requires DropPadding(RemoveAsciiWhitespace(s)) == d
    requires AllAlphabet(d) && |d| % 4 != 1
    ensures Atob(s) == Some(DecodeUnpadded(d))
  {
  }

  /** `atob` inverts `btoa`: every padded encoding of section 4 of RFC 4648
      is accepted by the forgiving decoder and gives back its input. */
  lemma EncodeRoundTrip(s: string)
    requires IsLatin1(s)
    ensures Atob(Encode(s)) == Some(s)
  {
    var u := EncodeUnpadded(s);
    EncodeCleansToUnpadded(s);
    PaddedLength(|s|);
    AtobAccepts(Encode(s), u);
    UnpaddedRoundTrip(s);
  }

  /** Stripping whitespace and padding from an encoding leaves exactly its
      unpadded characters. */
  lemma EncodeCleansToUnpadded(s: string)
    requires IsLatin1(s)
    ensures DropPadding(RemoveAsciiWhitespace(Encode(s))) == EncodeUnpadded(s)
  {
    EncodeHasNoWhitespace(s);
    RemoveAsciiWhitespaceKeeps(Encode(s));
    DropEncodePadding(s);
  }

  /** A character outside the alphabet, other than padding and whitespace,
      makes `atob` throw wherever it stands. */
  lemma ForeignCharRejected(s: string, i: int)
    requires 0 <= i < |s|
    requires !IsAlphabetChar(s[i]) && s[i] != '=' && !IsAsciiWhitespace(s[i])
    ensures Atob(s) == None
  {
    var w := RemoveAsciiWhitespace(s);
    RemoveAsciiWhitespaceKeepsChar(s, i);
    var j :| 0 <= j < |w| && w[j] == s[i];
    var d := DropPadding(w);
    assert j < |d| && d[j] == w[j];
  }
}
