/** The signature panel: a simulated attacker changes the role claim of a
    token without the secret, and a simulated server recomputes the
    signature and compares it with the one attached.  The attached signature
    is always the one computed over the payload the token was issued with. */
module TabSignature {
  import opened Base64
  import opened JwtHelpers

  datatype Status = Valid | Invalid | Unchecked

  /** The server's secret, the fixed header of the demo token and the role
      the token is issued for. */
  const Secret: string := "mySuperSecretKey"
  const Header: string := "{\"alg\":\"HS256\",\"typ\":\"JWT\"}"
  const IssuedRole: string := "user"

  /** `JSON.stringify({ role })` for roles that need no escaping. */
  function RolePayload(role: string): string {
    PayloadOpen + (role + "\"}")
  }

  /** The opening of every role payload, `{"role":"`: three whole Base64
      groups, so it encodes the same whatever role follows. */
  const PayloadOpen: string := "{\"role\":\""

  function EncodedPayload(role: string): string {
    Base64UrlEncode(RolePayload(role))
  }

  /** The signature the server computes over a token carrying `role`. */
  function SignatureFor(header: string, secret: string, role: string): string {
    Signature(Base64UrlEncode(header), EncodedPayload(role), secret)
  }

  /** The token sent to the server: the current payload under the signature
      of the issued one. */
  function TokenFor(header: string, secret: string, issued: string, role: string): string {
    Base64UrlEncode(header) + "." + EncodedPayload(role) + "." + SignatureFor(header, secret, issued)
  }

  /** What the server decides: the recomputed signature over the received
      payload either matches the attached one or it does not.  An untampered
      token always verifies. */
  function VerifyOutcome(header: string, secret: string, issued: string, role: string): (s: Status)
    ensures s != Unchecked
    ensures role == issued ==> s == Valid
  {
    if SignatureFor(header, secret, role) == SignatureFor(header, secret, issued) then Valid else Invalid
  }

  /** The displayed token always has exactly two separators, whatever the
      header, the secret and the roles. */
  lemma TokenHasTwoDots(header: string, secret: string, issued: string, role: string)
    ensures CountChar(TokenFor(header, secret, issued, role), '.') == 2
  {
    var h, p, sig := Base64UrlEncode(header), EncodedPayload(role), SignatureFor(header, secret, issued);
    EncodedHasNoDot(header);
    EncodedHasNoDot(RolePayload(role));
    NoDotInUrlSafe(sig);
    ThreeSegments(h, p, sig);
  }

  /** The payload segment of the displayed token decodes to the payload the
      attacker wrote. */
  lemma PayloadSegmentDecodes(role: string)
    requires IsLatin1(role)
    ensures UrlDecode(EncodedPayload(role)) == RolePayload(role)
  {
    RolePayloadLatin1(role);
    UrlRoundTrip(RolePayload(role));
  }

  /** Role payloads of Latin-1 roles are Latin-1, so `btoa` accepts them. */
  lemma RolePayloadLatin1(role: string)
    requires IsLatin1(role)
    ensures IsLatin1(RolePayload(role))
  {
    PayloadOpenGroups();
    ClosedLatin1(role);
    Latin1Concat(PayloadOpen, role + "\"}");
  }

  /** The closing `"}` keeps a Latin-1 role Latin-1. */
  lemma ClosedLatin1(role: string)
    requires IsLatin1(role)
    ensures IsLatin1(role + "\"}")
  {
    var close := "\"}";
    assert IsLatin1(close);
    Latin1Concat(role, close);
  }

  lemma Latin1Concat(a: string, b: string)
    requires IsLatin1(a) && IsLatin1(b)
    ensures IsLatin1(a + b)
  {
  }

  /** A payload whose encoded tail flips the parity of the code-unit sum
      encodes to a segment whose sum has the other parity. */
  lemma EncodedPayloadParity(r1: string, r2: string)
    requires IsLatin1(r1) && IsLatin1(r2)
    requires OddSum(EncodeUnpadded(r1 + "\"}")) != OddSum(EncodeUnpadded(r2 + "\"}"))
    ensures OddSum(EncodedPayload(r1)) != OddSum(EncodedPayload(r2))
  {
    ClosedLatin1(r1);
    ClosedLatin1(r2);
    PayloadOpenGroups();
    OpenedParity(PayloadOpen, r1 + "\"}", r2 + "\"}");
  }

  /** `PrefixedParity` read through `base64UrlEncode`. */
  lemma OpenedParity(open: string, t1: string, t2: string)
    requires |open| % 3 == 0 && IsLatin1(open) && IsLatin1(t1) && IsLatin1(t2)
    requires OddSum(EncodeUnpadded(t1)) != OddSum(EncodeUnpadded(t2))
    ensures OddSum(Base64UrlEncode(open + t1)) != OddSum(Base64UrlEncode(open + t2))
  {
    PrefixedParity(open, t1, t2);
  }

  lemma PayloadOpenGroups()
    ensures |PayloadOpen| % 3 == 0 && IsLatin1(PayloadOpen)
  {
    assert |PayloadOpen| == 9;
  }

  /** Behind a common prefix of whole Base64 groups, two texts whose
      encodings differ in the parity of their code-unit sums still do so
      after the switch to the URL-safe alphabet. */
  lemma PrefixedParity(open: string, t1: string, t2: string)
    requires |open| % 3 == 0 && IsLatin1(open) && IsLatin1(t1) && IsLatin1(t2)
    requires OddSum(EncodeUnpadded(t1)) != OddSum(EncodeUnpadded(t2))
    ensures IsLatin1(open + t1) && IsLatin1(open + t2)
    ensures OddSum(ToUrlAlphabet(EncodeUnpadded(open + t1))) != OddSum(ToUrlAlphabet(EncodeUnpadded(open + t2)))
  {
    PrefixedSplit(open, t1);
    PrefixedSplit(open, t2);
  }

  /** The parity of an encoding's code-unit sum, split at whole groups, in
      either alphabet. */
  lemma PrefixedSplit(open: string, t: string)
    requires |open| % 3 == 0 && IsLatin1(open) && IsLatin1(t)
    ensures IsLatin1(open + t)
    ensures OddSum(ToUrlAlphabet(EncodeUnpadded(open + t))) == (OddSum(EncodeUnpadded(open)) != OddSum(EncodeUnpadded(t)))
  {
    EncodeUnpaddedAppend(open, t);
    UrlAlphabetParity(EncodeUnpadded(open + t));
    OddSumAppend(EncodeUnpadded(open), EncodeUnpadded(t));
  }

  /** Changing the role without the secret is detected whenever the encoded
      tails of the two payloads differ in the parity of their code-unit sums:
      the server's recomputed signature then differs from the attached one. */
  lemma TamperedRoleRejected(header: string, secret: string, issued: string, role: string)
    requires IsLatin1(issued) && IsLatin1(role)
    requires OddSum(EncodeUnpadded(issued + "\"}")) != OddSum(EncodeUnpadded(role + "\"}"))
    ensures VerifyOutcome(header, secret, issued, role) == Invalid
  {
    EncodedPayloadParity(issued, role);
    SignatureParitySensitive(Base64UrlEncode(header), EncodedPayload(issued), EncodedPayload(role), secret);
  }

  /** The parity of four code units. */
  lemma OddSumOfFour(e: string)
    requires |e| == 4
    ensures OddSum(e) == (IsOdd(e[0] as int) != (IsOdd(e[1] as int) != (IsOdd(e[2] as int) != IsOdd(e[3] as int))))
  {
    var e1, e2, e3 := e[1..], e[2..], e[3..];
    assert e1[1..] == e2 && e2[1..] == e3 && e3[1..] == [];
    assert e1[0] == e[1] && e2[0] == e[2] && e3[0] == e[3];
    assert OddSum(e3) == IsOdd(e[3] as int);
    assert OddSum(e2) == (IsOdd(e[2] as int) != OddSum(e3));
    assert OddSum(e1) == (IsOdd(e[1] as int) != OddSum(e2));
  }

  /** The parity of two code units. */
  lemma OddSumOfTwo(e: string)
    requires |e| == 2
    ensures OddSum(e) == (IsOdd(e[0] as int) != IsOdd(e[1] as int))
  {
    var e1 := e[1..];
    assert e1[1..] == [] && e1[0] == e[1];
    assert OddSum(e1) == IsOdd(e[1] as int);
  }

  /** `use` encodes to `dXNl`, of even code-unit sum. */
  lemma EncodeUse(x: string)
    requires x == "use"
    ensures IsLatin1(x) && EncodeUnpadded(x) == "dXNl"
    ensures !OddSum(EncodeUnpadded(x))
  {
    assert x[0] as int == 117 && x[1] as int == 115 && x[2] as int == 101 && x[3..] == [];
    assert EncodeUnpadded(x) == EncodeQuantum(117, 115, 101);
    assert 117 / 4 == 29 && 117 % 4 * 16 + 115 / 16 == 23 && 115 % 16 * 4 + 101 / 64 == 13 && 101 % 64 == 37;
    var e := EncodeQuantum(117, 115, 101);
    assert e == [Chr(29), Chr(23), Chr(13), Chr(37)];
    assert Chr(29) == 'd' && Chr(23) == 'X' && Chr(13) == 'N' && Chr(37) == 'l';
    OddSumOfFour(e);
  }

  /** `r"}` encodes to `ciJ9`, of odd code-unit sum. */
  lemma EncodeRClose(x: string)
    requires x == "r\"}"
    ensures IsLatin1(x) && EncodeUnpadded(x) == "ciJ9"
    ensures OddSum(EncodeUnpadded(x))
  {
    assert x[0] as int == 114 && x[1] as int == 34 && x[2] as int == 125 && x[3..] == [];
    assert EncodeUnpadded(x) == EncodeQuantum(114, 34, 125);
    assert 114 / 4 == 28 && 114 % 4 * 16 + 34 / 16 == 34 && 34 % 16 * 4 + 125 / 64 == 9 && 125 % 64 == 61;
    var e := EncodeQuantum(114, 34, 125);
    assert e == [Chr(28), Chr(34), Chr(9), Chr(61)];
    assert Chr(28) == 'c' && Chr(34) == 'i' && Chr(9) == 'J' && Chr(61) == '9';
    OddSumOfFour(e);
  }

  /** `adm` encodes to `YWRt`, of even code-unit sum. */
  lemma EncodeAdm(x: string)
    requires x == "adm"
    ensures IsLatin1(x) && EncodeUnpadded(x) == "YWRt"
    ensures !OddSum(EncodeUnpadded(x))
  {
    assert x[0] as int == 97 && x[1] as int == 100 && x[2] as int == 109 && x[3..] == [];
    assert EncodeUnpadded(x) == EncodeQuantum(97, 100, 109);
    assert 97 / 4 == 24 && 97 % 4 * 16 + 100 / 16 == 22 && 100 % 16 * 4 + 109 / 64 == 17 && 109 % 64 == 45;
    var e := EncodeQuantum(97, 100, 109);
    assert e == [Chr(24), Chr(22), Chr(17), Chr(45)];
    assert Chr(24) == 'Y' && Chr(22) == 'W' && Chr(17) == 'R' && Chr(45) == 't';
    OddSumOfFour(e);
  }

  /** `in"` encodes to `aW4i`, of odd code-unit sum. */
  lemma EncodeInQuote(x: string)
    requires x == "in\""
    ensures IsLatin1(x) && EncodeUnpadded(x) == "aW4i"
    ensures OddSum(EncodeUnpadded(x))
  {
    assert x[0] as int == 105 && x[1] as int == 110 && x[2] as int == 34 && x[3..] == [];
    assert EncodeUnpadded(x) == EncodeQuantum(105, 110, 34);
    assert 105 / 4 == 26 && 105 % 4 * 16 + 110 / 16 == 22 && 110 % 16 * 4 + 34 / 64 == 56 && 34 % 64 == 34;
    var e := EncodeQuantum(105, 110, 34);
    assert e == [Chr(26), Chr(22), Chr(56), Chr(34)];
    assert Chr(26) == 'a' && Chr(22) == 'W' && Chr(56) == '4' && Chr(34) == 'i';
    OddSumOfFour(e);
  }

  /** `}` encodes to `fQ`, of odd code-unit sum. */
  lemma EncodeBrace(x: string)
    requires x == "}"
    ensures IsLatin1(x) && EncodeUnpadded(x) == "fQ"
    ensures OddSum(EncodeUnpadded(x))
  {
    assert x[0] as int == 125;
    assert EncodeUnpadded(x) == EncodeOne(125);
    assert 125 / 4 == 31 && 125 % 4 * 16 == 16;
    var e := EncodeOne(125);
    assert e == [Chr(31), Chr(16)];
    assert Chr(31) == 'f' && Chr(16) == 'Q';
    OddSumOfTwo(e);
  }

  /** The parity of an encoding's code-unit sum splits at whole groups. */
  lemma GroupsParity(a: string, b: string)
    requires |a| % 3 == 0 && IsLatin1(a) && IsLatin1(b)
    ensures IsLatin1(a + b) && OddSum(EncodeUnpadded(a + b)) == (OddSum(EncodeUnpadded(a)) != OddSum(EncodeUnpadded(b)))
  {
    EncodeUnpaddedAppend(a, b);
    OddSumAppend(EncodeUnpadded(a), EncodeUnpadded(b));
  }

  /** `user"}` encodes to `dXNl` `ciJ9`, whose code units sum to 709. */
  lemma UserTail(role: string)
    requires role == "user"
    ensures IsLatin1(role) && IsLatin1(role + "\"}")
    ensures OddSum(EncodeUnpadded(role + "\"}"))
  {
    var x, y := "use", "r\"}";
    assert role + "\"}" == x + y;
    EncodeUse(x);
    EncodeRClose(y);
    GroupsParity(x, y);
  }

  /** `admin"}` encodes to `YWRt` `aW4i` `fQ`, whose code units sum to 898. */
  lemma AdminTail(role: string)
    requires role == "admin"
    ensures IsLatin1(role) && IsLatin1(role + "\"}")
    ensures !OddSum(EncodeUnpadded(role + "\"}"))
  {
    var x, y, z := "adm", "in\"", "}";
    assert role + "\"}" == x + (y + z);
    EncodeAdm(x);
    EncodeInQuote(y);
    EncodeBrace(z);
    assert |y| == 3;
    GroupsParity(y, z);
    GroupsParity(x, y + z);
  }

  /** The panel's state: the token's fixed header, the server's secret and
      the issued role, the role the attacker has written into the payload
      and the verdict shown. */
  class SignaturePanel {
    const header: string
    const secret: string
    const issued: string
    var tamperedRole: string
    var status: Status

    /** The verdict shown is never stale: it is either not yet computed or
        the server's verdict on the token currently displayed. */
    predicate Consistent()
      reads this
    {
      status == Unchecked || status == VerifyOutcome(header, secret, issued, tamperedRole)
    }

    constructor()
      ensures Consistent()
      ensures header == Header && secret == Secret && issued == IssuedRole
      ensures tamperedRole == IssuedRole && status == Valid
    {
      header := Header;
      secret := Secret;
      issued := IssuedRole;
      tamperedRole := IssuedRole;
      status := Valid;
    }

    /** The token displayed: header, current payload, original signature.
        It always has the three-segment form. */
    function DisplayedToken(): (t: string)
      reads this
      ensures CountChar(t, '.') == 2
    {
      TokenHasTwoDots(header, secret, issued, tamperedRole);
      TokenFor(header, secret, issued, tamperedRole)
    }

    /** The attacker sets the role to `admin`; the verdict is cleared. */
    method HandleTamper()
      modifies this
      requires Consistent()
      ensures Consistent()
      ensures tamperedRole == "admin" && status == Unchecked
    {
      tamperedRole := "admin";
      status := Unchecked;
    }

    /** The server recomputes the signature over the received payload with
        its secret and compares it with the attached one. */
    method HandleVerify()
      modifies this
      requires Consistent()
      ensures Consistent()
      ensures tamperedRole == old(tamperedRole)
      ensures status == VerifyOutcome(header, secret, issued, tamperedRole)
    {
      var encodedHeader := Base64UrlEncode(header);
      var validSignature := MockSignature(encodedHeader, EncodedPayload(issued), secret);
      var calculated := MockSignature(encodedHeader, EncodedPayload(tamperedRole), secret);
      if calculated == validSignature {
        status := Valid;
      } else {
        status := Invalid;
      }
    }

    /** Back to the untampered token, shown as valid. */
    method HandleReset()
      modifies this
      ensures Consistent()
      ensures tamperedRole == issued && status == Valid
    {
      tamperedRole := issued;
      status := Valid;
    }
  }

  /** The demo as a user runs it: the untampered token verifies, the
      tampered one is rejected. */
  method TamperScenario() returns (before: Status, after: Status)
    ensures before == Valid && after == Invalid
  {
    var panel := new SignaturePanel();
    panel.HandleVerify();
    before := panel.status;
    panel.HandleTamper();
    panel.HandleVerify();
    after := panel.status;
    UserTail(panel.issued);
    AdminTail(panel.tamperedRole);
    TamperedRoleRejected(panel.header, panel.secret, panel.issued, panel.tamperedRole);
  }
}
