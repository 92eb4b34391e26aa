/** The anatomy panel: a live encoder that turns a header text and a payload
    text into the three segments of a token.  A text that parses as JSON is
    minified (every whitespace character removed) before it is encoded; any
    other text is encoded as typed.  The signature segment is the mock
    signature of the two encoded segments under the secret `secret`.

    `JSON.parse` is not modelled: whether a text parses is the parameter
    `parses` of the panel. */
module TabAnatomy {
  import opened Base64
  import opened JwtHelpers

  /** The characters the regular-expression class `\s` matches: the
      ECMAScript WhiteSpace and LineTerminator code points. */
  predicate IsJsWhitespace(c: char) {
    c == '\t' || c == '\n' || c == '\U{B}' || c == '\U{C}' || c == '\r' || c == ' ' ||
    c == '\U{A0}' || c == '\U{1680}' || ('\U{2000}' <= c <= '\U{200A}') ||
    c == '\U{2028}' || c == '\U{2029}' || c == '\U{202F}' || c == '\U{205F}' ||
    c == '\U{3000}' || c == '\U{FEFF}'
  }

  predicate NoWhitespace(s: string) {
    forall i :: 0 <= i < |s| ==> !IsJsWhitespace(s[i])
  }

  /** `json.replace(/\s/g, '')`: the text with every whitespace character
      removed, inside string values too. */
  function Minify(s: string): (r: string)
    ensures NoWhitespace(r)
    ensures |r| <= |s|
    decreases |s|
  {
    if s == [] then []
    else if IsJsWhitespace(s[0]) then Minify(s[1..])
    else [s[0]] + Minify(s[1..])
  }

  /** Removing whitespace from both parts is removing it from the whole. */
  lemma {:induction false} MinifyAppend(a: string, b: string)
    ensures Minify(a + b) == Minify(a) + Minify(b)
    decreases |a|
  {
    if a == [] {
      assert a + b == b;
    } else {
      assert (a + b)[1..] == a[1..] + b;
      MinifyAppend(a[1..], b);
    }
  }

  /** A text without whitespace is left as it is; in particular minifying
      twice is minifying once. */
  lemma {:induction false} MinifyKeepsCompact(s: string)
    requires NoWhitespace(s)
    ensures Minify(s) == s
    decreases |s|
  {
    if s != [] {
      MinifyKeepsCompact(s[1..]);
    }
  }

  lemma MinifyIdempotent(s: string)
    ensures Minify(Minify(s)) == Minify(s)
  {
    MinifyKeepsCompact(Minify(s));
  }

  /** Every other character survives, as often as it occurs. */
  lemma {:induction false} MinifyKeepsOthers(s: string, c: char)
    requires !IsJsWhitespace(c)
    ensures CountChar(Minify(s), c) == CountChar(s, c)
    decreases |s|
  {
    if s != [] {
      MinifyKeepsOthers(s[1..], c);
      if !IsJsWhitespace(s[0]) {
        CountCharAppend([s[0]], Minify(s[1..]), c);
      }
    }
  }

  /** The whitespace is removed inside string values as well: `"John Doe"`
      becomes `"JohnDoe"`, whatever separates the two words. */
  lemma MinifyJoinsWords(first: string, space: char, last: string)
    requires NoWhitespace(first) && NoWhitespace(last) && IsJsWhitespace(space)
    ensures Minify(first + [space] + last) == first + last
  {
    assert Minify([space]) == [] by {
      assert [space][1..] == [];
    }
    MinifyAppend(first + [space], last);
    MinifyAppend(first, [space]);
    MinifyKeepsCompact(first);
    MinifyKeepsCompact(last);
    assert Minify(first + [space]) == first + [];
    assert first + [] == first;
  }

  /** Minifying keeps a Latin-1 text Latin-1. */
  lemma {:induction false} MinifyLatin1(s: string)
    ensures IsLatin1(s) ==> IsLatin1(Minify(s))
    decreases |s|
  {
    if s != [] && IsLatin1(s) {
      assert IsLatin1(s[1..]);
      MinifyLatin1(s[1..]);
    }
  }

  /** The text `safeEncode` hands to the encoder. */
  function EncodedText(json: string, parses: string -> bool): string {
    if parses(json) then Minify(json) else json
  }

  /** `safeEncode`: the Base64url text of the minified JSON, or of the raw
      text when it does not parse.  Latin-1 input always encodes to a
      URL-safe segment, never to the sentinel. */
  function SafeEncode(json: string, parses: string -> bool): (r: string)
    ensures IsLatin1(json) ==> r != "Error" && AllUrlSafe(r)
    ensures parses(json) ==> r == Base64UrlEncode(Minify(json))
    ensures !parses(json) ==> r == Base64UrlEncode(json)
  {
    MinifyLatin1(json);
    Base64UrlEncode(EncodedText(json, parses))
  }

  /** Decoding a segment gives back the text that was encoded: the minified
      JSON, or the raw text. */
  lemma SafeEncodeRoundTrip(json: string, parses: string -> bool)
    ensures IsLatin1(json) ==> UrlDecode(SafeEncode(json, parses)) == EncodedText(json, parses)
    ensures IsLatin1(json) && parses(json) ==> NoWhitespace(UrlDecode(SafeEncode(json, parses)))
  {
    MinifyLatin1(json);
    if IsLatin1(json) {
      UrlRoundTrip(EncodedText(json, parses));
    }
  }

  /** Whitespace in a text that parses never shows in its segment. */
  lemma WhitespaceIgnoredWhenParsed(a: string, b: string, parses: string -> bool)
    requires parses(a) && parses(b) && Minify(a) == Minify(b)
    ensures SafeEncode(a, parses) == SafeEncode(b, parses)
  {
  }

  /** The three segments the panel shows. */
  datatype EncodedJwt = EncodedJwt(header: string, payload: string, signature: string)

  /** The segments the effect derives from the two texts. */
  function Derive(headerJson: string, payloadJson: string, parses: string -> bool): (e: EncodedJwt)
    ensures IsLatin1(headerJson) ==> UrlDecode(e.header) == EncodedText(headerJson, parses)
    ensures IsLatin1(payloadJson) ==> UrlDecode(e.payload) == EncodedText(payloadJson, parses)
    ensures e.signature == Signature(e.header, e.payload, "secret")
    ensures AllUrlSafe(e.signature) && e.signature != "Error"
    ensures CountChar(Joined(e), '.') == 2
  {
    var h := SafeEncode(headerJson, parses);
    var p := SafeEncode(payloadJson, parses);
    SafeEncodeRoundTrip(headerJson, parses);
    SafeEncodeRoundTrip(payloadJson, parses);
    var e := EncodedJwt(h, p, Signature(h, p, "secret"));
    EncodedHasNoDot(EncodedText(headerJson, parses));
    EncodedHasNoDot(EncodedText(payloadJson, parses));
    NoDotInUrlSafe(e.signature);
    ThreeSegments(e.header, e.payload, e.signature);
    e
  }

  /** The token text: the segments joined by dots. */
  function Joined(e: EncodedJwt): string {
    e.header + "." + e.payload + "." + e.signature
  }

  const InitialHeader: string := "{\n  \"alg\": \"HS256\",\n  \"typ\": \"JWT\"\n}"
  const InitialPayload: string := "{\n  \"sub\": \"1234567890\",\n  \"name\": \"John Doe\",\n  \"admin\": true\n}"

  /** The panel's state: the two texts being edited and the segments last
      derived from them. */
  class AnatomyPanel {
    const parses: string -> bool
    var headerJson: string
    var payloadJson: string
    var encodedJwt: EncodedJwt

    /** The segments shown are the ones the current texts derive. */
    predicate Synced()
      reads this
    {
      encodedJwt == Derive(headerJson, payloadJson, parses)
    }

    /** The first render, before the effect has run: all segments empty. */
    constructor(parses: string -> bool)
      ensures this.parses == parses
      ensures headerJson == InitialHeader && payloadJson == InitialPayload
      ensures encodedJwt == EncodedJwt("", "", "")
    {
      this.parses := parses;
      headerJson := InitialHeader;
      payloadJson := InitialPayload;
      encodedJwt := EncodedJwt("", "", "");
    }

    /** The effect: encode both texts, sign the two segments, store all
        three. */
    method RunEffect()
      modifies this
      ensures Synced()
      ensures headerJson == old(headerJson) && payloadJson == old(payloadJson)
    {
      var headerEnc := SafeEncode(headerJson, parses);
      var payloadEnc := SafeEncode(payloadJson, parses);
      var sigEnc := MockSignature(headerEnc, payloadEnc, "secret");
      encodedJwt := EncodedJwt(headerEnc, payloadEnc, sigEnc);
    }

    /** Typing in the header box; the effect then runs again. */
    method EditHeader(text: string)
      modifies this
      ensures headerJson == text && payloadJson == old(payloadJson)
      ensures Synced()
    {
      headerJson := text;
      RunEffect();
    }

    /** Typing in the payload box; the effect then runs again. */
    method EditPayload(text: string)
      modifies this
      ensures payloadJson == text && headerJson == old(headerJson)
      ensures Synced()
    {
      payloadJson := text;
      RunEffect();
    }
  }

  /** Reformatting a JSON payload without changing anything but whitespace
      leaves the displayed token unchanged. */
  method ReformatScenario(parses: string -> bool, compact: string, spaced: string) returns (before: string, after: string)
    requires parses(compact) && parses(spaced) && Minify(compact) == Minify(spaced)
    ensures before == after
  {
    var panel := new AnatomyPanel(parses);
    panel.EditPayload(compact);
    before := Joined(panel.encodedJwt);
    panel.EditPayload(spaced);
    after := Joined(panel.encodedJwt);
  }
}
