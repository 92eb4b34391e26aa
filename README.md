# JWT teaching app: codec, toy signer and panel state machines

This project models the logic of an interactive JWT tutorial in Dafny.

The helpers in `utils/jwtHelpers.ts` are modelled as written:
- `base64UrlEncode` runs `btoa`, swaps to the URL-safe alphabet and strips the padding. On failure it returns `"Error"`.
- `base64UrlDecode` swaps the alphabet back, re-pads with a loop and calls `atob`. On failure it returns `"Invalid Base64"`.
- `mockSignature` folds a 32-bit rolling hash over `header.payload.secret`. It writes the magnitude in hex four times after `SIG` and encodes the result.

The browser's `btoa` and `atob` are modelled too:
- `btoa` is Base64 of section 4 of RFC 4648 over Latin-1 code units.
- `atob` is the "forgiving-base64 decode" of the WHATWG Infra standard.
- Together with the alphabet swap, the codec is the unpadded Base64url of Appendix C of RFC 7515.

Each panel that holds state is a class, one module per panel:
- `TabSignature`: an attacker edits the role claim and a server re-checks the signature.
- `TabAnatomy`: a live encoder turns two JSON texts into the three token segments.
- `TabQuiz`: a three-question quiz with a score.
- `TabFlow`: a five-stage stepper through a token login.
- `TabConcept`: a server list that grows from 1 to 4 servers.
- `TabSecurity`: three configuration switches.

The handlers are methods whose `ensures` clauses give the new state. The panels' derived values are functions, and lemmas state the properties the panels demonstrate.

Files:
- `wrappers.dfy`: `Option`.
- `base64.dfy`: module `Base64`, `btoa` and `atob`.
- `jwt_helpers.dfy`: module `JwtHelpers`, the three helpers and their properties.
- `tab_signature.dfy`, `tab_anatomy.dfy`, `tab_quiz.dfy`, `tab_flow.dfy`, `tab_concept.dfy`, `tab_security.dfy`: the panels.

## Model

| member | source | states |
|---|---|---|
| Base64.UnpaddedLength | utils/jwtHelpers.ts:3 | the count of characters before the padding: four per whole group, two or three for the rest; its closed form is `UnpaddedLengthFormula` |
| Base64.UnpaddedLengthFormula | utils/jwtHelpers.ts:3 | that count is `(4n+2)/3` and never leaves remainder 1 modulo 4 |
| Base64.EncodeUnpadded | utils/jwtHelpers.ts:3 | the unpadded characters of `btoa`: every character is in the standard alphabet, and there are `(4n+2)/3` of them for `n` code units |
| Base64.EncodeUnpaddedAppend | utils/jwtHelpers.ts:3 | a prefix made of whole 3-unit groups encodes independently of what follows |
| Base64.PaddedLength | utils/jwtHelpers.ts:3 | the unpadded length plus the padding is the next multiple of four; at most two `=`; an unpadded length never leaves remainder 1 mod 4 |
| Base64.Encode | utils/jwtHelpers.ts:3 | the padded output of `btoa` has a length that is a multiple of four, namely `ceil(n/3)*4` |
| Base64.Btoa | utils/jwtHelpers.ts:2-8 | `btoa` throws exactly when some code unit is above 255 |
| Base64.RemoveAsciiWhitespace | utils/jwtHelpers.ts:18 | the first step of `atob`: the result contains no ASCII whitespace |
| Base64.DropPadding | utils/jwtHelpers.ts:18 | the padding step of `atob`: the result is a prefix of its input, at most two characters shorter |
| Base64.DecodeUnpadded | utils/jwtHelpers.ts:18 | decoding gives Latin-1 code units, three for every four characters |
| Base64.DropQuantum | utils/jwtHelpers.ts:18 | after a leading group of four characters the rest is again decodable and yields three fewer bytes |
| Base64.Atob | utils/jwtHelpers.ts:18-20 | whatever `atob` returns consists of Latin-1 code units |
| Base64.QuantumRoundTrip | utils/jwtHelpers.ts:3-18 | decoding four encoded characters gives back the three bytes |
| Base64.ShortRoundTrip | utils/jwtHelpers.ts:3-18 | a final group of one or two code units decodes back after the leftover bits are discarded |
| Base64.UnpaddedRoundTrip | utils/jwtHelpers.ts:3-18 | decoding the unpadded encoding of any Latin-1 text gives the text back |
| Base64.EncodeHasNoWhitespace | utils/jwtHelpers.ts:3-18 | `btoa` output contains no ASCII whitespace |
| Base64.DropEncodePadding | utils/jwtHelpers.ts:3-18 | `atob`'s padding step removes exactly the `=` that `btoa` added |
| Base64.DropAppendedPadding | utils/jwtHelpers.ts:18 | `atob`'s padding step removes one or two `=` that complete a group after alphabet characters, and nothing else |
| Base64.AtobAccepts | utils/jwtHelpers.ts:18 | `atob` decodes every text that, without whitespace and padding, is alphabet characters of a length that is not 1 mod 4 |
| Base64.OneUnitRoundTrip | utils/jwtHelpers.ts:3-18 | a final single code unit, encoded as two characters, decodes back to itself |
| Base64.TwoUnitRoundTrip | utils/jwtHelpers.ts:3-18 | a final pair of code units, encoded as three characters, decodes back to the pair |
| Base64.EncodeCleansToUnpadded | utils/jwtHelpers.ts:3-18 | `atob`'s whitespace and padding steps turn `btoa` output into the unpadded characters |
| Base64.EncodeRoundTrip | utils/jwtHelpers.ts:3-18 | `atob(btoa(s)) == s` for every Latin-1 `s` |
| Base64.ForeignCharRejected | utils/jwtHelpers.ts:18-20 | a character outside the alphabet, other than `=` and whitespace, makes `atob` throw wherever it stands |
| JwtHelpers.ToUrlAlphabet | utils/jwtHelpers.ts:4-5 | the replacements `+`→`-` and `/`→`_`: same length, no `+` or `/` left, every other character kept in place |
| JwtHelpers.FromUrlAlphabet | utils/jwtHelpers.ts:14 | the replacements `-`→`+` and `_`→`/`: same length, no `-` or `_` left, every other character kept in place |
| JwtHelpers.StripTrailingEquals | utils/jwtHelpers.ts:6 | the `=+$` replacement: a prefix of the input, not ending in `=`, that removes only `=` characters |
| JwtHelpers.UrlEncodeOfLatin1 | utils/jwtHelpers.ts:3-6 | swapping the alphabet and stripping `=` from `btoa` output leaves the unpadded characters in the URL-safe alphabet |
| JwtHelpers.Base64UrlEncode | utils/jwtHelpers.ts:1-10 | for Latin-1 input the output is URL-safe (no `+`, `/` or `=`) and has `(4n+2)/3` characters; the output is `"Error"` exactly when the input has a code unit above 255 |
| JwtHelpers.ToUrlKeepsPadding | utils/jwtHelpers.ts:4-5 | the replacements leave the `=` padding alone |
| JwtHelpers.UrlEndsInAlphabet | utils/jwtHelpers.ts:4-6 | swapped Base64 text does not end in `=`, so the `=+$` replacement stops at the padding |
| JwtHelpers.StripPadding | utils/jwtHelpers.ts:6 | `=+$` removes exactly the `=` appended to text that does not end in `=` |
| JwtHelpers.PadTo4 | utils/jwtHelpers.ts:15-17 | the padding loop's result: input followed by at most three `=`, with a length that is a multiple of four |
| JwtHelpers.PadCountIsLeast | utils/jwtHelpers.ts:15-17 | the loop stops at the first length that is a multiple of four and no earlier |
| JwtHelpers.UrlDecode | utils/jwtHelpers.ts:12-22 | what `base64UrlDecode` returns, `atob`'s output or the sentinel, is always made of Latin-1 code units; its round trip and error cases are `UrlRoundTrip`, `ForeignCharIsInvalid` and `NotBase64IsInvalid` |
| JwtHelpers.Base64UrlDecode | utils/jwtHelpers.ts:12-22 | the loop version returns what `UrlDecode` specifies: the alphabet swapped back, the text re-padded, and either `atob`'s result or `"Invalid Base64"` |
| JwtHelpers.RepadCount | utils/jwtHelpers.ts:15-17 | on an unpadded encoding of `n` code units the loop adds exactly as many `=` as `btoa` wrote |
| JwtHelpers.RepadRestoresPadding | utils/jwtHelpers.ts:15-17 | re-padding the unpadded encoding gives back `btoa`'s padded output |
| JwtHelpers.FromToUrl | utils/jwtHelpers.ts:4-14 | swapping back undoes the swap to the URL-safe alphabet on standard Base64 text |
| JwtHelpers.UrlRoundTrip | utils/jwtHelpers.ts:1-22 | `base64UrlDecode(base64UrlEncode(s)) == s` for every Latin-1 `s` |
| JwtHelpers.UrlEncodeInjective | utils/jwtHelpers.ts:1-10 | distinct Latin-1 texts have distinct encodings |
| JwtHelpers.ForeignCharIsInvalid | utils/jwtHelpers.ts:12-22 | any character outside both alphabets, other than `=` and whitespace, makes the decoder return `"Invalid Base64"` |
| JwtHelpers.NotBase64IsInvalid | utils/jwtHelpers.ts:19-21 | `"!!!not-base64!!!"` decodes to the sentinel `"Invalid Base64"` |
| JwtHelpers.EmptyEncodesToEmpty | utils/jwtHelpers.ts:1-6 | the empty string encodes to the empty string |
| JwtHelpers.ToInt32 | utils/jwtHelpers.ts:31-32 | ECMAScript ToInt32: a signed 32-bit value congruent to its argument modulo 2^32 |
| JwtHelpers.ToInt32Congruent | utils/jwtHelpers.ts:31-32 | arguments that are congruent modulo 2^32 give the same 32-bit value |
| JwtHelpers.ShiftStepIsRollingStep | utils/jwtHelpers.ts:31-32 | `((h << 5) - h) + c`, then `h & h`, equals the wrapped `31*h + c` for any 32-bit `h` |
| JwtHelpers.Step | utils/jwtHelpers.ts:30-32 | one loop iteration gives a signed 32-bit value congruent to `31*h + c` modulo 2^32 (`ShiftStepIsRollingStep` ties it to the shift form) |
| JwtHelpers.HashFrom | utils/jwtHelpers.ts:28-33 | the fold of the loop: no characters leave the start unchanged, and after at least one character the value is a signed 32-bit integer whatever the start |
| JwtHelpers.Hash | utils/jwtHelpers.ts:27-33 | the hash of the input is a signed 32-bit value, so its magnitude is at most 2^31 |
| JwtHelpers.HashFromRange | utils/jwtHelpers.ts:28-33 | the fold stays in the signed 32-bit range from any start in that range |
| JwtHelpers.HashFromSnoc | utils/jwtHelpers.ts:29-33 | one more loop iteration is one more step of the fold |
| JwtHelpers.HashFromAppend | utils/jwtHelpers.ts:29-33 | folding a concatenation folds the parts in turn |
| JwtHelpers.Hex | utils/jwtHelpers.ts:35 | `toString(16)`: a non-empty string of lowercase hex digits with no leading zero |
| JwtHelpers.HexRoundTrip | utils/jwtHelpers.ts:35 | reading the hex text back gives the number |
| JwtHelpers.SignatureText | utils/jwtHelpers.ts:35 | the text `SIG` plus the hex four times is Latin-1, so the encoder never returns `"Error"` for it |
| JwtHelpers.RepeatHex | utils/jwtHelpers.ts:35 | repeating hex digits gives hex digits |
| JwtHelpers.SignatureTextInjective | utils/jwtHelpers.ts:35 | equal signature texts come from hashes of equal magnitude |
| JwtHelpers.Signature | utils/jwtHelpers.ts:26-35 | the signature is URL-safe and never the `"Error"` sentinel |
| JwtHelpers.SignatureSeparates | utils/jwtHelpers.ts:26-35 | payloads whose hashes differ in magnitude get different signatures |
| JwtHelpers.OddSumAppend | utils/jwtHelpers.ts:29-33 | the parity of a code-unit sum splits over concatenation |
| JwtHelpers.StepParity | utils/jwtHelpers.ts:31-32 | each hash step adds the code unit's parity to the hash's, because 31 is odd and wrapping keeps parity |
| JwtHelpers.HashFromParity | utils/jwtHelpers.ts:28-33 | the fold's parity is the start's parity combined with the parity of the code-unit sum |
| JwtHelpers.HashParity | utils/jwtHelpers.ts:27-33 | the hash is odd exactly when the code units of the input add up to an odd number |
| JwtHelpers.UrlAlphabetParity | utils/jwtHelpers.ts:4-5 | the `+`→`-` and `/`→`_` replacements keep the parity of the code-unit sum |
| JwtHelpers.AbsParity | utils/jwtHelpers.ts:35 | `Math.abs` keeps parity |
| JwtHelpers.HashMagnitudesDiffer | utils/jwtHelpers.ts:27-35 | inputs whose code-unit sums differ in parity hash to different magnitudes |
| JwtHelpers.InputParity | utils/jwtHelpers.ts:27 | the parity of `header.payload.secret` splits around the payload |
| JwtHelpers.SignatureParitySensitive | utils/jwtHelpers.ts:26-35 | changing the payload so that its code-unit sum changes parity always changes the signature |
| JwtHelpers.MockSignature | utils/jwtHelpers.ts:26-36 | the loop computes the left fold of the 32-bit step from 0; the result equals `Signature`, so it is deterministic, URL-safe and never `"Error"` |
| JwtHelpers.CountCharAppend | components/TabSignature.tsx:29 | occurrences of a character add up over concatenation |
| JwtHelpers.NoDotInUrlSafe | components/TabSignature.tsx:29 | URL-safe text contains no `.` |
| JwtHelpers.EncodedHasNoDot | components/TabSignature.tsx:29 | no output of `base64UrlEncode`, the sentinel included, contains a `.` |
| JwtHelpers.ThreeSegments | components/TabSignature.tsx:29 | three dot-free segments joined by dots contain exactly two dots |
| TabSignature.RolePayload | components/TabSignature.tsx:19-24 | `JSON.stringify({ role })` as the text `{"role":"<role>"}`; `RolePayloadLatin1` proves it Latin-1 for a Latin-1 role, and `PayloadSegmentDecodes` that its segment decodes back to it |
| TabSignature.RolePayloadLatin1 | components/TabSignature.tsx:19-25 | the payload of a Latin-1 role is Latin-1, so `btoa` never throws on it |
| TabSignature.ClosedLatin1 | components/TabSignature.tsx:19-24 | closing a Latin-1 role with `"}` keeps it Latin-1 |
| TabSignature.EncodedPayload | components/TabSignature.tsx:20-25 | the payload segment `base64UrlEncode(JSON.stringify({ role }))`; `EncodedPayloadParity` and `PayloadSegmentDecodes` state its properties |
| TabSignature.SignatureFor | components/TabSignature.tsx:16-21 | `mockSignature(encodedHeader, encodedPayload, secret)` for a role; `TamperedRoleRejected` shows it differs for a parity-flipping role |
| TabSignature.TokenFor | components/TabSignature.tsx:29 | the displayed token: header, current payload and the issued signature; `TokenHasTwoDots` proves it has three segments |
| TabSignature.VerifyOutcome | components/TabSignature.tsx:36-46 | the server's verdict is `valid` or `invalid`, never `unchecked`, and always `valid` when the payload is the issued one |
| TabSignature.TokenHasTwoDots | components/TabSignature.tsx:29 | the displayed token has exactly two `.` separators, whatever the role |
| TabSignature.PayloadSegmentDecodes | components/TabSignature.tsx:24-25 | the payload segment decodes back to `{"role":"<role>"}` |
| TabSignature.PrefixedSplit | components/TabSignature.tsx:24-25 | behind a prefix of whole groups, the parity of the encoded payload's code-unit sum combines the parities of the prefix's and the tail's encodings, in either alphabet |
| TabSignature.OpenedParity | components/TabSignature.tsx:24-25 | a parity difference between two tails survives a common prefix of whole groups and `base64UrlEncode` |
| TabSignature.PrefixedParity | components/TabSignature.tsx:24-25 | two tails whose encodings differ in parity still differ after a common prefix and the alphabet swap |
| TabSignature.EncodedPayloadParity | components/TabSignature.tsx:19-25 | two roles whose encoded tails `<role>"}` differ in parity give encoded payloads that differ in parity |
| TabSignature.TamperedRoleRejected | components/TabSignature.tsx:36-46 | a role whose encoded tail changes the parity is rejected by the server, for every header and secret |
| TabSignature.EncodeUse | components/TabSignature.tsx:19 | `use` encodes to `dXNl`, of even code-unit sum |
| TabSignature.EncodeRClose | components/TabSignature.tsx:19 | `r"}` encodes to `ciJ9`, of odd code-unit sum |
| TabSignature.EncodeAdm | components/TabSignature.tsx:32 | `adm` encodes to `YWRt`, of even code-unit sum |
| TabSignature.EncodeInQuote | components/TabSignature.tsx:32 | `in"` encodes to `aW4i`, of odd code-unit sum |
| TabSignature.EncodeBrace | components/TabSignature.tsx:32 | `}` encodes to `fQ`, of odd code-unit sum |
| TabSignature.GroupsParity | components/TabSignature.tsx:19-25 | the parity of an encoding splits at whole groups |
| TabSignature.UserTail | components/TabSignature.tsx:19 | the encoded tail of the issued role `user` has an odd code-unit sum |
| TabSignature.AdminTail | components/TabSignature.tsx:32 | the encoded tail of the forged role `admin` has an even code-unit sum |
| TabSignature.SignaturePanel.constructor | components/TabSignature.tsx:7-13 | the initial state: role `user`, status `valid`, the fixed header and secret |
| TabSignature.SignaturePanel.DisplayedToken | components/TabSignature.tsx:29 | the displayed token always has exactly two dots |
| TabSignature.SignaturePanel.HandleTamper | components/TabSignature.tsx:31-34 | the role becomes `admin` and the status `unchecked`; the shown status stays consistent |
| TabSignature.SignaturePanel.HandleVerify | components/TabSignature.tsx:36-46 | the status becomes the server's verdict on the current payload against the attached signature; the role is unchanged |
| TabSignature.SignaturePanel.HandleReset | components/TabSignature.tsx:48-51 | the role returns to `user` and the status to `valid`, from any state |
| TabSignature.TamperScenario | components/TabSignature.tsx:31-46 | the demo as written: verifying the issued token gives `valid`; after tampering, verifying gives `invalid` |
| TabAnatomy.Minify | components/TabAnatomy.tsx:15 | `replace(/\s/g, '')`: no whitespace is left and the text does not grow |
| TabAnatomy.MinifyAppend | components/TabAnatomy.tsx:15 | whitespace removal distributes over concatenation |
| TabAnatomy.MinifyKeepsCompact | components/TabAnatomy.tsx:15 | text without whitespace is unchanged |
| TabAnatomy.MinifyIdempotent | components/TabAnatomy.tsx:15 | minifying twice is minifying once |
| TabAnatomy.MinifyKeepsOthers | components/TabAnatomy.tsx:15 | every non-whitespace character keeps its number of occurrences |
| TabAnatomy.MinifyJoinsWords | components/TabAnatomy.tsx:15 | whitespace inside string values is removed too: two words separated by a space are joined |
| TabAnatomy.MinifyLatin1 | components/TabAnatomy.tsx:15 | minifying Latin-1 text keeps it Latin-1 |
| TabAnatomy.SafeEncode | components/TabAnatomy.tsx:11-19 | text that parses is encoded minified and other text raw; Latin-1 text never gives `"Error"` and always gives a URL-safe segment |
| TabAnatomy.SafeEncodeRoundTrip | components/TabAnatomy.tsx:11-19 | a segment decodes back to the encoded text, with no whitespace when the text parsed |
| TabAnatomy.WhitespaceIgnoredWhenParsed | components/TabAnatomy.tsx:11-19 | two parsable texts that differ only in whitespace encode to the same segment |
| TabAnatomy.Derive | components/TabAnatomy.tsx:21-29 | the header and payload segments decode to the texts `safeEncode` used; the signature is the mock signature of the two segments under `secret`, is URL-safe, and the joined token has two dots |
| TabAnatomy.AnatomyPanel.constructor | components/TabAnatomy.tsx:5-7 | the initial texts, with all three segments empty before the effect runs |
| TabAnatomy.AnatomyPanel.RunEffect | components/TabAnatomy.tsx:9-30 | after the effect, the segments are those derived from the current texts, which are unchanged |
| TabAnatomy.AnatomyPanel.EditHeader | components/TabAnatomy.tsx:9-30 | editing the header text recomputes all three segments |
| TabAnatomy.AnatomyPanel.EditPayload | components/TabAnatomy.tsx:9-30 | editing the payload text recomputes all three segments |
| TabAnatomy.ReformatScenario | components/TabAnatomy.tsx:11-29 | re-spacing valid JSON leaves the displayed token unchanged |
| TabQuiz.QuestionsWellFormed | components/TabQuiz.tsx:4-23 | three questions, each with a correct index among its options |
| TabQuiz.CountCorrect | components/TabQuiz.tsx:31-37 | the number of correct answers never exceeds the number of answers |
| TabQuiz.PerfectIffAllCorrect | components/TabQuiz.tsx:60-63 | a full score holds exactly when every answer was correct |
| TabQuiz.Quiz.ScoreBounded | components/TabQuiz.tsx:26-46 | `score <= currentQ + (selected != null ? 1 : 0) <= 3` |
| TabQuiz.Quiz.constructor | components/TabQuiz.tsx:26-29 | first question, nothing selected, score 0, no result screen |
| TabQuiz.Quiz.HandleAnswer | components/TabQuiz.tsx:31-37 | ignored once an option is selected; otherwise records the choice and adds 1 to the score exactly when it is correct |
| TabQuiz.Quiz.NextQuestion | components/TabQuiz.tsx:39-46 | before the last question, advances and clears the selection; on the last, shows the result and changes nothing else |
| TabQuiz.Quiz.Reset | components/TabQuiz.tsx:48-53 | back to the initial state |
| TabQuiz.PerfectRun | components/TabQuiz.tsx:4-60 | answering 1, 2, 1 ends on the result screen with score 3 |
| TabQuiz.OneWrongRun | components/TabQuiz.tsx:31-60 | one wrong answer, and a second click that is ignored, end with score 2 |
| TabFlow.Connections | components/TabFlow.tsx:79-108 | exactly one message arrow at each stage 1 to 4 and none at 0, never from an actor to itself |
| TabFlow.ClientHighlighted | components/TabFlow.tsx:50 | the client's highlight condition `step > 0`; `HighlightIsInvolvement` proves it is the client's part in the stage's message |
| TabFlow.AuthServerHighlighted | components/TabFlow.tsx:63 | the auth server's highlight condition `step === 1 \|\| step === 2`; `HighlightIsInvolvement` proves it is the server's part in the message |
| TabFlow.ResourceApiHighlighted | components/TabFlow.tsx:70 | the API's highlight condition `step >= 3`; `HighlightIsInvolvement` proves it is the API's part in the message |
| TabFlow.ShowsJwtBadge | components/TabFlow.tsx:54 | the badge condition `step >= 2`; `BadgeAfterIssuance` proves it holds exactly once the token has been issued |
| TabFlow.HighlightIsInvolvement | components/TabFlow.tsx:50-73 | within 0..4 each actor is highlighted exactly when it takes part in the stage's message |
| TabFlow.BadgeAfterIssuance | components/TabFlow.tsx:54 | the client shows the token badge exactly from the stage at which the token has been issued |
| TabFlow.AuthFlow.constructor | components/TabFlow.tsx:5 | the stepper starts at stage 0 |
| TabFlow.AuthFlow.Title | components/TabFlow.tsx:30 | the lookup `steps[step].title`, in bounds under the stepper's invariant `step <= 4`; `WalkThrough` shows the titles in order |
| TabFlow.AuthFlow.NextStep | components/TabFlow.tsx:15-17 | adds one below stage 4 and does nothing at 4, keeping `0 <= step <= 4` so the title lookup is in bounds |
| TabFlow.AuthFlow.Reset | components/TabFlow.tsx:19 | back to stage 0 from any state |
| TabFlow.WalkThrough | components/TabFlow.tsx:7-30 | clicking through shows the five titles in order and stays at stage 4 |
| TabConcept.IdsIncreasing | components/TabConcept.tsx:5-13 | server ids are increasing, hence distinct |
| TabConcept.SessionStatus | components/TabConcept.tsx:54 | the session caption `id === 1 ? 'Data Found' : 'Missing Data'`; `SessionFoundOnce` counts it over the list |
| TabConcept.TokenStatus | components/TabConcept.tsx:90 | the token caption, `Valid Sig` for every server; `TokenAcceptedEverywhere` counts it over the list |
| TabConcept.SessionCount | components/TabConcept.tsx:49-56 | a count of session captions, at most the number of servers |
| TabConcept.SessionFoundOnce | components/TabConcept.tsx:49-56 | with sessions exactly one server finds the data and the other `n-1` miss it |
| TabConcept.TokenCount | components/TabConcept.tsx:84-94 | a count of token captions, at most the number of servers |
| TabConcept.TokenAcceptedEverywhere | components/TabConcept.tsx:84-94 | with tokens all `n` servers report a valid signature |
| TabConcept.RoutedServer | components/TabConcept.tsx:71 | the server named in the warning is 1 or 2 |
| TabConcept.RoutedServerListed | components/TabConcept.tsx:71 | the named server is in the list and misses the session exactly when there is more than one server |
| TabConcept.ServerList.constructor | components/TabConcept.tsx:5 | the list starts as `[1]` |
| TabConcept.ServerList.AddServer | components/TabConcept.tsx:7-11 | appends `length + 1` below four servers and otherwise does nothing; the list stays `1..n` with `1 <= n <= 4` |
| TabConcept.ServerList.ResetServers | components/TabConcept.tsx:13 | back to `[1]` |
| TabConcept.ScaleOut | components/TabConcept.tsx:5-94 | four clicks give `[1, 2, 3, 4]`, with one session hit and four token hits |
| TabSecurity.Secure | components/TabSecurity.tsx:9 | `isSecure`: HTTPS on, no secrets in the payload, short expiry on; `SecureIsUnique` proves exactly one setting satisfies it |
| TabSecurity.Toggle | components/TabSecurity.tsx:39 | a click flips its own switch and leaves the other two unchanged |
| TabSecurity.ToggleTwice | components/TabSecurity.tsx:39 | two clicks on one switch restore the setting |
| TabSecurity.SecureIsUnique | components/TabSecurity.tsx:9 | exactly one of the eight settings is secure |
| TabSecurity.WrongSwitches | components/TabSecurity.tsx:9 | at most three switches are wrong, and none is wrong exactly when the setting is secure |
| TabSecurity.ToggleMovesByOne | components/TabSecurity.tsx:39 | each click changes the number of wrong switches by one |
| TabSecurity.InitialAllWrong | components/TabSecurity.tsx:5-9 | the initial setting has all three switches wrong and is insecure |
| TabSecurity.SecurityAudit.IsSecure | components/TabSecurity.tsx:9 | the badge shows secure exactly for HTTPS on, no secrets in the payload, short expiry on |
| TabSecurity.SecurityAudit.constructor | components/TabSecurity.tsx:5-7 | the switches start as (off, on, off) |
| TabSecurity.SecurityAudit.ToggleHttps | components/TabSecurity.tsx:39 | flips the HTTPS switch only |
| TabSecurity.SecurityAudit.ToggleSecretsInPayload | components/TabSecurity.tsx:51 | flips the secrets-in-payload switch only |
| TabSecurity.SecurityAudit.ToggleShortExpiry | components/TabSecurity.tsx:63 | flips the short-expiry switch only |
| TabSecurity.HardenScenario | components/TabSecurity.tsx:5-63 | the initial setting is insecure, and one click on each switch makes it secure |

## Left out

- `App.tsx`, all rendering, CSS animations and icons: presentation only. The footer's wall clock is I/O.
- `JSON.parse` is not modelled. Whether a text parses is the parameter `parses` of the anatomy panel.
- `JSON.stringify({ role })` is modelled as the literal text `{"role":"<role>"}`. Escaping of quotes or control characters in a role is not modelled.
- A `char` stands for one UTF-16 code unit outside the surrogate range: a Dafny `char` is a Unicode scalar value. Lone surrogate code units, which a JavaScript string can hold and `charCodeAt` reads, cannot be expressed, and code points above U+FFFF, which JavaScript stores as two units, are not modelled separately.
- `atob` is modelled by the forgiving decoder's main steps: whitespace removal, dropping one or two `=`, the length and alphabet checks, and discarding the leftover bits. Other browser details of `atob` are not modelled.
- No real cryptography: the `HS256` header and the HMAC caption describe HMAC, but the source only runs the toy hash, and only that is modelled.
- React state updates and `useEffect` scheduling are modelled as synchronous: each handler updates its fields at once, and the anatomy effect runs again after every edit.
- TabSignature's `role` state is never updated and is not used by the logic, so it is not modelled.
- The number arithmetic of `mockSignature` is modelled on exact integers. `(h << 5) - h + c` stays far below 2^53, so double precision is exact there.
- TabSignature.TamperScenario: the proof that the forged token is rejected does not evaluate the hash of the roughly 60-character input. It shows that the payloads' code-unit sums differ in parity. The hash is 31·h + c modulo 2^32 with 31 odd, so the two hashes differ in parity, hence in magnitude, hence so do the signatures. The concrete signature strings are not computed.
- TabSignature.TamperedRoleRejected: it covers only role changes that flip the parity of the encoded tail. It is no general collision-freedom claim; the source makes none.
- TabAnatomy.MinifyJoinsWords: stated for any two whitespace-free words and any whitespace character between them. The initial payload's `"John Doe"` is an instance.
- TabQuiz.Quiz.HandleAnswer: like the source's handler, it does not check that the index names an option. The buttons only pass valid indices.
- TabQuiz.Quiz.NextQuestion: the button appears only after an answer, but the handler does not check this, and neither does the model.
- The encoder returns `"Error"` exactly when a code unit is above 255, since `btoa` throws only then. Characters above U+00FF are therefore reported rather than encoded, and the model does the same.
- Decoding swaps `-` back to `+` and `_` back to `/`, and so it also accepts standard Base64 text containing `+` or `/`. The model follows the code here too.
