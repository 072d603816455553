# Interakt webhook text extraction and reply selection, in Dafny

This project models the logic of `server.js` in a small Express server that
receives webhooks from the Interakt messaging platform. The model covers two
parts.

1. `extractTextFromInterakt` searches the parsed payload for the user's
   text. It looks at ten places in a fixed order, using optional chaining
   (`body?.messages?.[0]?.text?.body`, ...). The first eight places count
   when the value there is truthy. The last two count when the value is a
   string (`typeof === "string"`).
2. The `/interakt/webhook` handler picks one of four replies for the
   extracted value and answers `{ ok: true, reply }`:
   - a falsy value gets "Ignored: no message text found in payload.";
   - a value matching `/#test\b/i` gets the test reply;
   - a value matching `/hello|hi|hey/i` gets the greeting;
   - anything else gets the default acknowledgement.

Modules, leaves first:

- `Json` (`json.dfy`): parsed JSON values and `undefined`. It also holds
  JavaScript truthiness and the ToString conversion that `RegExp.prototype.test`
  applies to its argument. A number is carried as the text ToString gives for
  it. That text is all the handler observes of a number: the number is zero
  exactly when the text is "0", and the regexes only ever see the text.
- `Paths` (`paths.dfy`): one optional-chaining step (`Get`) and a whole
  chain (`Resolve`). `undefined` absorbs every later step.
- `Extraction` (`extraction.dfy`): `Extract` is the chain of guarded returns,
  grouped as the source groups it (WhatsApp-like shapes, Interakt shapes,
  fallbacks). `FirstMatch` over the ten-row `Candidates` table is the same
  search written as data. `ExtractIsFirstMatch` proves that the two agree, and
  the first-match properties are proved about the table.
- `Patterns` (`patterns.dfy`): the two regexes. `Search` is a matcher that
  works the way `RegExp.prototype.test` runs a pattern (section 22.2.7 of
  ECMA-262). It tries each start index in turn, compares characters after
  case canonicalisation, and treats `\b` as a change between word and
  non-word characters. `HasTestMarker` and `HasGreeting` state the same thing
  declaratively, and lemmas prove the matcher equals them.
- `Webhook` (`webhook.dfy`): the four replies, `Classify` (the if/else chain)
  and `Handle` (extraction, classification and the response envelope).

Three behaviours of the code worth knowing:

- The extractor does not require a non-blank string. It returns any truthy
  value from the first eight places, including objects, numbers and
  whitespace-only strings. It returns an empty string from the last two.
- No marker is stripped and no policy can be plugged in. The handler only
  picks one of four fixed strings.
- The handler does not always answer. Take a truthy extracted value that is an
  object with its own `toString` key, or an array containing such an object.
  Its string conversion throws a TypeError inside `.test`, so `res.json` is
  never reached. `Handle` returns `Raised` for it. `HandleAnswers` proves this
  is the only case without an `{ ok: true, reply }` envelope, and
  `ShadowedToStringRaises` gives a payload that triggers it.

## Model

| member | source | states |
|---|---|---|
| `Json.ToStrDefinedIffStringifiable` | server.js:60-62 | converting a value to a string for `.test` succeeds exactly when no object reached by the conversion has an own `toString` key |
| `Json.JoinElementsSome` | server.js:60-62 | joining array elements succeeds exactly when every element's conversion succeeded |
| `Paths.ResolveUndefined` | server.js:19-32 | once an optional chain yields `undefined`, every further step yields `undefined` |
| `Paths.ResolveAppend` | server.js:19-32 | evaluating a chain in two pieces gives the same value as evaluating it whole |
| `Paths.ResolveMissingPrefix` | server.js:19-32 | a missing or wrong-typed intermediate makes every longer chain `undefined`, never an error |
| `Paths.ResolveFromNonObject` | server.js:19-32 | a chain starting with a property name finds nothing on a body that is not an object |
| `Extraction.FirstMatch` | server.js:16-38 | the search returns the value at the first candidate whose guard holds, or `undefined` when no guard holds |
| `Extraction.FirstMatchSuffix` | server.js:19-32 | searching from row k either stops at row k, when its guard holds, or continues at row k+1 |
| `Extraction.FallbackIsFirstMatch` | server.js:31-32 | the two `typeof === "string"` lines are the last two rows of the table |
| `Extraction.InteraktIsFirstMatch` | server.js:25-32 | the Interakt lines and the fallbacks are the last six rows of the table |
| `Extraction.ExtractIsFirstMatch` | server.js:16-38 | the chain of guarded returns equals the table-driven search over all ten candidates |
| `Extraction.ExtractFirstQualifying` | server.js:19-32 | the result is the value at the earliest place whose guard holds |
| `Extraction.ExtractNoneQualifying` | server.js:34 | when no place qualifies, the result is `undefined` |
| `Extraction.FirstMatchDependsOnPrefix` | server.js:19-32 | two bodies that agree on every place up to a qualifying one get the same result |
| `Extraction.ExtractIgnoresLaterCandidates` | server.js:19-32 | once a place qualifies, what later places hold never changes the result |
| `Extraction.ExtractPrecedence` | server.js:19-22 | `messages[0].text.body`, `messages[0].text`, `message.text.body` and `message.text` are tried in that order: each is returned when it is truthy and the ones before it are falsy |
| `Extraction.ExtractNonObject` | server.js:16-38 | `undefined`, `null`, a boolean, a number, a string or an array as the body yields `undefined` |
| `Extraction.ExtractResultKinds` | server.js:19-32 | the result is `undefined`, a truthy value of any type, or the empty string; the empty string only comes from `message` or `text` after the first eight places all failed |
| `Extraction.EmptyMessageShadowsText` | server.js:31-32 | `{message: "", text: "hello"}` yields `""`, and `text` is never consulted |
| `Extraction.ObjectAtMessageTextReturned` | server.js:22 | an object at `message.text` is returned as it is |
| `Extraction.NestedArrayShapeWins` | server.js:19-22 | with both `messages[0].text.body` and `message.text` set, the former is returned |
| `Patterns.CanonicalizeMatchesLower` | server.js:60-62 | comparing canonicalised characters with a lower-case pattern character is comparing the lower-cased character with it |
| `Patterns.OccursAtCons` | server.js:60-62 | a case-insensitive occurrence of a word is its first character followed by an occurrence of the rest |
| `Patterns.LiteralAtIffOccursAt` | server.js:60-62 | the matcher's character-by-character comparison succeeds exactly when the word occurs there, ignoring ASCII case |
| `Patterns.MatchesAtIff` | server.js:60-62 | a match attempt at index k succeeds exactly when the marker (or one of the greeting words) sits at k |
| `Patterns.SearchIff` | server.js:60-62 | scanning from k succeeds exactly when a match attempt succeeds at some index between k and the end |
| `Patterns.TestMarkerSpec` | server.js:60 | `/#test\b/i.test(s)` holds exactly when `#test`, in any case, is followed by the end of `s` or a non-word character |
| `Patterns.GreetingSpec` | server.js:62 | `/hello|hi|hey/i.test(s)` holds exactly when `hello`, `hi` or `hey` occurs anywhere in `s`, in any case |
| `Patterns.MarkerPresentExamples` | server.js:60 | "#TEST please", "hello #test" and "#test please check" carry the marker |
| `Patterns.MarkerNeedsBoundary` | server.js:60 | "#testing", "#test_" and "#test1" do not carry the marker |
| `Patterns.MarkerAbsentWithoutHash` | server.js:60 | a text without `#` carries no marker |
| `Patterns.GreetingInsideWords` | server.js:62 | "this", "Ohio" and "HEY there" count as greetings |
| `Patterns.NoGreetingWithoutH` | server.js:62 | a text without the letter h, in either case, holds no greeting |
| `Patterns.NoGreetingExamples` | server.js:62 | "Got it" and "[object Object]" hold no greeting |
| `Webhook.ReplyTextInjective` | server.js:57-66 | the four replies are four different strings |
| `Webhook.ClassifyIgnoredIffFalsy` | server.js:58-59 | the ignored reply is chosen exactly when the extracted value is falsy |
| `Webhook.ClassifyConvertible` | server.js:58-66 | for any truthy value that converts to the string `s` (string, number, `true`, array, plain object): the test reply if `s` carries the marker, otherwise the greeting if `s` holds a greeting word, otherwise the default |
| `Webhook.ClassifyString` | server.js:58-66 | for a non-empty string: the test reply if it carries the marker, otherwise the greeting if it holds a greeting word, otherwise the default |
| `Webhook.ClassifyArrayGreeting` | server.js:62-63 | the array `["hey"]` converts to "hey" and gets the greeting |
| `Webhook.MarkerBeatsGreeting` | server.js:60-63 | a text with both the marker and a greeting gets the test reply |
| `Webhook.ClassifyRaisesIff` | server.js:60-62 | classification throws exactly when the value is truthy and cannot be converted to a string |
| `Webhook.ClassifyPlainObject` | server.js:60-65 | a plain object converts to "[object Object]" and gets the default reply |
| `Webhook.HandleAnswers` | server.js:53-69 | the handler answers `{ ok: true, reply }` with one of the four replies, except exactly when the extracted value is truthy and cannot be converted to a string |
| `Webhook.HandleUnrecognised` | server.js:53-69 | a body that is not an object, or in which no place qualifies, gets `{ ok: true }` with the ignored reply |
| `Webhook.HandleStringAnswers` | server.js:53-69 | whenever the extracted value is a string or `undefined`, the handler answers with `ok: true` |
| `Webhook.EmptyPayloadIgnored` | server.js:53-69 | `{}` is answered with the ignored reply |
| `Webhook.TextHelloGreeted` | server.js:53-69 | `{"text": "hello"}` is answered with the greeting |
| `Webhook.NestedMarkerAnswered` | server.js:53-69 | `{"messages": [{"text": {"body": s}}]}` is answered with the test reply whenever `s` carries the marker |
| `Webhook.EmptyMessageIgnored` | server.js:53-69 | `{message: "", text: "hello"}` is answered with the ignored reply, although `text` holds a greeting |
| `Webhook.ShadowedToStringRaises` | server.js:53-69 | `{"message": {"text": {"toString": 1}}}` makes the handler throw before it answers |

## Left out

- Express setup, `dotenv`, the JSON body parser and its 1 MB limit, the health-check route and `app.listen` (server.js:2-8, 42-45, 72-76): transport and process bootstrap. The body the handler receives is a parameter of `Handle`.
- Logging with `console.log` and `JSON.stringify` (server.js:50, 54): diagnostics only, with no effect on the reply.
- The `try`/`catch` of `extractTextFromInterakt` (server.js:17, 35-37): optional chaining over parsed JSON cannot throw, so the model states totality (`ExtractNonObject`, `ResolveMissingPrefix`) instead of modelling an exception.
- What Express does after the handler throws (an unhandled promise rejection, or an error response, depending on the Express version): modelled only as `Raised`, with no envelope.
- Numbers: a number is carried as its ToString text. The model does not check that this text is a well-formed numeral, and it does no floating-point arithmetic. NaN cannot come from JSON; a numeral too large for a double (`1e400`) parses to ±Infinity and is carried as `Num("Infinity")` or `Num("-Infinity")`.
- Paths.Get: an array's or string's own `length`, string indices other than 0, and what strings, arrays and objects inherit from their prototypes (the members of `Object.prototype`) are not modelled. None of the eight property names the extractor reads (`messages`, `text`, `body`, `message`, `data`, `payload`, `incoming_message`, `message_text`) is one of them, and an index is only ever read as `?.[0]` (`First`).
- Strings are sequences of Unicode scalar values, while JavaScript strings are UTF-16 code units. This changes nothing here. `[0]` on a string is only ever followed by `.text`, which finds nothing on a string either way. Neither regex can match half of a surrogate pair, and no surrogate is a word character. A payload whose JSON holds a lone surrogate escape (`"\ud800"`) gives a JavaScript string that no Dafny `string` can hold, so such payloads are outside the model. Any non-ASCII character that is not a word character stands in for the lone surrogate: it matches no pattern character and is not a word character, so no result changes.
- Patterns.Canonicalize: only ASCII letters are case-folded. Without the `u` flag, ECMA-262 never lets case folding map a non-ASCII character to an ASCII one, and every pattern character is ASCII, so folding other characters cannot change a result.
- The completion backend, signature verification, marker stripping and pluggable routing policies: `server.js` contains none of them.
