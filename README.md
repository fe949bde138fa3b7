# express-language-negotiator, modelled in Dafny

The repository provides one Express middleware factory, `negotiateLanguage`.
It is configured with the supported languages, a default language, an
ordered priority of signals (`cookie`, `query`, `acceptLanguage`) and
optional cookie and query parameter names. It refuses an empty language list.
The middleware it returns resolves one language code per request and stores
it on `req.language`:

- It walks the priority list in order and stops at the first signal that
  yields a match.
- A cookie or query value counts when it is exactly a supported language.
- The accept-language signal runs only when the header is present. It first
  tries the client's tags for an exact match (the direct pass). Failing that,
  it compares two-character prefixes (the indirect pass) and returns the
  client's truncated tag.
- When nothing matches, the result is the default.

Files:

- `language_negotiator.dfy`, module `LanguageNegotiator`. It holds the
  configuration and request records, the helpers with JavaScript semantics
  (`FindIndex`, `Find`, `Contains`, `Prefix2`, `Truncate`, truthiness), and the
  specification functions `EvalSignal`, `FirstMatch` and `Negotiate`. It also
  holds the factory `NegotiateLanguage` and the imperative handler `Handle`.
  `Handle` runs the priority loop with its early `break` and writes the
  `language` field of a `Context` object. It is proved equal to `Negotiate`.
- `negotiator_properties.dfy`, module `NegotiatorProperties`. It holds the
  lemmas about `Negotiate`: precedence, default fallback, what each signal can
  yield, harmless repeats, and that later signals are never consulted.
- `negotiator_examples.dfy`, module `NegotiatorExamples`. It holds the
  scenarios of `src/lib/language-negotiator.spec.ts` as lemmas, plus two edge
  cases of the accept-language passes.

Modelling choices:

- JavaScript truthiness is modelled exactly. An empty cookie, query value or
  tag never counts as a match.
- Array `find` stops at the first element that satisfies its predicate. So if
  the empty string is a configured language and an empty tag comes first, the
  pass yields nothing, even when a later tag would match
  (`EmptyTagMasksLaterMatch`).
- The indirect pass returns the client's two-character prefix. When a
  supported code is longer than two characters, that prefix may not be a
  supported language (`LongCodeLeavesSupportedSet`). With codes of at most
  two characters the result is always supported or the default
  (`ShortCodesStaySupported`).

## Model

| member | source | states |
|---|---|---|
| `LanguageNegotiator.NegotiateLanguage` | src/lib/language-negotiator.ts:19-24 | construction fails exactly when the language list is empty; otherwise the handler captures the configuration unchanged |
| `LanguageNegotiator.Handle` | src/lib/language-negotiator.ts:27-99 | the priority loop with early exit writes exactly `Some(Negotiate(options, request))` into the context's `language` field |
| `LanguageNegotiator.FindIndex` | src/lib/language-negotiator.ts:62 | returns the index of the first element satisfying the predicate, with no earlier element satisfying it, or -1 when none does |
| `LanguageNegotiator.Find` | src/lib/language-negotiator.ts:61-63 | yields nothing iff no element satisfies the predicate; otherwise yields the element at the first satisfying index |
| `LanguageNegotiator.Contains` | src/lib/language-negotiator.ts:31-33 | `indexOf(lang) > -1` holds iff `lang` is a member of the supported list |
| `LanguageNegotiator.Prefix2` | src/lib/language-negotiator.ts:69-71 | `substring(0, 2)` is a prefix of the tag, of length two for longer tags and the whole tag otherwise |
| `LanguageNegotiator.Truncate` | src/lib/language-negotiator.ts:72-74 | the mapped list has the same length and holds the two-character prefix of each entry, in order |
| `LanguageNegotiator.ParamName` | src/lib/language-negotiator.ts:39 | the key looked up is never empty; it is the configured name or `"language"` |
| `LanguageNegotiator.ExplicitMatch` | src/lib/language-negotiator.ts:37-55 | a cookie or query lookup matches iff the map exists, holds the key, and the value is non-empty and supported; the match is that value |
| `LanguageNegotiator.EvalSignal` | src/lib/language-negotiator.ts:36-86 | any signal's match is non-empty; a cookie or query match is always a supported language |
| `NegotiatorProperties.FirstMatchAppend` | src/lib/language-negotiator.ts:35-91 | for a priority list split in two, the front part decides whenever it matches, and the back part is consulted only when it does not |
| `NegotiatorProperties.NoMatchIffAllSilent` | src/lib/language-negotiator.ts:35-91 | the walk finds no match iff every listed signal yields none |
| `NegotiatorProperties.FirstMatchPrecedence` | src/lib/language-negotiator.ts:88-91 | the walk returns the match of the earliest signal that yields one |
| `NegotiatorProperties.FirstMatchWitness` | src/lib/language-negotiator.ts:35-91 | every match of the walk is the match of some signal before which all signals yield nothing |
| `NegotiatorProperties.NegotiateIsEarliestMatchOrDefault` | src/lib/language-negotiator.ts:28-97 | the result is the default verbatim when no signal matches, and otherwise the match of the earliest matching signal |
| `NegotiatorProperties.DefaultFallback` | src/lib/language-negotiator.ts:93-97 | when no signal matches (including an empty priority list) the result is the default verbatim, supported or not |
| `NegotiatorProperties.NegotiatePrecedence` | src/lib/language-negotiator.ts:88-91 | if signal k matches and no earlier one does, the result is signal k's match |
| `NegotiatorProperties.WalkIgnoresDefaultAndPriority` | src/lib/language-negotiator.ts:35-91 | evaluating a list of signals depends only on the languages and the two parameter names of the configuration |
| `NegotiatorProperties.LaterSignalsNotConsulted` | src/lib/language-negotiator.ts:88-91 | once a prefix of the priority list matches, replacing everything after it leaves the result unchanged |
| `NegotiatorProperties.RepeatHarmless` | src/lib/language-negotiator.ts:35-91 | dropping a later repeat of a signal from the priority list leaves the result unchanged |
| `NegotiatorProperties.ExplicitSignalIff` | src/lib/language-negotiator.ts:37-55 | cookie and query yield `v` iff the map exists, holds the key (configured or `"language"`), and stores `v`, which is non-empty and supported; so a missing map, a missing key, an empty value or an unsupported value yields nothing |
| `NegotiatorProperties.ParamNameDefault` | src/lib/language-negotiator.ts:49 | an absent or empty parameter name falls back to `"language"`; a non-empty one is used as given |
| `NegotiatorProperties.FindAt` | src/lib/language-negotiator.ts:75-77 | `find` returns the element at the first index whose element satisfies the predicate |
| `NegotiatorProperties.AcceptLanguageNeedsHeader` | src/lib/language-negotiator.ts:58 | without the accept-language header the signal yields nothing, whatever the tags |
| `NegotiatorProperties.DirectPassWins` | src/lib/language-negotiator.ts:61-67 | the first accepted tag in client order that is exactly supported (and non-empty) is the match; the indirect pass is not used |
| `NegotiatorProperties.IndirectPassFallback` | src/lib/language-negotiator.ts:69-82 | with no exact match, the match is the two-character prefix of the first tag whose prefix equals that of some supported language |
| `NegotiatorProperties.AcceptLanguageResultShape` | src/lib/language-negotiator.ts:57-85 | an accept-language match needs the header, is non-empty, and is either an accepted tag that is supported or a prefix of length at most two shared by an accepted tag and a supported language |
| `NegotiatorProperties.AcceptLanguageNoMatch` | src/lib/language-negotiator.ts:75-82 | when no accepted tag shares its two-character prefix with a supported language, the signal yields nothing |
| `NegotiatorProperties.NegotiateProvenance` | src/lib/language-negotiator.ts:88-97 | the result is the default, or a non-empty value that is a supported cookie, query or accepted value, or the prefix of an accepted tag (length at most two) |
| `NegotiatorProperties.ShortCodesStaySupported` | src/lib/language-negotiator.ts:79-81 | when every supported code has at most two characters, the result is a supported language or the default |
| `NegotiatorProperties.NegotiateNonEmpty` | src/lib/language-negotiator.ts:93-94 | with a non-empty default the result is never empty |
| `NegotiatorExamples.CookieScenario` | src/lib/language-negotiator.spec.ts:13-25 | cookie `language=en` with languages `[en, ja]` resolves to `en` |
| `NegotiatorExamples.QueryScenario` | src/lib/language-negotiator.spec.ts:27-39 | query `language=en` resolves to `en` |
| `NegotiatorExamples.AcceptLanguageScenario` | src/lib/language-negotiator.spec.ts:41-53 | accepted `[en-US]` resolves to `en` through the indirect pass |
| `NegotiatorExamples.UnknownLanguageScenario` | src/lib/language-negotiator.spec.ts:55-67 | accepted `[ru-RU, ja-JP]` resolves to `ja` |
| `NegotiatorExamples.DefaultScenario` | src/lib/language-negotiator.spec.ts:69-81 | accepted `[ru-RU, de-DE]` resolves to the default |
| `NegotiatorExamples.LongCodeLeavesSupportedSet` | src/lib/language-negotiator.ts:79-81 | with supported `[en-US]` and accepted `[en-GB]` the result is `en`, which is not a supported language |
| `NegotiatorExamples.EmptyTagMasksLaterMatch` | src/lib/language-negotiator.ts:61-82 | with supported `["", en]` and accepted `["", en]` both passes stop at the empty tag, so the default is returned |

## Left out

- Express's `Request`/`Response` types and the global `req.language` declaration. The request is a plain record, and the result is written to the `language` field of a `Context` object.
- The `res` parameter and the `next()` continuation. `Handle` returns once after setting `language`.
- The handler is a module-level method that takes the factory's `Middleware` value. It is not a closure.
- The factory's error is the value `NoSupportedLanguage`. The message text of the thrown `Error` is not modelled.
- `req.acceptsLanguages()` is a call into Express. It parses and orders the header by quality value. Its output is taken as a given, already-ordered `acceptedLanguages` sequence. The raw header is reduced to a flag: present and non-empty.
- Query parameters parsed to arrays or objects are not modelled. Cookie and query values are strings only.
- `substring(0, 2)` counts UTF-16 code units. The model counts Dafny characters, which are Unicode scalar values. The two differ only for characters outside the Basic Multilingual Plane.
- A `priority` entry outside the three signals is not modelled. The source's type excludes it, and its `switch` would ignore it.
- NegotiatorProperties.IndirectPassFallback: it requires that no accepted tag is supported exactly. The source also reaches the indirect pass when the first exact hit is the empty string. That case is covered by `EmptyTagMasksLaterMatch` and by the definition of `AcceptLanguageMatch`.
