# Sindhi translator core, modelled in Dafny

A model of the translation core of the `SindhiTranslator` class in `script.js`. It covers five parts:

- **The fallback translator `getMockTranslation`.** It lower-cases and trims the input. An exact key in the 35-entry demo dictionary answers first. Failing that, the first key in definition order that occurs in the input answers. Failing that, the answer is a placeholder: it wraps the input when the input is shorter than 50 UTF-16 code units, and is a fixed sentence otherwise.
- **The history `addToHistory`.** The new entry goes to the head, and the list is then cut to ten entries.
- **The `translateText` transition.** It covers the empty-input guard and the busy guard, the choice of strategy by the truthiness of the API key, recording in history only on success, and releasing the busy flag in `finally`.
- **The reply classification of `callOpenAIAPI`.** A non-ok status or an unreadable body is an error. Trimmed, non-blank content is the translation. Anything else becomes "Translation unavailable".
- **The API-key rule of `setApiKey` and `loadSettings`.** A truthy key is stored, any other value removes the stored key, and a truthy stored key is restored on load.

Files:

- `js_string.dfy` (module `JsString`): the JavaScript string operations the core uses.
  - `trim`, with the exact ECMAScript whitespace and line-terminator set, proved against a reference definition.
  - `toLowerCase`, restricted to ASCII letters.
  - `includes`.
  - UTF-16 `length`.
  - Truthiness of an optional string.
- `phrasebook.dfy`: two modules.
  - `Phrasebook`: the dictionary, in definition order, and the lookup, stated for any table.
  - `PhrasebookFacts`: facts about the built-in dictionary and worked lookups.
- `history.dfy` (module `History`): `addToHistory` and what a run of insertions leaves.
- `remote.dfy` (module `Remote`): the classification of the chat-completions reply.
- `translator.dfy` (module `Translator`): the object state, `translateText`, `setApiKey` and `loadSettings`.

`translateText` awaits its strategy, so it is modelled in two halves:

- `Begin` covers the guards, up to raising the busy flag.
- `Finish` covers what follows once the awaited result is known.

A second call that arrives between the halves meets the raised flag.

Inputs the browser would supply become parameters:

- The remote service's reply is a `Reply` value.
- The clock reading for a history entry is `now`.
- The stored key and history found by `loadSettings` are `savedKey` and `savedHistory`.
- The write `setApiKey` makes to storage is returned as a `KeyWrite` value.

## Model

| member | source | states |
|---|---|---|
| JsString.Trim | script.js:125 | The result is the input with the whitespace at both ends cut off: only whitespace lies outside the cut, and the kept part neither starts nor ends with whitespace. |
| JsString.TrimUnique | script.js:125 | A string has exactly one trimmed form, so the reference definition determines `trim`. |
| JsString.TrimEmptyIff | script.js:125-130 | Input trims to the empty string exactly when every character is whitespace, which is when the empty-input warning fires. |
| JsString.TrimIdempotent | script.js:200 | Trimming text that is already trimmed changes nothing, so the second trim in the lookup is harmless. |
| JsString.LowerTrimCommute | script.js:200 | Lower-casing then trimming equals trimming then lower-casing. |
| JsString.ToLower | script.js:200 | Lower-casing keeps the length and leaves no ASCII capital. Each ASCII capital becomes its lower-case letter, and every other character stays as it is. |
| JsString.Includes | script.js:209 | `includes` answers yes exactly when the key occurs at some position of the text. |
| JsString.MissingCharExcludes | script.js:209 | A key containing a character the text lacks is not included in the text. |
| JsString.Utf16Length | script.js:215 | The JavaScript length lies between the number of characters and twice that, and equals it when every character is in the Basic Multilingual Plane. |
| JsString.Utf16Char | script.js:215 | A character counts one code unit inside the Basic Multilingual Plane and two outside it. |
| JsString.Utf16Concat | script.js:215 | The JavaScript length of a concatenation is the sum of the lengths; with the single-character case, this fixes the length of every string. |
| Phrasebook.Table | script.js:85-121 | The dictionary has 35 entries, in definition order. |
| Phrasebook.TableKeysDistinct | script.js:85-121 | No key is defined twice, so an exact match names a single entry. |
| Phrasebook.Placeholder | script.js:215-219 | The placeholder is never empty. A short input's placeholder is the opening bracket, then exactly the input, then the fixed closing text; an input of 50 or more code units gets the fixed sentence. |
| Phrasebook.Normalize | script.js:200 | The lookup key is the lower-cased input with the whitespace at both ends cut off, so it neither starts nor ends with whitespace, and it holds no ASCII capital. |
| Phrasebook.NormalizeIdempotent | script.js:200 | Normalising a key gives the key back. |
| Phrasebook.NormalizeAfterTrim | script.js:125 | Normalising already-trimmed text gives the same key as normalising the raw text. |
| Phrasebook.FirstIndexFrom | script.js:208-212 | The position returned is the earliest one that matches; when there is none, no position matches. |
| Phrasebook.ExactIndex | script.js:203 | The position returned is the first entry whose key equals the normalised input; when there is none, no key equals it. |
| Phrasebook.IncludedIndex | script.js:208-212 | The position returned is the first entry whose key occurs in the normalised input; when there is none, no key occurs. |
| Phrasebook.Lookup | script.js:200-219 | When the normalised input equals a key with a non-empty value, the answer is that key's value. Without such an exact hit, it is the value of the earliest key, in table order, that occurs in the normalised input. When no key occurs there, it is the placeholder for the input. |
| Phrasebook.LookupAnswers | script.js:196-220 | The lookup answers with a table value or the placeholder, and is never empty when the table values are not. |
| Phrasebook.MockTranslation | script.js:196-220 | `getMockTranslation` answers with a dictionary value or the placeholder, and never with the empty string. |
| Phrasebook.MockTranslationExact | script.js:200-205 | When the lower-cased, trimmed input is a dictionary key, `getMockTranslation` answers with that key's value. |
| PhrasebookFacts.HelloIsExact | script.js:200-205 | "Hello" is matched exactly after lower-casing and answers "سلام". |
| PhrasebookFacts.DayShadowsGood | script.js:107-112 | "Good day" includes both "good" and "day". It answers "ڏينهن" for "day", which is defined earlier, although "good" is longer and comes first in the input. |
| PhrasebookFacts.ExactMatchBeforeSubstring | script.js:203-212 | "How are you?" answers with the question-mark entry through the exact pass, although the key "how are you" is the first key it includes. |
| PhrasebookFacts.SnowMeansNo | script.js:208-212 | Substring matching ignores word boundaries: "Snow" answers "نه", the value for "no". |
| PhrasebookFacts.UnknownShortInput | script.js:215-216 | "ok" matches no key and comes back as "[ok جو سنڌي ترجمو]". |
| History.AddToHistory | script.js:345-360 | After an insertion into a history of length n, the length is min(n+1, 10), the new entry is at the head, and the rest is the first min(n, 9) old entries in their old order. |
| History.AddAllNewestFirst | script.js:352-357 | A run of insertions leaves the inserted entries newest first, followed by the old history, cut to ten. |
| History.LatestTenRemain | script.js:354-357 | Ten or more insertions leave exactly the ten latest, newest first, and nothing of the earlier history. |
| Remote.Classify | script.js:188-193 | A reply is a success exactly when it has an ok status and a readable `choices` body. A non-ok status fails with that status. A success is non-empty and already trimmed. |
| Remote.ClassifyContent | script.js:193 | With an ok status, absent or blank content gives "Translation unavailable", and any other content gives its trimmed form. |
| Remote.ClassifyStable | script.js:193 | Classifying a reply whose content is an earlier translation gives that translation back unchanged. |
| Translator.Initial | script.js:4-7 | The fields as the constructor sets them before `loadSettings` runs: no key, not busy, empty history. |
| Translator.SelectStrategy | script.js:143-147 | The remote service is chosen exactly when the API key is truthy (present and non-empty). |
| Translator.Begin | script.js:124-138 | Input that trims to empty warns and changes nothing. A call while busy is dropped and changes nothing. Otherwise the trimmed input goes to the strategy chosen from the key, and the busy flag is raised. |
| Translator.RunStrategy | script.js:141-147 | The phrasebook strategy always succeeds with the lookup answer; the remote strategy's outcome is the classification of the reply. |
| Translator.Finish | script.js:149-161 | The busy flag is released and the key is kept. A success adds the translation at the head of the history; a failure leaves the history unchanged. |
| Translator.TranslateText | script.js:124-162 | This is the whole call. Empty input and a busy instance change nothing. Otherwise the flag ends released. Only a translation grows the history. Without a key, the answer is the phrasebook's. With a key, the call succeeds exactly when the reply is readable, and reports the classified translation or the classified failure. |
| Translator.OverlappingCallDropped | script.js:132-136 | A call arriving while the first one awaits its strategy leaves the state untouched, and the first call then completes as if the second had not come. |
| Translator.OfflineAlwaysRecords | script.js:143-151 | Without a key, every non-empty call on an idle instance succeeds with a non-empty answer and puts the trimmed input and that answer at the head of the history. |
| Translator.FailureRestoresState | script.js:152-161 | A failed remote call leaves the whole state exactly as it was before the call. |
| Translator.SetApiKey | script.js:417-424 | The field takes the value as given. Storage gets the key when the value is truthy and has the key removed otherwise. |
| Translator.LoadSettings | script.js:390-406 | A truthy stored key replaces the field. A stored history that parses replaces the history, without any cut. A missing or corrupt history keeps the old one. |
| Translator.KeySurvivesReload | script.js:390-395 | A key set through `setApiKey` comes back after a reload when it was truthy and comes back absent otherwise, so the reloaded instance picks the same strategy. |
| Translator.LoadedHistoryUnbounded | script.js:398-402 | A loaded history may hold more than ten entries; the next insertion cuts it to ten. |

## Left out

- DOM and UI are not modelled: element lookup, event wiring, rendering of the result or error, notifications and their timers, the loading overlay, the character counter, scrolling and injected styles. They have no effect on the translation state.
- The request that `callOpenAIAPI` sends (URL, headers, prompt, model parameters) is not modelled. Only the reply's classification is; the reply is an input.
- The random one-to-two-second delay in `getMockTranslation` is not modelled. It does not affect the returned value.
- Persisting the history in `saveToLocalStorage` is not modelled. It is a write with no effect on the state, and a failing write is only logged.
- Clipboard paste, copy and speech synthesis are not modelled; they are platform capabilities.
- Which message `translateText` shows, and the "Failed" display, are not modelled beyond the `Report` value.
- Phrasebook.Lookup: JavaScript property lookup on the dictionary object would also find inherited names such as `constructor`. The model looks up the table's own keys only.
- JsString.ToLower: only ASCII letters are lower-cased; the Unicode case mapping of `toLowerCase` is not modelled. The keys are plain lower-case ASCII, but some non-ASCII characters lower-case into ASCII letters, so the lookup can differ from the source. For example, U+212A KELVIN SIGN lower-cases to `k`, so "WOR" followed by a Kelvin sign answers "ڪم" (the value for "work") in the source, while the model answers with the placeholder.
- JsString.Utf16Length: a Dafny `char` is a Unicode scalar value, so strings holding unpaired surrogate halves cannot be represented.
- Remote.Classify: message content that is present but not a string (a number, say) makes `trim` throw in the source. The model has no such case.
- Translator.LoadSettings: a stored history that parses to something other than a list of entries is not represented.
- Exceptions thrown by the display code inside the `try` block are not modelled; such an exception would turn a successful translation into the error path.
