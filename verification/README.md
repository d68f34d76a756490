# UTM URL builder — Dafny model

This project models the logic of the `URLBuilder` component of a small
React tool that builds URLs tagged with UTM campaign-tracking parameters
and keeps a local list of presets.

- **URL composition** (`generateURL`). The five tracking fields
  `utm_source`, `utm_medium`, `utm_campaign`, `utm_term` and `utm_content`
  are held in that fixed order. Fields whose trimmed value is empty are
  dropped. Each kept value is percent-encoded with `encodeURIComponent`.
  The pairs `key=value` are joined with `&`. The result is appended to the
  base address after `&` if the base already contains `?`, and after `?`
  otherwise, even when no field is kept.
- **Presets** (`savePreset`, `loadPreset`, the initial load). A preset is a
  snapshot of the base address and the five values. The preset list is
  only ever appended to and is written whole to browser storage under the
  key `utmPresets`. Loading a preset copies its values back into the
  editable state.

The component's state (`useState` values) and the storage entry are an
explicit `Builder` record. Every handler is a pure function from one record
to the next (`UrlBuilder` module). `Run` threads a sequence of user actions
through them.

Modules:

- `Wrappers`: `Option`.
- `JsString`: `trim` (ECMAScript WhiteSpace and LineTerminator code
  points), `join`, and the `split` / cut-at-first-`=` a reader of the
  query uses.
- `UriComponent`: `encodeURIComponent` per section 19.2.6.4 of ECMA-262
  (the Encode operation of section 19.2.6.5). Unescaped code points are ASCII
  letters and digits and `- _ . ! ~ * ' ( )`. Every other code point becomes
  its UTF-8 bytes written as `%XX` with uppercase hex digits. Its partner is
  a model of `decodeURIComponent` (section 19.2.6.6, empty reserved set).
  `decodeURIComponent` is not called by the builder. It exists here to state
  that encoding loses nothing.
- `Utm`: the field record, its key order and its keys.
- `UrlQuery`: filtering, pair formatting, joining and the separator choice.
  It also holds the reading of a query back into entries, and the round-trip
  lemmas that tie the two together.
- `Presets`: the stored preset record, snapshot and restore, append, and
  the initial list.
- `UrlBuilder`: the state record and the handlers.

The base address is kept unchanged as the start of the URL; nothing is
stripped from it. A stored list is used as it is read; stored data that does not parse
is outside the model (see "Left out").

## Model

| member | source | states |
|---|---|---|
| JsString.Trim | src/App.tsx:30 | `value.trim()` is empty exactly when every code point of the value is ECMAScript white space or a line terminator; otherwise it starts and ends with a non-white-space code point |
| JsString.TrimStart | src/App.tsx:30 | the result is a suffix of the input, everything dropped is white space, and it does not start with white space |
| JsString.TrimEnd | src/App.tsx:30 | the result is a prefix of the input, everything dropped is white space, and it does not end with white space |
| JsString.Join | src/App.tsx:35 | `join` of no parts is the empty string; otherwise the result starts with the first part |
| JsString.Split | src/App.tsx:35 | splitting yields at least one part, no part holds the separator, and joining the parts gives back the input |
| JsString.SplitJoin | src/App.tsx:35 | splitting the joined pairs on `&` gives back exactly the pairs, so the joining puts one `&` between neighbours and none at either end |
| JsString.SplitAtFirst | src/App.tsx:33 | cutting at the first `=` gives a head without `=` and a tail, which rejoin to the input |
| JsString.SplitAtFirstCut | src/App.tsx:33 | a pair `key=value` whose key has no `=` is cut back into that key and that value |
| UriComponent.HexDigit | src/App.tsx:33 | an escape digit is an uppercase hexadecimal digit that reads back as its value |
| UriComponent.Utf8 | src/App.tsx:33 | a code point becomes 1 to 4 bytes whose lead byte announces the length and whose other bytes are continuation bytes; one byte exactly for ASCII |
| UriComponent.Utf8RoundTrip | src/App.tsx:33 | decoding the UTF-8 bytes of a code point gives back that code point |
| UriComponent.EncodeChar | src/App.tsx:33 | an unescaped code point is copied unchanged; any other one becomes `%`-escapes |
| UriComponent.Encode | src/App.tsx:33 | `encodeURIComponent(value)` contains only unescaped code points and `%`, and is at least as long as the value |
| UriComponent.EncodedIsQuerySafe | src/App.tsx:33 | an encoded value contains none of `& = ? # / +` or space |
| UriComponent.EncodeUnescaped | src/App.tsx:33 | a value made only of unescaped code points, such as ASCII letters and digits, is copied unchanged |
| UriComponent.EncodeAppend | src/App.tsx:33 | encoding works code point by code point: the encoding of a concatenation is the concatenation of the encodings |
| UriComponent.ReadEscapedBytes | src/App.tsx:33 | `%XX` escapes read back as the bytes they were written from |
| UriComponent.Decode | src/App.tsx:33 | `decodeURIComponent` (the reader's side of the value encoding) never lengthens a string, and leaves a string without `%` unchanged |
| UriComponent.DecodeEncodeChar | src/App.tsx:33 | decoding the encoding of one code point gives that code point and leaves the rest of the string untouched |
| UriComponent.DecodeEncode | src/App.tsx:33 | `decodeURIComponent(encodeURIComponent(v)) == v` for every value, so encoding loses nothing |
| Utm.KeyFacts | src/App.tsx:7-13 | each key has its field's rank in the fixed order, is non-empty and holds only unescaped characters, so neither `=` nor `&` |
| Utm.Rank | src/App.tsx:7-13 | a field's rank is its position in the order source, medium, campaign, term, content |
| Utm.KeyRank | src/App.tsx:7-13 | a string ranked below 5 is the key of the field at that rank |
| Utm.With | src/App.tsx:24 | `{ ...utmParams, [name]: value }` sets the named field to the value and leaves the other four unchanged |
| Utm.Entries | src/App.tsx:7-13 | `Object.entries(utmParams)` lists the five key-value pairs in the declared key order |
| UrlQuery.KeepFilled | src/App.tsx:29-30 | the filter never lengthens the list; it keeps every entry when all values are filled and none when no value is |
| UrlQuery.KeepFilledSound | src/App.tsx:29-30 | every entry the filter keeps comes from its input and has a value whose trim is non-empty |
| UrlQuery.KeepFilledComplete | src/App.tsx:29-30 | every input entry whose trimmed value is non-empty is kept |
| UrlQuery.KeepFilledInOrder | src/App.tsx:29-30 | the kept entries are a subsequence of the input: the filter never reorders |
| UrlQuery.Pair | src/App.tsx:31-34 | a pair is the unencoded key, `=`, then the encoded value; it always contains `=`, holds no `&` when the key has none, and, when the key holds no `=`, cuts at its first `=` back into key and encoded value |
| UrlQuery.AppendQuery | src/App.tsx:37-39 | the URL is the unchanged base, then `&` if the base contains `?` and `?` otherwise, then the query block; its length is base length + 1 + query length |
| UrlQuery.ParsePairsOfPairs | src/App.tsx:31-34 | reading formatted pairs back, by cutting at `=` and decoding, recovers the entries they were made from, when no key holds `=` |
| UrlQuery.JoinedPairsRoundTrip | src/App.tsx:31-35 | pairs joined with `&` split, cut and decode back to the entries they were made from, whenever the keys hold neither `=` nor `&` |
| UrlQuery.QueryBlock | src/App.tsx:29-35 | the filled entries as `&`-joined pairs; read back, the block yields exactly the filled entries, in order, with their original values |
| UrlQuery.SubsequenceRanked | src/App.tsx:29-30 | dropping entries from a list whose keys are in field order leaves a list whose keys are in field order |
| UrlQuery.EntriesRanked | src/App.tsx:7-13 | the entries' keys come in strictly increasing field order |
| UrlQuery.FilledEntries | src/App.tsx:29-30 | a field's key is in the query, with that field's value, exactly when the value is not blank; the keys come in the fixed order, each at most once |
| UrlQuery.EmptyQueryIffAllBlank | src/App.tsx:35-39 | the query block is empty exactly when every value is blank, and the URL is then the base followed by a bare `?` or `&` |
| UrlQuery.OnlyFilled | src/App.tsx:29-30 | when one field's value is filled (its trim is non-empty) and every other value is empty, the filter keeps that field's entry alone |
| UrlQuery.SingleFieldQuery | src/App.tsx:29-35 | the query block of a record with one non-empty field whose value needs no escaping (and so is filled) is exactly `key=value` |
| UrlQuery.Compose | src/App.tsx:28-42 | the generated URL begins with the unchanged base, then `&` if the base contains `?` and `?` otherwise, and its part after that separator parses to exactly the filled fields |
| Presets.Snapshot | src/App.tsx:50 | a new preset holds the current base address and each of the five values verbatim |
| Presets.Restore | src/App.tsx:57-65 | loading a preset yields its base address and a record whose every field is the preset's stored value for that key |
| Presets.RestoreSnapshot | src/App.tsx:50-65 | loading a snapshot restores exactly the base address and values it was taken from |
| Presets.SnapshotRestore | src/App.tsx:50-65 | taking a snapshot of what a preset loads rebuilds that preset |
| Presets.Append | src/App.tsx:51 | saving adds one preset at the end and keeps every earlier preset in its place |
| Presets.InitialPresets | src/App.tsx:15-17 | with no stored entry the list starts empty; otherwise it is the stored list |
| UrlBuilder.Mount | src/App.tsx:6-17 | the component starts with an empty base, empty values, no generated URL and the stored presets, with list and storage in step |
| UrlBuilder.HandleInputChange | src/App.tsx:19-26 | an edit replaces only the edited input's value; the generated URL, presets and storage are unchanged |
| UrlBuilder.GenerateURL | src/App.tsx:28-42 | the new generated URL begins with the base, then `&` if the base contains `?` and `?` otherwise, and its query parses to the filled fields; the inputs, presets and storage are unchanged |
| UrlBuilder.SavePreset | src/App.tsx:49-55 | the list grows by one, keeps its old presets as a prefix, ends with a preset that loads back to the current state, and is written whole to storage |
| UrlBuilder.LoadPreset | src/App.tsx:57-66 | the preset's base and values become the editable state; the list, storage and generated URL are unchanged |
| UrlBuilder.Step | src/App.tsx:19-66 | no single user action (edit, generate, save, load) removes or reorders presets, and none lets storage fall out of step with the list |
| UrlBuilder.Run | src/App.tsx:15-66 | over any sequence of user actions the old preset list stays a prefix of the list, and storage keeps holding the list |
| UrlBuilder.ReloadAfterSave | src/App.tsx:15-17 | after a save, a freshly mounted component reads back exactly the saved list |
| UrlBuilder.SaveThenLoad | src/App.tsx:49-66 | loading the preset just saved restores the base and values it was saved from |

## Left out

- Rendering (JSX, cards, buttons, logo, styling, placeholder text) and the
  modal dialog component: presentation without logic.
- `copyToClipboard`: clipboard writing and `alert` are browser side effects
  that no other logic depends on. `savePreset`'s `alert` is left out for
  the same reason.
- JSON serialisation and `localStorage` itself. The storage entry is an
  `Option` of the preset list. Malformed stored JSON, which makes
  `JSON.parse` throw, is not modelled. Storage quota failures are not
  modelled either.
- Stored presets that lack a key, which `loadPreset` would turn into
  `undefined` values: every modelled preset carries all five strings.
- Lone surrogates, on which `encodeURIComponent` throws `URIError`: strings
  are sequences of Unicode scalar values, so composition is total.
- AppendQuery: lengths count code points, not the UTF-16 code units a
  JavaScript string's `length` counts.
- React's asynchronous batching of state updates: each handler is one
  atomic step on the state record.
