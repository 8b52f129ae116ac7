# PostZero core in Dafny

PostZero is a desktop HTTP client. This project models three pieces of its
shared code and proves properties of them:

- **The collections store** (`src/shared/storage.js`, class `Storage`). One
  JSON file holds an array of collections; every operation reads the whole
  array, changes it, and writes it back. The model is `module Storage`.
  - The file is a field `file: Option<seq<Collection>>` of class `Storage`.
  - Each public method is a `method` that mirrors the JavaScript statement by
    statement. It is proved against a pure function `…Effect`, which gives
    what the call returns or throws and which array it saves.
  - Lemmas relate each effect to the lookups (`findIndex`, `getRequests`). A
    created collection is found by its id. An update stays findable. A deleted
    collection or request is gone, and a second delete is a no-op. An added
    request is appended to the list.
  - They also prove one consequence of the read fallback: when the read fails,
    `createCollection` saves a one-element array over the whole file.
- **The curl parser** (`src/shared/parseCurl.js`, `parseCurlCommand`),
  modelled as `module ParseCurl`.
  - Cleaning, the token regular expression, quote stripping, `split(':')` and
    `trim` are functions, with lemmas about them.
    - A token runs on while pieces of the pattern (`"…"`, `'…'`, bare text)
      keep matching, so an option glued to a quoted value, `-H"a b"`, is one
      token.
    - A simple single-spaced command tokenizes back to its words, and so does
      one whose words are separated by any whitespace and backslash-newline
      continuations. A word here is any run of pieces with its quotes closed.
    - A `"` that is never closed starts no token. The global match skips it
      and carries on, so `curl "<url>` still has `<url>` as an argument.
    - A single-quoted value keeps its spaces and double quotes.
    - A header value keeps every colon after the first.
  - The option loop is a `method` with a `while` loop. It is proved to compute
    `Scan`, the loop as a recursive function.
  - `Scan` is proved equal to a reference definition: the list of options a
    command stands for (`Options`), applied in order (`ApplyAll`).
  - Closed forms follow from that:
    - every header, in order;
    - the last data value;
    - the first non-empty positional token as the URL;
    - the method rule (`-X` wins, but `GET` becomes `POST` when data follows).
  - Also proved: exactly when the parser throws; that a value option left
    dangling at the end throws a `TypeError`; and that an unknown dash option
    is ignored.
- **The settings manager** (`src/shared/settings.js`, class `SettingsManager`),
  modelled as `module Settings`.
  - Its settings are a plain object: merged over the defaults on load, merged
    with updates, and reset.
  - It persists through lowdb to `settings.json`; the class has a `saved`
    field for that file.
  - The methods keep the invariant that every default key is present.
  - Lemmas cover the `getDatabasePath` rule, the composition and idempotence
    of updates, and the round trip: settings that were saved load back
    unchanged.

JavaScript values are `Js.Json`. Plain objects are `map<string, Json>`, and
object spread is map override. `undefined` is an absent key. Truthiness is
`Js.Truthy`. A call that throws returns `Js.Threw(error)`.

Clock values, ids, and the success or failure of each file-system or lowdb call
are parameters.

**Code and tests disagree on `curl -X GET`.** The test at
`src/shared/parseCurl.test.js:118-126` expects it to throw. The code returns
`{method: 'GET', url: '', headers: [], data: ''}`. The model follows the code:
`ParseCurl.MethodOnlyArgs` with `ParseCurl.MethodOnlyHasNoUrl` proves that it
returns with the empty URL.

## Model

| member | source | states |
|---|---|---|
| `Storage.FindCollection` | src/shared/storage.js:87 | `findIndex` by `id`: the first collection with the id, or -1 exactly when none has it |
| `Storage.FilterCollections` | src/shared/storage.js:109 | keeps exactly the collections without the id; the length is unchanged iff none had it |
| `Storage.FilterCollectionsAppend` | src/shared/storage.js:109 | the filter keeps the survivors in their order (distributes over concatenation) |
| `Storage.FilterCollectionsIdentity` | src/shared/storage.js:109 | a filter that matches nothing returns the array unchanged |
| `Storage.RequestIdMatches` | src/shared/storage.js:162 | `r.id === id` throws exactly on a `null` element, else is true iff the element is an object with that id |
| `Storage.IdIsStrictEquality` | src/shared/storage.js:87-162 | `c.id === id` and `r.id === requestId`: true exactly when the object (for a request, an object at all) has an `id` equal to that string; an `id` that is not a string never matches |
| `Storage.FindRequest` | src/shared/storage.js:162 | `findIndex` over requests: the first match or -1; it throws only if a `null` is met, and never when there is none |
| `Storage.FindRequestAt` | src/shared/storage.js:162 | a match at `j` preceded by non-null non-matches is what `findIndex` returns |
| `Storage.WithoutRequest` | src/shared/storage.js:191 | keeps exactly the requests without the id; the length is unchanged iff none had it |
| `Storage.WithoutRequestAppend` | src/shared/storage.js:191 | the request filter keeps the survivors in their order |
| `Storage.FilterRequests` | src/shared/storage.js:190-191 | the filter throws iff some element is `null`, else yields the survivors |
| `Storage.NewCollection` | src/shared/storage.js:66-72 | the new collection has the given id, `requests: []`, both stamps, and `name` exactly when the caller gave one, and no other key |
| `Storage.Touch` | src/shared/storage.js:91-95 | `{...o, ...updates, updatedAt}`: the keys of both plus `updatedAt`, the updates winning, the stamp winning over both |
| `Storage.NewRequest` | src/shared/storage.js:131-136 | the generated id loses to a caller's `id`, the caller's stamps lose to the fresh ones, and every other caller key is kept |
| `Storage.RequestsOf` | src/shared/storage.js:212 | `requests \|\| []`: the stored value when truthy, else the empty array |
| `Storage.WithRequest` | src/shared/storage.js:138-143 | appends to the (possibly defaulted) array and refreshes `updatedAt`, changing no other key; throws a TypeError iff the value has no `push` |
| `Storage.Loaded` | src/shared/storage.js:33-41 | what `getCollections` yields: the stored array, or `[]` when the file is missing or unreadable |
| `Storage.Persisted` | src/shared/storage.js:47-55 | a successful save replaces the file, a failed one leaves it as it was |
| `Storage.CreateCollectionEffect` | src/shared/storage.js:62-77 | returns the new collection and saves the old array with it appended |
| `Storage.UpdateCollectionEffect` | src/shared/storage.js:85-99 | `null` and no save iff no collection has the id; otherwise the first match merged and stamped, every other collection unchanged |
| `Storage.DeleteCollectionEffect` | src/shared/storage.js:106-115 | returns true iff some collection had the id; saves the filtered array exactly then |
| `Storage.AddRequestEffect` | src/shared/storage.js:123-147 | unknown collection: `null`, no save; a found collection throws a TypeError iff its `requests \|\| []` is not an array, and otherwise always saves; a save happens iff a request is returned, and holds the found collection with the new request appended, the others unchanged |
| `Storage.UpdateRequestEffect` | src/shared/storage.js:156-176 | unknown collection: `null`; missing or non-array `requests`: a TypeError; a `findIndex` that meets `null`: a TypeError; no match: `null`; a match always saves: the first matching request merged and stamped in place, the collection stamped, the others unchanged; a save happens iff a request is returned |
| `Storage.DeleteRequestEffect` | src/shared/storage.js:184-199 | unknown collection: false; missing, `null` or non-array `requests` (`.length` or `.filter` fails), or a `null` request (`r.id` fails): a TypeError and no save; a save happens iff true is returned: the filtered requests, the collection stamped, the others unchanged |
| `Storage.ListRequests` | src/shared/storage.js:206-213 | `null` iff no collection has the id, else `requests \|\| []` of the first match |
| `Storage.FindCollectionAfterReplace` | src/shared/storage.js:87-98 | replacing the first match by an object with the same id leaves `findIndex` where it was |
| `Storage.CreatedCollectionLookup` | src/shared/storage.js:62-77 | a fresh id is found at the new last position with an empty request list; a clashing id keeps finding the older collection |
| `Storage.UpdatedCollectionLookup` | src/shared/storage.js:85-99 | without `id` in the updates the collection is found where it was; with a different `id` it no longer answers to the old one |
| `Storage.DeletedCollectionIsGone` | src/shared/storage.js:106-115 | after a delete no collection has the id, its requests are gone, and a second delete returns false and saves nothing |
| `Storage.AddedRequestIsListed` | src/shared/storage.js:123-147 | whenever the collection exists and its `requests \|\| []` is an array, `addRequest` saves, and `getRequests` is then the old list with the new request appended; the collection's stamp is fresh |
| `Storage.UpdatedRequestStaysInPlace` | src/shared/storage.js:156-176 | whenever `findIndex` finds the request, `updateRequest` saves; then the list has the same length, the merged request at the match, all others unchanged, both stamps fresh, and it is still found there when `id` was not updated |
| `Storage.DeletedRequestIsGone` | src/shared/storage.js:184-199 | with non-null requests, `deleteRequest` returns true iff one had the id; after a save none has it, the stamp is fresh, and a second `deleteRequest` returns false and saves nothing |
| `Storage.PushedRequestListed` | src/shared/storage.js:138-143 | after a request is pushed onto the found collection and its stamp refreshed, `getRequests` is the old list followed by that request |
| `Storage.ReplacedRequestListed` | src/shared/storage.js:166-172 | after request `j` is replaced by the merged object and the stamp refreshed, `getRequests` has the same length, the new object at `j` and every other request unchanged; if the `id` is kept, `findIndex` still finds it at `j` |
| `Storage.FilteredRequestsListed` | src/shared/storage.js:191-195 | after the filtered requests are stored and the stamp refreshed, no listed request has the id, `findIndex` gives -1, and a second `deleteRequest` returns false and saves nothing |
| `Storage.FailedReadOnlyCreateWrites` | src/shared/storage.js:33-41 | after a failed read, `createCollection` saves a one-element array over the file; every other operation finds nothing and saves nothing |
| `Storage.Storage.constructor` | src/shared/storage.js:9-11 | the store starts from whatever file is on disk |
| `Storage.Storage.EnsureStorageExists` | src/shared/storage.js:18-27 | throws when the directory is missing and cannot be made; otherwise a missing file becomes `[]` if the write succeeds |
| `Storage.Storage.GetCollections` | src/shared/storage.js:33-41 | yields `Loaded` of the file |
| `Storage.Storage.SaveCollections` | src/shared/storage.js:47-55 | returns whether the write succeeded, and the file is the array exactly then |
| `Storage.Storage.CreateCollection` | src/shared/storage.js:62-77 | returns and persists `CreateCollectionEffect` of what it read |
| `Storage.Storage.UpdateCollection` | src/shared/storage.js:85-99 | returns and persists `UpdateCollectionEffect` of what it read |
| `Storage.Storage.DeleteCollection` | src/shared/storage.js:106-115 | returns and persists `DeleteCollectionEffect` of what it read |
| `Storage.Storage.AddRequest` | src/shared/storage.js:123-147 | returns or throws, and persists, `AddRequestEffect` of what it read |
| `Storage.Storage.UpdateRequest` | src/shared/storage.js:156-176 | returns or throws, and persists, `UpdateRequestEffect` of what it read |
| `Storage.Storage.DeleteRequest` | src/shared/storage.js:184-199 | returns or throws, and persists, `DeleteRequestEffect` of what it read |
| `Storage.Storage.GetRequests` | src/shared/storage.js:206-213 | returns `ListRequests` of what it read |
| `ParseCurl.ReplaceContinuations` | src/shared/parseCurl.js:4 | no backslash is left followed by a newline, the text never grows, and a non-empty text keeps its first character or has a space there |
| `ParseCurl.CollapseSpaces` | src/shared/parseCurl.js:4 | a non-empty text stays non-empty; a leading whitespace run becomes one space and a leading non-space character is kept |
| `ParseCurl.CollapseSingleSpaced` | src/shared/parseCurl.js:4 | after collapsing, the only whitespace left is `' '`, never two in a row |
| `ParseCurl.CollapseKeepsNonSpace` | src/shared/parseCurl.js:4 | collapsing neither adds, drops nor reorders any non-whitespace character |
| `ParseCurl.ContinuationsFixpoint` | src/shared/parseCurl.js:4 | text without a newline has no continuation to replace |
| `ParseCurl.CollapseFixpoint` | src/shared/parseCurl.js:4 | single-spaced text is left as it is |
| `ParseCurl.CleanFixpoint` | src/shared/parseCurl.js:4 | cleaning is the identity on single-spaced text |
| `ParseCurl.Clean` | src/shared/parseCurl.js:4 | the cleaned text is single-spaced: its only whitespace is `' '`, never two in a row |
| `ParseCurl.ContinuationsAppend` | src/shared/parseCurl.js:4 | the continuation pass splits over a concatenation whose seam is not a backslash-newline pair |
| `ParseCurl.DropSpacesAppend` | src/shared/parseCurl.js:4 | the leading whitespace run of a concatenation: that of the left part, running on into the right part when the left part is all whitespace |
| `ParseCurl.CollapseAppend` | src/shared/parseCurl.js:4 | collapsing splits over a concatenation whose seam is not inside a whitespace run |
| `ParseCurl.GapContinuations` | src/shared/parseCurl.js:4 | any mix of whitespace and backslash-newline pairs becomes whitespace only, non-empty if it was |
| `ParseCurl.ContinuationsOfSpaced` | src/shared/parseCurl.js:4 | between words, the continuation pass changes only the gaps |
| `ParseCurl.CollapseOfSpaced` | src/shared/parseCurl.js:4 | words separated by non-empty whitespace runs collapse to the words joined by single spaces |
| `ParseCurl.CleanSpaced` | src/shared/parseCurl.js:4 | words separated by any non-empty mix of whitespace and backslash-newline continuations clean to the words joined by single spaces |
| `ParseCurl.BareEnd` | src/shared/parseCurl.js:5 | the maximal run of non-space non-`"` characters from a position |
| `ParseCurl.UnitEnd` | src/shared/parseCurl.js:5 | one alternative of the token pattern matches at a position unless it holds whitespace or an unmatched `"` |
| `ParseCurl.TokenEnd` | src/shared/parseCurl.js:5 | the `+` of the pattern: a token is empty exactly where no alternative matches |
| `ParseCurl.TokenEndMaximal` | src/shared/parseCurl.js:5 | the `+` repeats as long as it can: a match ends only at the end of the text or where no alternative matches |
| `ParseCurl.RunTokenEnd` | src/shared/parseCurl.js:5 | a match over a run of pieces followed by whitespace or the end takes in the whole run |
| `ParseCurl.BareIsSimple` | src/shared/parseCurl.js:5 | a bare word (no whitespace, no `"`, not opening with `'`) is one piece of the pattern, the whole word |
| `ParseCurl.QuotedIsSimple` | src/shared/parseCurl.js:5 | a word wholly in double or in single quotes is one piece of the pattern, the whole word |
| `ParseCurl.BareThenQuoted` | src/shared/parseCurl.js:5 | bare text followed by a word opening with `"` is still one word: the bare piece stops at the `"` |
| `ParseCurl.QuotedThen` | src/shared/parseCurl.js:5 | a quoted piece followed by any word is still one word |
| `ParseCurl.SimpleArgEdges` | src/shared/parseCurl.js:5 | a word neither starts nor ends with whitespace |
| `ParseCurl.PlacedRun` | src/shared/parseCurl.js:5 | the pieces of a word placed in a text and followed by whitespace or the end are pieces of the text, with the same bounds |
| `ParseCurl.PieceWithin` | src/shared/parseCurl.js:5 | inside a text, a word followed by whitespace or the end has its first piece where the word alone has it |
| `ParseCurl.TokensNonEmpty` | src/shared/parseCurl.js:5 | every token of the global match is non-empty and starts with a non-space |
| `ParseCurl.Tokenize` | src/shared/parseCurl.js:5 | every token (the list is empty when nothing matches) is non-empty and starts with a non-space; the scan `TokensFrom` it runs is pinned by `TokensFromMatch`, `TokensFromSpace` and `TokensFromUnmatchedQuote` |
| `ParseCurl.TokensFromMatch` | src/shared/parseCurl.js:5 | where a match starts, the scan yields it as the next token and goes on from its end |
| `ParseCurl.TokensFromSpace` | src/shared/parseCurl.js:5 | a space starts no match: the scan moves one character on |
| `ParseCurl.TokensFromUnmatchedQuote` | src/shared/parseCurl.js:5 | a `"` with no closing quote after it starts no match: the scan moves one character on and carries on matching, so the rest of the text is not lost |
| `ParseCurl.Args` | src/shared/parseCurl.js:4-5 | every argument of the cleaned command is non-empty and starts with a non-space |
| `ParseCurl.SimpleTokenEnd` | src/shared/parseCurl.js:5 | a word (any run of bare, double-quoted and single-quoted pieces with its quotes closed) followed by whitespace or the end is exactly one token |
| `ParseCurl.JoinWordsAt` | src/shared/parseCurl.js:5 | words joined by single spaces lie one after another in the text, each word's last character followed by one space |
| `ParseCurl.TokensOfWords` | src/shared/parseCurl.js:5 | words laid out so, each one a run of pieces, are exactly the tokens of the global match |
| `ParseCurl.TokensOfJoin` | src/shared/parseCurl.js:5 | such words joined by single spaces tokenize back into the same words |
| `ParseCurl.JoinSingleSpaced` | src/shared/parseCurl.js:4 | simple single-spaced words joined by spaces form single-spaced text |
| `ParseCurl.ArgsOfJoin` | src/shared/parseCurl.js:4-5 | a command typed as simple words separated by single spaces has exactly those words as its arguments |
| `ParseCurl.ArgsOfSpaced` | src/shared/parseCurl.js:4-5 | a command typed as simple words separated by any mix of whitespace and backslash-newline continuations, as over several lines, has exactly those words as its arguments |
| `ParseCurl.Strip` | src/shared/parseCurl.js:17 | removes at most one character at each end |
| `ParseCurl.StripQuoted` | src/shared/parseCurl.js:17 | a value wrapped in quote characters (either kind at either end) loses exactly the two |
| `ParseCurl.StripUnquoted` | src/shared/parseCurl.js:17 | a value without a quote at either end is unchanged |
| `ParseCurl.StripOneSide` | src/shared/parseCurl.js:17 | a quote at one end only is removed alone, at the start or at the end |
| `ParseCurl.SplitAtColon` | src/shared/parseCurl.js:21-22 | key and rest join back to the header with one colon; the key holds no colon; without a colon the key is the whole text and the value empty |
| `ParseCurl.Trim` | src/shared/parseCurl.js:22 | the result is no longer than the text, neither starts nor ends with whitespace, and text already so is unchanged |
| `ParseCurl.TrimStart` | src/shared/parseCurl.js:22 | a suffix of the text, everything before it whitespace, and not itself starting with whitespace |
| `ParseCurl.TrimEnd` | src/shared/parseCurl.js:22 | a prefix of the text, everything after it whitespace, and not itself ending with whitespace |
| `ParseCurl.TrimInfix` | src/shared/parseCurl.js:22 | `trim()` is the infix between a whitespace prefix and a whitespace suffix of the text, and is empty exactly when the text is all whitespace |
| `ParseCurl.HeaderSplit` | src/shared/parseCurl.js:20-22 | `k:v` with a colon-free `k` parses to the trimmed `k` and the trimmed `v`, later colons kept in the value |
| `ParseCurl.ParseHeader` | src/shared/parseCurl.js:20-22 | header text without a colon gives the empty value |
| `ParseCurl.HeaderKeyHasNoColon` | src/shared/parseCurl.js:21-22 | the parsed key never holds a colon, whatever the header text |
| `ParseCurl.HeaderWithoutColon` | src/shared/parseCurl.js:21-22 | header text without a colon is all key, with the empty value |
| `ParseCurl.Step` | src/shared/parseCurl.js:15-33 | one pass of the loop throws iff a value option is the last token, and otherwise moves the index forward |
| `ParseCurl.Scan` | src/shared/parseCurl.js:14-34 | the loop throws nothing but a TypeError |
| `ParseCurl.Parse` | src/shared/parseCurl.js:2-37 | `Not a curl command` exactly when there are no tokens or the first is not `curl`; nothing else but a TypeError is thrown |
| `ParseCurl.DanglingValueFlag` | src/shared/parseCurl.js:17-25 | a command that parsed, with a value option appended, throws a TypeError |
| `ParseCurl.ScanDropPrefix` | src/shared/parseCurl.js:14-34 | the loop from a position does not depend on the tokens before it |
| `ParseCurl.UnknownOptionIgnored` | src/shared/parseCurl.js:31-33 | removing an unknown dash option from anywhere changes nothing |
| `ParseCurl.Options` | src/shared/parseCurl.js:14-34 | the option list of the tokens throws only a TypeError |
| `ParseCurl.ScanIsApplyAll` | src/shared/parseCurl.js:14-34 | the loop throws iff the option list does, and otherwise equals the options applied in order |
| `ParseCurl.ApplyAllAppend` | src/shared/parseCurl.js:14-34 | applying two option lists in turn is applying their concatenation |
| `ParseCurl.HeadersOf` | src/shared/parseCurl.js:19-22 | the headers are exactly those of the header options |
| `ParseCurl.LastDataIndex` | src/shared/parseCurl.js:24-25 | the position of the last data option, with no data option after it |
| `ParseCurl.FirstUrlIndex` | src/shared/parseCurl.js:28-29 | the position of the first positional token with non-empty text, and none before it |
| `ParseCurl.ApplyAllHeaders` | src/shared/parseCurl.js:19-23 | headers accumulate: all header options, in command-line order |
| `ParseCurl.ApplyAllData` | src/shared/parseCurl.js:24-27 | the last data option wins |
| `ParseCurl.UrlSticks` | src/shared/parseCurl.js:29 | once the URL is non-empty, later positional tokens do not change it |
| `ParseCurl.ApplyAllUrl` | src/shared/parseCurl.js:28-30 | the URL is the first positional token with non-empty text, or empty |
| `ParseCurl.MethodWithoutExplicit` | src/shared/parseCurl.js:24-26 | without `-X`, the method stays, except that `GET` becomes `POST` iff there is a data option |
| `ParseCurl.MethodAfterExplicit` | src/shared/parseCurl.js:16-26 | after the last `-X m` the method is `m`, except that `GET` becomes `POST` iff a data option follows |
| `ParseCurl.ParseResult` | src/shared/parseCurl.js:2-37 | a command parses iff it starts with `curl` and has no dangling value option; its headers, data and URL are the closed forms above |
| `ParseCurl.MethodOnlyArgs` | src/shared/parseCurl.js:5 | `curl -X GET` has the three tokens `curl`, `-X`, `GET` |
| `ParseCurl.MethodOnlyHasNoUrl` | src/shared/parseCurl.js:8-36 | those tokens parse to method `GET` with the empty URL, no headers and no data |
| `ParseCurl.QuotedDataArgs` | src/shared/parseCurl.js:5 | a single-quoted data value with spaces and double quotes stays one token |
| `ParseCurl.GluedQuotedWord` | src/shared/parseCurl.js:5 | `-H"<x>"` is one word of two pieces, single-spaced when `x` is |
| `ParseCurl.UnmatchedQuoteArgs` | src/shared/parseCurl.js:4-5 | `curl "<url>` with the closing quote missing has the arguments `curl` and `<url>`: the lone `"` is skipped |
| `ParseCurl.GluedQuotedArgs` | src/shared/parseCurl.js:4-5 | in `curl -H"<x>" <url>` the option glued to its quoted value is one argument, spaces inside the quotes included |
| `ParseCurl.DataStep` | src/shared/parseCurl.js:24-26 | a data option sets the data and turns `GET` into `POST` |
| `ParseCurl.PositionalStep` | src/shared/parseCurl.js:28-30 | a token without a leading dash sets the URL only while it is empty |
| `ParseCurl.QuotedDataKeepsSpaces` | src/shared/parseCurl.js:2-37 | `curl -d '<x>' <url>` posts `x` (spaces and double quotes included) to `url` |
| `ParseCurl.ParseCurlCommand` | src/shared/parseCurl.js:2-37 | the method returns or throws what `Parse` of its input does |
| `ParseCurl.ScanOptions` | src/shared/parseCurl.js:14-36 | the loop computes `Scan` of the tokens from index 1 with the initial locals |
| `Settings.Defaults` | src/shared/settings.js:14-19 | the four default keys, with a falsy `dbPath` |
| `Js.Spread` | src/shared/settings.js:75-78 | object spread, as in an update and in loading over the defaults (lines 37-40): the keys of both, the right-hand values winning, the left-hand values kept elsewhere |
| `Settings.DatabasePath` | src/shared/settings.js:114-120 | the custom `dbPath` when truthy, else the user-data directory; never falsy when that directory is non-empty |
| `Settings.SettingsManager.GetDatabasePath` | src/shared/settings.js:114-120 | the custom `dbPath` of the current settings when truthy, else the user-data directory |
| `Settings.DefaultDatabasePath` | src/shared/settings.js:114-120 | with the defaults the database is in the user-data directory |
| `Settings.UpdatedDatabasePath` | src/shared/settings.js:72-120 | an update with a truthy `dbPath` selects it; one with a falsy `dbPath` selects the user-data directory; one without `dbPath` keeps the selection |
| `Settings.UpdatesCompose` | src/shared/settings.js:75-78 | two updates in a row equal one update with the second merged over the first |
| `Settings.UpdateIdempotent` | src/shared/settings.js:75-78 | repeating an update changes nothing |
| `Settings.ReloadIsIdentity` | src/shared/settings.js:37-40 | settings that hold every default key load back unchanged |
| `Settings.SettingsManager.constructor` | src/shared/settings.js:11-22 | a fresh manager holds the defaults and has no database |
| `Settings.SettingsManager.Initialize` | src/shared/settings.js:27-59 | read and write succeed: the stored settings merged over the defaults, saved back; any failure: the defaults, written once more if that write succeeds; it never throws |
| `Settings.SettingsManager.GetSettings` | src/shared/settings.js:64-66 | a copy equal to the settings, so it holds every default key |
| `Settings.SettingsManager.UpdateSettings` | src/shared/settings.js:72-109 | a truthy `dbPath` that can be neither accessed nor created throws with nothing changed; otherwise the merge is kept in memory even when the save then fails and throws |
| `Settings.SettingsManager.ResetToDefaults` | src/shared/settings.js:125-137 | the settings become the defaults whatever they were (so a second reset changes nothing); a failed save throws |

## Left out

- File contents are values, not text. `JSON.parse`, `JSON.stringify` and their formatting are not modelled. `collections.json` is assumed to hold an array of objects. A parse error counts as a failed read.
- `fs`, lowdb and `fs/promises` are not modelled. Each call is reduced to a success flag passed as a parameter. A write either happens whole or not at all.
- lowdb's `read` is assumed to keep the default data when the file holds nothing. lowdb is not part of this model.
- `Date.now()` and `new Date().toISOString()` become parameters (`id`, `createdAt`, `updatedAt`, `touchedAt`). Two stamps taken in the same call may differ, as in the source.
- `async`/`await` scheduling is not modelled. Each settings method runs to completion before the next starts.
- Logging through `console` is left out.
- Paths (`path.join`) are left out.
- `undefined` is an absent key, so `name: undefined` in `createCollection` is no `name` key.
- Arguments are plain objects of JSON values. Getters, prototypes and non-JSON values are not modelled.
- The objects in memory are values. The source never mutates a shared object after aliasing it (`this.db.data = this.settings` and `this.db.data = this.defaultSettings` are only replaced later, never changed in place), so this loses nothing.
- Storage.Storage.constructor: the `ensureStorageExists` call made during construction is `EnsureStorageExists`, called after the constructor, because a Dafny constructor cannot throw.
- ParseCurl.ScanOptions: the loop of `parseCurlCommand` is its own method. `ParseCurlCommand` calls it after the cleaning and the `curl` check.
- ParseCurl.Strip: its own contract gives only length bounds. What it removes is stated by `StripQuoted`, `StripUnquoted` and `StripOneSide`.
- `settings.json` is assumed to hold an object; lowdb's handling of other JSON values is not modelled.
- ParseCurl.Trim: its own contract gives only the edges; that the result is the infix between the whitespace prefix and suffix is stated by `TrimInfix`.
- The local `lastOpt` of `parseCurlCommand` is written but never read, so it is left out.
- `\s` is the set of characters JavaScript's regular expressions and `trim` treat as whitespace. The model has no Unicode normalisation.
- The main process (`src/main/index.js`), which hands curl text to a third-party converter, is not part of this model.
- The preload scripts (`preload.js`, `src/main/preload.js`) only bridge IPC, and are not part of this model.
- The test file `src/shared/parseCurl.test.js` is not modelled. Its `curl -X GET` case is discussed above.
