# xmlhttprequest-cookie in Dafny

A model of the cookie handling of `xmlhttprequest-cookie`. This is the wrapper around
Node's `XMLHttpRequest` that keeps an in-memory cookie jar. It stores every
`Set-Cookie` response header in the jar and adds a `Cookie` request header built from
the jar.

The project models three parts of the library:

- **The cookie object** (`cookie.dfy`, `cookie_props.dfy`).
  - A `Cookie` is a value with seven fields: name, value, domain, path, expires, secure
    and httponly.
  - `Default` is `new Cookie()`, `IsExpired` is `expired()`, `ToKey` is `toKey()` and
    `Serialize` is `toString()`.
  - `Build` is `Cookie.build`. It is a method with the source's loop over the "; "
    segments, proved equal to the function `Parse`, a left fold over those segments.
  - The properties proved about them:
    - when `build` throws;
    - which segment sets each field (the last one wins);
    - that `toString` is a join of pieces;
    - the round trip `build(toString(c)) == c` for every canonical cookie;
    - that `toKey` is not injective.
- **The cookie jar** (`jar.dfy`, `jar_props.dfy`, `save_load.dfy`, `jar_object.dfy`).
  - `CookieJar` is a class whose two fields, `cookieList` and `cookieMap`, are updated
    in place by `clear`, `load`, `insert` and `remove`.
  - Each method is proved to agree with a function on the value `Store(list, index)`.
  - `clear` and `load` leave the list and the map in step (`Consistent`), and `insert` keeps them so.
  - `remove` is modelled as written. It keeps them in step only when it removes the last cookie; see "## Findings".
  - `find`, `findFuzzy` and `save` read the fields.
  - The properties proved are about the jar invariant, lookups after `insert` and
    `remove`, which domains and paths `findFuzzy` visits, what it returns (first name
    wins, only unexpired matching cookies), and the `save`/`load` round trip.
- **The two request hooks** (`wrapper.dfy`).
  - `cookie_recv` inserts the cookies of the `Set-Cookie` headers.
  - `cookie_send` composes the `Cookie` header.
  - Each is proved against a function. The properties proved are what the header holds
    and that a secure cookie never leaves over plain HTTP.

`js_text.dfy` models the JavaScript string operations the code relies on:

- `split("; ")` and `join("; ")`, with their round trips;
- `split(/\r?\n/)`;
- `toLowerCase`;
- the characters a regular-expression `.` does not match.

`errors.dfy` holds the `Option`/`Result` wrappers. `seqs.dfy` holds generic sequence
facts.

The clock and the date parser are passed in as values:

- `now` is the current time in milliseconds.
- `Calendar` bundles the two date conversions: `new Date(string)`, and `Date.prototype.toString`, which concatenating a Date with a string applies.

## Model

| member | source | states |
|---|---|---|
| CookieObj.Default | xmlhttprequest-cookie-obj.js:41-49 | a fresh cookie expires one year after `now`, so it is not expired |
| CookieObj.IsExpired | xmlhttprequest-cookie-obj.js:52-54 | `expired()`: a date expires when its time value is below `now`, an invalid date never does, a bare `Expires` (`true`) reads as 1; `Default` proves a fresh cookie unexpired |
| CookieObj.ToKey | xmlhttprequest-cookie-obj.js:57-59 | `toKey()`: name, domain and path joined by ':'; `KeyIsNotInjective` shows two different cookies sharing a key |
| CookieObj.Serialize | xmlhttprequest-cookie-obj.js:62-72 | `toString()`: `name=value`, Domain, Path, Expires and the set flags; `SerializeIsJoin` and `RoundTrip` state what the text means |
| CookieObj.Parse | xmlhttprequest-cookie-obj.js:75-111 | what `build` returns or throws: a left fold of the later segments over the named, URL-seeded default; `ParseFailsIff`, `ParseFields` and `RoundTripCanonical` state its meaning |
| CookieObj.MatchParam | xmlhttprequest-cookie-obj.js:88 | the segment regex fails exactly on a segment made only of '=' (or empty); a match has a non-empty key without '=' and a value without line terminators |
| CookieObj.LeadingEquals | xmlhttprequest-cookie-obj.js:88 | the leading '=' characters the regex skips before the key: all '=' and followed by something other than '=' |
| CookieObj.TakeName | xmlhttprequest-cookie-obj.js:88 | the key group `[^=]+` is the longest prefix without '=' |
| CookieObj.TakeLine | xmlhttprequest-cookie-obj.js:88 | the value group `.*` is the longest prefix without a line terminator |
| CookieObj.Build | xmlhttprequest-cookie-obj.js:75-111 | the method's loop over the segments computes exactly `Parse`: URL seeding, the first segment naming the cookie or throwing, every later segment applied in order |
| CookieProps.ParseFailsIff | xmlhttprequest-cookie-obj.js:88-92 | `build` throws if and only if the first "; "-segment consists only of '=' characters |
| CookieProps.MatchWithValue | xmlhttprequest-cookie-obj.js:88 | a segment `key=value` (after leading '=') matches with that key and the value up to the first line terminator |
| CookieProps.MatchBare | xmlhttprequest-cookie-obj.js:88 | a segment without '=' matches as a bare key with no value |
| CookieProps.ParseFields | xmlhttprequest-cookie-obj.js:80-108 | each field of a built cookie is the last setting of its attribute among the later segments, starting from the URL seed or the default; a bare first segment leaves the value undefined |
| CookieProps.ApplyAllField | xmlhttprequest-cookie-obj.js:97-104 | the attribute loop leaves a field that is `undefined` alone and otherwise gives it the last setting of its attribute |
| CookieProps.ApplyAllExpires | xmlhttprequest-cookie-obj.js:97-108 | `expires` ends up as the date parsed from its last setting (or the bare flag), or keeps its value when no segment sets it |
| CookieProps.KeysAddress | xmlhttprequest-cookie-obj.js:100-101 | the lower-cased attribute names Domain, Path, Expires, Secure and HttpOnly select their fields |
| CookieProps.SerializeIsJoin | xmlhttprequest-cookie-obj.js:62-72 | `toString` is the "; "-join of `name=value`, Domain, Path, Expires and the set flags |
| CookieProps.SerializedParams | xmlhttprequest-cookie-obj.js:62-72 | splitting `toString`'s text at "; " gives back exactly those pieces when no field holds "; " |
| CookieProps.RoundTrip | xmlhttprequest-cookie-obj.js:62-111 | `build(toString(c))` gives back c with every field in its text form, the date re-parsed and the flags as booleans |
| CookieProps.RoundTripCanonical | xmlhttprequest-cookie-obj.js:62-111 | for a cookie already in that form, `build(toString(c)) == c` |
| CookieProps.KeyIsNotInjective | xmlhttprequest-cookie-obj.js:57-59 | two cookies with different names ("a:b" in domain "c", "a" in domain "b:c") share a key |
| JsText.SplitParams | xmlhttprequest-cookie-obj.js:89 | `split("; ")` yields at least one piece; the first is a separator-free prefix ending at the first separator |
| JsText.JoinSplit | xmlhttprequest-cookie-obj.js:89 | joining the pieces of a split gives the text back |
| JsText.SplitJoin | xmlhttprequest-cookie-obj.js:89 | splitting a join of separator-free pieces gives the pieces back |
| JsText.SplitLines | xmlhttprequest-cookie-jar.js:55 | `split(/\r?\n/)` yields at least one piece and no piece holds a line feed |
| Jar.Inserted | xmlhttprequest-cookie-jar.js:65-77 | `insert` never maps a key past the end of the list |
| Jar.Removed | xmlhttprequest-cookie-jar.js:80-87 | `remove` as written: throws for an unmapped key, else unmaps it and splices its slot without renumbering; `RemovedFailsIff` and `RemovedConsistentIff` state its effect |
| Jar.RemovedRenumbered | xmlhttprequest-cookie-jar.js:80-87 | `remove` as evidently intended, with the later map entries moved down; `RenumberedConsistent` states its effect |
| Jar.Matching | xmlhttprequest-cookie-jar.js:90-102 | `find`: the unexpired cookies with exactly that domain and path, in list order (`MatchingMembers`, `MatchingAppend`) |
| Jar.Fuzzy | xmlhttprequest-cookie-jar.js:105-123 | `findFuzzy` with `found` starting empty: the first cookie of each name over the visited domains and paths (`FuzzySound`, `FuzzyDistinct`, `FuzzyKeepsFirst`) |
| Jar.FuzzyAsWritten | xmlhttprequest-cookie-jar.js:105-123 | `findFuzzy` as written, `found` starting with the inherited property names (`FuzzyAsWrittenFilters`) |
| Jar.SaveText | xmlhttprequest-cookie-jar.js:45-50 | `save()`: each cookie's text and CRLF, in list order (`SaveTextCrlf`, `SaveLoadRoundTrip`) |
| Jar.Loaded | xmlhttprequest-cookie-jar.js:53-62 | `load(text)`: clear, then build and insert each non-empty line until one throws (`LoadConsistent`, `LoadFailsIff`) |
| Jar.StripLabel | xmlhttprequest-cookie-jar.js:120 | the domain step drops one leading dot or else the whole leading label, leaving a shorter suffix |
| Jar.StripSegment | xmlhttprequest-cookie-jar.js:118 | the path step drops one trailing slash or else the whole last segment, leaving a shorter prefix |
| Jar.Ingest | xmlhttprequest-cookie-jar.js:56-61 | building and inserting texts in order keeps every map entry within the list |
| Jar.LoadStops | xmlhttprequest-cookie-jar.js:56-61 | a line that throws ends `load`; the lines after it are not looked at |
| JarProps.ConsistentKeysDistinct | xmlhttprequest-cookie-jar.js:65-77 | in a consistent jar no two cookies share a key |
| JarProps.ConsistentUnique | xmlhttprequest-cookie-jar.js:31-34 | the list of a consistent jar determines its map |
| JarProps.InsertedConsistent | xmlhttprequest-cookie-jar.js:65-77 | `insert` keeps the list and the map in step |
| JarProps.InsertedLookup | xmlhttprequest-cookie-jar.js:65-77 | after `insert` an unexpired cookie is found under its key, every other key finds what it found before, and the list grows by one only for a new key |
| JarProps.RemovedFailsIff | xmlhttprequest-cookie-jar.js:80-87 | `remove` throws exactly when the key is not in the map, and otherwise unmaps it |
| JarProps.RemovedConsistentIff | xmlhttprequest-cookie-jar.js:80-87 | `remove` as written keeps the jar consistent if and only if it removes the last slot |
| JarProps.RemovedInnerInconsistent | xmlhttprequest-cookie-jar.js:80-87 | `remove` as written of any cookie before the last slot leaves a map entry pointing at the wrong slot |
| JarProps.RemovedLastLookup | xmlhttprequest-cookie-jar.js:80-87 | removing the last cookie forgets its key and keeps every other lookup |
| JarProps.RemovedBounded | xmlhttprequest-cookie-jar.js:80-87 | one `remove` from a consistent jar leaves no map entry past the end of the list |
| JarProps.ThreeConsistent | xmlhttprequest-cookie-jar.js:65-77 | a jar of three cookies with distinct keys in slots 0, 1 and 2 is consistent |
| JarProps.RemoveThenInsertClobbers | xmlhttprequest-cookie-jar.js:65-87 | as written: removing the first of three cookies, then re-inserting the second, overwrites the third |
| JarProps.RenumberedConsistent | xmlhttprequest-cookie-jar.js:80-87 | the renumbering `remove` keeps the jar consistent, forgets the removed key and keeps every other lookup |
| JarProps.RenumberedThenInsertReplaces | xmlhttprequest-cookie-jar.js:65-87 | with the renumbering `remove`, the same steps replace the second cookie and keep the third |
| JarProps.IngestConsistent | xmlhttprequest-cookie-jar.js:56-61 | building and inserting any texts keeps a consistent jar consistent |
| JarProps.LoadConsistent | xmlhttprequest-cookie-jar.js:53-62 | the jar is consistent after `load`, whether or not it throws |
| JarProps.IngestFailsIff | xmlhttprequest-cookie-jar.js:56-61 | the loop throws if and only if one of its texts does not parse |
| JarProps.IngestPasses | xmlhttprequest-cookie-jar.js:56-61 | when every text parses the loop completes |
| JarProps.IngestStopsAt | xmlhttprequest-cookie-jar.js:56-61 | the loop stops at the first text that does not parse, keeping the cookies inserted before it and reporting that text's error |
| JarProps.LoadFailsIff | xmlhttprequest-cookie-jar.js:53-62 | `load` throws if and only if some non-empty line does not parse |
| JarProps.MatchingMembers | xmlhttprequest-cookie-jar.js:90-102 | `find` returns exactly the unexpired cookies with that domain and path |
| JarProps.MatchingAppend | xmlhttprequest-cookie-jar.js:90-102 | `find` keeps list order: on a concatenated list it returns the results of the two parts, in order |
| JarProps.DomainsLabel | xmlhttprequest-cookie-jar.js:120 | a domain starting with a label visits itself and then what follows the label |
| JarProps.DomainsDot | xmlhttprequest-cookie-jar.js:120 | a domain starting with a dot visits itself and then the rest after the dot |
| JarProps.DomainsExample | xmlhttprequest-cookie-jar.js:110-121 | a domain like "a.b.c" visits "a.b.c", ".b.c", "b.c", ".c", "c" |
| JarProps.PathsExample | xmlhttprequest-cookie-jar.js:110-121 | the path "/a/b" visits "/a/b", "/a/", "/a", "/" |
| JarProps.DomainsShape | xmlhttprequest-cookie-jar.js:110-121 | every visited domain is a non-empty suffix of the request domain, each strictly shorter than the one before |
| JarProps.PathsShape | xmlhttprequest-cookie-jar.js:110-121 | every visited path is a non-empty prefix of the request path, each strictly shorter than the one before |
| JarProps.FuzzyDistinct | xmlhttprequest-cookie-jar.js:105-123 | `findFuzzy` never returns two cookies with the same name |
| JarProps.FuzzySound | xmlhttprequest-cookie-jar.js:105-123 | everything `findFuzzy` returns is an unexpired cookie of the jar for a visited domain and a visited path |
| JarProps.FuzzyKeepsFirst | xmlhttprequest-cookie-jar.js:105-123 | the first candidate with a given name, in visiting order, is returned |
| JarProps.FuzzyOrdered | xmlhttprequest-cookie-jar.js:105-123 | `findFuzzy` returns its cookies in visiting order (domain step, then path step, then list order): its result is a subsequence of the candidates `find` yields in that order |
| JarProps.FuzzyEmpty | xmlhttprequest-cookie-jar.js:105-123 | an empty domain or an empty path finds nothing |
| JarProps.FuzzyAsWrittenDropsInherited | xmlhttprequest-cookie-jar.js:107-113 | as written, `findFuzzy` never returns a cookie whose name a plain object inherits, such as "toString" |
| JarProps.InheritedNameLost | xmlhttprequest-cookie-jar.js:107-113 | a jar with one cookie named "toString": as written `findFuzzy` returns nothing, the corrected one returns it |
| JarProps.FuzzyAsWrittenFilters | xmlhttprequest-cookie-jar.js:105-123 | as written, `findFuzzy` returns the intended result less the cookies whose names a plain object inherits |
| JarProps.FuzzyAsWrittenSound | xmlhttprequest-cookie-jar.js:105-123 | as written, every result is an unexpired cookie of the jar for a visited domain and path, with no inherited name |
| JarProps.FuzzyAsWrittenDistinct | xmlhttprequest-cookie-jar.js:105-123 | as written, no two results share a name |
| JarProps.FuzzyAsWrittenEmpty | xmlhttprequest-cookie-jar.js:105-123 | as written, an empty domain or path finds nothing |
| JarProps.FuzzyAsWrittenOrdered | xmlhttprequest-cookie-jar.js:105-123 | as written, the results come in the same visiting order |
| SaveLoad.SaveTextCrlf | xmlhttprequest-cookie-jar.js:45-50 | `save` writes each cookie's line followed by CRLF, in list order |
| SaveLoad.CrlfSplit | xmlhttprequest-cookie-jar.js:45-58 | splitting saved text at line breaks gives back the lines and one final empty line |
| SaveLoad.SavedLines | xmlhttprequest-cookie-jar.js:45-58 | the non-empty lines `load` reads from saved text are exactly the lines `save` wrote |
| SaveLoad.IngestAllLines | xmlhttprequest-cookie-jar.js:56-61 | reading the lines of unexpired canonical cookies with distinct keys rebuilds exactly that list, consistently and without throwing |
| SaveLoad.SaveLoadRoundTrip | xmlhttprequest-cookie-jar.js:45-62 | `load(save())` on a consistent jar of unexpired canonical cookies rebuilds the same jar and does not throw |
| JarObject.CookieJar.constructor | xmlhttprequest-cookie-jar.js:31-34 | a new jar is empty and consistent |
| JarObject.CookieJar.Clear | xmlhttprequest-cookie-jar.js:39-42 | `clear` empties both fields |
| JarObject.CookieJar.Save | xmlhttprequest-cookie-jar.js:45-50 | the method's loop writes exactly `SaveText` of the list |
| JarObject.CookieJar.Load | xmlhttprequest-cookie-jar.js:53-62 | the new state and the outcome are those of `Loaded`, and the jar stays consistent |
| JarObject.CookieJar.Insert | xmlhttprequest-cookie-jar.js:65-77 | runs on any jar whose map names no slot past the end of the list; the new state is `Inserted` of the old one, and a consistent jar stays consistent |
| JarObject.CookieJar.Remove | xmlhttprequest-cookie-jar.js:80-87 | as written: fails with nothing changed when the key is unmapped; otherwise the new state is `Removed` of the old one (key unmapped, slot spliced out, later entries not renumbered); a consistent jar stays consistent if and only if the removed cookie was the last, and is left with no entry past the end of the list |
| JarObject.CookieJar.Find | xmlhttprequest-cookie-jar.js:90-102 | the method's loop returns exactly `Matching` of the list, with an absent domain read as "" and an absent path as "/" |
| JarObject.CookieJar.FindFuzzy | xmlhttprequest-cookie-jar.js:105-123 | the method's loops return exactly `Fuzzy` of the list |
| JarObject.CookieJar.ScanPaths | xmlhttprequest-cookie-jar.js:110-119 | the inner loop over the paths of one domain absorbs exactly that row of candidates |
| Wrapper.CookieRecv | xmlhttprequest-cookie.js:39-51 | runs on any jar whose map names no slot past the end of the list; the new jar state and the outcome are those of `Ingest` over the header values with the request URL; a consistent jar stays consistent |
| Wrapper.RecvConsistent | xmlhttprequest-cookie.js:39-51 | receiving keeps a consistent jar consistent, and headers that all parse are received in full |
| Wrapper.Pair | xmlhttprequest-cookie.js:65 | `name=value` has '=' right after the name |
| Wrapper.Sendable | xmlhttprequest-cookie.js:59-62 | a cookie is passed on unless it is secure and the protocol is not "https:", or HttpOnly and the protocol is not HTTP(S) in any case (`SentMembers`, `SentFromJar`) |
| Wrapper.CookieSend | xmlhttprequest-cookie.js:54-73 | the method's loop returns exactly `SentHeader` for the cookies `findFuzzy` finds |
| Wrapper.SentMembers | xmlhttprequest-cookie.js:58-62 | the cookies passed on are exactly the found cookies allowed over the protocol |
| Wrapper.ComposeJoin | xmlhttprequest-cookie.js:63-65 | the header text is the existing text and the `name=value` pairs of the passed cookies, in order, joined by "; " |
| Wrapper.SentHeaderNone | xmlhttprequest-cookie.js:67-71 | no header is set exactly when there was no existing text and no found cookie is allowed over the protocol |
| Wrapper.SentFromJar | xmlhttprequest-cookie.js:54-73 | every cookie sent is an unexpired cookie of the jar for a visited domain and path; a secure one only over "https:", an HttpOnly one only over HTTP(S) |

## Left out

- The `XMLHttpRequest` wrapper is not modelled: the fresh instance it creates and returns, the interception of `open` that records the URL, and the `readystatechange` listener. That listener calls `cookie_send` once, on the first OPENED state (the `openedOnce` latch), and `cookie_recv` on every HEADERS_RECEIVED state. `setDisableHeaderCheck` and the debug logging are not modelled either. The two functions the listener calls are modelled on their inputs: the response's `Set-Cookie` values, and the request's existing `Cookie` header and URL parts.
- `Url.parse` is not modelled. Its results enter as a `Location` (hostname, pathname) for `build` and as a `Request` (protocol, hostname, pathname) for `cookie_send`.
- Dates are kept abstract. `new Date(string)` and `Date.prototype.toString` are the two functions of a `Calendar` passed in, and the clock is the parameter `now`. Arithmetic on dates beyond the one-year default is not modelled.
- `toLowerCase` folds only the ASCII letters. For the attribute names compared against, this accepts the same keys as full Unicode folding.
- A `Set-Cookie` header that is present but not an array is treated like an absent one (no cookies).
- `sample.js` is not part of this model.
- CookieObj.Build converts the text of `Expires` to a date at each assignment, not once after the loop. Only the last assignment survives, so the resulting cookie is the same.
- JarObject.CookieJar.Insert: requires that no map entry points past the end of the list (`Bounded`). A jar can break that after two `remove`s of inner cookies. The source's `insert` would then write past the end of the array, and the holes it leaves make a later `find` or `save` throw. Arrays with holes are not modelled.
- Wrapper.CookieRecv: requires the same of the shared jar, for the same reason.
- JarObject.CookieJar.FindFuzzy: returns the intended `Jar.Fuzzy`, where `found` starts empty. The source's `found = {}` also skips every cookie whose name a plain object inherits ("toString", "constructor", …). `JarProps.FuzzyAsWrittenFilters` states the as-written result exactly; see "## Findings".
- Wrapper.CookieSend: composes the header from `Jar.Fuzzy`, so it shares the difference just described.
- CookieObj.Parse: recognises only the seven field names as attribute keys. The source looks the lower-cased key up with `typeof cookie[attr] !== "undefined"`, which also passes for `expired`, `constructor` and `__proto__`. A segment such as `expired=1` then overwrites that property, and a later `insert` throws when it calls `expired()`. The model ignores such segments.
- CookieObj.Build: computes `Parse`, so it shares the difference just described.
- The exceptions thrown by `build` (and so by `load` and `cookie_recv`) are modelled as a returned `Outcome` that carries the error. The caller's catch is not modelled.
- `cookieMap` is a plain object. Its inherited property names would read as present keys, but a key always contains ':' and no inherited name does, so the map is modelled as a `map`.
- JarProps.DomainsExample is stated for labels of one character.

## Findings

| source | as written | input that shows it | evidently intended | confidence | as-written member | corrected member |
|---|---|---|---|---|---|---|
| xmlhttprequest-cookie-jar.js:80-87 | `remove` deletes the key and splices the list but leaves the later map entries pointing one slot too far | a jar holding a, b, c; remove a; insert b2 with b's key: b2 overwrites c, and the jar holds b, b2 | every map entry after the removed slot moves down by one, so the insert replaces b and the jar holds b2, c | not executed | JarProps.RemoveThenInsertClobbers | JarProps.RenumberedThenInsertReplaces |
| xmlhttprequest-cookie-jar.js:107-113 | `found = {}` answers true for names inherited from `Object.prototype`, so a cookie named like one of them is never returned | a jar with one unexpired cookie named "toString" for domain "a" and path "/"; `findFuzzy("a", "/")` returns nothing | `found` starts out empty, and the cookie is returned | not executed | JarProps.InheritedNameLost | JarProps.FuzzyKeepsFirst |
