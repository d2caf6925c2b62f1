# URL shortener core, modelled in Dafny

The service takes a long URL and hands out a seven-character code. A request
for `/<code>` then redirects to the stored URL. Codes that go unused for
thirty days are swept away. Under the HTTP and SQLite plumbing of `app.js`
there are two pieces of logic, and this project models both:

- the **URL validator** `isValidURL`: a pure string predicate;
- the **link table** `urls(code, url, lastUsed)` and the three handlers that
  change it: shorten (validate, dedupe, generate a code with a retry loop,
  normalise the scheme, insert), redirect (look up, refresh `lastUsed`, then
  sweep) and the expiry sweep `checkOldURLs`.

Modules, one per concern:

- `Wrappers` (`wrappers.dfy`): `Option`, for a lookup that finds no row.
- `JsStrings` (`js_strings.dfy`): the JavaScript string operations the source
  uses, with their JavaScript meaning. `indexOf`/`includes` search for a
  substring. `replace` with a string pattern replaces only the first
  occurrence, wherever it is. `split` on one character always yields at
  least one piece.
- `UrlValidator` (`validator.dfy`): `IsValidURL` as a function. `ValidateURL`
  is the source's flag-clearing loop as a method. Lemmas characterise
  validity.
- `LinkStore` (`store.dfy`): rows and the table's queries and updates as
  functions over `seq<Row>`: the three-variant dedupe lookup, the lookup by
  code, `Touch` (the UPDATE), `Purge` (the DELETE) and `Normalize`. Lemmas
  cover order, idempotence and dedupe.
- `CodeGen` (`codes.dfy`): the 62-character alphabet, `RandomString` (a loop
  reading an index oracle) and `GenerateCode` (the collision-retry loop).
- `Shortener` (`service.dfy`): class `LinkTable`, whose `rows` field the
  handlers reassign. Its object invariant `Valid()` holds three facts. Every
  stored URL has a scheme. Every code is seven alphanumeric characters. No
  two rows share a code, except codes whose lower-case form is `shorten`.

## Model

| member | source | states |
|---|---|---|
| UrlValidator.IsValidURL | app.js:39-55 | A URL is accepted exactly when it has no space and its authority holds a dot, with every dot placed between two characters that are not dots. A leading dot, a trailing dot, `..` and an empty authority are therefore all refused. |
| UrlValidator.Authority | app.js:41-42 | The authority is the longest slash-free prefix of the URL. This is taken after the first `http://` and then the first `https://` have been removed. |
| UrlValidator.EveryPieceNonEmpty | app.js:45-49 | The loop that clears `validURL` on an empty piece ends with the flag set exactly when no piece is empty. |
| UrlValidator.ValidateURL | app.js:39-55 | The validator as written, with its flag loop followed by the space, `..` and missing-dot tests, computes exactly `IsValidURL`. |
| UrlValidator.DoubleDotTestRedundant | app.js:47-51 | The `..` test adds nothing. Validity is exactly: no space, a dot in the authority, and no empty dot-separated piece. |
| UrlValidator.StripHttp | app.js:41 | Removing the schemes from `http://` + s yields s when s holds no `https://`. |
| UrlValidator.StripHttps | app.js:41 | Removing the schemes from `https://` + s yields s when s holds no `http://`. The first replace finds no `http://` inside `https://`. |
| UrlValidator.SchemePrefixKeepsValidity | app.js:41-51 | For text holding neither scheme, putting `http://` or `https://` in front does not change the verdict. |
| UrlValidator.NoColonNoScheme | app.js:41 | Text without a colon contains neither scheme, so both replaces leave it unchanged. |
| UrlValidator.TwoLabelHostAccepted | app.js:38-53 | Two non-empty labels joined by a dot (`example.com`) are accepted. |
| UrlValidator.HostWithPathAccepted | app.js:42-53 | Such a host followed by `/` and a path without colon or space is accepted (`example.com/path`). |
| UrlValidator.SchemeHostAccepted | app.js:41-53 | Such a host is accepted behind `http://` or `https://`. |
| UrlValidator.EmptyLabelRefused | app.js:47-51 | `foo..com` is refused. |
| UrlValidator.NoDotRefused | app.js:51 | `foo` is refused. |
| UrlValidator.DotAfterSlashRefused | app.js:42-51 | A host label (non-empty, with no dot, slash, colon or space) followed by `/` and a colon-free path is refused, whatever dots the path holds (`foo/bar.com`). |
| UrlValidator.SpaceRefused | app.js:51 | Every URL containing a space is refused. |
| UrlValidator.StripScheme | app.js:41 | Removing the schemes never lengthens the URL. A URL holding neither `http://` nor `https://` is left unchanged. |
| JsStrings.IndexOfFrom | app.js:41 | The search used by `replace` returns the first index at or after `from` where the pattern occurs. It returns none only when no such index exists. |
| JsStrings.Contains | app.js:51 | `includes` holds exactly when the pattern occurs at some index. |
| JsStrings.ReplaceFirst | app.js:41 | `replace` with a string pattern leaves text without the pattern unchanged. Otherwise the result is one pattern shorter and one replacement longer. The text before the first occurrence is kept, the replacement follows, and so does the text after that occurrence. |
| JsStrings.ToLower | app.js:93 | `toLowerCase` keeps the length and leaves no upper-case letter. It maps each upper-case ASCII letter to its lower-case partner and keeps every other character. |
| JsStrings.Split | app.js:42-43 | `split` on one character yields at least one piece. No piece contains the separator. Joining the pieces with the separator gives the input back. |
| JsStrings.NoEmptyPieceIff | app.js:43-49 | No piece of `split('.')` is empty exactly when the text is non-empty and every dot sits between two characters that are not dots. |
| JsStrings.DoubledSeparator | app.js:51 | Text containing `..` fails that dot-placement condition. |
| LinkStore.Normalize | app.js:101-107 | The stored URL always starts with `http://` or `https://`. It equals the input when the input already has a scheme, and is `http://` + input otherwise. |
| LinkStore.NormalizeIdempotent | app.js:101-107 | Normalising twice gives the same result as normalising once. |
| LinkStore.HasScheme | app.js:103 | A URL with a scheme is at least seven characters long and starts with `http`. |
| LinkStore.FindByURL | app.js:71-73 | The dedupe query finds a row exactly when some stored row matches one of the three variants. The row it finds is stored and matches. |
| LinkStore.FindByCode | app.js:128-131 | The lookup by code finds a row exactly when some stored row carries the code. The row it finds is stored and carries the code. |
| LinkStore.FirstByURL | app.js:71 | The dedupe query returns the first row whose `url` is the input, `http://` + input or `https://` + input. Every earlier row matches none of the three. |
| LinkStore.FirstByCode | app.js:91 | The lookup by code returns the first row carrying the code. Every earlier row carries a different code. |
| LinkStore.FindByCodeNoneIff | app.js:128-131 | The lookup by code misses exactly when no row carries the code. |
| LinkStore.CountCodeAppend | app.js:110 | An insert adds one to its own code's row count and leaves every other count unchanged. |
| LinkStore.Touch | app.js:139 | The UPDATE keeps the row count. Every row carrying the code gets `lastUsed := now`, and every other row is unchanged. |
| LinkStore.TouchUnknownCode | app.js:128-136 | Refreshing a code that no row carries leaves the table unchanged. |
| LinkStore.TouchKeepsCounts | app.js:139 | The UPDATE changes no code, so every code's row count stays the same. |
| LinkStore.Purge | app.js:152 | After the DELETE, a row remains exactly when it was in the table and has `lastUsed >= cutoff`. |
| LinkStore.PurgeAppend | app.js:152 | Purging a concatenation gives the purges of its parts, concatenated. Surviving rows keep their table order. |
| LinkStore.PurgeKeepsRecent | app.js:152 | A table whose rows are all recent enough is left exactly as it was. |
| LinkStore.PurgeIdempotent | app.js:148-152 | A second sweep with the same cutoff removes nothing more. |
| LinkStore.PurgeTwice | app.js:148-152 | Two sweeps in a row act as a single sweep with the later of the two cutoffs. |
| LinkStore.PurgeCountsNoMore | app.js:152 | The DELETE never increases any code's row count. |
| LinkStore.TouchedRowsSurvivePurge | app.js:138-144 | A row refreshed at `now` survives a sweep whose cutoff is at or before `now`. |
| LinkStore.ShortenAgainFindsRow | app.js:71-110 | After a dedupe miss and the insert of `(code, Normalize(url), now)`, submitting the same URL finds exactly that row. |
| LinkStore.HttpVariantFindsRow | app.js:71-110 | A bare URL s is stored as `http://` + s. Submitting `http://` + s later finds a row. |
| LinkStore.HttpsVariantMissesHttpRow | app.js:71 | A row stored as `http://` + s is not found by submitting `https://` + s. Dedupe matches only the three literal variants. |
| CodeGen.AlphabetIsAlnum | app.js:161 | The alphabet has 62 characters, and each one is a digit, a lower-case letter or an upper-case letter. |
| CodeGen.Spell | app.js:163 | The characters picked by indices into the alphabet are all ASCII letters or digits. |
| CodeGen.RandomString | app.js:160-165 | `randomString(length)` returns exactly `length` characters, all from `0-9a-zA-Z`. Character k is the alphabet entry at the k-th random index. |
| CodeGen.GenerateCode | app.js:88-98 | The retry loop stops at the first candidate that no stored row carries or whose lower-case form is `shorten`. It rejects every earlier candidate, and the code it returns is a seven-character alphanumeric code. |
| CodeGen.Accepts | app.js:93 | The retry loop stops exactly when no stored row carries the candidate, or when the candidate's lower-case form is `shorten`. |
| CodeGen.ReservedCollisionAccepted | app.js:93 | A stored code spelling `shorten` in any letter case collides, and the loop still accepts it. |
| Shortener.TableInvariant | app.js:88-110 | In a table meeting the invariant, two rows share a code only when that code spells `shorten` in some letter case. |
| Shortener.InsertKeepsInvariant | app.js:88-110 | Inserting a normalised URL under an accepted code preserves the table invariant. |
| Shortener.TouchKeepsInvariant | app.js:139 | The UPDATE preserves the table invariant. |
| Shortener.PurgeKeepsInvariant | app.js:152 | The DELETE preserves the table invariant. |
| Shortener.CodeOfPath | app.js:127 | The code is the request path without its first character. An empty path gives the empty code. |
| Shortener.LinkTable.constructor | app.js:16-21 | The table starts empty and satisfies the invariant. |
| Shortener.LinkTable.Shorten | app.js:58-121 | An invalid URL leaves the table unchanged and shows the invalid page. A dedupe hit leaves the table unchanged and returns the existing code. Otherwise exactly one row `(code, Normalize(url), now)` is appended, the existing rows stay as they were, and the code is seven alphanumeric characters the retry loop accepted. |
| Shortener.LinkTable.Redirect | app.js:124-142 | An unknown code leaves the table unchanged and yields nothing. A known code yields the first matching row's URL, and the table becomes `Touch(old, code, now)`. |
| Shortener.LinkTable.PurgeOlderThan | app.js:148-153 | The table becomes `Purge(old, cutoff)`, and every remaining row has `lastUsed >= cutoff`. |
| Shortener.LinkTable.Visit | app.js:124-145 | A miss changes nothing. A hit redirects to the URL of the first row carrying the code, refreshes, and then sweeps. When the cutoff is at or before `now`, the refreshed row is still present afterwards. |
| Shortener.ShortenTwice | app.js:58-121 | Shortening the same new URL twice creates one row and then returns the same code, adding nothing the second time. |

## Left out

- Express routing, page rendering (`res.render`, `res.redirect`), static files, body parsing, `app.listen` and the displayed host name are HTTP plumbing. They are not modelled. `GET /` only calls `checkOldURLs`, so `PurgeOlderThan` covers it.
- Opening the SQLite file, `async`/`await`, and the unawaited `db.run` calls are left out. Handlers run one after another on an in-memory table. So are concurrent requests, the check-then-insert races, and storage failures.
- Shortener.LinkTable.constructor: the model starts from an empty table. Rows already in an existing database file are assumed to have been created by this service, and so to satisfy the invariant.
- The `Math.random`/`Math.floor` arithmetic is replaced by an oracle of indices in `[0, 62)`. Each `randomString(7)` call reads one draw of seven indices.
- `Date.now()` and the `setDate(getDate() - 30)` calendar arithmetic are replaced by the parameters `now` and `cutoff`.
- Logging is not modelled.
- GenerateCode: the source loop is unbounded. The model requires that some draw in the oracle is acceptable, an event of probability one. Without that draw the loop would not terminate.
- A lookup without ORDER BY is modelled as returning the first row in table order. SQLite does not promise any particular order.
- `toLowerCase` is modelled for ASCII letters only. It is applied only to generated codes, which are ASCII.
- Strings are sequences of Unicode characters, not UTF-16 code units. The request path is taken as it comes, including any query string, exactly as the handler does.
- `lastUsed` is an unbounded integer. The 64-bit SQLite column is not modelled, because millisecond timestamps do not come close to that limit.

Behaviour of the code that the model keeps as written:

- `replace` removes the first `http://`, and then the first `https://`, anywhere in the URL, not only a leading one (`JsStrings.ReplaceFirst`, `UrlValidator.StripScheme`).
- A URL stored as `http://x` is not found through `https://x`, because dedupe compares only the three literal variants (`HttpsVariantMissesHttpRow`).
- The comment at app.js:90 says the retry loop runs again when the code "equals shorten, to stop problems arising". The condition at app.js:93 does the opposite. The loop stops on a candidate spelling `shorten` in any case, even when it collides. The table invariant therefore allows duplicate codes only for such candidates (`ReservedCollisionAccepted`, `Shortener.TableInvariant`).
