# PKU Treehole exporter — a Dafny model of its request client and pure helpers

The userscript exports a thread of PKU Treehole, the campus anonymous forum, to PDF. It has two parts:

- a small HTTP client (`src/client.ts`). It fetches a post and aggregates its paginated comments one page at a time, stopping at the first failure. It attaches the session credentials it finds in cookies and local storage.
- the entry script (`src/main.ts`). It watches the page for the post detail view and reads the post id from its title. On a click it gathers the post, its comments and the participant list, and names the downloaded file.

This project models the client, the wire datatypes of `src/model.ts`, and the pure decisions of the entry script. It proves what they promise.

Modules:

- `Results` (`results.dfy`): `Option`, for values that may be null, and `Result`, for operations that resolve or reject.
- `Text` (`text.dfy`): decimal numerals as `String(n)` writes them and `Number(s)` reads them, `padStart`, the greedy span of a character class, and the leftmost position satisfying a predicate.
- `Model` (`model.dfy`): the records of `src/model.ts`.
  - `ApiResponse` has exactly two variants, discriminated by `success`. Both carry `code`, `message` and `timestamp`; only the `success: true` variant carries `data`.
  - `Paged`, `Post` and `PostWithComments`.
  - `Comment`, whose `quote` is `None` or a `(pid, text, name_tag)` triple.
- `Http` (`http.dfy`): `httpGet`, its header set and its status check, plus `getCookie`.
  - The network is a parameter `send` returning an `Exchange`: unreachable, or a status line with a parsed or unparsable body.
  - The cookie string and local storage are a `Browser` value.
  - `decodeURIComponent` is a parameter `decode`.
- `Client` (`client.dfy`): `TreeholeHttpClient`.
  - `DefaultQuery` holds `fetchAllComments`' defaults, `asc` and 15 per page.
  - The injected requester is a total function from `Request` to either a transport `Failure` or an envelope.
  - `FetchAllComments` returns the requests it issued as a real out-parameter, so request count and order are stated in its contract.
- `Exporter` (`exporter.dfy`): the entry script's pure pieces.
  - `parsePidFromTitle`.
  - `refreshState` as a step function on `(currentPid, warnedMissing)` over an observed `View`.
  - The `users` list, `pad`, the timestamp and the download name.
  - The data-gathering half of `onClick`.

## Model

| member | source | states |
|---|---|---|
| Text.CanonicalRoundTrip | src/main.ts:129 | A canonical numeral (no leading zero unless it is `0`) is exactly what `String` writes for the number it denotes, so numerals and naturals correspond one-to-one |
| Text.IntToStringRoundTrip | src/client.ts:66 | The decimal text an integer is interpolated as reads back as that integer, negative numbers included |
| Text.PadStart | src/main.ts:238 | `padStart` yields `max(width, len)` characters: the original text at the end, and only fill characters before it |
| Text.Span | src/client.ts:137 | A greedy character-class run (`[^;]*`, `\d+`) is a prefix whose characters all qualify, and it stops at the end or at the first character that does not |
| Text.SpanOfPrefix | src/client.ts:137 | A run over a qualifying prefix followed by a non-qualifying character is exactly that prefix |
| Text.FirstWhereMoved | src/client.ts:137 | Leftmost search commutes with shifting: when one predicate agrees with another moved along by `d`, and holds nowhere before `d` except at the image of position 0, its first hit is the other's first hit moved along |
| Http.FirstMatchIsLeftmost | src/client.ts:137 | The pattern `(?:^|; )name=` is found at the leftmost start where it matches, and nowhere exactly when it matches at no start |
| Http.CookieLookupIsLeftmostCapture | src/client.ts:136-139 | `getCookie`'s capture is empty-handed exactly when the pattern matches nowhere; otherwise it is the text after the leftmost match's `=`, up to the next `;` or the end, and it never contains `;` |
| Http.CookieLookupReadsJar | src/client.ts:136-139 | Over a `document.cookie` listing of well-formed `name=value` pairs joined by `"; "`, the lookup yields the value of the first pair with that name, and nothing when no pair has it |
| Http.GetCookieReadsJar | src/client.ts:136-139 | `getCookie` returns the decoded value of the first pair with that name, and null when there is none |
| Http.LookupSkip | src/client.ts:137 | Skipping a leading pair that does not match leaves the lookup in the rest of the listing unchanged |
| Http.LookupFirst | src/client.ts:137-138 | A leading pair with the sought name yields its whole value |
| Http.OtherPairNoMatch | src/client.ts:137 | A pair with a different name does not start a match at the start of the listing |
| Http.MatchAtSeparator | src/client.ts:137 | The `"; "` alternative matches at a separator exactly when the following pair starts with `name=`, with its value at the corresponding place |
| Http.RequestHeaders | src/client.ts:24-26 | Every request carries `Accept: application/json` and `X-Requested-With: XMLHttpRequest`, first and in that order |
| Http.CredentialHeaderPresence | src/client.ts:17-29 | `Authorization`, `X-XSRF-TOKEN` and `Uuid` are each sent exactly when the token cookie, the XSRF cookie or the stored uuid is non-null and non-empty |
| Http.CredentialHeaderValues | src/client.ts:27-29 | `Authorization` carries `Bearer <token>`, the other two carry their credential verbatim, and no header value is ever empty |
| Http.HeaderNamesDistinct | src/client.ts:24-30 | No header name is sent twice, and no header beyond the two fixed and three credential headers is sent |
| Http.HttpGet | src/client.ts:6-39 | `httpGet` resolves exactly when the exchange is received with an ok status and a parsable body, with that body. A non-ok status fails with `HTTP <status> <statusText>` whatever the body. A network rejection fails with its reason |
| Client.PostRequest | src/client.ts:64-67 | `fetchPost` requests a relative path (no leading `/`) of the form `pku/<pid>` that reads back as the pid, with no query |
| Client.CommentsRequestShape | src/client.ts:69-83 | Every comment-page request has the relative path `pku_comment_v3/<pid>` and the query exactly `page`, `limit`, `sort`, each reading back as its argument |
| Client.CommentsRequestsDistinct | src/client.ts:69-83 | Requests for different pages of one listing differ |
| Client.Unwrap | src/client.ts:91-101 | A rejection stays a failure; a `success: false` envelope fails with its `message`; a `success: true` envelope yields its `data` |
| Client.PageRequests | src/client.ts:99-100 | The requests for pages 1..n number exactly n, and the i-th asks for page i |
| Client.PageBound | src/client.ts:95-99 | The loop bound `fetchAllComments` runs to is never below 1: page 1 is always requested |
| Client.PageBoundReadsOnlyPageOne | src/client.ts:95-99 | The bound is read once, from page 1's reply: requesters that answer page 1 alike agree on it, whatever `last_page` later pages report |
| Client.FetchAllComments | src/client.ts:85-107 | Pages 1, 2, … are requested one at a time in increasing order, at most up to the bound. Success holds exactly when every page through the bound succeeds, with all of them requested and their rows concatenated in page order. On failure the last request is the failing page, every earlier page succeeded, nothing later was requested, and its error (a page's `message`, for a failure envelope) is the result. So a failing page 1 means exactly one request |
| Exporter.ParsePidFromTitle | src/main.ts:125-131 | No pid exactly when no `#` is directly followed by a digit; otherwise the value of the maximal digit run after the first such `#` |
| Exporter.ParsePidSkipsBareHash | src/main.ts:127 | `"#abc #12"` yields 12: a `#` without digits is skipped |
| Exporter.ParsePidDropsLeadingZeros | src/main.ts:129 | `"#007"` yields 7 |
| Exporter.RefreshState | src/main.ts:67-93 | `currentPid` is set exactly when both elements exist and the title yields a nonzero pid, and it is then that pid. `warnedMissing` is set exactly when an element is missing. The warning is logged only when not already pending. The button is ensured exactly when a pid is set |
| Exporter.WarnsOncePerAbsence | src/main.ts:73-83 | Over any stretch of polls where the detail view stays absent, the warning is logged once if none was pending, never otherwise, and the state ends with no pid |
| Exporter.NonEmptyNames | src/main.ts:47 | The filtered names are exactly the non-empty commenter names, and there are no more of them than comments |
| Exporter.NamesOrder | src/main.ts:47 | The filter keeps comment order: of two non-empty commenter names, the one whose first comment is earlier is also first found earlier among the filtered names, and conversely |
| Exporter.Candidates | src/main.ts:47 | What enters the set starts with `洞主` and otherwise holds exactly the non-empty commenter names |
| Exporter.SetAdd | src/main.ts:46-47 | Adding a name to an insertion-ordered set appends it exactly when it is new, keeping first-occurrence order |
| Exporter.ArrayFromSet | src/main.ts:46-48 | `Array.from(new Set(xs))` lists each element of `xs` once, in order of first appearance, and starts with `xs`'s first element |
| Exporter.Participants | src/main.ts:46-48 | `users` starts with `洞主`, has no duplicates, holds exactly `洞主` and the non-empty commenter names, in first-occurrence order; a commenter named `洞主` collapses into the first slot |
| Exporter.ParticipantsFollowComments | src/main.ts:46-48 | After `洞主`, every entry of `users` is a non-empty name some comment carries, other than `洞主`, and the entries come in the order of their first comments |
| Exporter.Pad | src/main.ts:238 | `pad(n)` has at least two characters, exactly two below 100 |
| Exporter.PadIsPadStart | src/main.ts:238 | `pad(n)` is `n.toString().padStart(2, "0")`: `0` followed by the digit for 0..9, the decimal text unchanged otherwise |
| Exporter.PadReadsBack | src/main.ts:238 | A padded non-negative number reads back as that number |
| Exporter.FourDigitYear | src/main.ts:239 | A year between 1000 and 9999 is written with four digits |
| Exporter.TimestampLayout | src/main.ts:239-241 | For a valid clock the stamp is `YYYYMMDD_HHMMSS`: 15 characters, `_` at position 8, and each field at its fixed position |
| Exporter.TimestampFields | src/main.ts:239-241 | Each field of the stamp reads back as the clock's year, one-based month, day, hours, minutes and seconds |
| Exporter.ExportFilenameLayout | src/main.ts:242 | The download name is `PKU树洞#`, the text of the gathered post's own `pid`, `-`, the stamp and `.pdf`, each at its fixed place |
| Exporter.ExportFilenameFields | src/main.ts:242 | The gathered post's `pid` and the stamp read back from the download name |
| Exporter.ExportRequests | src/main.ts:39-42 | An export issues the post request first, then the comment pages in order |
| Exporter.GatherExport | src/main.ts:27-54 | Without a pid (null or 0) the click yields no-target and requests nothing. Otherwise the post is requested, then pages 1, 2, … (`asc`, 50 per page) in order, no further than page 1's bound and stopping at the first failing page, every earlier page having succeeded. The aggregate is built exactly when the post and every page succeed, and holds the post, all rows in page order and the participant list. Otherwise the error is the post's rejection, else the failing page's failure, else the failing post envelope's `message` |
| Exporter.GatherPost | src/main.ts:34-54 | The same outcome for a known post id: all pages through the bound requested on success, the failing page last on failure, and each error pinned to its cause |

## Left out

- The DOM is left out: element queries, button insertion and removal, icon styles, the HUD and its timers (src/main.ts:95-218). `refreshState` sees the page as a `View`, and the button as an `EnsureButton`/`RemoveButton` decision.
- PDF generation and the download are left out: typst initialisation and compilation, the Blob and object URL (src/main.ts:220-270). Only the file name is modelled.
- Logging (src/log.ts) and the `alert` are left out. The warning is modelled as a flag.
- `setInterval` polling is left out. `Poll` runs `refreshState` over a sequence of views.
- `Promise.all` in `onClick` is left out. The post request and the comment aggregation are modelled as sequential calls, post first.
  - When both reject, the post's rejection is reported; which rejection wins in the source depends on timing.
  - A failing page takes precedence over a post failure envelope, as in the source, where the envelope is inspected only after both settle.
  - `GatherOutcome` states the post-envelope message only when every page succeeded.
- The `credentials: "include"` option of the `fetch` call is left out. Whether the browser attaches its own cookies is outside the model; the credential headers the client builds itself are modelled.
- The internals of `fetch`, `URL` resolution against `https://treehole.pku.edu.cn/api/`, `res.json()`, `localStorage` and `Date` are left out. Each is a parameter: `send`, `Browser`, `Clock`.
  - The request path is kept relative; its resolution is not modelled.
  - Query parameters are a list of pairs.
  - Calendar validity is approximated by `ValidClock`'s ranges.
- Http.GetCookie: `decodeURIComponent` is the `decode` parameter, and the `URIError` it throws on malformed escapes is not modelled.
- Http.MatchAt: the pattern is built from the cookie name without escaping. The name is treated literally. This agrees with the regular expression for the two names used, `pku_token` and `XSRF-TOKEN`, since neither contains a regular-expression metacharacter.
- Exporter.ParsePidFromTitle: numbers are mathematical integers. `Number.isFinite` never rejects, and digits beyond double precision are not rounded.
- Client.LastPageOf: `last_page` is an integer; a fractional value is not modelled.
- Client.LastPageOf: a page object that is present but lacks its own `last_page` field (which `?? 1` would also turn into 1) is not modelled, because the declared type makes it mandatory. An absent or null `data` envelope field is modelled, and yields the bound 1.
- Client.RowsOf: a page object that is present but lacks its own `data` field is not modelled, because the declared type makes it mandatory. An absent or null `data` envelope field is modelled, as an empty page with `last_page` 1.
- The commented-out GM requester (src/client.ts:113-133) is documentation only.
