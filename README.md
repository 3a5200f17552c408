# TurboHub download relay, modelled in Dafny

TurboHub is a single HTTP function, `TurboHub.Run`, that lets a client download a file through the server. The client passes the file's address as the `uri` query value. The function then does one of the following:

- a missing, empty or all-white-space `uri` gets `404` with the text `Please pass a name on the query string`, and nothing is fetched;
- otherwise the function passes `uri` to `GetAsync` untrimmed and unchecked (there is no list of allowed addresses), and the client issues one GET. An upstream status in 200..299 (`IsSuccessStatusCode`) leads to a `200` response. The function adds `Content-Type: application/octet-stream`, then `Content-Disposition: attachment; filename=<name>`, and copies the upstream body unchanged. `<name>` is `uri.Split('/').Last()`;
- the response's header collection checks each value it is given (`HttpHeaders.Add`). `application/octet-stream` always passes. The Content-Disposition value fails when `<name>`, past any leading spaces, tabs or line folds (CR LF followed by a space or tab), does not start with a token or a closed quoted string (the empty name included). It also fails when what follows that first value, past any spaces, tabs or line folds, is neither the end of the name nor `;` and further well-formed parameters. Examples are a space before text other than `;`, and `?`, `=` or a quote right after a token. `Add` then throws `FormatException`, which leaves the function, so the function returns no response of its own. A name such as `a;b` or `a ` is accepted;
- any other upstream status gets `500` with the text `Failed to get response from uri`.

The model has five modules:

- `Options` (`options.dfy`): the optional value the query lookup returns.
- `Headers` (`headers.dfy`): how `HttpHeaders.Add` checks a header. The name must be a token. Content-Type and Content-Disposition values go through their parsers. Any other value is only checked for CR and LF. The parsers are scanners that return where what they recognised ends, as the .NET parsers return a length.
- `Http` (`http.dfy`): bytes, headers, the upstream outcome (status, declared content type, body), and the client response. It also has the UTF-8 encoding that `WriteStringAsync` writes text with. `HttpResponseData` is a class: `req.CreateResponse` is its constructor, and `Headers.Add`, `WriteStringAsync` and `CopyToAsync` are methods that update its `headers` and `body` fields. `AddHeader` reports whether `Add` accepted the header; when it throws, the response is left as it was. The model records each header value as it was passed to `Add`, not the re-serialised form .NET keeps (see "Left out").
- `Text` (`text.dfy`): .NET's white-space table and `string.IsNullOrWhiteSpace`. Also `String.Split(char)` (empty pieces kept), Enumerable `Last()`, and a reference definition `AfterLast` ("the text after the last separator"), with lemmas relating them.
- `TurboHub` (`turbohub.dfy`): `Handle` is the handler as a pure function of the query value and the upstream. It ends in a `Returned` response or in the `FormatException` for the rejected header. `Run` is the handler as an imperative method that builds an `HttpResponseData` step by step, and is proved to produce exactly what `Handle` says. The lemmas state the properties of the reply, of the download name and of when the header check throws.

The outbound GET is modelled as a parameter `fetch: string -> Upstream`. The handler returns the list of URIs it fetched, so "nothing is fetched" and "the untrimmed `uri` is passed on exactly once" are statements about its result.

Points where the code may surprise a reader:

- There is no allowlist check and no `400` reply. Any non-blank `uri` is fetched.
- The `uri` is not trimmed by the function before it is passed to `GetAsync` or split.
- The download name is the last `/`-separated piece even when that piece is empty. A `uri` ending in `/` gives `filename=` with nothing after it, and `Add` rejects that value, so the call ends in `FormatException` after a successful fetch.
- The name is spliced into the header unquoted. A name whose first token or quoted string is followed by anything other than spaces, tabs, line folds (CR LF followed by a space or tab), or `;` with further parameters makes `Add` throw instead of producing a download. One example is a name carrying a query string (`file.zip?raw=true`). A name such as `a;b` is accepted and read as two parameters, `filename=a` and `b`.
- A transport failure is not turned into a `500`. `GetAsync` throws, and the exception leaves the function.

## Model

| member | source | states |
|---|---|---|
| Text.IsWhiteSpace | api/TurboHub.cs:24 | a character is white space exactly when it is one of the 25 characters .NET's table lists, enumerated one by one |
| Text.AllWhiteSpace | api/TurboHub.cs:24 | true exactly when every character of the text is a white-space character |
| Text.IsNullOrWhiteSpace | api/TurboHub.cs:24 | the blank test: true exactly when the value is absent or every character is white space; so "" is blank and a text starting with a non-space is not |
| Text.Split | api/TurboHub.cs:35 | `Split('/')` gives one more piece than there are separators, and no piece contains the separator |
| Text.Last | api/TurboHub.cs:35 | `Last()` returns an element of the sequence, the one all the others precede |
| Text.JoinSplit | api/TurboHub.cs:35 | splitting loses nothing: joining the pieces with the separator gives back the original text |
| Text.LastOfSplit | api/TurboHub.cs:35 | `Split(sep).Last()` equals the text after the last separator (`AfterLast`) |
| Text.AfterLastIsSuffix | api/TurboHub.cs:35 | the text after the last separator is a separator-free suffix, and the text before it is empty or ends in the separator |
| Text.AfterLastUnique | api/TurboHub.cs:35 | any separator-free suffix whose prefix is empty or ends in the separator is the text after the last separator |
| TurboHub.FileName | api/TurboHub.cs:35 | the file name is a `/`-free suffix of the uri, preceded by nothing or by a `/` |
| TurboHub.FileNameIsLastSegment | api/TurboHub.cs:35 | the uri is some prefix that is empty or ends in `/`, followed by the file name; a uri without `/` is its own name; a uri ending in `/` gives the empty name |
| TurboHub.FileNameUnique | api/TurboHub.cs:35 | conversely, every such split of the uri yields the file name, so the characterisation determines it |
| TurboHub.GitHubDownloadNames | api/TurboHub.cs:35 | a branch archive URL `.../archive/refs/heads/<branch>` is named `<branch>`, and a release asset URL `.../releases/download/<tag>/<file>` is named `<file>` |
| Http.IsSuccessStatusCode | api/TurboHub.cs:29 | a status counts as success exactly when it is in the 2xx class (its hundreds digit is 2) |
| Headers.IsTokenChar | api/TurboHub.cs:36 | .NET's token table (visible ASCII without the separators) marks exactly RFC 7230's `tchar`: letters, digits and the 15 listed punctuation marks |
| Headers.QuotedRest | api/TurboHub.cs:36 | the rest of a quoted string stays within the text, and when it is found it ends with the closing `"`; index bounds otherwise |
| Headers.QuotedStringEnd | api/TurboHub.cs:36 | a quoted string stays within the text, and when found is at least two characters that begin and end with `"` |
| Headers.ValueEnd | api/TurboHub.cs:36 | a parameter value stays within the text, and when found starts with a token character or `"` |
| Headers.NameValueEnd | api/TurboHub.cs:36 | a parameter stays within the text, and when found starts with a token character, its name's first |
| Headers.NameValueListLoop | api/TurboHub.cs:36 | index bounds only: the list's end lies between the list's start and the end of the text |
| Headers.NameValueListEnd | api/TurboHub.cs:36 | index bounds only: the list's end lies between its start and the end of the text |
| Headers.ParametersEnd | api/TurboHub.cs:33-36 | index bounds only: the result is the failure mark (the value's start) or lies at or after the position past the type, within the text |
| Headers.DispositionEnd | api/TurboHub.cs:36 | a Content-Disposition scan stays within the text, and when it recognises anything, that starts with a token character (the disposition type) |
| Headers.MediaTypeEnd | api/TurboHub.cs:33 | a Content-Type scan stays within the text, and when it recognises anything, that starts with a token character and holds the `/` |
| Headers.ContentDispositionParses | api/TurboHub.cs:36 | a value that parses has, past its leading white space, a token character: it is not blank |
| Headers.MediaTypeParses | api/TurboHub.cs:33 | a value that parses has, past its leading white space, a token character, and holds a `/` |
| Headers.AddAccepts | api/TurboHub.cs:33-36 | `Add` accepts only a token name, and a Content-Disposition or Content-Type value only when it holds more than white space, starting with a token character |
| Headers.TokenEnd | api/TurboHub.cs:36 | the token scan stays within the text and stops at a character that is not a token character |
| Headers.TokenEndAt | api/TurboHub.cs:36 | the token scan from `i` ends exactly at the first non-token character after `i` |
| Headers.TokenEndSpansTokens | api/TurboHub.cs:36 | every character the token scan passes over is a token character |
| Headers.WhitespaceEnd | api/TurboHub.cs:36 | the white-space scan stays within the text and stops at a character that is not a space or tab |
| Headers.WhitespaceEndAt | api/TurboHub.cs:36 | over a run of spaces and tabs, the white-space scan ends exactly at the first character that is neither a space nor a tab and does not start a line fold (CR LF then a space or tab) |
| Headers.DispositionScan | api/TurboHub.cs:36 | for a value that starts with a type, `; ` and a parameter name with `=`, whether it parses depends only on where the parameter list ends and on what follows it |
| Headers.TokenValueAccepted | api/TurboHub.cs:36 | such a value whose parameter value is a token running to the end parses |
| Headers.MissingValueRejected | api/TurboHub.cs:36 | such a value with nothing after `=` does not parse |
| Headers.StrayAfterValueRejected | api/TurboHub.cs:36 | such a value does not parse when its token value is followed, after optional spaces, by a character other than `;` that cannot continue it |
| Headers.DispositionAccepted | api/TurboHub.cs:36 | `Add("Content-Disposition", v)` accepts exactly when `v` parses as a Content-Disposition value |
| Headers.MediaTypeOfTokens | api/TurboHub.cs:33 | `type/subtype` made of two tokens parses as a Content-Type value |
| Headers.OctetStreamAccepted | api/TurboHub.cs:33 | `Add("Content-Type", "application/octet-stream")` never throws |
| TurboHub.PrefixShape | api/TurboHub.cs:36 | `attachment; filename=` followed by any name has the type, `; `, name and `=` layout, and the name's characters follow it |
| TurboHub.TokenNameAccepted | api/TurboHub.cs:36 | a file name that is a token gives a Content-Disposition value that parses |
| TurboHub.EmptyNameRejected | api/TurboHub.cs:35-36 | the empty file name gives a Content-Disposition value that does not parse |
| TurboHub.StrayCharacterRejected | api/TurboHub.cs:35-36 | a file name made of a token, optional spaces or tabs, and then a character that is not `;` and cannot continue the token, gives a value that does not parse |
| TurboHub.Handle | api/TurboHub.cs:23-55 | a blank uri fetches nothing and gets 404 with the missing-parameter text and no headers. A non-blank uri is fetched once, untrimmed. A 2xx upstream gets 200 with exactly Content-Type `application/octet-stream` then Content-Disposition `attachment; filename=<name>`, and the upstream body, when that value parses; when it does not, the call ends in `FormatException` for that header. Any other status gets 500 with the failure text and no headers |
| TurboHub.OneOutcomePerCall | api/TurboHub.cs:36-54 | every call returns exactly one of 200, 404 or 500, with headers exactly when it is 200, or ends in the exception after its one fetch; it fetches at most once |
| TurboHub.ReplyDependsOnlyOnFetched | api/TurboHub.cs:24-28 | the reply depends on the upstream only through the URIs fetched: with a blank uri, every upstream gives the same reply; repeating a request against the same upstream repeats the reply |
| TurboHub.DispositionNamesLastSegment | api/TurboHub.cs:33-36 | on success the headers are exactly the two fixed ones, whatever content type the upstream declared; the Content-Disposition value parses and names a `/`-free suffix of the uri that starts just after a `/` or at the start |
| TurboHub.TrailingSlashThrows | api/TurboHub.cs:35-36 | a uri ending in `/` with a 2xx upstream ends in `FormatException` for `Content-Disposition: attachment; filename=` |
| TurboHub.MalformedNameThrows | api/TurboHub.cs:35-36 | a file name with a stray character, as above, makes a 2xx upstream end in `FormatException` for the Content-Disposition header |
| TurboHub.QueryInNameThrows | api/TurboHub.cs:35-36 | a uri whose last segment is a token followed by `?` and a query string ends in `FormatException` after a 2xx upstream |
| TurboHub.GitHubArchiveDownloads | api/TurboHub.cs:29-36 | a branch archive URL whose branch name is a token, with a 2xx upstream, gets 200 and the Content-Disposition value `attachment; filename=<branch>` |
| TurboHub.TextRepliesAreMessages | api/TurboHub.cs:41-54 | the 404 and 500 bodies are the fixed messages byte for byte, one byte per character |
| TurboHub.Relay | api/TurboHub.cs:29-39 | the 2xx branch: a fresh 200 response with the two headers and the upstream body when the Content-Disposition value parses; otherwise no response, and the exception names that header |
| TurboHub.Run | api/TurboHub.cs:18-55 | fetches exactly the URIs `Handle` does; when `Handle` returns, builds a fresh response object whose status, headers and body are what `Handle` gives; when `Handle` ends in the exception, returns no response and the same rejected header |
| Http.EncodeChar | api/TurboHub.cs:45 | the UTF-8 encoding of one character is 1 to 4 bytes; it is one byte, equal to the character's code, exactly when the code is below 0x80; otherwise it is a lead byte followed by continuation bytes |
| Http.Utf8 | api/TurboHub.cs:45 | a text is written as at least one and at most four bytes per character, starting with the encoding of its first character |
| Http.Utf8OfAscii | api/TurboHub.cs:45 | text made only of ASCII characters is written as one byte per character, each equal to the character's code |
| Http.HttpResponseData.constructor | api/TurboHub.cs:32 | a new response has the given status, no headers and an empty body |
| Http.HttpResponseData.AddHeader | api/TurboHub.cs:33-36 | `Add` accepts a header exactly when the collection's check passes; an accepted header is appended after the existing ones, a rejected one (the `FormatException`) leaves the response unchanged; status and body never change |
| Http.HttpResponseData.WriteString | api/TurboHub.cs:45 | writing text appends its UTF-8 bytes to the body and leaves status and headers unchanged |
| Http.HttpResponseData.CopyFrom | api/TurboHub.cs:37-38 | copying the upstream stream appends its bytes to the body unchanged and leaves status and headers unchanged |

## Left out

- Hosting: the Azure Functions host, the `[Function]` and `[HttpTrigger]` attributes, the accepted methods (GET and POST), and how the request object is built. The query value reaches the model already decoded, as an optional string. When `uri` is given more than once, the values are joined before they reach the handler; that joining is not modelled.
- What the host sends the client after the handler throws (the `FormatException` from `Add`, or an exception from `GetAsync`) is not modelled. The model records the exception as the outcome.
- The HTTP client: DNS, TLS, redirects and timeouts. The upstream is an input: its status, declared content type and body. `System.Uri` trims surrounding white space when it parses the address, and an address it cannot parse, or a transport failure, makes `GetAsync` throw. Nothing in the function catches these. The model passes on the untrimmed string and has no outcome for these cases.
- Streaming: `ReadAsStreamAsync` and `CopyToAsync` chunking, bounded memory, async/await and client disconnects. The copy is modelled as appending the whole upstream body. A failure while the body is being copied is not modelled.
- Logging (`_logger.LogInformation`) has no effect on the reply and is not modelled.
- The allowlist, the `400` "uri not matched any rule" reply, and header-safe escaping or quoting of the file name. None of these exist in the code.
- Headers.AddAccepts: header names are compared exactly, where .NET compares them ignoring case. The two names the handler adds are spelled as .NET's known headers, so the difference does not arise. Headers other than Content-Type and Content-Disposition are only checked for CR and LF; the parsers .NET has for other known headers are not modelled.
- Headers.ContentDispositionParses and Headers.MediaTypeParses follow the .NET parsers' scan: tokens, quoted strings with backslash pairs, spaces, tabs and line folds, and `;`-separated `name` or `name=value` parameters. The model does not build the parsed header objects, only the accept or reject decision.
- Http.HttpResponseData.AddHeader: records the value as it was passed to `Add`. .NET's header collection keeps the parsed value and gives back its re-serialised text. That text drops white space around values and writes `; ` between parameters, so `attachment; filename=a;b` comes back as `attachment; filename=a; b`. A name that is a single token or quoted string is not affected. The rule that Content-Type and Content-Disposition take one value each is not modelled either: .NET throws `FormatException` on a second `Add` of them, and the model appends it. The handler adds each of them once.
- TurboHub.Handle: its 200 reply's Content-Disposition value is the text passed to `Add`, not .NET's re-serialised form, as described for `AddHeader`.
- TurboHub.Relay: the response it returns holds the Content-Disposition value as passed to `Add`, not .NET's re-serialised form, as described for `AddHeader`.
- TurboHub.DispositionNamesLastSegment: the Content-Disposition value it states is the text passed to `Add`, not .NET's re-serialised form, as described for `AddHeader`.
- Characters are Unicode scalar values. .NET strings are UTF-16 code units, so an unpaired surrogate in `uri` cannot be represented. White space is .NET's `Char.IsWhiteSpace` table, written out as a predicate.
- `fetch` is a function, so it models an upstream that gives the same answer for the same URI within one call. That is all the handler relies on, because it fetches once.
