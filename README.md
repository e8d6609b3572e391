# Message board server, modelled in Dafny

`main.py` is a small message-board web server built on Python's
`http.server`. A GET request is routed on the path component of its target:
`/` and `/message.html` send fixed HTML pages, `/read` renders a template
with every stored message, and any other path serves the file of that name
below the program's directory or, when there is none, `error.html` with
status 404. A POST to exactly `/message` percent-decodes the form body,
splits it on `&` and `=` into a field map, loads the JSON store file
(`storage/data.json`, timestamp to field map), adds the new entry under the
current time, writes the file back and redirects to `/`. Any other POST
target gets a bare 404.

The model has one module per part of that flow:

- `Wrappers` (`wrappers.dfy`): `Option` and `Result`.
- `Strings` (`strings.dfy`): Python's `str.split` with a one-character
  separator and `str.join`, with their round trips and the rule for when a
  split has an empty piece.
- `Form` (`form.dfy`): `unquote_plus` (`Decode`), the dict comprehension of
  main.py:49-51 (`CollectPairs`) and the whole parser `ParseForm`. The
  `IndexError` raised on a piece without `=` is the `Err` case. The
  encoding of `urllib.parse.urlencode`, built on `quote_plus` (`Encode`,
  `EncodeForm`), serves as the reference the parser is compared against.
- `Url` (`url.dfy`): the path component of `urllib.parse.urlparse`. It
  drops the scheme, the network location, the fragment, the query and the
  `;` parameters.
- `Store` (`store.dfy`): the load rule shared by `do_POST` and
  `render_template`, and a `MessageStore` class whose `Append` method is
  `data.update({timestamp: entry})`.
- `Router` (`router.dfy`): the routing decision as a pure function
  `Route(verb, rawPath, fileExists)` over an `Action` datatype.
- `Server` (`server.dfy`): the replies of `do_GET` and `do_POST` and the
  store file each leaves behind.

The file system, the clock and `mimetypes` are inputs. `fileExists` stands
for `Path.exists`, a `StoreFile` for the store file's state (missing,
undecodable JSON, or a decoded object), `timestamp` for
`datetime.now().isoformat()`, and `guessType` for `mimetypes.guess_type`.

Two details follow the code rather than the intent one might read into it.
The code does not split each pair at its first `=` only: it splits on
every `=` and takes elements 0 and 1, so a piece is cut at its second `=`
and a value that holds `=` keeps only the text before its own first `=`
(`Form.SegmentShape`, `Form.ValueWithEqualsIsCut`). And the POST route
compares `self.path` itself, not its path component, so `/message?x=1`
gets the bare 404 (`Router.PostMatchesRawTarget`). The model's `rawPath`
is `self.path` as `BaseHTTPRequestHandler` hands it to the handler.

## Model

| member | source | states |
|---|---|---|
| Strings.Split | main.py:50 | `str.split` with a one-character separator: always at least one piece, exactly `[s]` when the separator is absent, at least two pieces when it is present |
| Strings.SplitPiecesFree | main.py:50 | no piece of a split contains the separator |
| Strings.SplitAtFirst | main.py:50 | a split is the text before the first separator followed by the split of the text after it |
| Strings.FirstPiece | main.py:50 | element [0] of a split is the text before the first separator, or all of it when there is none |
| Strings.JoinSplit | main.py:50 | joining the pieces of a split with the separator gives back the original text |
| Strings.SplitJoin | main.py:50 | splitting a join of separator-free pieces gives back exactly those pieces |
| Strings.SplitHasEmptyPiece | main.py:50 | a split has an empty piece iff the text is empty, starts or ends with the separator, or holds two separators in a row |
| Strings.EmptyLaterPiece | main.py:50 | a piece after the first is empty iff the text ends with the separator or holds two in a row |
| Form.Decode | main.py:48 | `unquote_plus` of the body: never longer than its input; what it means is stated by `Form.DecodeOfEncode`, `Form.DecodeConcat` and `Form.EscapeDecodesAsLiteral` |
| Form.DecodePlainText | main.py:48 | `unquote_plus` leaves text without `%` and `+` unchanged |
| Form.DecodeEncode | main.py:48 | decoding undoes `quote_plus`'s encoding, and an encoded prefix decodes without disturbing what follows it |
| Form.DecodeOfEncode | main.py:48 | `Decode(Encode(w)) == w` for every text |
| Form.EncodedHasNoSeparators | main.py:48-50 | an encoded name or value contains no literal `&` or `=` |
| Form.EscapeDecodesAsLiteral | main.py:48 | a `%XX` escape, in either hex case, decodes exactly like the character with code XX, unless that character is `%` (which could start an escape) or `+` (which would become a space) |
| Form.SplitPair | main.py:50 | a piece yields a pair iff it contains `=`; the pair is elements [0] and [1] of its split on `=` |
| Form.CollectPairs | main.py:49-51 | the comprehension succeeds iff every piece contains `=`; on failure the error names the first piece without `=`, and every piece before it has one |
| Form.Segments | main.py:48-50 | the pieces `parse_body.split("&")`: at least one, none holding `&`, and joined with `&` they give back the decoded body |
| Form.ParseForm | main.py:48-51 | the parser succeeds iff every `&`-piece of the decoded body contains `=`; otherwise it reports the first piece that does not |
| Form.KeyAndValue | main.py:50 | the key is the text before a piece's first `=`, and the value is the text up to the next `=` after that |
| Form.SegmentShape | main.py:50 | key and value contain no `=`; the piece starts with `key=value`, and what follows is either nothing or a further `=` (the dropped rest) |
| Form.PairOfSegment | main.py:50 | conversely, `k=v` followed by nothing or by `=...` yields exactly the pair (k, v) |
| Form.CollectedKeys | main.py:49-51 | on success the map's keys are exactly the keys of the pieces |
| Form.LastSegmentWins | main.py:49-51 | on success every key maps to the value of the last piece that carries it |
| Form.BlankSegmentFails | main.py:48-51 | an empty decoded body, or one that starts or ends with `&` or holds `&&`, fails |
| Form.EmptyBodyFails | main.py:47-51 | the empty body fails at piece 0 |
| Form.DecodeConcat | main.py:48 | decoding works piecewise at any cut whose right part does not start with a hex digit, since no escape can straddle such a cut |
| Form.ParseBehindPrefix | main.py:48-50 | two tails that decode alike, neither starting with a hex digit, parse alike behind any prefix |
| Form.EscapeParsesAsLiteral | main.py:48-50 | anywhere in a body, an escape `%XX` parses like the character with code XX when that character is not `%`, `+` or a hex digit |
| Form.EscapedSeparatorsSplit | main.py:48-50 | because decoding comes first, `%26` anywhere in a body parses exactly like `&`, and `%3D` or `%3d` exactly like `=`, whatever precedes and follows them |
| Form.DecodeJoined | main.py:48 | decoding a `urlencode`d form gives the plain `name=value` pieces joined with `&` |
| Form.CollectPlain | main.py:49-51 | plain `name=value` pieces collect to `dict(fields)`, the later duplicate winning |
| Form.FormRoundTrip | main.py:48-51 | for a non-empty form whose names and values hold no `&` and no `=`, parsing its `urlencode` yields `dict(fields)` (the empty form encodes to `""`, which fails) |
| Form.ValueWithEqualsIsCut | main.py:50 | an encoded value holding `=` and no `&` is cut at its first `=`, so the round trip fails for it |
| Form.ValueWithAmpersandFails | main.py:48-51 | an encoded value holding one `&` with no `=` after it makes the parse fail at piece 1 |
| Form.ValueWithAmpersandInjects | main.py:48-51 | an encoded value holding one `&` followed by `name=value` parses without error and injects that second field: `text=a%26name%3DM` gives `{"text": "a", "name": "M"}` |
| Form.MessageSubmission | main.py:47-51 | a `name=...&text=...` body with plain fields parses to exactly those two fields |
| Url.SplitScheme | main.py:29 | when no scheme is split off, the rest is the whole target |
| Url.StripNetloc | main.py:29 | dropping the network location leaves a suffix of the target |
| Url.StripParams | main.py:29 | dropping `;` parameters leaves a prefix, and changes nothing without `;` |
| Url.UrlPath | main.py:29 | the path component never contains `?` or `#` |
| Url.PathAfterScheme | main.py:29 | the path left after the scheme never contains `?` or `#` |
| Url.PlainPathUnchanged | main.py:29-30 | a target with one leading `/` and no `?`, `#` or `;` is its own path |
| Url.SuffixIgnored | main.py:29-30 | what follows the first `?` or `#` of a target never affects its path |
| Url.QueryIgnored | main.py:29-30 | a query string appended to a target without `?` leaves the path unchanged |
| Store.Load | main.py:61-68 | a missing file and undecodable JSON both give the empty store; otherwise the decoded object |
| Store.MessageStore.constructor | main.py:61-68 | the loaded dict is the store's content under the load rule |
| Store.MessageStore.Append | main.py:70 | the timestamp maps to the entry, every other key keeps its value and presence, and the size grows by one exactly when the timestamp was new |
| Store.AfterPost | main.py:58-72 | the store after one POST: the new timestamp maps to the entry, all other keys are as loaded, and the size grows by one exactly when the timestamp was new |
| Store.UndecodableStoreReplaced | main.py:61-72 | after a POST over a missing file or one holding undecodable JSON, the store holds the new entry alone |
| Store.TwoPosts | main.py:58-72 | two POSTs at distinct new timestamps add two entries and keep both; at the same timestamp the second overwrites the first |
| Router.RouteGetPath | main.py:30-42 | the GET route table: `/` and `/message.html` send their pages with 200, `/read` (and only it) renders `read.html`, any other path serves the existing file `path[1:]`, and the reply is `error.html` with 404 exactly when that file does not exist |
| Router.RoutePost | main.py:44-81 | POST saves and redirects to `/` iff the target is exactly `/message`, and otherwise replies with a bare 404 |
| Router.Route | main.py:27-81 | dispatch on the method: GET routes on the path component of the target and replies 200 or 404, POST saves only for `/message` and gives a bare 404 otherwise, any other method gets 501; only a POST ever saves |
| Router.GetStatus | main.py:30-42 | GET replies 200 or 404, and 404 exactly when the path is no fixed route and names no existing file; the 404 reply is `error.html` |
| Router.FixedRoutesIgnoreFiles | main.py:30-36 | `/`, `/message.html` and `/read` are routed without looking at the file system and never serve a static file |
| Router.StaticFileIsPathTail | main.py:37-40 | a served static file exists and is the path with its leading character removed, with no normalisation |
| Router.GetIgnoresQuery | main.py:29-36 | a plain target is routed the same with or without a query string |
| Router.PostMatchesRawTarget | main.py:45 | POST saves and redirects to `/` iff `self.path` is exactly `/message`; every other target, `/message?...` included, gets the bare 404 |
| Server.ContentType | main.py:112-116 | a static file's content type is the guessed type, or `text/plain` when the guess is missing or empty |
| Server.Perform | main.py:83-120 | each action gives its reply: the named HTML file with its status, the template rendered with the loaded store, the static file with `ContentType` of its guessed type, the redirect, the bare status, or 501; the reply's status is always the action's |
| Server.HandleGet | main.py:28-42 | a GET reply is 200, or the error page with 404; `/` sends `index.html` and `/message.html` sends `message.html`; the reply is the `read.html` view iff the path is `/read`, and the view holds the whole loaded store; any other path sends the existing file `path[1:]` with its content type, or `error.html` with 404 when there is none |
| Server.HandlePost | main.py:44-81 | a non-`/message` target gives a bare 404 and a rejected body aborts, both leaving the file unchanged; a good body rewrites the file with the loaded store plus the entry and redirects 302 to `/` |
| Server.Handle | main.py:27-81 | dispatch on the method: GET replies as `HandleGet`; POST replies with a bare 404 off `/message`, aborts on a rejected body, and otherwise redirects 302 to `/`; other methods get 501; only a successful POST to `/message` changes the store file |

## Left out

- HTTP plumbing (`HTTPServer`, `serve_forever`, status lines, headers, writes to the socket, the `run` loop and its exception handling) is not modelled. A reply is a `Reply` value naming what would be sent.
- File-system effects (`exists`, `mkdir` of the storage directory, `open`, reads and writes) are inputs and outputs: `fileExists`, and the `StoreFile` before and after.
- Reading a page or static file cannot fail in the model. In the source, a missing `index.html` or a directory path would raise; the model does not capture that.
- JSON is not modelled. The store file is either `Malformed` (a `JSONDecodeError`) or a decoded timestamp-to-entry object. A file holding valid JSON that is not such an object is out of scope, and so are the `indent=4` and `ensure_ascii=False` formatting.
- Jinja lookup and rendering are a foreign library. A view is the template name together with the store it is rendered with.
- `mimetypes.guess_type` is the `guessType` input. Only the `text/plain` fallback is modelled.
- The clock is not modelled: the timestamp is a parameter.
- UTF-8 decoding of the body bytes and `Content-Length` handling are not modelled: the body arrives as text.
- Logging is not modelled.
- The lost update between concurrent POSTs is not modelled: the model handles one request at a time.
- Form.Decode: an escape `%XX` with XX of 0x80 or more becomes the character with that code. The source collects such bytes and decodes them as UTF-8 (with U+FFFD for invalid sequences), so multi-byte escapes are not modelled.
- Form.Encode: the reference encoder is `quote_plus` on ASCII characters only; non-ASCII characters are kept literally, where `quote_plus` escapes their UTF-8 bytes. (A browser's form serializer differs again: it keeps `*` and escapes `~`.)
- Store.Load: a store file that is not valid UTF-8 makes `json.load` raise `UnicodeDecodeError`, which main.py:65 and main.py:100 do not catch. The source then does not load `{}`: a POST with a good body raises after parsing, with no reply and the file unchanged, and a GET of `/read` raises after its 200 headers are sent. `StoreFile` has no such state, so the model does not capture this path. Such a file can arise from a write cut off in the middle of a multi-byte character, which `ensure_ascii=False` makes possible.
- Form.ValueWithAmpersandFails: only values with a single `&` are stated, split by whether a `name=value` follows it (`Form.ValueWithAmpersandInjects`). A value with several `&` is covered only by the general contract of `Form.ParseForm`.
- Store.Saved: reading back the written file gives the dict that was written; the model assumes that `json.load` returns what `json.dump` wrote for a dict of string maps rather than proving it, since JSON is not modelled.
- Router.Route: the current `BaseHTTPRequestHandler` collapses a leading run of `/` in the request target into one before `do_GET` or `do_POST` runs, so a POST to `//message` saves. The model takes `self.path` after that step as its `rawPath` and does not model the step itself.
- Url.UrlPath: the stripping of leading C0 controls and spaces, the removal of tab, CR and LF, the `ValueError` for a malformed IPv6 network location, and the `ValueError` that `_checknetloc` raises when a non-ASCII network location normalises (NFKC) to one holding `/`, `?`, `#`, `@` or `:` are not modelled.
- Store.MessageStore.Append: key order is not modelled. The store and each entry are Dafny maps, while the source's dicts keep insertion order: `data.update` leaves an overwritten timestamp in its place and adds a new one at the end, `json.dump` writes the file in that order and the `/read` view lists the messages in it, and the comprehension of main.py:49-51 keeps a duplicate key at its first position. So no contract says that the view lists messages in the order they were submitted.
- Server.Handle: for methods other than GET and POST, only the 501 status of the base class is modelled, not its error page body.
