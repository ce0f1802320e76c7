# webserv in Dafny

This project models the text-protocol core of webserv, a small HTTP/1.1 server
written in C++, together with the CGI scripts it runs. The model covers:

- **Request parsing** (`srcs/Request.cpp`):
  - the missing-data check;
  - the request line (section 3 of RFC 9112), with the target split into path and query;
  - header collection, the single-value header rule, the `Host` requirement and keep-alive detection;
  - the body.
- **Response assembly** (`srcs/Response.cpp`):
  - the status decisions of the constructor and the early rejections;
  - the message `formResponse` builds;
  - the page lookup, route rewriting and send accounting.
- **String helpers** (`srcs/Utils.cpp`): trimming, splitting, and the validators for IPv4 addresses, ports, URI shape, escape above the root, IMF-fixdate timestamps (section 5.6.7 of RFC 9110) and unsigned literals; key/value extraction.
- **The configuration tokenizer** (`srcs/JSON.cpp`): the unquoted-delimiter scan, element splitting and the recursive token tree.
- **The CGI side** (`srcs/CgiHandler.cpp`, `srcs/CGIHandler.cpp`, `include/CGIHandler.hpp`):
  - the environment of section 4.1 of RFC 3875, including the `HTTP_*` variables of section 4.1.18;
  - the `envp` array;
  - the parser of script output (section 6 of RFC 3875);
  - the fallback results of `execute`;
  - the `Client` buffer bookkeeping.
- **The CGI scripts** (`www/site/cgi-bin/calculator.py`, `weight_convert.py`, `weight_convert.php`, `calculator.cpp`): input selection, parameter checks, template substitution and response framing. Each script's output is fed back through the server's parser.
- **Configuration grouping** by listening address, and the swap-with-last removal from the poll list (`srcs/Server.cpp`).

There is one module per source file. `Text` holds the string vocabulary the modules share:
- `Find` and `FindFrom` (the `std::string::find` family);
- `Pieces` (what `std::getline` delivers for a delimiter);
- `Join`;
- decimal rendering;
- `ReplaceAll` (leftmost, non-overlapping replacement);
- lexicographic order and the sorted keys of a `std::map`;
- UTF-8 length.

`HttpTypes` holds the method and status enumerations, the `Config` record and the request view the response and CGI code read. `CgiFrame` holds the response layout the scripts share.

Code that updates state is modelled imperatively:
- `Request.Request`, `Response.Response`, `Server.Server` and `CgiClient.Client` are classes whose methods update their fields.
- Loops are `while`/`for` loops with invariants, proved against specification functions.

Pure code is modelled as functions with lemmas about them.

Where a header file and a source file disagree, the source file is modelled. For example, `CgiResponse` fields are texts, as `srcs/CgiHandler.cpp` assigns and compares them. The assumed defaults are:
- status `"200 OK"`;
- content type `"text/html"`;
- length `"0"`.

## Model

| member | source | states |
|---|---|---|
| `Utils.TrimWhitespace` | srcs/Utils.cpp:36-44 | the result is the input with leading and trailing C-locale white space removed (empty when all of it is white space) |
| `Utils.SplitStringView` | srcs/Utils.cpp:55-74 | the loop's parts are the `Split` specification: the text between successive delimiters, plus one empty part when the input ends with the delimiter |
| `Utils.SplitJoin` | srcs/Utils.cpp:55-74 | for a one-character delimiter, joining the parts with it gives the input back; no parts exactly for the empty input; a leading or trailing delimiter gives an empty first or last part |
| `Utils.SplitOfJoin` | srcs/Utils.cpp:55-74 | conversely, delimiter-free parts joined with the delimiter split back into the same parts (unless they are the single empty part) |
| `Utils.SplitLoopSingle` | srcs/Utils.cpp:55-74 | for a one-character delimiter the loop's parts are the `getline` pieces |
| `Utils.SplitUri` | srcs/Utils.cpp:79-82 | the `'/'`-parts of a URI join back to the URI; no parts exactly for the empty URI |
| `Utils.IsValidIPv4` | srcs/Utils.cpp:91-117 | the answer is true exactly when the text splits at `'.'` into four non-empty all-digit fields, each at most 255 |
| `Utils.IPv4IsDottedQuad` | srcs/Utils.cpp:91-117 | an address is accepted exactly when it is four valid fields joined with `'.'` |
| `Utils.DottedQuad` | srcs/Utils.cpp:495-504 | the decimal renderings of four numbers form an accepted address exactly when every number is at most 255 |
| `Utils.IPv4RefusesTrailingDot` | srcs/Utils.cpp:499 | `"1.1.1."` is refused |
| `Utils.IPv4RefusesFiveFields` | srcs/Utils.cpp:500 | `"255.255.255.255.255"` is refused |
| `Utils.PortRange` | srcs/Utils.cpp:122-144 | a rendered number, with or without leading zeros, is a valid port exactly when it lies in 1024..65535 |
| `Utils.UriFormatOk` | srcs/Utils.cpp:177-195 | a URI is accepted exactly when it is non-empty and holds no `"//"`; one leading and one trailing empty part are allowed |
| `Utils.PiecesDoubled` | srcs/Utils.cpp:177-195 | a doubled delimiter is exactly an empty piece after the first |
| `Utils.UriTargetAboveRoot` | srcs/Utils.cpp:204-221 | the answer is true exactly when the `".."` parts outnumber the parts that descend (non-empty, not `"."`, not `".."`) |
| `Utils.UriEscapesRoot` | srcs/Utils.cpp:204-221 | corrected check: true exactly when some prefix of the path climbs above its start |
| `Utils.AboveRootEscapes` | srcs/Utils.cpp:204-221 | every path the original check flags also escapes the root |
| `Utils.TotalsMissEscape` | srcs/Utils.cpp:204-221 | `"a/../../b"` escapes the root, yet its totals balance, so the original check lets it through |
| `Utils.IsValidImfFixdate` | srcs/Utils.cpp:226-323 | a timestamp is accepted exactly when it satisfies `ImfFixdateOk`: six space-separated fields; a weekday with its comma; a day of one or two digits that exists in that month of that year; a month name; a four-digit year; `HH:MM:SS` within range; `GMT` |
| `Utils.FindMonth` | srcs/Utils.cpp:278-285 | the loop over the month table gives -1 exactly for an unknown name, and otherwise the month number less one |
| `Utils.IsValidTime` | srcs/Utils.cpp:301-317 | the time field is accepted exactly when it has three two-digit fields with hours ≤ 23 and minutes and seconds ≤ 59 |
| `Utils.ImfDateAccepted` | srcs/Utils.cpp:226-323 | every timestamp written in the `strftime` layout of `getImfFixdate`, for a real time of day, is accepted exactly when the day exists in the month; the weekday is never compared with the date |
| `Utils.UnsignedLiteralRange` | srcs/Utils.cpp:377-400 | a rendered number, with or without `'+'`, is accepted exactly when it is at most `UINT_MAX`; an accepted text starts with `'+'` or a digit; `"+"` alone is refused |
| `Utils.ExtractValue` | srcs/Utils.cpp:444-456 | `""` when the key is absent; otherwise the text right after the first occurrence of the key, free of `"\r\n,;"` and ended by one of them or by the end of the text |
| `Utils.ExtractValueOf` | srcs/Utils.cpp:444-456 | a key found first, then a value without stop characters and a stop character, gives exactly that value |
| `Utils.ExtractQuotedValue` | srcs/Utils.cpp:461-484 | the result never holds a quote; it is `""` when the key is absent |
| `Utils.ExtractQuotedValueOf` | srcs/Utils.cpp:461-484 | a key, quote-free text, then a quoted value gives exactly that value |
| `Utils.ExtractQuotedValueUnquoted` | srcs/Utils.cpp:461-484 | without a quote after the key the result is `""` |
| `Utils.ExtractQuotedValueUnclosed` | srcs/Utils.cpp:461-484 | an opening quote after the key with no closing quote after it gives `""` |
| `Json.TypeNamesDistinct` | srcs/JSON.cpp:27-47 | every token type has a non-empty name of its own |
| `Json.Trim` | srcs/JSON.cpp:55-63 | the result is empty exactly when the text is only blanks (space, tab, newline); otherwise it neither starts nor ends with a blank, and it is never longer |
| `Json.TrimIdempotent` | srcs/JSON.cpp:55-63 | trimming twice is trimming once |
| `Json.UnquotedDelimiter` | srcs/JSON.cpp:73-106 | the loop returns the first index holding `c` outside quotes and at brace and bracket depth zero (an escaped quote does not toggle quoting), and none when there is no such index |
| `Json.SplitElements` | srcs/JSON.cpp:141-160 | the loop's pieces are the `Elements` specification |
| `Json.ElementsSplit` | srcs/JSON.cpp:141-160 | there is at least one piece; `[sv]` when there is no top-level comma; no piece holds a top-level comma |
| `Json.PiecesJoinBack` | srcs/JSON.cpp:141-160 | joining the pieces with `','` gives the text back, except that a final top-level comma is lost |
| `Json.GetTokenType` | srcs/JSON.cpp:114-132 | never `Identifier`; `Null` exactly for the empty text |
| `Json.RemoveQuotes` | srcs/JSON.cpp:278-284 | the result is never longer than the input |
| `Json.RemoveQuotesInverse` | srcs/JSON.cpp:278-284 | quoting a trimmed text and removing the quotes gives the text back; unquoted text comes back unchanged |
| `Json.CreateTokenWellFormed` | srcs/JSON.cpp:187-250 | the token's type is the one `getTokenType` gives, and the token tree is well formed: elements have an identifier and a value child, and leaves have no children |
| `Json.ContainerWellFormed` | srcs/JSON.cpp:193-221 | an object or array token has its kind, no value and well-formed children |
| `Json.ElementWellFormed` | srcs/JSON.cpp:223-237 | an element token has exactly two children, an identifier and a well-formed value |
| `Json.EmptyContainers` | srcs/JSON.cpp:193-221 | `"{}"` and `"[]"` give no children; blanks alone between the brackets give a single `Null` child |
| `Json.KeyOfCreated` | srcs/JSON.cpp:258-271 | the key of a token built from an element is its text before the first top-level `':'`, trimmed and without quotes; any other text gives `""` |
| `Text.PiecesJoin` | srcs/Utils.cpp:55-74 | the `getline` pieces joined with the delimiter, plus a final delimiter when the text ends with one, give the text back |
| `Text.PiecesOfJoin` | srcs/Utils.cpp:55-74 | delimiter-free parts with a non-empty last part, joined with the delimiter, read back as exactly those parts |
| `Text.SortedKeysOrdered` | srcs/CgiHandler.cpp:62-76 | the keys of a `std::map`, in the order iteration visits them, are strictly ascending |
| `Text.ReplaceAllAt` | www/site/cgi-bin/calculator.cpp:66-73 | replacing everywhere, starting from a first occurrence at `i`, keeps the text before `i`, puts in the replacement and goes on after the occurrence |
| `Text.ReplaceAllLength` | www/site/cgi-bin/calculator.cpp:66-73 | the result's length changes by the length difference once per occurrence replaced |
| `Text.ReplaceAllSelf` | www/site/cgi-bin/calculator.cpp:66-73 | replacing a pattern by itself changes nothing |
| `Text.NatToStringInjective` | srcs/Response.cpp:178 | two numbers render to the same decimal text exactly when they are equal |
| `Text.Utf8LengthVsLength` | www/site/cgi-bin/weight_convert.py:56 | the UTF-8 byte count is never below the character count, and equals it exactly for ASCII text |
| `Request.MissingDataMeans` | srcs/Request.cpp:11-13 | for text without NUL characters, data is missing exactly when the buffer is empty or does not end in `'\r'` or `'\n'` |
| `Request.GetLine` | srcs/Request.cpp:16 | `std::getline` delivers the next line exactly when one is left, and consumes it; a stream that is not good only gains the failure flag |
| `Request.WordsRuns` | srcs/Request.cpp:36 | the words `operator>>` extracts are the maximal runs of non-space characters, in order: laid end to end they are the line without its white space; there are none exactly when the line is all white space; the first runs from the first non-space character to the next white space (each word is also non-empty and space-free) |
| `Request.Request.ParseRequestLine` | srcs/Request.cpp:33-67 | the request stays valid exactly when the line has three words, a method found in the table, an accepted target and a matching version; the method, path, query and version are stored as each check passes |
| `Request.OnlyGetAndPost` | srcs/Request.cpp:35 | the table entry is `"DELETE "` with a space, which no word can equal: an accepted line starts with `GET` or `POST`, and a line starting with `DELETE` is refused |
| `Request.DeleteAcceptedIntended` | srcs/Request.cpp:35-61 | corrected table (`DELETE` without the space): it accepts exactly the lines the table as written accepts plus the well-formed `DELETE` lines; `DELETE / HTTP/1.1` is refused as written and accepted as intended |
| `Request.Request.AreValidChars` | srcs/Request.cpp:157-165 | a target is accepted exactly when it holds no control character, no DEL or non-ASCII character (negative as a signed `char`), and none of `<>"\` |
| `Request.Request.IsTargetValid` | srcs/Request.cpp:174-195 | a target is accepted exactly when it satisfies `TargetAccepted`; then the path up to the first `'?'` and the query after it are stored, and nothing changes otherwise |
| `Request.TargetSplit` | srcs/Request.cpp:186-193 | the path holds no `'?'`, and the path, `'?'` and the query give the target back |
| `Request.Request.IsHttpValid` | srcs/Request.cpp:200-205 | a version is accepted exactly when it matches `HTTP/1.([01])`; only then is it stored |
| `Request.VersionExamples` | srcs/Request.cpp:201 | both versions pass, and so does `HTTP/1x1` (the unescaped dot); `HTTP/2.0` and `HTTP/1.10` do not |
| `Request.Request.ParseHeaders` | srcs/Request.cpp:106-152 | the table is the `Collect` of the header lines (a `substr` past the end is recorded as thrown); the request stays valid exactly when there is a header, `host` has a value and no single-value name repeats; keep-alive is set exactly when a `connection` value is `"keep-alive\r"` and the earlier checks did not return first |
| `Request.CollectHeaders` | srcs/Request.cpp:108-129 | corrected loop: it stops at the first line without `':'` or when the stream is spent; its table is `Collect` of the lines, and it consumes exactly `Consumed` of them |
| `Request.OneHeaderLine` | srcs/Request.cpp:110-125 | one `name: v` line adds under the lower-cased name the value, or its comma-separated pieces when it holds a comma |
| `Request.CollectShape` | srcs/Request.cpp:106-129 | every collected name is lower case and has at least one value |
| `Request.HasRepeatedUnique` | srcs/Request.cpp:137-142 | true exactly when a name of the 17-name single-value set has more than one value |
| `Request.HasKeepAlive` | srcs/Request.cpp:143-151 | true exactly when some value equals `"keep-alive\r"` |
| `Request.HeaderLoopNeverStops` | srcs/Request.cpp:108-129 | as written: once the stream is spent, a last line holding `':'` is handled again on every pass, so the loop does not end and the table grows without bound |
| `Request.LastLineLeavesStreamAtEnd` | srcs/Request.cpp:108-109 | a buffer whose last line is not ended by `'\n'` leaves the stream spent after that line |
| `Request.AsWrittenAgrees` | srcs/Request.cpp:108-129 | as written, when a line without `':'` is still to come, the loop stops after exactly the lines `Collect` reads, with `Collect`'s table, and throws exactly where `Collect` fails |
| `Request.BlankLineStops` | srcs/Request.cpp:108-129 | the `"\r"` line that ends a CRLF header section is such a line, so there the loop as written and `Collect` agree |
| `Request.Request.Parse` | srcs/Request.cpp:14-25 | after the request line, the headers and the body, the request fields are what `LineFields`, `Collect`, `HeadersAccepted` and the remaining lines give, and parsing stops at the first failure |
| `Request.Request.constructor` | srcs/Request.cpp:9-27 | the missing-data flag is `MissingData(buf)`, and the rest is what `Parse` states |
| `Request.ReadRest` | srcs/Request.cpp:24-25 | the body is the remaining lines concatenated |
| `Request.BodyDropsLineBreaks` | srcs/Request.cpp:24-25 | concatenating the lines drops exactly the newlines |
| `Response.SameResource` | srcs/Utils.cpp:149-169 | `resourceExists` lookups the source treats alike agree: an empty search directory is the working directory, and one leading `'/'` of the uri or one trailing `'/'` of the directory makes no difference |
| `Response.PageLookup` | srcs/Response.cpp:186-203 | an error key (three digits, starting with `'4'`) depends only on the error pages, and any other key only on the routes; a key without an existing mapped file falls back to `"default"` + key |
| `Response.ResponseKeys` | srcs/Response.cpp:151-176 | `400` and `404` are error keys; `200` and `204` are not |
| `Response.Route` | srcs/Response.cpp:206-245 | the loop's result is the `Routed` specification |
| `Response.RoutePartial` | srcs/Response.cpp:218-229 | without an exact route, the least key (other than `"/"`) that occurs in the target has its first occurrence replaced by its value |
| `Response.RouteFallback` | srcs/Response.cpp:231-244 | with no exact or partial route, the `"/"` route (its trailing slash dropped) is put in front with one `'/'`, and the target is kept as is when there is no such route |
| `Response.LeadingSlashIgnored` | srcs/Response.cpp:209-210 | a target is routed like the same target with one leading `'/'` |
| `Response.EarlyStatus` | srcs/Response.cpp:25-33 | a status is forced exactly for an invalid request or a receive timeout |
| `Response.ResolveTarget` | srcs/Response.cpp:53-64 | the normalised, routed target, with a directory replaced by its `index.html` |
| `Response.LocateStatus` | srcs/Response.cpp:66-99 | the method switch: `GET` gives 404 exactly when the page is neither cached nor present; `POST` gives 200; `DELETE` gives 204 for an existing resource and 404 otherwise; any other method gives 400 |
| `Response.MethodStatus` | srcs/Response.cpp:72-99 | the status of each method, as above, is one of 200, 204, 400 and 404 |
| `Response.Decide` | srcs/Response.cpp:25-99 | a forced status wins; then a malformed target or one above the root gives 400 with `BadTarget` before any routing; otherwise the status is that of the method on the resolved target |
| `Response.StatusSwitch` | srcs/Response.cpp:151-176 | the start line and the page for each code; any other code, including 408, gets the `400 Bad Request` line and page |
| `Response.StartLineShowsCode` | srcs/Response.cpp:151-176 | the start line is the version, a space, three digits of the shown code, then a space |
| `Response.BodyShowsCode` | srcs/Response.cpp:161-176 | every code but 200 gets the page of the code its start line shows |
| `Response.HeaderLines` | srcs/Response.cpp:147-149 | the header section is four CRLF-ended lines, `Server`, `Date` and `Content-Type: text/html`, with `Content-Length` last |
| `Response.MessageReadsBack` | srcs/Response.cpp:178-180 | the first empty line of the message ends the header section, and what follows it is the body, unchanged |
| `Response.Response.constructor` | srcs/Response.cpp:20-104 | the fields are what `Decide` states, the message is formed, and nothing is sent yet |
| `Response.Response.FormResponse` | srcs/Response.cpp:145-181 | the start line, body, header section (with the body's length) and content agree with the status code and the target; the decision fields are unchanged |
| `Response.Response.SendToClient` | srcs/Response.cpp:247-261 | the count never decreases or passes the content length; nothing happens when no bytes remain; a negative `send` result fails; otherwise the count grows by what was sent |
| `Response.CompleteWhenAllSent` | srcs/Response.cpp:263-266 | the response is complete exactly when every byte has been sent |
| `Server.Server.IsGroupMember` | srcs/Server.cpp:37-48 | appends the configuration to the first group whose default has the same host and first port, and answers true; otherwise it answers false and changes nothing |
| `Server.Server.PlaceConfig` | srcs/Server.cpp:58-64 | one pass of the grouping loop keeps the grouping invariant for one more configuration |
| `Server.Server.GroupConfigs` | srcs/Server.cpp:54-66 | afterwards the groups satisfy `GroupsOk` for all configurations |
| `Server.Server.constructor` | srcs/Server.cpp:21-31 | the fetched configurations are grouped |
| `Server.GroupConfigsPartition` | srcs/Server.cpp:54-66 | after grouping, every group has socket -1 and starts with its default, the first configuration with its address; a group holds exactly the configurations with its address, in order; no two groups share an address; groups appear in order of first occurrence; every configuration is in exactly one group |
| `Server.Server.RemovePollFd` | srcs/Server.cpp:352-365 | slot `i` gets the last entry, the back is popped, and the index steps back by one |
| `Server.SwapRemoveFacts` | srcs/Server.cpp:352-365 | the list shrinks by one, entries before `i` stay, and the entries left are the old multiset minus the removed one |
| `ServerGroups.Joined` | srcs/Server.cpp:37-48 | joining keeps every group's default and address, and adds the configuration to exactly one group, the first with its address |
| `CgiHandler.Separator` | srcs/CgiHandler.cpp:181-188 | there is no separator exactly when neither `"\r\n\r\n"` nor `"\n\n"` occurs, and the separator lies inside the output |
| `CgiHandler.ParseCgiOutput` | srcs/CgiHandler.cpp:176-243 | the parse loop computes the `Parse` specification |
| `CgiHandler.ReadHeaderLines` | srcs/CgiHandler.cpp:201-234 | the loop applies exactly the `'\n'`-ended lines of the header section, in order |
| `CgiHandler.BodyRoundTrip` | srcs/CgiHandler.cpp:181-199 | a header block without `"\r\n\r\n"` that does not end in CRLF, then the separator and a body: the body is read back exactly |
| `CgiHandler.NoSeparator` | srcs/CgiHandler.cpp:191-196 | with no separator the whole output is the body, the length is its decimal length, and status and type keep their defaults |
| `CgiHandler.LastLineIgnored` | srcs/CgiHandler.cpp:198-234 | of a header section of lines joined by `'\n'`, every line but the last is examined |
| `CgiHandler.LineWithoutColon` | srcs/CgiHandler.cpp:211-212 | a line without `':'` changes nothing |
| `CgiHandler.LaterLineWins` | srcs/CgiHandler.cpp:226-231 | a later line with the same key overwrites the earlier value |
| `CgiHandler.HeaderLineValue` | srcs/CgiHandler.cpp:207-231 | a line `key:` + spaces + value + spaces (and one `'\r'`) stores the value, trimmed, under `Status`, `Content-Type` or `Content-Length`, and nothing under any other key |
| `CgiHandler.ApplyLinesKeepsBody` | srcs/CgiHandler.cpp:205-234 | header lines never change the body |
| `CgiHandler.ParseFramed` | srcs/CgiHandler.cpp:176-243 | a framed script response reads back with its status, type and body; the length line, being last, is recomputed from the body when the length read is `"0"` |
| `CgiHandler.FramedReadBack` | srcs/CgiHandler.cpp:176-243 | a framed response with the body's true length reads back with status, type, body and length |
| `CgiHandler.FixLengthCases` | srcs/CgiHandler.cpp:237-240 | a length of `"0"` over a non-empty body becomes the body's decimal length; any other length, right or wrong, is kept; status, type and body never change |
| `CgiHandler.LengthLineKept` | srcs/CgiHandler.cpp:176-243 | a `Content-Length` line that is not the last header line is read, and its value (other than `"0"`) is passed on whatever the body's true length |
| `CgiHandler.WrongLengthKept` | srcs/CgiHandler.cpp:237-240 | example: a length of 5 announced over a two-byte body reads back as `"5"` |
| `CgiHandler.FallbackStatusLost` | srcs/CgiHandler.cpp:198-234 | as written: the fallback `"Status: 500 Internal Server Error\r\n\r\n"` reads back as `200 OK` |
| `CgiHandler.FallbackStatusKept` | srcs/CgiHandler.cpp:198-234 | corrected parser (every header line examined): the fallback reads back as `500 Internal Server Error` |
| `CgiHandler.ParseEveryLineRoundTrip` | srcs/CgiHandler.cpp:176-243 | with the corrected parser a framed response reads back with its status, type, body and length |
| `CgiHandler.HttpVarsKeys` | srcs/CgiHandler.cpp:50-57 | the `HTTP_*` names are exactly those of headers with at least one value |
| `CgiHandler.HttpVarsValues` | srcs/CgiHandler.cpp:50-57 | each `HTTP_*` variable holds the first value of the last header, in map order, with that variable name |
| `CgiHandler.HttpKey` | srcs/CgiHandler.cpp:52-55 | the loop builds `HTTP_` + the name upper-cased with `'-'` turned into `'_'` |
| `CgiHandler.FixedNotHttp` | srcs/CgiHandler.cpp:22-57 | no fixed variable name starts with `HTTP_` |
| `CgiHandler.RequestEnvEntries` | srcs/CgiHandler.cpp:22-31 | `REQUEST_METHOD` is `POST`, `GET` or `UNKNOWN` by method; `QUERY_STRING` is the query or `""`; `CONTENT_LENGTH` is the body's decimal size; path, script and fixed values as set |
| `CgiHandler.FixedEnvEntries` | srcs/CgiHandler.cpp:33-47 | `CONTENT_TYPE` is present exactly when `content-type` has a value, and holds the first; the host splits at its first `':'` into `SERVER_NAME` and `SERVER_PORT`, else the port is `8080` |
| `CgiHandler.FixedEnvKeys` | srcs/CgiHandler.cpp:22-47 | the fixed names are all present except possibly `CONTENT_TYPE`, and no other name is |
| `CgiHandler.FixedEnvKeepsRequest` | srcs/CgiHandler.cpp:22-47 | the server and host entries do not overwrite the request entries |
| `CgiHandler.GetEnv` | srcs/CgiHandler.cpp:18-60 | the map is the fixed entries overridden by the `HTTP_*` entries |
| `CgiHandler.GetEnvSplit` | srcs/CgiHandler.cpp:18-60 | an `HTTP_*` entry keeps its header value, and every other entry keeps its fixed value |
| `CgiHandler.MapToEnvp` | srcs/CgiHandler.cpp:62-76 | a fresh array of one `key=value` string per entry, in ascending key order, then a null terminator |
| `CgiHandler.EnvLinesComplete` | srcs/CgiHandler.cpp:62-76 | every entry of the map has its string, and the key order is strictly ascending |
| `CgiHandler.EnvLinesSplit` | srcs/CgiHandler.cpp:62-76 | for keys without `'='`, each string splits at its first `'='` back into a key and its value |
| `CgiHandlerAlt.GetEnv` | srcs/CGIHandler.cpp:3-18 | exactly the five base names, plus `CONTENT_TYPE` when `content-type` has a value; `QUERY_STRING` is `" "` without a query |
| `CgiHandlerAlt.AgreesWithCgiHandler` | srcs/CGIHandler.cpp:3-18 | every entry but `QUERY_STRING` agrees with the other handler's |
| `CgiHandlerAlt.QueryDefaultsDiffer` | srcs/CGIHandler.cpp:7 | without a query the two handlers disagree: `" "` against `""` |
| `CgiHandlerAlt.Execute` | srcs/CGIHandler.cpp:36-62 | a failed `pipe` or `fork` gives `"Status: 500 Internal Server Error\r\n\r\n"`; otherwise the script path comes back unchanged |
| `CgiHandlerAlt.FailureReadsAsOk` | srcs/CGIHandler.cpp:40-51 | the server's parser reads that fallback with the default `200 OK` status |
| `CgiClient.Client.constructor` | include/CGIHandler.hpp:77-85 | the descriptor is stored, both counts are zero, both buffers are empty and the request is not complete |
| `CgiClient.Client.AddToRequestBuffer` | include/CGIHandler.hpp:87-92 | the buffer is the old one plus `str`; the request is complete when it was or when the new buffer holds `"\r\n\r\n"` |
| `CgiClient.ChunksAgree` | include/CGIHandler.hpp:87-92 | completeness does not depend on how the request arrives in chunks |
| `CgiClient.Client.ClearAndUpdateRequestBuffer` | include/CGIHandler.hpp:94-98 | the buffer is `str`, and the request is complete exactly when `str` holds `"\r\n\r\n"` |
| `CgiClient.Client.AddToResponseBuffer` | include/CGIHandler.hpp:100-102 | the response buffer grows by `str`; the request side is unchanged |
| `CgiClient.Client.ClearAndUpdateResponseBuffer` | include/CGIHandler.hpp:104-108 | the status code is 0 and the buffer is `str`; the request side is unchanged |
| `CgiClient.Client.IsResponseCompleted` | include/CGIHandler.hpp:110-115 | true exactly when the count sent reaches the buffer size |
| `CgiClient.ExecEnv` | include/CGIHandler.hpp:152-162 | six `NAME=value` entries in the fixed order, then a null terminator; the method is `POST` only for `POST` |
| `CgiClient.ExecEnvReadBack` | include/CGIHandler.hpp:152-158 | each entry splits at its first `'='` into its name and value |
| `CgiClient.Execute` | include/CGIHandler.hpp:126-193 | the pipe and fork failures give their messages; otherwise the body goes to the child only for `POST` with a non-empty body, and the result is the child's output |
| `CalculatorCpp.ParseQuery` | www/site/cgi-bin/calculator.cpp:38-52 | the loop inserts the `'&'`-pieces in order into the map (`QueryMap`) |
| `CalculatorCpp.PieceWithoutEquals` | www/site/cgi-bin/calculator.cpp:44-45 | a piece without `'='` adds nothing |
| `CalculatorCpp.PieceKeyValue` | www/site/cgi-bin/calculator.cpp:44-48 | a piece sets the text before its first `'='` to everything after it, undecoded |
| `CalculatorCpp.LastPieceWins` | www/site/cgi-bin/calculator.cpp:48 | when a key repeats, its last piece wins |
| `CalculatorCpp.ReplaceInPlace` | www/site/cgi-bin/calculator.cpp:66-73 | the in-place loop computes leftmost, non-overlapping replacement; an empty pattern leaves the text unchanged |
| `CalculatorCpp.NoRescan` | www/site/cgi-bin/calculator.cpp:69-71 | inserted text is not searched again: the pattern replaced by text holding it gives exactly that text |
| `CalculatorCpp.ReadPadded` | www/site/cgi-bin/calculator.cpp:83-88 | the input read under `POST` always has the declared length: what stdin has, then NUL bytes |
| `CalculatorCpp.InputSelection` | www/site/cgi-bin/calculator.cpp:76-96 | without `POST` (an unset method counts as `GET`) the input is `QUERY_STRING` or `""`; under `POST` it is `atoi(CONTENT_LENGTH)` bytes of stdin |
| `CalculatorCpp.ErrorCases` | www/site/cgi-bin/calculator.cpp:100-150 | a missing or unparseable weight, a missing planet or an unknown planet print only `"Error: 500\n"` |
| `CalculatorCpp.ServerReadsError` | www/site/cgi-bin/calculator.cpp:149 | the server reads that error as a `200 OK` body |
| `CalculatorCpp.MissingTemplate` | www/site/cgi-bin/calculator.cpp:125-129 | an empty template prints the `502` warning and goes on |
| `CalculatorCpp.HeadersSpliced` | www/site/cgi-bin/calculator.cpp:131-136 | the three header lines, with the literal `{len(body)}`, land where `{{FINAL_WEIGHT}}` is, not before the page |
| `CalculatorCpp.EarthWeightShowsResult` | www/site/cgi-bin/calculator.cpp:140-142 | as written, `{{EARTH_WEIGHT}}` shows the converted weight |
| `CalculatorCpp.EarthWeightShown` | www/site/cgi-bin/calculator.cpp:140-142 | corrected: `{{EARTH_WEIGHT}}` shows the weight on Earth |
| `CalculatorPy.NoParameters` | www/site/cgi-bin/calculator.py:7-14 | with neither `a` nor `b`, the answer is `"0"` with `200 OK` and length 1 |
| `CalculatorPy.PresentParameterCrashes` | www/site/cgi-bin/calculator.py:8-15 | as written: the script writes nothing exactly when `a` or `b` is present, since `int` of a list raises an uncaught `TypeError` |
| `CalculatorPy.ServerReadsAnswer` | www/site/cgi-bin/calculator.py:19-24 | every answer the script writes is read by the server as `200 OK`, `"0"` |
| `CalculatorPy.FirstValuesReadBack` | www/site/cgi-bin/calculator.py:10-24 | corrected: numbers give `200 OK` with their decimal sum, and an unparseable value gives `400 Bad Request` with the error text; the server reads both back |
| `CalculatorPy.LengthIsByteCount` | www/site/cgi-bin/calculator.py:21 | every body this script can write is ASCII, so `len(body)` is also its byte count |
| `WeightConvertPy.ReadStdin` | www/site/cgi-bin/weight_convert.py:19 | `read(n)` gives a prefix of stdin: `n` characters or all there is, everything for a negative `n` |
| `WeightConvertPy.InputSource` | www/site/cgi-bin/weight_convert.py:15-24 | an unset method counts as `GET`; under `POST` the input is a prefix of stdin (empty without `CONTENT_LENGTH`); otherwise it is `QUERY_STRING` or `""` |
| `WeightConvertPy.MissingInputs` | www/site/cgi-bin/weight_convert.py:31-37 | a missing or empty first `weight` or `planet` value writes nothing |
| `WeightConvertPy.ExceptionsSwallowed` | www/site/cgi-bin/weight_convert.py:26-63 | a `CONTENT_LENGTH` that `int` refuses, a template that cannot be opened, or a first `weight` value that `float` refuses writes nothing |
| `WeightConvertPy.SuccessFraming` | www/site/cgi-bin/weight_convert.py:54-59 | the script writes something exactly when there is a body; then the output is the framed response, and the server reads back `200 OK`, `text/html` and the body |
| `WeightConvertPy.PageShows` | www/site/cgi-bin/weight_convert.py:48-50 | a template holding one placeholder between brace-free texts becomes those texts around that placeholder's value, for each of the three placeholders |
| `WeightConvertPy.PlanetLookup` | www/site/cgi-bin/weight_convert.py:39-50 | for the planet actually read: a lower-cased name (Python's `str.lower`) missing from the table uses factor `1.0`; a template holding the name placeholder shows the lower-cased name upper-cased (`str.upper`), and one holding the weight placeholder shows the weight computed with that factor |
| `WeightConvertPy.CharCountLength` | www/site/cgi-bin/weight_convert.py:56 | as written, the announced length equals the byte count exactly when the page is ASCII |
| `WeightConvertPy.DegreeSignMiscounted` | www/site/cgi-bin/weight_convert.py:56 | a degree sign is one character but two bytes |
| `WeightConvertPy.ByteCountLength` | www/site/cgi-bin/weight_convert.py:56 | corrected: the announced length is the body's UTF-8 byte count, whatever it holds |
| `WeightConvertPhp.ErrorTaxonomy` | www/site/cgi-bin/weight_convert.php:19-46 | a missing or falsy parameter fails first, then an unknown lower-cased planet, then a missing template; otherwise there is a page |
| `WeightConvertPhp.ZeroWeightMissing` | www/site/cgi-bin/weight_convert.php:22-24 | a weight of `"0"` counts as missing |
| `WeightConvertPhp.SuccessFraming` | www/site/cgi-bin/weight_convert.php:51-55 | the page is framed with its byte count, and the server reads back `200 OK`, `text/html` and the page |
| `WeightConvertPhp.ErrorFraming` | www/site/cgi-bin/weight_convert.php:57-61 | the error has no length line; the server reads the `500` status and the `"Error: "` body, and loses the content type, which is on the last header line |
| `CgiFrame.FramedShape` | www/site/cgi-bin/calculator.py:19-23 | the first separator of a framed response comes right after the `Content-Length` line, and everything after it is the body |
| `CgiFrame.CrNotDoubledSafe` | www/site/cgi-bin/weight_convert.py:54-57 | a header block in which no `'\r'` repeats two places later holds no separator and does not end in CRLF |

## Left out

- Sockets, `poll`, `accept`, `recv` and `send` are left out. The socket and event-loop parts of `srcs/Server.cpp` (`getServerSocket`, `createServerSockets`, `run`, `handleNewClient`, the I/O in `handleClientData` and `sendResponse`), `main.cpp` and the clients are not part of this model. What `send` returns is a parameter of `Response.Response.SendToClient`.
- `fork`, `pipe`, `dup2`, `execve` and `waitpid` are left out. Whether `pipe` and `fork` succeed, and what the child writes, are parameters. The process control of `execute` in `srcs/CgiHandler.cpp` is not part of this model.
- Filesystem, clock and page cache: `resourceExists`, `getFileAsString`, `getImfFixdate`, `is_directory`, `lexically_normal`, `current_path` and the `Pages` cache are fields of `Response.World`. The script templates are parameters.
- Floating point: the gravity factors, `stod`, `round`, the `%.3f` and `number_format` renderings, and `isPositiveDoubleLiteral` are left out. The scripts get the rendered texts and whether a text parses as a number as parameters.
- `urllib.parse.parse_qs`, PHP's `$_REQUEST` and Python's `int` are left out. They are uninterpreted parameters, and no percent-decoding is modelled.
- `WeightConvertPy.PlanetLookup` takes Python's `str.lower` and `str.upper` as parameters. They follow Unicode and can change the length (`ß` upper-cased is `SS`), so the lemma does not say which text is shown, only where. The C++ and PHP code use the ASCII case mapping of `Text.Lower` and `Text.Upper`.
- `Log`, `printToken`, `printData` and the debug output of the constructors are left out, because they only print.
- The configuration parser is left out. `Parser.cpp` does not match its header, so configurations are given directly to `Server.Server.constructor`.
- `Json.GetTokenType` and `Json.CreateToken` take the empty text as `Null`. The source's depth counters are `int` and are modelled as unbounded.
- `Request.Request.constructor` does not model a `substr` past the end of a header line (`std::out_of_range`) as an exception. It sets `outOfRange` and stops parsing.
- `Request.Request.Parse` models the header loop as `Request.CollectHeaders`, which stops when the stream is spent. The loop as written never stops in that case; see Findings. Where a line without `':'` is still to come, the two agree (`Request.AsWrittenAgrees`).
- The accessors `getHost` and `getHeader` are read through `HttpTypes.RequestView`. The header and query APIs declared in `include/Request.hpp` that differ from the source are not part of this model.
- `Response.Route` does not model the route value read by `back()` when it is empty, which is undefined behaviour.
- `Response.Response.constructor` takes `getAbsPath` of an empty name to be the working directory followed by `/`.
- `Response.Response.SendToClient` returns `failed` instead of throwing, and it requires `send` to report no more bytes than remain.
- Texts are sequences of characters, and the C++ byte strings are modelled the same way. Signed `char` is assumed for `areValidChars`.
- `Server.Server.GroupConfigs` requires an empty group list, because the constructor runs it only once.
- `Server.Server.RemovePollFd` returns `i - 1`, which is -1 for `i` = 0. In the source the unsigned index wraps, and the loop's increment brings it back to 0.
- The use of an erased iterator at `srcs/Server.cpp:367` is undefined behaviour and is not modelled.
- `Server.Server.IsGroupMember` reads `ports.front()`, so every configuration is required to have a port.

## Findings

| source | as written | input that shows it | evidently intended | confidence | as-written member | corrected member |
|---|---|---|---|---|---|---|
| www/site/cgi-bin/calculator.py:12-15 | `int(params.get("a", 0))` passes the list `parse_qs` returns, and the resulting `TypeError` is not caught by `except ValueError` | `QUERY_STRING=a=1&b=2`: the script writes nothing | use the first value of each parameter, and answer 400 for values that are not numbers | high, not executed | `CalculatorPy.PresentParameterCrashes` | `CalculatorPy.FirstValuesReadBack` |
| srcs/CgiHandler.cpp:198-234 | only header lines ended by `'\n'` inside the cut-off header block are examined, so the last header line is never read | `"Status: 500 Internal Server Error\r\n\r\n"` (the fallback of `srcs/CGIHandler.cpp:42`) reads back as `200 OK` | every header line is examined | high, not executed | `CgiHandler.FallbackStatusLost` | `CgiHandler.FallbackStatusKept` |
| www/site/cgi-bin/weight_convert.py:56 | `Content-Length` is `len(body)`, a character count | a page holding `°` is announced one byte short | the UTF-8 byte count of the body, as the PHP variant sends | medium, not executed | `WeightConvertPy.DegreeSignMiscounted` | `WeightConvertPy.ByteCountLength` |
| www/site/cgi-bin/calculator.cpp:140-142 | `{{EARTH_WEIGHT}}` is filled from `result`, the converted weight | template `{{EARTH_WEIGHT}}` with weight 100 on the moon shows `16.000` | the weight on Earth | high, not executed | `CalculatorCpp.EarthWeightShowsResult` | `CalculatorCpp.EarthWeightShown` |
| srcs/Request.cpp:108-129 | the `while (true)` loop ignores a failed `getline`, which leaves `line` unchanged | `"GET / HTTP/1.1\nHost: a"` (no final newline): the `host` line is read again forever | stop when the stream is spent | high, not executed | `Request.HeaderLoopNeverStops` | `Request.CollectHeaders` |
| srcs/Utils.cpp:204-221 | only the totals of `".."` and descending parts are compared | `"a/../../b"` climbs above the root and passes | refuse a path once any prefix climbs above the root | medium, not executed | `Utils.TotalsMissEscape` | `Utils.UriEscapesRoot` |
| srcs/Request.cpp:35 | the method table holds `"DELETE "` with a trailing space, and `operator>>` never yields a word holding white space | `DELETE / HTTP/1.1` is refused, so the `DELETE` branch of the response builder is never reached | `"DELETE"` | high, not executed | `Request.OnlyGetAndPost` | `Request.DeleteAcceptedIntended` |
