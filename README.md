# Temperature ingestion gateway

A model of the temperature gateway of this repository, proved in Dafny 4.11. A sensor
(`client.py`) sends readings over CoAP PUT as a JSON document
`{"Temperature": v, "mac": generate_mac(v)}`. The tag is the hexadecimal HMAC-SHA256 of
`str(v)` under a shared secret. The gateway (`server.py`, first revision;
`server_final.py`, later revision) handles each write in these steps:

- sanitise the payload text;
- parse it as JSON;
- if the parse fails, fall back to a digit check and a `Temperature: <digits>` pattern;
- find the reading under a key-priority rule and find the tag in `mac` or `MAC`;
- verify the tag;
- only then append `{timestamp, temperature}` to `temperature_log`.

A periodic `update_plot` redraws the live chart when the log has grown since the last
successful redraw. `render_get` serves the chart, or answers 404 when the log is empty.

The module-level state of the sources (the log, the redraw counter, the moving-average
window) becomes fields of the classes `Server.Gateway`, `ServerFinal.Gateway` and
`Server.MovingWindow`. The class invariant of a gateway says two things:

- the log is exactly the sequence of values that the handler stored, over the history of
  sanitised requests;
- the redraw counter never passes the length of the log.

Every verified append therefore holds a value whose tag verified.

Modules, in dependency order:

- `Wrappers`: `Option`.
- `Text`: decimal text, Python whitespace and `strip`, ASCII lower-casing, substring test, bytes.
- `Json`: the value returned by `json.loads`. It covers dict lookup (the last pair wins), truthiness and `str()`/`repr()`.
- `Auth`: `verify_mac`.
- `Recovery`: the fallback pattern `["']?Temperature["']?\s*:\s*(\d+)`, matched case-insensitively.
- `Fields`: the key-priority lookup and the tag lookup.
- `Ingest`: responses, log entries, the object branch shared by both revisions, and the history of appended values.
- `Clean`: NUL removal and the control-character filter.
- `Refresh`: one tick of `update_plot`.
- `Server`: the first revision.
- `ServerFinal`: the later revision.
- `Client`: the sensor.
- `Compare`: the two server revisions side by side.
- `Exchange`: the client talking to the servers.

Foreign calls are parameters. `json.loads` is the constant `loads: string -> Loaded` of
a gateway. Its result is `Parsed(v)`, `DecodeError` (a `JSONDecodeError`) or `Raised`
(any other error, caught or not by the handlers as the code decides). The other errors
are the `ValueError` of an integer literal longer than the digit limit and the
`RecursionError` of a deeply nested document. The keyed hash
`hmac.new(key, msg.encode(), sha256).hexdigest()` is the parameter or constant
`h`/`hmac: (seq<byte>, string) -> string`. Timestamps, the random draw, whether a figure
exists, and whether drawing succeeds are arguments.

`int()` of a digit text refuses more than 4300 digits, the default limit of CPython 3.11
and later (`Text.MAX_STR_DIGITS`). The first revision lets that error escape from its
fallbacks. The later one answers `ERROR` for a captured group that is too long, and
`ERROR: invalid JSON` for a too-long digit string, whose error its bare `except`
swallows.

Four behaviours of the code are easy to misread. The model follows the code in each.

- **A bare `75`.** The comment at `server.py:171` says a bare number is accepted. But
  `75` is valid JSON, a number, so the digit check is never reached. The first revision
  then crashes at `"Temperature" in payload`, and the later one answers `ERROR`. The
  digit check sees only digit strings that JSON rejects, such as `007`
  (`Compare.DigitStrings`).
- **Recovery by exceptions.** The fallbacks are nested exception handlers, not functions
  that return a result. The model keeps each revision's order of checks and writes it as
  one pure function `HandlePut` per revision, with one `Response` per answer.
- **Recovered readings are not stored.** A reading found by the digit check or the
  pattern is printed and answered `OK`, but never appended to the log, in either revision.
- **Sanitisation order.** The later revision strips before it filters. A control
  character between spaces therefore leaves a leading space
  (`Compare.SanitizersDiffer`).

## Model

| member | source | states |
|---|---|---|
| Text.NatToString | server.py:31 | `str(n)` of a natural number is a canonical digit string (no leading zero) whose decimal value is `n` |
| Text.IntToString | client.py:12 | `str(n)` is non-empty, made of digits and `-`; for `n >= 0` it is the canonical digits of `n`, otherwise `-` followed by the canonical digits of `-n` |
| Text.IntToStringInjective | client.py:12 | distinct integers have distinct decimal texts, so a tag over `str(v)` is over `v` alone |
| Text.LStrip | server.py:162 | `lstrip()` removes a prefix made only of Python whitespace and stops at a non-space |
| Text.RStrip | server.py:162 | `rstrip()` removes a suffix made only of Python whitespace and stops at a non-space |
| Text.Strip | server.py:162 | `strip()` leaves no whitespace at either end, adds no character, and leaves unpadded text unchanged |
| Text.StripIsSlice | server.py:162 | `strip()` returns `s[i..j]`, where everything before `i` and from `j` on is whitespace; with the result unpadded, this determines it |
| Text.StripKeepsNonSpace | server.py:162 | every character of the text that is not whitespace survives `strip()` |
| Text.StripIdempotent | server_final.py:107-109 | the second `strip()` of the later revision changes nothing |
| Text.LowerMatchesIgnoringCase | server.py:179 | lower-casing a text gives a lower-case word exactly when the text spells the word letter by letter, each letter in either case |
| Text.ContainsWitness | server.py:199 | an occurrence of `sub` at any position makes `sub in s` true |
| Json.LastIndex | server.py:166 | the dict built by `json.loads` takes a key's value from its last pair; the index exists exactly when the key does |
| Json.Get | server.py:208 | `d.get(k)` is present exactly when `k` is a key, and is then the value of the last pair with key `k` |
| Json.Truthy | server.py:209-210 | a JSON value is falsy exactly when it is `null`, `false`, `0`, `""`, `[]` or `{}` |
| Json.PyStr | server.py:31 | `str(v)` is the text itself for a string and the decimal form for an integer |
| Auth.ExpectedMac | server.py:31 | the expected tag is the keyed digest of `str(value)`: of the decimal text for an integer, of the text itself for a string |
| Auth.OnlyExpectedTagVerifies | server.py:26-32 | `verify_mac(v, m)`, modelled by `Auth.VerifyMac`, holds exactly when `m` is the string `hexdigest(SECRET_KEY, str(v))` |
| Auth.IntegerTagIsOverDecimalText | server.py:31 | for an integer reading that string is the digest of its decimal text |
| Clean.RemoveNul | server.py:161 | `replace("\x00", "")` leaves no NUL, keeps every other character, and changes nothing when there is no NUL |
| Clean.KeepPrintable | server.py:162 | the filter keeps exactly the characters of code at least 32 and `\n\r\t`, and changes nothing on clean text |
| Clean.RemoveNulChar | server.py:161 | on one character, NUL removal drops NUL and keeps anything else |
| Clean.RemoveNulConcat | server.py:161 | NUL removal works piece by piece: the result for `a + b` is the result for `a` followed by the result for `b`, so order is kept |
| Clean.KeepPrintableChar | server.py:162 | on one character, the filter keeps it exactly when it is printable |
| Clean.KeepPrintableConcat | server.py:162 | the filter works piece by piece: the result for `a + b` is the result for `a` followed by the result for `b`, so order is kept |
| Recovery.SkipSpaces | server.py:179 | `\s*` takes the longest run of whitespace from a position |
| Recovery.SkipDigits | server.py:179 | `\d+` takes the longest run of digits from a position |
| Recovery.MatchAtIsPattern | server.py:179 | the deterministic matcher `Recovery.MatchAt` succeeds at a position exactly when the pattern, read as a language, matches there |
| Recovery.MatchAtSound | server.py:179 | a match found by the matcher is a reading of the pattern whose digit run cannot be extended, and the captured group is exactly that run |
| Recovery.MatchAtGroup | server.py:179-181 | for any reading of the pattern whose digit run is followed by a non-digit or the end, `match.group(1)` is exactly that run, as the greedy `(\d+)` takes it |
| Recovery.MatchAtComplete | server.py:179 | every reading of the pattern is found by the matcher |
| Recovery.SearchFinds | server.py:179-180 | `re.search`, modelled by `Recovery.Search`, succeeds exactly when a match starts at some position |
| Recovery.SearchReaches | server.py:179-180 | a match at `k` is found by any search starting at or before `k` |
| Recovery.SearchLeftmost | server.py:179-181 | the group `re.search` returns is that of the leftmost match |
| Recovery.FindsFieldIffPattern | server_final.py:116-117 | the pattern is found in the text exactly when it matches at some position |
| Recovery.MalformedExample | server.py:179-181 | `Temperature: 80` is recovered; the captured group is `80`, of value 80 |
| Recovery.FieldAtIgnoresCase | server.py:179 | under `re.IGNORECASE` each letter of `temperature` matches itself or its upper-case form, and nothing else |
| Recovery.DigitsHaveNoField | server.py:179 | a text made only of digits never matches the pattern |
| Fields.Dedup | server.py:198 | no key lost or added, no key twice, and keys in the order of their first occurrence |
| Fields.NamesTemperatureAnyCase | server.py:199 | a key naming `temperature` in any mixture of cases, at any position, passes `"temperature" in k.lower()` |
| Fields.FirstNamingKey | server.py:198-201 | the loop with `break` picks a key naming a temperature with none before it, or reports that none does |
| Fields.FindTemperature | server.py:192-201 | exact `Temperature` wins, then `temperature`, then the first key in document order whose lower-cased name contains `temperature`; a value is found exactly when one of these keys exists |
| Fields.DocumentOrderIsDictOrder | server.py:198 | the first naming key in `payload.keys()` order is the first in document order |
| Fields.MacPresence | server.py:208-209 | for `Fields.FindMac`, a tag is present exactly when `mac` or `MAC` holds a truthy value, and a truthy `mac` wins |
| Fields.NullCommits | server.py:192-205 | a `null` under `Temperature` is the value found, so the lookup does not fall through |
| Ingest.Body | server.py:176-225 | a crash has no reply payload; every other answer has one, which is `OK` exactly for the answer `OK` and starts with `ERROR` for every other answer |
| Ingest.BodyInjective | server.py:176-225 | distinct answers carry distinct reply payloads |
| Ingest.HandleObject | server.py:192-225 | on an object: no value or `null` gives `OK` with no append; a missing or falsy tag gives `MAC missing`; a tag that does not verify gives `invalid MAC`; only a verified value is stored |
| Ingest.WrongTagNeverStores | server.py:214-216 | any tag other than the expected digest answers `invalid MAC` and stores nothing |
| Ingest.LogStep | server.py:221 | one more request extends the log by the value it stored, if any, and by nothing else |
| Ingest.AcceptedConcat | server.py:221 | handling requests in two batches appends what handling them in one does |
| Ingest.AcceptedFromRequests | server.py:214-221 | every appended value was stored by the handling of one of the requests |
| Ingest.AllStoredAccepted | server.py:221 | when every request is stored, the log gains one value per request, in order |
| Refresh.Decide | server.py:71-100 | a redraw happens exactly when the log is non-empty, has changed, a figure exists and drawing succeeds; the tick skips as empty exactly when the log is empty |
| Refresh.NextCount | server.py:61-103 | `last_update_count` changes only on a finished redraw, and then becomes the log length |
| Refresh.CounterStaysBounded | server.py:100 | a tick keeps `last_update_count <= len(temperature_log)` |
| Refresh.RedrawOnce | server.py:75-76 | the tick after a redraw skips as unchanged |
| Server.Sanitize | server.py:161-162 | the sanitised text has no NUL and no control character but `\n\r\t`, no surrounding whitespace, and no character that was not in the payload |
| Server.SanitizeKeepsPayload | server.py:161-162 | every printable character of the payload that is not whitespace survives sanitisation |
| Server.SanitizeIdempotent | server.py:161-162 | sanitising twice equals sanitising once |
| Server.HandlePut | server.py:159-225 | non-JSON text stores nothing and answers `OK` or `invalid JSON` or crashes; a `json.loads` error other than a decoding error, and a value that is not an object, crash; an object goes through the shared object branch; whatever is stored was authenticated |
| Server.RecoveredAnswer | server.py:167-186 | non-JSON text answers `OK` exactly when it is all digits within the digit limit, or, not all digits, the pattern's group is within the limit; `invalid JSON` exactly when it is not all digits and the pattern is not found; otherwise the conversion crashes |
| Server.Gateway.constructor | server.py:18-23 | empty log, counter 0, no history, and the invariant holds |
| Server.Gateway.LogIsAuthenticated | server.py:214-221 | every log entry holds a value whose tag verified in one of the handled requests |
| Server.Gateway.Put | server.py:159-225 | the answer is the handler's and the reply payload is its `Body`; the log gains exactly the stored value at the tail, with a timestamp, and nothing else; the invariant is kept |
| Server.Gateway.UpdatePlot | server.py:61-103 | one tick takes the decision of `update_plot` and moves the counter only on a finished redraw; the invariant is kept |
| Server.Gateway.RenderGet | server.py:233-259 | code 404 with `ERROR: No temperature data available` exactly when the log is empty; otherwise the PNG with content format 50, or code 500 with `ERROR: ` and the message |
| Server.Gateway.VisualizeTemperature | server.py:121-150 | returns False exactly when the log is empty; otherwise True when drawing succeeds and raises when it fails |
| Server.LastN | server.py:15 | the last `min(n, len)` elements, in order |
| Server.LastNAppend | server.py:40 | trimming the window after each append keeps the last ten of everything appended |
| Server.MovingWindow.constructor | server.py:15 | an empty window over an empty history |
| Server.MovingWindow.MovingAverage | server.py:35-41 | the window becomes the last at most ten values appended, in order; the sum and length of the quotient are those of the window, and the length is between 1 and 10 |
| ServerFinal.Sanitize | server_final.py:107-111 | the sanitised text has no NUL and no control character but `\n\r\t`, and no character that was not in the payload |
| ServerFinal.SanitizeKeepsPayload | server_final.py:107-111 | every printable character of the payload that is not whitespace survives sanitisation |
| ServerFinal.HandlePut | server_final.py:105-176 | non-JSON text stores nothing and answers `OK`, `invalid JSON` or `ERROR`; a `json.loads` error other than a decoding error, and a value that is not an object, answer `ERROR`; an object goes through the shared branch; whatever is stored was authenticated |
| ServerFinal.RecoveredAnswer | server_final.py:113-160 | non-JSON text answers `OK` exactly when the pattern is found (tried first) and its group is within the digit limit, or, not found, the text is all digits within the limit; `ERROR` exactly when the group is too long; `invalid JSON` otherwise |
| ServerFinal.Gateway.constructor | server_final.py:13-18 | empty log, counter 0, no history, and the invariant holds |
| ServerFinal.Gateway.LogIsAuthenticated | server_final.py:162-172 | every log entry holds a value whose tag verified in one of the handled requests |
| ServerFinal.Gateway.Put | server_final.py:105-176 | the answer is the handler's and the reply payload is its `Body`; the log gains exactly the stored value at the tail and nothing else; the invariant is kept |
| ServerFinal.Gateway.UpdatePlot | server_final.py:46-84 | the counter is unchanged on every skip and on a failed draw, and becomes the log length after a finished one |
| Client.GenerateMac | client.py:11-12 | the tag is the digest the server expects for the integer reading |
| Client.Payload | client.py:17-20 | the document has exactly the keys `Temperature` and `mac`, holding the reading and its tag |
| Client.RandomTemperature | client.py:37 | every reading drawn lies in 60..100 |
| Client.RandomTemperatureCoversRange | client.py:37 | every value in 60..100 can be drawn |
| Compare.SharedSecret | client.py:8 | the client's key bytes equal the key bytes of both servers |
| Compare.NonJsonAnswersAgree | server_final.py:113-157 | on non-JSON text both revisions give the same outcome, although they try the fallbacks in opposite orders, exactly when the recovered number is within the digit limit; otherwise the first crashes and the later answers `invalid JSON` or `ERROR`, and neither stores |
| Compare.LongDigitsDisagree | server_final.py:146-156 | a non-JSON digit string longer than the digit limit crashes the first revision and gets `invalid JSON` from the later one |
| Compare.AnswersDifferOnlyOnNonObjects | server_final.py:158-160 | on a parsed value the revisions differ exactly when it is not an object; when `json.loads` raises another error the first crashes and the later answers `ERROR` |
| Compare.DigitStrings | server.py:165-176 | a canonical digit string is JSON (or too long for `json.loads`), so it crashes the first revision and gets `ERROR` from the later one; one with a leading zero gets `OK` within the digit limit and, past it, a crash from the first revision and `invalid JSON` from the later one; none is stored |
| Compare.MalformedAccepted | server_final.py:116-120 | `Temperature: 80` answers `OK` in both revisions and is not stored |
| Compare.SanitizersAgreeOnPlainText | server_final.py:107-111 | on text without control characters both sanitisations are `strip()` |
| Compare.SanitizersDiffer | server_final.py:107-111 | on ` \x01 007` the first revision gives `007` and the later one ` 007`; the later sanitisation applied twice changes the text |
| Compare.DraftSanitizeShape | server.py:161-162 | filtering first exposes the spaces around the control character to `strip()` |
| Compare.FinalSanitizeShape | server_final.py:107-111 | stripping first stops at the control character, so the space after it survives the filter |
| Compare.FinalResanitizeShape | server_final.py:107-111 | sanitising the later revision's result again removes that leading space |
| Compare.SanitizeOrderChangesAnswer | server_final.py:146-157 | the same raw bytes ` \x01 007` are accepted as a number by the first revision and answered `invalid JSON` by the later one |
| Compare.ShortTextHasNoField | server.py:179 | text shorter than the field name plus a colon and a digit never matches the pattern |
| Exchange.ClientDocumentVerifies | client.py:17-20 | the object branch stores the reading of a client document with a hexadecimal tag and answers `OK` |
| Exchange.RoundTripDraft | server.py:192-225 | the first revision answers `OK` to the client's document and stores the reading |
| Exchange.RoundTripFinal | server_final.py:125-176 | the later revision answers `OK` to the client's document and stores the reading |
| Exchange.ForgedTagRefused | server.py:214-216 | a document with any non-empty tag other than the expected digest gets `invalid MAC` from both revisions and nothing is stored |
| Exchange.PayloadTextIsClean | client.py:23 | the `json.dumps` text, `Client.PayloadText`, has no control character and no surrounding whitespace |
| Exchange.PayloadTextIsSanitized | client.py:23 | both sanitisations leave the client's text unchanged |
| Exchange.SendTemperature | client.py:15-28 | sending a reading to the later revision, which listens on the client's address, gets the reply payload `OK` and appends exactly that reading at the tail |
| Exchange.SentInRange | client.py:35-37 | every reading sent lies in 60..100 |
| Exchange.SendRandomTemperatures | client.py:34-39 | the twenty sends append exactly the twenty drawn readings, in the order sent, and keep the invariant |

## Left out

- CoAP transport (`aiocoap` contexts, sites, message binding, response codes other than those `render_get` sets). This is network I/O. In `Exchange` a send is a direct call of `Put`.
- matplotlib drawing, `init_plot`, `plot_initialized`, the PNG buffer, `plt.show` and `savefig` to `save_path`. This is a foreign library. Whether a figure exists, whether drawing succeeds, and the PNG bytes or exception message are inputs.
- The `plot_updater` and `main` event loops, and the sleeps. This is scheduling. Handlers run atomically on one event loop, so the model is sequential: one tick of `update_plot`, one write at a time.
- `json.loads` and `json.dumps` internals. `json.loads` is an oracle. `Exchange` assumes it reads back the client's document for readings 60..100 (`LoadsInvertsDumps`).
- HMAC-SHA256 internals. The keyed hash is an uninterpreted parameter. The round trip assumes it returns a 64-character lower-case hex digest (`HexTag`).
- UTF-8 decoding with `errors="ignore"`. The model starts from the decoded text: `Sanitize` takes a string.
- Floating-point JSON numbers, and the float quotient of `moving_average`. Readings are integers, and `MovingAverage` returns the sum and the count of the window.
- Non-ASCII behaviour of `str.isdigit`, `\d`, `int()`, `str.lower`, `re.IGNORECASE`, and `repr` of non-ASCII characters. All of these are ASCII in the model. Whitespace uses Python's full `isspace` set.
- Ingest.HandleObject: JSON strings with unpaired surrogate escapes such as `"\ud800"` are not represented, because a Dafny string cannot hold a lone surrogate. With such a reading, `str(value).encode()` in `verify_mac` raises `UnicodeEncodeError`. The first revision then crashes. The later one answers `ERROR` when the print at `server_final.py:137` fails on a strict UTF-8 output, and otherwise crashes in `verify_mac` outside its `try`. For the values it represents, the model answers with `OK`, `MAC missing` or `invalid MAC` only.
- Json.PyStr: states `str()` only for strings and integers. The `repr` of other values is defined but not specified further, and `repr` escapes only ASCII control characters.
- `print` logging, and the timestamps from `datetime.now().isoformat()`. A timestamp is an argument.
- Client.RandomTemperature: `random.randint` is an arbitrary integer draw reduced into 60..100. It states the range, not a uniform distribution.
- The Unicode `isdigit` case at `server.py:172-173`: a character such as `²` passes `isdigit()`, but `int()` rejects it. The model has ASCII digits only.
- `sys.set_int_max_str_digits`: the digit limit is the default 4300. A program that changes it is not modelled.
- Json.PyStr: `str()` of an integer longer than the digit limit raises in Python, but the model's `str()` always succeeds. `json.loads` never returns such an integer (it raises instead), but `loads` is a parameter that is not constrained to that.
- Python's recursion limit inside a parsed value: a document nested too deeply shows up only as `Raised` from `json.loads`.
