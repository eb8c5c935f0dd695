# A verified model of the temp-fe request and response helpers

temp-fe is a small Flask front end for a market-data API. Almost all of it
is routing glue. This project models its few pure pieces in Dafny and proves
properties about them:

- **Truth-value parsing.** There are two `str_to_bool` functions:
  - the case-insensitive validator in `utils/helpers.py` (module `Helpers`);
  - the exact-`"True"` check in `app.py` (module `App`).

  The model proves how each one behaves, and for every input whether the two give the same answer.
- **The `/scan` request body.** `scan` in `app.py` builds this body from the
  submitted form (`App.BuildScanPayload`). The model covers which fields must
  parse as integers and the order in which a bad field is reported. It also
  covers how the check-box fields become booleans, the one-element `filters`
  list and the JSON object that is sent. `filters` is always wrapped in a
  one-element list: `-1` has no special meaning (`App.NoFilterSentinel`).
- **Security headers** (`utils/security.py`, module `Security`):
  - serialising the Content-Security-Policy from an ordered directive→sources
    policy, together with a parser that recovers the policy;
  - overwriting the ten fixed response headers;
  - the bypass switch of `return_safe_html`.
- **Result reshaping.** `routes/wow.py` turns an id→name object into
  `{id, name}` rows (module `Wow`). `routes/ffxiv.py` joins a list of item ids
  against a names table keyed by each id's decimal text (module `Ffxiv`). Both
  feed a table with the columns `["id", "name"]` (module `Tables`).

Shared modules:

- `Wrappers` holds `Option` and `Result`.
- `Text` holds ASCII lower-casing, `join`/`split`, and decimal printing and
  parsing of integers.
- `Assoc` holds ordered name/value lists.
- `Json` holds JSON values.

The model stands in for the program's side effects as follows:

- A submitted form is a `map<string, string>`.
- The data fetched from the network is passed in as parameters: the
  upstream JSON replies, the names table and the id list.
- The `NO_RATE_LIMIT` environment value is the parameter `env`.
- The lxml re-serialisation is a function parameter.

`Security.AddSecurityHeaders` takes the CSP policy as a parameter. The source
always uses the fixed policy `Security.CspPolicy()`. This keeps the allow-list
as data and lets the proofs cover every policy.

## Model

| member | source | states |
|---|---|---|
| Helpers.StrToBool | utils/helpers.py:1-16 | The result is true exactly when the lower-cased input is one of y, yes, t, true, on, 1. It is false exactly when the lower-cased input is one of n, no, f, false, off, 0. Any other input raises a ValueError that carries the lower-cased text. Both directions are proved. |
| Helpers.Message | utils/helpers.py:16 | The message is the fixed prefix "Invalid truth value: '", the lower-cased text, then a closing quote. |
| Helpers.MessageInjective | utils/helpers.py:16 | Different errors have different messages, so the message identifies the rejected text. |
| Helpers.WordSetsDisjoint | utils/helpers.py:11-14 | No spelling is in both the true set and the false set. |
| Helpers.CaseInsensitive | utils/helpers.py:10 | `str_to_bool(s)` equals `str_to_bool(s.lower())` for every `s`, including the error raised. |
| Helpers.EmptyRejected | utils/helpers.py:10-16 | The empty string raises ValueError, and the message is "Invalid truth value: ''". |
| Helpers.MixedCaseAccepted | utils/helpers.py:8-14 | "YES" and "True" parse as true; "Off" and "FALSE" parse as false. |
| App.Get | app.py:33-43 | `request.form.get(name)` is None exactly when the field is absent, and otherwise the submitted text. |
| App.StrToBool | app.py:9-13 | The result is true exactly when the value is the literal "True". An absent field (None) gives false. The function never fails. |
| App.ExactAgreesWithLenient | app.py:9-13 | When app.py's parser says true, the helpers parser also says true. |
| App.ParsersAgreeExactly | app.py:9-13 | For every text, the two parsers give the same answer exactly when the text is "True" or lower-cases to one of the false spellings. Other true spellings and texts the helpers parser rejects are all false for app.py's parser. |
| App.ParsersDisagree | app.py:10 | "true", "TRUE", "1" and "yes" are false for app.py's parser but true for the helpers parser. |
| App.IntField | app.py:49-54 | `int(form.get(name))` succeeds exactly when the field is present and numeric, and then gives the parsed value. An absent field raises the TypeError case and non-numeric text raises the ValueError case, which carries the raw text. |
| App.IntFields | app.py:44-54 | Converting several fields in order succeeds exactly when all of them parse, and the values line up with the names. On failure, the error is the one raised by the first field that fails. |
| App.BuildScanPayload | app.py:33-62 | Succeeds exactly when filters, roi, profit_amt, min_desired_avg_ppu, stack_size, scan_hours and sale_amt all parse. On failure it reports the first failing field in evaluation order, filters first. On success each integer field equals its parsed form value, `filters` is the one-element list of the parsed value, and each flag is true exactly when its form field is "True". `home_server` is passed through and `universalis_list_uid` is "". |
| App.AbsentBooleansAreFalse | app.py:38-60 | When hq_only, game_wide, include_vendor and out_stock are all absent, hq, region_wide, include_vendor and show_out_stock are all false. |
| App.NoFilterSentinel | app.py:44 | A `filters` value of "-1" gives the list [-1]. It is not treated as "no filter". |
| App.PayloadJson | app.py:48-62 | The JSON body is an object whose member names are the thirteen keys of the dictionary literal, in its order. |
| App.PayloadJsonKeys | app.py:48-62 | No member name of the JSON body repeats. |
| App.PayloadJsonRoundTrip | app.py:48-62 | Reading the JSON body back gives the payload that was encoded, so every field is sent. |
| App.ScanFieldnames | app.py:88-104 | The column list has 15 pairwise-distinct names, including ROI, item_id and real_name. |
| Text.Lower | utils/helpers.py:10 | The result has the input's length and no upper-case ASCII letter. Every other character is unchanged, and each upper-case letter becomes its lower-case letter. |
| Text.ParseInt | app.py:49-54 | `int(text)` succeeds exactly on an optional sign followed by at least one digit. A leading `-` gives a value of at most 0, and otherwise the value is at least 0. |
| Text.IntToDecimal | routes/ffxiv.py:27 | `str(n)` is non-empty and starts with `-` exactly when `n` is negative. |
| Text.Join | utils/security.py:52-53 | `sep.join(xs)` of no pieces is empty. Otherwise its length is the pieces' total length plus one separator between each pair of neighbours. |
| Text.ParseIntDigits | app.py:49-54 | `int()` of unsigned decimal digits is the number they denote. |
| Text.ParseIntLeadingZero | app.py:49-54 | Leading zeros do not change the value `int()` gives, so "007" is 7. |
| Text.ParseIntSigned | app.py:49-54 | A `+` sign does not change the value and a `-` sign negates it, so "+7" is 7 and "-0" is 0. With `Text.ParseIntDecimal`, this fixes the value of every accepted text. |
| Text.ParseIntDecimal | routes/ffxiv.py:27 | Parsing `str(n)` with `int()` gives back `n` for every integer `n`, negative ones included. Python's 4300-digit limit on conversions is not modelled. |
| Text.DecimalInjective | routes/ffxiv.py:27 | Distinct integers have distinct decimal strings. |
| Text.SplitJoin | utils/security.py:52-54 | Splitting `sep.join(xs)` on `sep` gives back `xs`, provided `sep` is non-empty, `xs` is non-empty and no piece contains the first character of `sep`. |
| Security.CspPolicy | utils/security.py:10-51 | The fixed policy has seven directives under distinct names, as dictionary keys must be. |
| Security.FixedPolicyWellFormed | utils/security.py:10-51 | No directive name or source of the fixed policy contains a space or `;`, and every directive has at least one source. |
| Security.RenderDirective | utils/security.py:53 | A rendered directive starts with its name followed by one space. |
| Security.SerializeCsp | utils/security.py:52-54 | The header value is empty exactly when the policy is. Otherwise it starts with the first rendered directive. |
| Security.Rendered | utils/security.py:53 | There is one rendered directive per policy entry, in policy order. |
| Security.ParseRenderDirective | utils/security.py:53 | A directive rendered as name, space and space-joined sources parses back to the same directive when it has at least one source and neither name nor sources contain a space or `;`. |
| Security.CspPieces | utils/security.py:52-54 | For a well-formed policy (at least one directive, each with a source, no space or `;` in any name or source), cutting the header value at each "; " gives the rendered directives, one piece each, in policy order. |
| Security.CspRoundTrip | utils/security.py:52-54 | When the policy has at least one directive, no name or source contains a space or `;` and every directive has a source, parsing the header value gives back the original ordered policy. |
| Security.CspSeparators | utils/security.py:52-54 | For a well-formed policy of n directives, the header value has exactly n-1 `;` characters. It ends with the last directive, so its last character is not `;`. |
| Security.FixedPolicyHeader | utils/security.py:10-55 | The header value the program actually sends reads back to the fixed policy and contains exactly six `;` characters. |
| Security.CspHeaderOrder | utils/security.py:10-54 | The fixed policy's header value starts with the `default-src` directive followed by "; " and ends with the `frame-src` directive. |
| Security.SecurityHeaderValues | utils/security.py:55-76 | There is one value per security header name, and the first (Content-Security-Policy) is the serialised policy. |
| Security.HeaderAssignments | utils/security.py:55-76 | The assignments set exactly the ten security header names, in program order. |
| Security.SetHeaders | utils/security.py:55-76 | After a sequence of `headers[name] = value` assignments, a name is present exactly when it was present before or was assigned. Its value is the last one assigned, or the old value if it was never assigned. |
| Security.SetHeadersDistinct | utils/security.py:55-76 | When no name is assigned twice, each assigned name ends up holding exactly the value assigned to it. |
| Security.SetHeadersIdempotent | utils/security.py:55-76 | Performing the same assignments twice gives the same header map as performing them once. |
| Security.AddSecurityHeaders | utils/security.py:9-77 | Afterwards each of the ten named headers holds its fixed value, with the CSP header holding the serialised policy. The header names are the old names plus the ten. Status, body and every other header are unchanged. |
| Security.CspHeaderValue | utils/security.py:52-55 | After the headers are added, Content-Security-Policy holds the serialised policy. |
| Security.NamedHeaderValues | utils/security.py:58-66 | After the headers are added, whatever the response held before, X-Frame-Options holds "same-origin", X-Content-Type-Options holds "nosniff" and X-XSS-Protection holds "0". |
| Security.AddSecurityHeadersIdempotent | utils/security.py:55-77 | Adding the security headers twice gives the same response as adding them once. |
| Security.BypassActive | utils/security.py:5 | The bypass flag is on exactly when the environment variable is set to a non-empty string. |
| Security.BypassOnForFalseLikeText | utils/security.py:5 | "False" and "0" turn the bypass on. An unset variable or an empty one leaves it off. |
| Security.ReturnSafeHtml | utils/security.py:81-88 | With the bypass on, the input is returned unchanged. Otherwise the result is the parser's re-serialisation of the input. |
| Wow.ItemNames | routes/wow.py:28 | For a decoded reply dictionary (no repeated key), there is one row per member of the reply, in the reply's order. Row i has the member's key as its id and the member's value as its name. |
| Wow.ItemNamesRoundTrip | routes/wow.py:28 | The reply object, member order included, can be rebuilt from the rows, so nothing is dropped, duplicated or reordered. |
| Wow.ItemNamesDistinctIds | routes/wow.py:28 | When the reply has no repeated keys, as a decoded dictionary never does, the row ids are pairwise distinct. |
| Wow.ItemNamesEmpty | routes/wow.py:28 | An empty reply gives an empty list. |
| Tables.Columns | routes/ffxiv.py:34 | The table has two distinct columns. |
| Tables.RowObject | routes/wow.py:28 | A row is a JSON object with no repeated member name. |
| Tables.RowMatchesColumns | routes/wow.py:28-32 | Every row's keys are exactly the columns ["id", "name"], in order, and looking up each column gives the row's id and name. |
| Ffxiv.EnglishMember | routes/ffxiv.py:27 | `entry["en"]` succeeds exactly when the entry is an object with an "en" member. |
| Ffxiv.EnglishMemberFinds | routes/ffxiv.py:27 | In an entry with no repeated member name, `entry["en"]` is the value stored under "en". |
| Ffxiv.EnglishName | routes/ffxiv.py:27 | The lookup succeeds exactly when the decimal text of the id is a key of the table and its entry is an object with an "en" member. It then gives that member. Otherwise it fails, naming the key, and reports ItemMissing exactly when the key is absent. |
| Ffxiv.ItemNameRows | routes/ffxiv.py:26-28 | Succeeds exactly when every id's lookup succeeds. On success the list has the same length as the id list, and row i has id `item_ids[i]` and the "en" name of the entry for `str(item_ids[i])`. Equal ids give equal rows, so duplicates are kept. On failure the error is the first failing lookup's, and no row is skipped. |
| Ffxiv.DistinctIdsDistinctKeys | routes/ffxiv.py:27 | Distinct ids are looked up under distinct keys. |

## Left out

- The non-bypass branch of `return_safe_html` (utils/security.py:85-88) calls lxml's `html.fromstring` and `html.tostring`. That library is foreign code, so it is a function parameter here. The model also treats its result as a string, although lxml returns bytes.
- HTTP calls are not modelled. This covers every `requests.get`/`requests.post` and the `.json()` decoding (app.py:79, routes/wow.py:22-26, routes/ffxiv.py:21-24). Their results are parameters. The `/scan` reply and the rows rendered from it are not modelled; the table's column list is (`App.ScanFieldnames`).
- Flask plumbing is not modelled: route decorators, `render_template`, `send_from_directory`, `redirect` and the request object. A form is a map holding each field's first value.
- routes/general.py is left out. It only renders templates, serves a static file and reads a file from disk.
- Reading the environment (utils/security.py:5, routes/wow.py:6, routes/ffxiv.py:6) is not modelled. The bypass flag is the parameter `env`, and the API base URL is only used by the HTTP calls.
- Two route-level defects are not modelled. routes/ffxiv.py:48 uses `redirect` without importing it. The POST branch of `uploadtimers` (app.py:23-24) returns nothing.
- `print` debugging (app.py:78, app.py:81) and the `app.run` entry point are not modelled.
- Text.ParseInt: accepts only an optional `+` or `-` sign followed by ASCII digits. Python's `int()` also strips surrounding whitespace and accepts underscores between digits and non-ASCII decimal digits. Those inputs are errors here. In the other direction, Python (3.11 onwards, and the 3.7-3.10 security releases) raises ValueError for text with more than 4300 digits. The model accepts any length, so `App.IntField` succeeds on such input.
- Text.IntToDecimal: has no digit limit. Python's `str(n)` raises ValueError when `n` has more than 4300 digits, so `Text.ParseIntDecimal` and the ffxiv lookup key hold here for integers Python would refuse to convert.
- Helpers.StrToBool: lower-cases ASCII letters only, where Python's `str.lower` covers Unicode. Accept and reject decisions are the same either way, because no non-ASCII character lower-cases to a string in either word set. Only the text inside the error can differ for non-ASCII input.
- Security.AddSecurityHeaders: matches header names by exact text. Werkzeug's header collection matches names case-insensitively and can hold repeated names, which an assignment replaces.
- Ffxiv.EnglishName: models the names table as a map, because only lookups are performed on it. A table entry that is not an object counts as lacking "en". In Python that case raises TypeError rather than KeyError, and the model does not distinguish the two.
