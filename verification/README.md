# FootballClient query builder — a Dafny model

This project models the core of the Sportmonks football API client: the
`FootballClient` request builder. The builder keeps a map of query
parameters. Its constructor seeds the map with the API token and, when it is
set, the timezone. Its fluent setters (`setInclude`, `setFilters`,
`setSelect`, `setPage`, `setPerPage`) each overwrite one key. `setParam`
encodes grouped include/filter values into the API's `name:v1,v2;name2:...`
syntax. `call` sends one GET carrying the map and turns each of the four
Symfony HTTP client exception kinds into one `ApiRequestException`.

Files and modules:

- `wrappers.dfy` — `Wrappers`: `Option` and `Result`.
- `php.dfy` — `Php`: the PHP built-ins the client uses on strings. These are
  `trim()` with its default character list (space, tab, line feed, carriage
  return, NUL, vertical tab), the truthiness test of `array_filter()` and
  `empty()` (exactly `""` and `"0"` are falsy), `implode()`, and `explode()`
  as the inverse of `implode()`.
- `encoding.dfy` — `Encoding`: the list encoding
  `implode(",", array_map("trim", array_filter($values)))` (`EncodeItems`),
  the grouped encoding (`EncodeGroups`), a decoder that inverts it, and the
  properties of both.
- `client.dfy` — `FootballClient`: the query map, construction from the
  environment, the setters, chains of setters, and `call`.

The order is filter first, then trim, as the code does it (line 98 and
line 129). So `""` and `"0"` are dropped, but a whitespace-only value
survives and becomes an empty item: `["goal", " ", "card"]` encodes to
`"goal,,card"`, not `"goal,card"`. A padded zero `" 0 "` survives as the item
`"0"`. Trimming first and then dropping blank values would give `goal,card`
instead. `TrimThenDropBlanks` is that other order, and
`OrdersAgreeWhenFalsyIsBlank` / `OrdersDifferOnBlank` say exactly where the two
agree and where they differ. The rest of the model follows the code.

A grouping with no groups at all (an empty array passed to `setInclude` or
`setFilters`) is an array, not a string, so it is encoded, and the
encoding of zero groups is the empty string. `Php.Explode` (PHP's
`explode()`) and `Encoding.DecodeGroups` are not used by the client. They
are the inverses against which the encodings are checked.

The environment is a parameter: `Env` holds the two variables as
`Option<string>`. The HTTP client is a parameter of `Call`: a function from
the request to a `TransportOutcome`. That outcome is either the response
content or one of the four failure kinds, each with a message and a code.
The PHP builder mutates its map and returns `$this`; here every setter
returns the updated builder value.

## Model

| member | source | states |
|---|---|---|
| FootballClient.New | src/FootballClient.php:28-40 | Construction fails with "Invalid API Key Provided" iff the token is unset, `""` or `"0"`. On success the map has exactly the keys `api_token` and, iff the timezone variable is set (even to `""`), `timezone`, holding the given strings. |
| FootballClient.SetParam | src/FootballClient.php:88-103 | Only the named key changes. A string is stored verbatim; a grouping is stored as its encoding. All other keys keep their values. |
| FootballClient.SetInclude | src/FootballClient.php:70-72 | Overwrites only `include`, with setParam's value. The API token stays valid. |
| FootballClient.SetFilters | src/FootballClient.php:78-81 | Overwrites only `filters`, with setParam's value. The API token stays valid. |
| FootballClient.SetSelect | src/FootballClient.php:127-131 | Overwrites only `select`, with the filtered, trimmed, comma-joined fields. |
| FootballClient.SetPage | src/FootballClient.php:109-112 | Overwrites only `page`, with the int as given (no range check). |
| FootballClient.SetPerPage | src/FootballClient.php:118-121 | Overwrites only `per_page`, with the int as given (no range check). |
| FootballClient.Apply | src/FootballClient.php:70-131 | Every public setter writes exactly one key and keeps the token valid. |
| FootballClient.Chain | src/FootballClient.php:70-131 | A chain of setters never removes a key: the keys afterwards are the keys before plus the keys some setter in the chain writes. |
| FootballClient.ChainLastWriteWins | src/FootballClient.php:88-131 | After any chain of setters, a key holds what the last setter writing it wrote. A key that no setter writes keeps its earlier value. No key is merged. |
| FootballClient.ChainKeepsValid | src/FootballClient.php:30-35 | No chain of public setters removes or changes the validated API token. |
| FootballClient.SameKeyOverwrites | src/FootballClient.php:101 | A setter called twice keeps only the second value, e.g. include "a" then "b" gives "b". |
| FootballClient.DistinctKeysCommute | src/FootballClient.php:88-131 | Setters on different keys can be called in either order and leave the same parameters. |
| FootballClient.Normalize | src/FootballClient.php:55-63 | Success iff the transport returned content, and then the content itself. Each of the four failure kinds becomes an ApiRequestException with the original message and code. |
| FootballClient.Call | src/FootballClient.php:51-64 | Sends exactly one GET to the base URI and path, carrying the current query map unchanged. It returns the content or throws the normalised exception, keeping the message and code. |
| FootballClient.FailureKindForgotten | src/FootballClient.php:55-63 | Two failures of any kinds with the same message and code produce the same exception. |
| FootballClient.ChainThenCall | src/FootballClient.php:53 | setPage(2), then setPerPage(25), then setInclude("events"), then call("fixtures") sends page 2, per_page 25, include "events" and the original token. |
| Encoding.Items | src/FootballClient.php:98 | array_filter, then trim on each survivor. There are never more items than values. ItemsMembers, ItemsAppend and ItemsOfOne characterise the items exactly. |
| Encoding.EncodeItems | src/FootballClient.php:129 | The comma-joined items. The result is empty iff there are no items or the only item is empty. |
| Encoding.Segment | src/FootballClient.php:98 | A group's segment is longer than its name. Cutting it at its first `:` gives back the name and the encoded items whenever the name has no `:`. |
| Encoding.EncodeGroups | src/FootballClient.php:101 | The `;`-joined segments. The result is empty iff there are no groups, because every group contributes at least `name:`. |
| Encoding.EncodeGroupsByLoop | src/FootballClient.php:95-101 | The foreach that appends one segment per group, followed by the `;`-join, computes the grouped encoding. |
| Encoding.ItemsMembers | src/FootballClient.php:98 | A string is an item iff it is the trim of some value that is neither `""` nor `"0"`. |
| Encoding.ItemsAppend | src/FootballClient.php:98 | Items are computed value by value, so surviving values keep their relative order. |
| Encoding.ItemsOfOne | src/FootballClient.php:98 | A falsy value contributes no item. Any other value contributes its trim. |
| Encoding.BlankIff | src/FootballClient.php:98 | A single value yields the empty item iff it is non-empty and consists of strippable characters only. |
| Encoding.EmptyItemIff | src/FootballClient.php:98 | An empty item appears iff some non-empty value is whitespace only, because filtering happens before trimming. |
| Encoding.BlankValueKeepsEmptyItem | src/FootballClient.php:98 | A whitespace-only value between two plain values gives an empty item: `a,,b`. |
| Encoding.EmptyDroppedPaddingTrimmed | src/FootballClient.php:129 | `[a, "", " b "]` encodes to `a,b`. |
| Encoding.ZeroDropped | src/FootballClient.php:98 | A `"0"` value anywhere in the list is dropped: the items and the encoding are those of the list without it. |
| Encoding.ItemsDropMiddle | src/FootballClient.php:98 | Values that contribute no items can be removed from any position without changing the items. |
| Encoding.ItemsOfPadded | src/FootballClient.php:98 | A value with nothing to strip, padded by one space on each side, survives and trims back to itself. |
| Encoding.PaddedZeroKept | src/FootballClient.php:98 | `" 0 "` survives the filter and becomes the item `"0"`. |
| Encoding.OrdersAgreeWhenFalsyIsBlank | src/FootballClient.php:98 | When every value is falsy exactly when it trims to `""`, filter-then-trim and trim-then-drop-blanks give the same items. |
| Encoding.OrdersDifferOnBlank | src/FootballClient.php:98 | On `[" "]` the code keeps one empty item, while trim-then-drop-blanks keeps none. |
| Encoding.SingleGroup | src/FootballClient.php:98 | A single group encodes to its name, a colon, and the same string setSelect stores for its values. |
| Encoding.NoSurvivorsSegment | src/FootballClient.php:98 | A group all of whose values are `""` or `"0"` (or that has none) contributes exactly `name:`. |
| Encoding.EmptyGroupKept | src/FootballClient.php:97-101 | An instance of the above inside a grouping: `{a: [x], b: []}` encodes to `a:x;b:`. |
| Encoding.SegmentStructure | src/FootballClient.php:97-101 | Assume there is at least one group and no name or value contains `;`. Then splitting at `;` gives one segment per group, in caller order. Segment i is group i's name, `:`, and its items. |
| Encoding.EncodeItemsRoundTrip | src/FootballClient.php:98 | Splitting the comma-joined items at `,` gives back exactly the items. This needs values without `,`, and items other than the single empty item. |
| Encoding.DecodeEncode | src/FootballClient.php:95-101 | Decoding the grouped encoding gives back every group in order, with its name and surviving items. This needs names without `:`/`;`, values without `,`/`;`, and no group whose only item is empty. |
| Php.Trim | src/FootballClient.php:98 | trim never lengthens its input. TrimShape, TrimIdempotent and TrimUnchanged characterise the result. |
| Php.TrimUnchanged | src/FootballClient.php:98 | A string with no strippable character at either end is its own trim. |
| Php.TrimPadded | src/FootballClient.php:98 | One space added on each side of such a string is trimmed away again. |
| Php.TrimShape | src/FootballClient.php:98 | trim's result lies inside its input with only strippable characters around it. It has none at its own ends, and it is empty iff the input is all strippable. |
| Php.TrimIdempotent | src/FootballClient.php:98 | Trimming twice is trimming once. |
| Php.TrimIntroducesNothing | src/FootballClient.php:98 | trim never introduces a character. |
| Php.FilterTruthy | src/FootballClient.php:98 | array_filter never lengthens the list, and every survivor is neither `""` nor `"0"`. |
| Php.FilterTruthyNone | src/FootballClient.php:98 | A list of only `""` and `"0"` values filters to nothing. |
| Php.FilterTruthyMembers | src/FootballClient.php:98 | array_filter keeps exactly the values other than `""` and `"0"`. |
| Php.FilterTruthyAppend | src/FootballClient.php:98 | array_filter distributes over concatenation, so it preserves order. |
| Php.MapTrim | src/FootballClient.php:98 | array_map("trim") keeps the length, and element k is the trim of value k. |
| Php.MapTrimAppend | src/FootballClient.php:98 | array_map("trim") distributes over concatenation. |
| Php.Implode | src/FootballClient.php:101 | implode's result starts with the first piece. With a non-empty separator it is empty iff there are no pieces or the single piece is empty. |
| Php.Explode | src/FootballClient.php:101 | explode gives at least one piece, no piece contains the separator, and imploding the pieces gives back the input. |
| Php.ExplodeImplode | src/FootballClient.php:101 | implode followed by explode returns the pieces, given at least one piece and no piece containing the separator. |

## Left out

- The Symfony HttpClient and the network request. `Call` takes the transport as a function argument. It does not model TLS, redirects or timeouts.
- FootballClient.Call: returns the response content string and does not model `json_decode` of it. The decoded value's shape is not modelled.
- Exceptions outside the four caught kinds propagate from `call` unchanged in PHP. The outcome type has no constructor for them.
- Base-URI resolution (`baseUri` plus the relative path) is done by the HTTP library. `Request` records both parts without combining them.
- Reading `$_ENV` directly. The constructor takes an `Env` record. The HTTP client the constructor creates is not modelled.
- PHP runtime errors for malformed input are not modelled. Examples are a grouped value whose entries are not arrays, or array elements that are not strings. Group values are `seq<string>` and groupings are `seq<Group>`.
- PHP array keys are unique and numeric-string keys become ints. The model takes groups as a sequence of name/value pairs: duplicate names are allowed, and a name is concatenated exactly as given, as PHP's string cast of such a key would be.
- The identity of the builder object: the PHP setters return `$this` after mutating it. The model returns the updated builder value.
- Concurrency: there is none in the code.
- The order of the query parameters. A PHP array is ordered: a new key goes at the end and an overwritten key keeps its position. Symfony sends the parameters in that order. The model's query is an unordered `map`, so DistinctKeysCommute states that both orders leave the same parameters, not the same URL.
- Bytes. PHP strings are byte strings, and the model's strings are sequences of Unicode characters. `trim`, `explode` and `implode` here only look at ASCII characters, so they behave the same on both. Byte strings that are not valid UTF-8 cannot be represented.
