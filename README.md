# User store service: collection transforms and request log

The service keeps a list of user records in `data.json` and exposes it over
HTTP. Each handler loads the whole list and applies one transform. Each
mutating handler (create, update, delete) then writes the whole list back.
Every handler appends a line to `log.txt`. This project models the part
of that cycle that is logic rather than I/O:

- **List** (`GET /`): sends back the loaded collection unchanged.
- **Create** (`POST /`): appends the request body to the end of the collection.
- **Update** (`PUT /:id`): maps over the collection. Each record whose `id` is
  strictly equal (`===`) to `Number(id)` is shallow-merged with the body, and
  the body's fields win.
- **Delete** (`DELETE /:id`): filters out every record whose `id` is strictly
  equal to `Number(id)`.
- **writeLog**: joins its first three arguments and a timestamp with commas.
  The timestamp loses its first comma. The line ends with a newline.

Modules:

- `Wrappers` (`wrappers.dfy`): `Option`.
- `Records` (`records.dfy`): JSON values, records as `map<string, Value>`,
  strict id matching and the shallow merge.
- `UserStore` (`store.dfy`): the four transforms as functions over
  `seq<Record>`, with their properties as lemmas.
- `RequestLog` (`log.dfy`): how writeLog renders its arguments, the timestamp
  edit, the line, and a field splitter used to state that the line reads back.

The path id reaches Update and Delete as the result of `Number(id)`, an
`Option<int>` in which `None` stands for NaN. NaN equals nothing, so `None`
matches no record. A record whose `id` is not a number, for example the string
`"1"`, never matches either, because `===` does not coerce.

## Model

| member | source | states |
|---|---|---|
| `Records.IdOf` | server.js:65 | a record has a numeric id exactly when its `id` field holds a number, and the id is that number |
| `Records.Matches` | server.js:65 | `user.id === Number(id)` holds exactly when the coerced id is a number and the record's `id` field holds that same number; a NaN id or a non-numeric `id` field never matches |
| `Records.Merge` | server.js:65 | `{ ...user, ...patch }` has the union of both key sets; a key of the patch takes the patch's value, and every other key keeps the user's value |
| `Records.MergeIdempotent` | server.js:65 | merging the same patch twice equals merging it once |
| `Records.MergeKeepsId` | server.js:65 | a patch without an `id` field leaves the record's id as it was |
| `UserStore.List` | server.js:35-36 | GET / sends back the loaded collection unchanged |
| `UserStore.Create` | server.js:48 | the result is one longer, the old records are its unchanged prefix, and its last element is the submitted body |
| `UserStore.UpdateOne` | server.js:65 | the `map` callback returns a non-matching record unchanged; a matching record gets the union of both key sets, the patch's values on its keys and the old values elsewhere |
| `UserStore.Update` | server.js:64-66 | the mapped collection has the same length as the input |
| `UserStore.UpdatePointwise` | server.js:64-66 | same length and order; every matching record, not only the first, becomes its merge with the patch; every other record is unchanged at the same index |
| `UserStore.UpdateNoMatch` | server.js:64-66 | when no record matches, the collection comes back unchanged |
| `UserStore.UpdateNaN` | server.js:64-66 | a non-numeric path id (NaN) leaves the collection unchanged |
| `UserStore.UpdateIdempotent` | server.js:64-66 | repeating the same PUT yields the same collection as doing it once |
| `UserStore.UpdateKeepsIds` | server.js:64-66 | a patch without `id` keeps every record's id at its index |
| `UserStore.UpdateKeepsIdsUnique` | server.js:64-66 | such a patch keeps numeric ids unique when they were unique |
| `UserStore.Delete` | server.js:80 | the filtered collection is no longer than the input, and every survivor comes from the input and does not match |
| `UserStore.NaNMatchesNothing` | server.js:65 | with a NaN id no record matches, and the match count is zero |
| `UserStore.NoMatchIffCountZero` | server.js:80 | no record matches exactly when the match count is zero |
| `UserStore.DeleteLength` | server.js:80 | the length drops by exactly the number of matching records |
| `UserStore.DeleteKeepsOrder` | server.js:80 | the survivors are a subsequence of the input, in their original relative order |
| `UserStore.DeleteKeepsNonMatching` | server.js:80 | every record that does not match survives |
| `UserStore.DeleteNoMatch` | server.js:80 | when no record matches, the collection comes back unchanged |
| `UserStore.DeleteNaN` | server.js:80 | a non-numeric path id (NaN) leaves the collection unchanged |
| `UserStore.DeleteIdempotent` | server.js:80 | deleting the same id twice equals deleting it once |
| `UserStore.DeleteAppend` | server.js:80 | filtering a concatenation filters each part |
| `UserStore.UniqueIdsMatchAtMostOnce` | server.js:80 | when ids are unique, at most one record matches and delete removes at most one |
| `UserStore.DeleteKeepsIdsUnique` | server.js:80 | delete keeps numeric ids unique when they were unique |
| `UserStore.CreateKeepsIdsUnique` | server.js:48 | create keeps ids unique when the new record's id is not already taken |
| `UserStore.CreateAcceptsDuplicateId` | server.js:48 | create does not validate ids: posting a taken id produces two records with that id |
| `UserStore.CreateThenDelete` | server.js:48 | deleting the id of a just-created record removes it again; on a collection without that id the original collection comes back |
| `UserStore.UpdateThenDelete` | server.js:64-66 | updating and then deleting an id equals deleting it, when the patch does not change `id` |
| `UserStore.AdaScenario` | server.js:44-87 | from an empty store: create `{id: 1, name: "Ada"}`, PUT /1 `{name: "Ada L."}` gives `[{id: 1, name: "Ada L."}]`, then DELETE /1 leaves an empty list |
| `RequestLog.Decimal` | server.js:21 | a non-negative integer below 2^53, such as a status code, prints in a template literal as a non-empty string of decimal digits with no leading zero |
| `RequestLog.DecimalRoundTrip` | server.js:21 | reading those digits back gives the original number |
| `RequestLog.RenderCodeValue` | server.js:21 | an integer prints as a `-` exactly when it is negative, followed by at least one decimal digit with no leading zero, and those digits spell its magnitude |
| `RequestLog.RenderCodeIsClean` | server.js:21 | a status code's text holds no comma and no line break |
| `RequestLog.Render` | server.js:21 | a string prints as itself; an integer prints as `-` and digits, with the `-` first and present exactly when the integer is negative (its exact spelling is stated by `RenderCodeValue`); an error prints through `Error.prototype.toString`: its name, then `": "` only when name and message are both non-empty, then its message |
| `RequestLog.Field` | server.js:21 | `${logInfo[k]}` prints the k-th argument when it was passed and `"undefined"` when it was not |
| `RequestLog.StripFirstComma` | server.js:20 | `.replace(",", "")` shortens the timestamp by exactly one character when it holds a comma, and leaves its length alone otherwise |
| `RequestLog.StripFirstCommaRemovesOne` | server.js:20 | `.replace(",", "")` removes exactly one comma when there is one, and nothing else |
| `RequestLog.StripFirstCommaAt` | server.js:20 | the comma removed is the first one, and the text on both sides stays in place |
| `RequestLog.StripFirstCommaNoComma` | server.js:20 | a timestamp without a comma passes through unchanged |
| `RequestLog.StripFirstCommaLeavesNoComma` | server.js:20 | a timestamp with at most one comma comes out with none, with all its other characters |
| `RequestLog.LogLine` | server.js:21 | the log line is non-empty and ends in a newline |
| `RequestLog.LogLineUsesFirstThree` | server.js:19-21 | two argument lists that agree on their first three arguments give the same line |
| `RequestLog.LogLineFields` | server.js:19-21 | with comma-free arguments and a timestamp holding at most one comma, the line splits into the three arguments and the edited timestamp, and its only line break is the last character |
| `RequestLog.HandlerLogLineFields` | server.js:37-83 | the line a successful handler writes, `writeLog(op, verb, status)`, splits on commas into its operation, its verb, its status code and the edited timestamp, and its only line break is the last character |
| `RequestLog.StatusDigits` | server.js:21 | status codes 200, 201, 204 and 500 render as those three digits |
| `RequestLog.ReadLogLine` | server.js:37 | GET / logs `read,get,201,<timestamp>` and a newline |
| `RequestLog.CreateLogLine` | server.js:51 | POST / logs `create,post,201,<timestamp>` and a newline |
| `RequestLog.UpdateLogLine` | server.js:69 | PUT /:id logs `update,put,200,<timestamp>` and a newline |
| `RequestLog.DeleteLogLine` | server.js:83 | DELETE /:id logs `delete,delete,204,<timestamp>` and a newline |
| `RequestLog.ErrorLogLine` | server.js:39 | a failing handler logs `ERROR,500,<name>: <message>,<timestamp>` and a newline, for an error whose name and message are both non-empty |
| `RequestLog.ErrorLogLineFields` | server.js:39 | when the error's name and message hold no comma and no line break, the line a failing handler writes splits on commas into `ERROR`, `500`, the error's text and the edited timestamp, and its only line break is the last character |

## Left out

- HTTP plumbing is not modelled: Express routing, `express.json()` body parsing, `res.status(...).json(...)` and `app.listen` (server.js:1-6, 89-92). The model starts from a parsed body and a parsed path id.
- The status code each handler sends is not modelled. The read handler logs 201 (server.js:37) while its response goes out with Express's default 200. `ReadLogLine` records the logged value only.
- DELETE answers 204 with a JSON body (server.js:82). Express drops the body of a 204, but that is response plumbing and is not modelled.
- `readData`/`writeData` (server.js:10-17) are file I/O plus `JSON.parse`/`JSON.stringify`. The serialiser is not modelled, so there is no round-trip property for `data.json`.
- `fs.appendFile` and its console callback (server.js:23-29) are asynchronous I/O. The model stops at the string passed to it.
- `new Date().toLocaleString()` (server.js:20) depends on the clock and the locale, so the clock reading is a parameter of `LogLine`.
- `Number(id)` is abstract. Its result is an `Option<int>` with `None` for NaN. JavaScript's exact string rules (`""` gives 0, `"0x10"` gives 16, fractions and exponents) and floating-point ids are not modelled, and ids are integers.
- Key order inside a record is not modelled, because records are maps. JavaScript keeps insertion order, so `{ ...user, ...patch }` lists the user's keys first and then new patch keys, apart from integer-like keys (`"0"`, `"7"`), which come first in ascending order. This changes how `data.json` is printed, not what it holds.
- Collection elements that are not objects (a bare number in the array, say) are not modelled. Every element is a record.
- A `data.json` whose top level is not an array is not modelled, because the collection is a `seq<Record>`. In the source, create (server.js:48) spreads any iterable into elements: a JSON string becomes one element per character, the body is appended, and that array is written back with a 201. For any other non-array value `[...users]` throws a TypeError into the catch. `.map` and `.filter` (server.js:64, 80) throw for every non-array value.
- Decimal: the model prints every digit of any integer. JavaScript agrees only below 2^53. Above that it prints the shortest digits that round-trip the double, so `${2**64}` gives `"18446744073709552000"`. From 10^21 it uses exponent form, so `${1e21}` gives `"1e+21"`. The handlers only log the status codes 200, 201, 204 and 500.
- The `try/catch` paths (server.js:38-40, 52-54, 70-72, 84-86) only log and send no response. Only the line they log is modelled (`ErrorLogLine`). An error object renders by `Error.prototype.toString`. A thrown value that is not an `Error` is not modelled.
- The lost-update race between overlapping requests is not modelled, because it comes from concurrency. Each transform is modelled as one sequential step.
