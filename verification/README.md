# ssm parameter access, modelled in Dafny

A model of the parameter-access core of `ssm`, a terminal client for AWS
Systems Manager Parameter Store. It covers:

- the single-key fetch with its not-found translation, `Service.Get`;
- the not-found error text, `Parameter "<key>" not found.`, where the key is in Go's `%q` form;
- the paginated list operation, `Service.List`, which joins each describe-parameters page with one batched, decrypting get-parameters call;
- the pure projections that turn results into list rows, in both list views the repository holds: `tui/parameter.go`, which lists fully fetched parameters, and `internal/parameter/parameter.go`, which lists metadata only and is the package `main.go` uses;
- the single-key fetch of `internal/parameter/parameter.go`, `ListItems.Value`, which the command line uses for a one-argument invocation.

The remote store is not modelled as a network service. It appears as oracles:

- `GetParameterCall`, a function from a key to a value or an error;
- `GetParametersCall`, a function from a name list to a response list or an error;
- the paginator, as the sequence of page results it yields, each a page or an error.

`MemoryStore` instantiates these oracles from a map. Against that store the
model proves what the integration tests check:

- a put value reads back unchanged;
- a deleted key is reported not found, naming the key;
- listing reproduces every stored key with its value, for any page size.

Files, one module each:

- `results.dfy`: `Option`, `Result`, and `Returns`, which is Go's `(T, error)` pair.
- `remote.dfy`: the store's response and error shapes, the oracle types, and the page bookkeeping (`AllFetched`, `FirstFailure`, `Entries`).
- `goquote.dfy`: Go's `%q` string quoting and an inverse that reads it back.
- `service.dfy`: `parameter/parameter.go`.
- `memory_store.dfy`: a map-backed store and the end-to-end properties.
- `titles.dfy`: the title marker that both views share.
- `tui_items.dfy`: `tui/parameter.go`.
- `list_items.dfy`: `internal/parameter/parameter.go`: list rows and `Value`.

Two quirks of the code are modelled as written:

- `List` ignores the error returned by `parametersFromPage`. A failed batched get therefore drops that page silently. When every page fetch succeeds, the list still reports no error (`Service.FailedBatchDropsPage`).
- A batched get is issued even for a page with no names (`Service.EmptyPageStillAsks`).

A page-fetch error, by contrast, aborts the list with no partial result (`Service.ListFailsFast`).

## Model

| member | source | states |
|---|---|---|
| Service.Get | parameter/parameter.go:38-55 | On success, the value the store returned and no error. On the store's not-found fault, "" and `ParameterNotFound` carrying the requested key and the original fault. On any other fault, "" and that fault unchanged. The error is nil exactly when the call succeeded. |
| Service.NotFoundMessage | parameter/parameter.go:30-32 | The message starts with `Parameter ` and ends with ` not found.`. |
| Service.ErrorMessage | parameter/parameter.go:30-32 | A not-found error reads as the not-found message for its key. A passed-through error keeps the remote error's own text. |
| Service.NotFoundMessageNamesKey | parameter/parameter.go:30-32 | The quoted part of the message reads back as exactly the requested key, so the message identifies the key. |
| Service.NotFoundMessageShowsPlainKey | parameter/parameter.go:30-32 | A key that `%q` does not escape appears verbatim between double quotes in the message. |
| Service.NotFoundMessageForFoo | parameter/parameter_test.go:53-59 | For key `foo` the message is `Parameter "foo" not found.`, the text the test looks for. |
| Service.ParametersFromPage | parameter/parameter.go:77-112 | The batched get is asked for exactly the page's names. If it fails, the result is no parameters and that error. Otherwise there is one parameter per response entry, in response order. Key, value, type and last-modified come from the response entry. The description comes from the last page entry with the same name, and is "" when that entry has no description or no entry has that name. |
| Service.List | parameter/parameter.go:57-75 | Equals the reference listing: the first page-fetch error aborts with that error and no parameters; otherwise every page's parameters, concatenated in page order, with no error. The error is set exactly when some page fetch failed. |
| Service.ListFailsFast | parameter/parameter.go:64-68 | A page-fetch error after only successful fetches is the error returned, together with an empty list. |
| Service.ListSplits | parameter/parameter.go:61-74 | Listing `a + b`, with every page of `a` fetched, gives `a`'s parameters followed by `b`'s. A failure in `b` discards `a`'s parameters too, and the result is `b`'s error. |
| Service.FailedBatchDropsPage | parameter/parameter.go:70-71 | When every page fetch succeeds and one page's batched get fails, the list has no error and is the parameters of the pages before it followed by those after it. |
| Service.EmptyPageStillAsks | parameter/parameter.go:91-99 | An empty page still issues a batched get, for the empty name list. Its outcome decides the page's error and the number of parameters it yields. |
| Service.HarvestOrigin | parameter/parameter.go:101-111 | Every gathered parameter is the join of an entry from the successful batched response of one fetched page with that page's descriptions. |
| Service.ListedParameterOrigin | parameter/parameter.go:101-111 | A listed parameter implies that every page fetch succeeded, and it comes from one page's batched response joined with that page's descriptions. |
| Remote.FirstFailure | parameter/parameter.go:64-67 | The page at which the list stops is a failed fetch, and every page before it was fetched. |
| GoQuote.Escape | parameter/parameter.go:31 | A character is written as itself exactly when it is printable and is neither `"` nor `\`. Otherwise it becomes a backslash escape of at least two characters. |
| GoQuote.Quote | parameter/parameter.go:31 | The `%q` form of a key is wrapped in double quotes. What stands between them is pinned by its round-trip partner `GoQuote.UnquoteQuote`: it reads back as exactly the key. |
| GoQuote.UnquoteQuote | parameter/parameter.go:31 | Round trip: the `%q` form of a string reads back as that string. |
| GoQuote.QuoteInjective | parameter/parameter.go:31 | Two keys have the same `%q` form exactly when they are equal. |
| GoQuote.PlainEscapesToItself | parameter/parameter.go:31 | A string made only of printable characters other than `"` and `\` is unchanged between the quotes. |
| MemoryStore.GetFromStore | parameter/parameter.go:44-54 | A stored key yields its value and no error. Any other key yields "" and the not-found marker for that key. |
| MemoryStore.PutThenGet | parameter/parameter_test.go:62-93 | A value stored under a key, of any type, reads back unchanged with no error. |
| MemoryStore.DeleteThenGet | parameter/parameter_test.go:53-60 | After deleting a key, fetching it yields "" and a not-found error whose message is the not-found message for that key. |
| MemoryStore.ListReproducesStore | parameter/parameter_test.go:96-122 | When the pages describe the store completely, the list has no error and is exactly one parameter per page entry, in page order and within-page order, each the stored parameter with that name: its value, description and type. The listed keys are exactly the stored keys. |
| MemoryStore.ListIndependentOfPageSize | parameter/parameter.go:58-74 | For any page size and any order in which the store names its keys, the list has no error and is exactly the stored parameter of each name in that order, once per occurrence. So when each key is named once, there is exactly one parameter per stored key, and the listed keys are exactly the stored keys. |
| MemoryStore.PaginateEntries | parameter/parameter.go:58-64 | Splitting the store's entries into pages of at most the page size loses, duplicates and reorders nothing. |
| Titles.MarkedTitle | internal/parameter/parameter.go:77-81 | For a SecureString the title is the lock marker followed by the key. For any other type it is the key unchanged. |
| Titles.TitleKeyRoundTrip | internal/parameter/parameter.go:77-81 | The key can be read back from a title given the parameter type. |
| Titles.TitleInjective | internal/parameter/parameter.go:77-81 | Among parameters of one type, two titles are equal exactly when the keys are. |
| TuiItems.Title | tui/parameter.go:20-26 | The row title is the marker followed by the key for a SecureString, and the bare key otherwise. |
| TuiItems.ItemAccessors | tui/parameter.go:33-35 | The filter value is the key. Description and value are the parameter's own fields, unchanged. The key can be read back from the title. |
| TuiItems.ListParameters | tui/parameter.go:37-50 | On a list error, the result is that error, which stands for the fatal exit. Otherwise there is exactly one item per listed parameter, in the same order, each wrapping that parameter. |
| ListItems.New | internal/parameter/parameter.go:64-84 | The filter value is the metadata name, and the title is the marked title. The description always ends with the last-edited text. With a metadata description, it starts with that description and a space. Without one, it is the last-edited text alone. |
| ListItems.SplitDescriptionRoundTrip | internal/parameter/parameter.go:68-75 | The row description determines the metadata description, including whether there was one. |
| ListItems.Value | internal/parameter/parameter.go:98-111 | Succeeds exactly when the remote get succeeds, with its value. Otherwise the failure, which stands for the fatal exit, is the remote error unchanged. |
| ListItems.ValueAgreesWithGet | internal/parameter/parameter.go:98-111 | `Value` succeeds exactly when `Service.Get` reports no error, with the same value. On failure its error is the remote error that `Get` translates or passes on. |
| ListItems.List | internal/parameter/parameter.go:41-62 | A page-fetch error is the failure, which stands for the fatal exit, and it is the first failed page's error. Otherwise there is one row per metadata entry across all pages, in page order and within-page order, each built by `New` from its entry. |

## Left out

- The AWS SDK calls themselves, along with the request context and credentials. Get-parameter, get-parameters and the describe-parameters paginator are oracles supplied by the caller.
- The `WithDecryption: true` flag on both get calls. Decryption happens inside the store, so the value the oracle returns is already the decrypted one.
- The paginator's `MaxResults` (10 in `parameter/parameter.go`, 50 in `internal/parameter/parameter.go`) is not a constant of the model. `MemoryStore.ListIndependentOfPageSize` holds for every positive page size.
- Nil-pointer dereferences (`*p.Name`, `*p.Value`, `*res.Parameter.Value`, `*param.LastModifiedDate`) are not modelled. Names and values are plain strings, and a panic on a missing one is outside the model.
- `ParameterItem.LastEdited` in `tui/parameter.go` is not modelled. It depends on the wall clock (`time.Since`) and on a duration formatter.
- ListItems.New: takes the styled last-edited text as an input string. The `(Modified: … ago)` wording, the duration formatting and the terminal styling are not modelled.
- GoQuote.Escape: treats every code point above U+00FF as printable and writes it unescaped. Go consults Unicode category tables and would write `\u…`/`\U…` escapes for unprintable characters there. Keys are modelled as sequences of Unicode characters, so a Go string holding invalid UTF-8, whose bytes `strconv.Quote` writes as `\xNN`, cannot be expressed. For valid text, ASCII and Latin-1 follow Go exactly.
- The `log.Fatal` paths in `internal/parameter/parameter.go` and `tui/parameter.go` appear as a `Failure` result standing for process exit. Logging itself is not modelled.
- `internal/parameter/parameter.go`'s `Peek` and `Copy` are left out. They wrap `Value` in bubbletea commands that deliver its result as a UI message.
- Left out as UI glue, OS I/O or test scaffolding: the bubbletea/lipgloss UI (`main.go`, `tui/tui.go`), key bindings and clipboard writes (`delegate.go`, `tui/keymap.go`), and the localstack test harness (`internal/testutils/testutils.go`).
