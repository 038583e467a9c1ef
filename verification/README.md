# scrapple scraper core, modelled in Dafny

This project models the scraping core of scrapple (`internal/scrap/scrap.go`). The model covers two functions:

- `scrapSingle` handles one (locale, category) task. It builds the refurbished-store URL, fetches the page through an injected getter and finds the `window.REFURB_GRID_BOOTSTRAP = …;` blob with a regular expression. It then decodes the blob's `tiles` and maps each tile to a `Product`.
- `Scrap` runs one such task per pair in the cartesian product of locales and categories. It appends every task's products to one list under a lock.

The Dafny modules follow that structure:

- `Wrappers`: `Option` and `Result`.
- `Strings`: Go's `strings.Split` / `strings.Join` for a one-character separator, and `Split(s, sep)[0]` as `FirstField`.
- `Bootstrap`: the regular expression `window\.REFURB_GRID_BOOTSTRAP = (\n|.+);` under RE2's leftmost-first semantics.
  - `MatchesAt` and `IsLeftmostFirst` are a declarative reference: every match the expression admits, and the one RE2 reports.
  - `FindSubmatch` scans for that match, and its contract ties it to the reference in both directions.
- `Products`: the decoded tile shape (`jsonProducts`), `Product`, query-string stripping and the tile-to-product mapping.
- `Merge`: generic flattening and the multiset facts behind an order-independent merge.
- `Scrap`: errors, the `Scraper` with its two collaborators, `TaskUrl`, `ScrapSingle`, the task list, and the `Scrap` method.
  - The order in which goroutines take the lock is a parameter `schedule`: any reordering of the task list.
  - The merge lemmas hold for any per-task function `Work` (task to products and error). They take as hypotheses the two facts `scrapSingle` guarantees: its products carry the task, and an error comes with no products. `ScrapWork(s)` is `scrapSingle` of a given scraper.

The page getter and `json.Unmarshal` are not modelled as code. They are the two function-valued fields of `Scraper`:

- `getter: string -> Result<seq<byte>, GetError>`
- `decoder: string -> Result<seq<Tile>, DecodeError>`

The page body is turned into text one character per byte (`string(body)`). The expression's literals (the marker, `;`, newline) are ASCII, so match positions and captured bytes are the same as RE2 matching over UTF-8.

What `scrap.go` does at the matching and mapping steps:

- Matching runs on the raw body; no whitespace is removed first (scrap.go:110).
- The capture is handed to `json.Unmarshal` unchanged; no `}` is appended (scrap.go:118).
- The matcher is greedy `.+` up to the last `;` on the marker's line, with an alternative that captures a single newline (scrap.go:109).
- `name` is the tile's `title` (scrap.go:130).

Details of the code as written:

- The guard `len(matches) < 2` (scrap.go:112) can never fire on a non-nil match, because the expression has exactly one group. A `Match` therefore always carries its capture.
- `Scrap` appends a task's product list even when that task returned an error. The list is then empty, and `ScrapSingle`'s contract proves this.

## Model

| member | source | states |
|---|---|---|
| `Strings.Split` | internal/scrap/scrap.go:133-134 | `strings.Split` on a one-character separator returns at least one field, and no field contains the separator |
| `Strings.JoinSplit` | internal/scrap/scrap.go:133-134 | joining the fields of `Split` with the separator gives back the original string |
| `Strings.SplitJoin` | internal/scrap/scrap.go:133-134 | splitting a join of separator-free fields gives back those fields (the inverse direction) |
| `Strings.FirstField` | internal/scrap/scrap.go:133-134 | `Split(s, sep)[0]` is a prefix of `s` with no separator, followed in `s` by the separator unless it is all of `s`, and equals `s` when `s` has no separator |
| `Strings.FirstFieldUnique` | internal/scrap/scrap.go:133-134 | those three properties determine the first field uniquely |
| `Strings.FirstFieldIdempotent` | internal/scrap/scrap.go:133-134 | taking the first field twice equals taking it once |
| `Products.StripQuery` | internal/scrap/scrap.go:133-134 | a stripped URL is a prefix of the source URL, has no `?`, stops exactly at the first `?`, and is the source unchanged when it has no `?` |
| `Products.StripQueryIdempotent` | internal/scrap/scrap.go:133-134 | stripping the query string is idempotent |
| `Products.ToProducts` | internal/scrap/scrap.go:122-138 | one product per tile, each tagged with the task's locale and category, with no `?` in either URL |
| `Products.ToProduct` | internal/scrap/scrap.go:125-137 | the product holds every field of its tile, the two URLs up to their query strings, plus the task's locale and category |
| `Products.ProductRoundTrip` | internal/scrap/scrap.go:125-137 | every tile field lands in its own product field: reading the tile back from the product recovers it up to query strings, and recovers it exactly when neither URL has a query |
| `Bootstrap.BodyText` | internal/scrap/scrap.go:110 | the body text has one character per byte, and every character is byte-valued |
| `Bootstrap.TextBytes` | internal/scrap/scrap.go:118 | `[]byte` of byte-valued text has one byte per character |
| `Bootstrap.BodyTextRoundTrip` | internal/scrap/scrap.go:110-118 | `string(body)` and `[]byte(…)` are inverse: bytes to text and back is the identity, and so is byte-valued text to bytes and back |
| `Bootstrap.LineEnd` | internal/scrap/scrap.go:109 | the first newline at or after a position, or the end of the text: where `.` stops matching |
| `Bootstrap.LastSemicolon` | internal/scrap/scrap.go:109 | the last `;` in a range, or none in the range |
| `Bootstrap.TailCapture` | internal/scrap/scrap.go:109 | `(\n|.+);` matches at a position exactly when this returns a group, and the group returned is the one tried first: `\n` before `.+`, and `.+` longest first |
| `Bootstrap.FindFrom` | internal/scrap/scrap.go:109-110 | the first position at or after `p` where the expression matches, with its preferred group; none means no match at or after `p` |
| `Bootstrap.FindSubmatch` | internal/scrap/scrap.go:109-114 | `FindStringSubmatch` returns the leftmost-first match, and returns nil exactly when the expression matches nowhere |
| `Bootstrap.LeftmostFirstUnique` | internal/scrap/scrap.go:109-110 | leftmost-first semantics admits only one reported match |
| `Bootstrap.CaptureShape` | internal/scrap/scrap.go:109-116 | the capture follows the marker and precedes a `;`; it is either a single newline, or a non-empty newline-free run ending at the last `;` of the marker's line |
| `Bootstrap.ExtractBootstrap` | internal/scrap/scrap.go:109-116 | the extraction stage yields a capture exactly when the expression matches somewhere, and that capture belongs to the leftmost-first match |
| `Scrap.TaskUrl` | internal/scrap/scrap.go:102 | the URL starts with `https://www.apple.com/`, and for a locale without `/` the locale and category can be parsed back from it |
| `Scrap.TaskUrlRoundTrip` | internal/scrap/scrap.go:102 | the URL `https://www.apple.com/<locale>/shop/refurbished/<category>` gives back its locale and category for a locale without `/` |
| `Scrap.TaskUrlInjective` | internal/scrap/scrap.go:102 | distinct tasks over locales without `/` fetch distinct URLs |
| `Scrap.ScrapSingle` | internal/scrap/scrap.go:101-145 | an error always comes with no products; the fetch error occurs exactly when the getter fails on the task URL and names that URL; `ErrCannotMatchRegex` occurs exactly when the fetched body has no match; every product carries the task's locale and category |
| `Scrap.FetchFailureShortCircuits` | internal/scrap/scrap.go:102-107 | a getter failure gives an empty list and the wrapped getter error, whatever the decoder |
| `Scrap.NoMatchGivesSentinel` | internal/scrap/scrap.go:109-114 | a body with no match gives an empty list and exactly the sentinel, whatever the decoder |
| `Scrap.DecodeFailure` | internal/scrap/scrap.go:116-120 | the decoder is handed the leftmost-first capture; when it fails, the result is an empty list and the wrapped decode error |
| `Scrap.DecodeSuccess` | internal/scrap/scrap.go:122-144 | on success: no error, as many products as tiles, product i copies tile i's id, family, color, capacity, title, seoPrice and originalProductAmount verbatim, has the query-stripped URLs, and has the task's locale and category |
| `Scrap.OnlyTaskUrlFetched` | internal/scrap/scrap.go:102-103 | a task's outcome depends on the getter only through the task's own URL |
| `Scrap.Row` | internal/scrap/scrap.go:79-80 | one task per category, and a task is in the row exactly when it has the given locale and one of the categories |
| `Scrap.Tasks` | internal/scrap/scrap.go:74-80 | exactly `|locales| * |categories|` tasks |
| `Scrap.TasksIndex` | internal/scrap/scrap.go:78-80 | task `i * |categories| + j` pairs locale `i` with category `j` |
| `Scrap.TasksMembership` | internal/scrap/scrap.go:78-80 | a pair is a task exactly when its locale and its category are both given |
| `Scrap.ScrapWorkWellBehaved` | internal/scrap/scrap.go:101-145 | for every task, `scrapSingle` tags all its products with the task and returns none alongside an error |
| `Scrap.GatherSnoc` | internal/scrap/scrap.go:88-91 | one more locked append adds exactly that task's products at the end |
| `Scrap.GatherReorder` | internal/scrap/scrap.go:78-96 | the merged multiset of products does not depend on the order in which tasks take the lock |
| `Scrap.GatherProvenance` | internal/scrap/scrap.go:83-91 | when each task's products carry that task's parameters, every merged product comes from a task with that product's locale and category |
| `Scrap.ContributionIncluded` | internal/scrap/scrap.go:83-91 | every product of every task is in the merge, with its multiplicity |
| `Scrap.Succeeded` | internal/scrap/scrap.go:83-86 | the tasks without an error, and only those |
| `Scrap.FailedTasksContributeNothing` | internal/scrap/scrap.go:83-91 | when failing tasks return no products, merging only the successful tasks gives the same list as merging all of them |
| `Scrap.ScrapFailuresContributeNothing` | internal/scrap/scrap.go:83-91 | for a run of the scraper over locales and categories, the merge equals the merge of the successful tasks alone |
| `Scrap.UniformGather` | internal/scrap/scrap.go:88-91 | tasks that each contribute `r` products merge into `|tasks| * r` products |
| `Scrap.UniformYield` | internal/scrap/scrap.go:74-98 | with `r` products per task, a run yields `|locales| * |categories| * r` products |
| `Scrap.Scrap` | internal/scrap/scrap.go:70-99 | the result is the per-task lists concatenated in lock order; for any lock order it is a permutation of the per-task lists concatenated in task order, so its length is the sum of their lengths; every product's locale and category were among the inputs |
| `Merge.FlattenLength` | internal/scrap/scrap.go:91 | appending lists gives a list whose length is the sum of their lengths |
| `Merge.FlattenReorder` | internal/scrap/scrap.go:91 | the multiset of an appended sequence of lists does not depend on the order of the lists |

## Left out

- Goroutines, `sync.RWMutex` and `sync.WaitGroup` (scrap.go:71-96) are not modelled as concurrency. A run is a sequence of locked appends in a `schedule` order, which may be any reordering of the tasks.
- Termination under concurrency (no deadlock) is not stated, because the model has no concurrency.
- `json.Unmarshal` is library code whose behaviour is not modelled. It is the abstract `decoder`. For example, the model does not say that decoding the lone-newline capture fails, or that a blob without `tiles` decodes to zero tiles.
- `internal/http/http.go` (HTTP client, status check, body read) is the abstract `getter`.
- The logger call (scrap.go:85), the `fmt.Printf` of each product (scrap.go:140) and the unused `badger.DB` field (scrap.go:22) are left out; they are side effects with no bearing on results.
- `NewScraper` (scrap.go:66-68) only builds the struct. The `Scraper` datatype stands for it.
- `cmd/scraper/main.go` and `cmd/scraper/badger_logger.go` (configuration, logging setup, process exit) are not part of this model.
- `float64` prices are kept as their 64-bit patterns. They are copied and never computed with, so no floating-point semantics is modelled.
- Go error messages are not modelled. The `fmt.Errorf` text is dropped, and the wrapped cause is kept as a datatype field.
- `Products.Tile` flattens the Go nestings `Filters.Dimensions` into one `dimensions` field and `Image.SrcSet.Src` into one `imageSrc` field (scrap.go:56-60).
- `Scrap.TaskUrlRoundTrip` and `Scrap.TaskUrlInjective` are stated only for locales without `/`. The code formats any string into the URL, and such a locale can make two tasks share a URL.
