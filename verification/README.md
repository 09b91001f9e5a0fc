# URL shortener store — Dafny model

This project models the core of a small Go URL-shortening service (`main.go`). That core is the in-memory store. It is a map from short code to `URLEntry{OriginalURL, CreatedAt}` together with a process-wide `counter`. Three operations work on it, and each holds one mutex for its whole duration:

- `shortenURL(url)` increments the counter, renders it in decimal with `fmt.Sprintf("%d", …)` and stores the entry under that code, stamped with the current time.
- `getOriginalURL(code)` looks a code up. A missing code gives `("", false)`. An entry older than 24 hours is deleted and also gives `("", false)`. Otherwise it returns the stored URL with `true`.
- `cleanupExpiredURLs()` ranges over the map. It deletes every entry older than 24 hours and counts the deletions, which it logs when there are any.

Because the mutex serialises the operations, each one is modelled as an atomic, pure transition over an immutable `Store(urls, counter)` value (module `UrlStore`). The wall clock becomes an explicit argument `now`: an integer number of nanoseconds. Go's `Time.Sub` returns a 64-bit `Duration` that saturates at the smallest or largest value. The model keeps that saturation in `UrlStore.Sub`, and `UrlStore.Expired` applies the source's test `Sub(now, createdAt) > 24h` literally. `UrlStore.Live` states the intended meaning: the true age is at most 24 hours. `ExpiredIffNotLive` proves the two agree, so saturation never changes a verdict.

The decimal rendering is modelled in module `Decimal`. `NatToDecimal` produces the canonical numeral. `ParseDecimal` is proved to be its inverse in both directions, so the injectivity of the rendering is proved rather than assumed.

Module `StoreProperties` proves the following:

- codes are fresh;
- a code round-trips through insert and lookup;
- lookup and sweep share the strict `>` boundary;
- the sweep removes exactly the expired entries and reports how many it removed;
- a sweep is idempotent.

Module `Requests` defines runs: arbitrary interleavings of the three operations. It proves that the codes a run hands out are consecutive numbers, so no code is ever issued twice.

A retired code is never reissued: the counter only grows, and a deleted entry never rewinds it (`Requests.CodesNeverReissued`). The only caveat is integer wrap-around, listed under "## Left out".

## Model

| member | source | states |
|---|---|---|
| `Decimal.NatToDecimal` | main.go:55 | The rendering of a counter value is a canonical numeral: non-empty, digits only, and it starts with '0' only when the value is zero. |
| `Decimal.ParseNatToDecimal` | main.go:55 | Reading a rendered code back as a number gives the counter value it was made from. |
| `Decimal.NatToDecimalParse` | main.go:55 | Every canonical numeral is the rendering of the number it denotes. So the canonical numerals are exactly the codes the renderer can produce. |
| `Decimal.NatToDecimalInjective` | main.go:54-55 | Two counter values render to the same code if and only if they are equal. |
| `UrlStore.ExpiredIffNotLive` | main.go:40 | The source's expiry test on a saturating 64-bit duration, `Sub(now, createdAt) > 24h`, holds exactly when the true age exceeds 24 hours. |
| `UrlStore.ShortenUrl` | main.go:50-63 | The counter grows by exactly one. The returned code is a canonical numeral whose value is the new counter. The map holds `code ↦ (url, now)`, and every other key keeps its presence and its entry. |
| `UrlStore.GetOriginalUrl` | main.go:65-81 | `found` holds exactly when the code is present and at most 24 hours old, and then the stored URL is returned. Otherwise the URL is "". A missing code or a live entry leaves the state unchanged. An expired entry removes exactly that key. The counter never changes. |
| `UrlStore.CleanupExpiredUrls` | main.go:33-48 | The range-and-delete loop keeps exactly the entries at most 24 hours old, with their entries unchanged. The count it returns is the number of keys it removed. The counter is untouched. The result equals the reference definition `Sweep`. |
| `StoreProperties.InitValid` | main.go:19-20 | The empty map with counter zero satisfies the code invariant: every stored code renders some `k` with `1 <= k <= counter`. |
| `StoreProperties.ShortenIssuesFreshCode` | main.go:54-57 | Under the code invariant, the code `shortenURL` issues is not already in the map, and the invariant still holds afterwards. |
| `StoreProperties.SuccessiveCodesIncrease` | main.go:54-55 | Two successive `shortenURL` calls return codes with strictly increasing values, so the codes differ. |
| `StoreProperties.GetOriginalUrlPreservesValid` | main.go:69-78 | A lookup, including its lazy deletion, keeps the code invariant. |
| `StoreProperties.SweepPreservesValid` | main.go:39-44 | The sweep keeps the code invariant. |
| `StoreProperties.ShortenThenGet` | main.go:57-80 | After `shortenURL(u)` at time `c`, a lookup of the returned code at any `t` with `t - c <= 24h` returns `(u, true)` and changes nothing. At any `t` with `t - c > 24h` it returns `("", false)` and the code is gone. |
| `StoreProperties.ExpiryBoundary` | main.go:75 | An entry exactly 24 hours old is returned by lookup and kept by the sweep. One nanosecond later, lookup rejects it and the sweep removes it. |
| `StoreProperties.SweepKeepsExactlyLive` | main.go:37-44 | After the sweep, the map is the original restricted to entries at most 24 hours old. Surviving entries are unchanged and the counter is untouched. |
| `StoreProperties.SweepCountsRemoved` | main.go:38-46 | The count the sweep reports equals the number of entries it took out of the map. |
| `StoreProperties.SweepIdempotent` | main.go:39-44 | A second sweep at the same instant removes 0 entries and leaves the map unchanged. |
| `StoreProperties.SweepAgreesWithLookup` | main.go:40-77 | At the same instant, a code survives the sweep exactly when a lookup would return it as live. |
| `StoreProperties.GetOriginalUrlAfterSweep` | main.go:69-80 | A lookup gives the same `(url, found)` answer before and after a sweep at the same instant. |
| `StoreProperties.SweepAfterGetOriginalUrl` | main.go:75-77 | A lazy deletion by lookup leaves the next sweep at the same instant with the same resulting map, so the two eviction paths never disagree. |
| `Requests.RunPreservesValid` | main.go:19-21 | Any serialised interleaving of shorten, lookup and sweep steps keeps the code invariant. |
| `Requests.RunIssuesConsecutiveCodes` | main.go:54-55 | In any run, the i-th issued code renders the starting counter plus i + 1. The counter ends advanced by exactly the number of codes issued, because lookups and sweeps never change it. |
| `Requests.CodesNeverReissued` | main.go:54-57 | The codes issued in a run are pairwise distinct, whatever deletions happen in between. None of them was in the map when the run began. |
| `Requests.CodesFromStartAreOneToN` | main.go:20 | From process start, the codes issued are "1", "2", … in order. |
| `Requests.ExpiredEntryDoesNotRewindCounter` | main.go:54-77 | The first code is "1" and resolves immediately. After 25 hours a lookup gives `("", false)`, and the next code issued is "2". |

## Left out

- HTTP handlers (`homeHandler`, `shortenHandler`, `redirectHandler`) and `main` are left out. They do JSON decoding, response writing, reading `index.html` and binding the port, which is I/O around the store.
- The `strings.TrimSpace` and empty-URL check in `shortenHandler` is left out. It happens before the store is called, and the store accepts any string, including "".
- `startCleanupRoutine` is left out. It is an hourly ticker goroutine, so its content is scheduling. Only the single sweep it triggers is modelled (`CleanupExpiredUrls`, `Sweep`, and `Cleanup` steps in `Requests.Run`).
- `sync.Mutex` is left out. Each operation is modelled as one atomic transition, which is what the lock guarantees. Runs are sequences of such transitions.
- `log.Printf` is left out. Only the count the sweep would log is modelled, as `removed`.
- `time.Now` and `time.Since` as real clocks are left out. Each operation takes the reading as the parameter `now`. Monotonic versus wall-clock readings are not distinguished. Times are integer nanoseconds on one clock, and `Time.Sub` is modelled by its documented saturating behaviour. The time package itself is not modelled beyond `Sub`'s saturation.
- `UrlStore.ShortenUrl`: the counter is an unbounded natural number. Go's `int` is 32 or 64 bits depending on the platform, so after 2^31 − 1 or 2^63 − 1 calls `counter++` wraps to a negative value. Codes could then eventually repeat. The model does not follow that; it proves uniqueness for the unbounded counter.
- Strings: Go strings are byte strings, and the model uses Dafny's `string` (`seq<char>`) for URLs and codes. Nothing in the store depends on the difference: it stores URLs verbatim and only compares codes for equality.
