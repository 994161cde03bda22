# Cookie dispatch table

A model of the `CookieHandler` of the OpenFlow library (package `of`,
`cookie.go`). A `CookieHandler` matches incoming requests to registered
handlers by a 64-bit correlation token, the "cookie". `Handle` draws a random
cookie, writes it into the caller's `CookieJar`, and registers the handler
under it. `Unhandle` removes the registration for a jar's cookie. `Serve`
reads the request body, decodes the cookie from it, looks it up, evicts the
entry if it is evictable, and invokes the matched handler with the original
body restored.

The project has three modules:

- `CookieTable` (`table.dfy`) defines the values: `uint64` cookies, the `Int63`
  values the random source yields, table entries (`filterEntry`), the table
  itself, and the outcome of serving one request. It also gives the effect of
  one registration (`Registered`), one removal (`Removed`) and one served
  request (`ServeStep`) as functions with their single-step properties.
- `CookieTrace` (`trace.dfy`) serves a sequence of requests (`ServeMany`). It
  proves that a persistent entry answers every request that carries its
  cookie, that an evictable entry answers only the first such request, and
  that a cookie with no entry is never answered.
- `Cookie` (`cookie.dfy`) holds the objects. `Jar` is the caller's cookie
  holder. `CookieHandler<H>` has the `handlers` table and the `Reader` decoder
  as fields. Its methods update those fields in place, and each method's
  `ensures` ties the new table to the `CookieTable` function for it.

Inputs that the source obtains from outside are parameters:

- the value `rand.Int63` returned (`drawn: Int63`);
- the result of `ioutil.ReadAll` (`Option<seq<byte>>`, where `None` is a read
  error);
- the decoder (`Decoder`, a total function from body bytes to `Option<uint64>`,
  where `None` is a decode error).

The handler type is a type parameter `H`. Invoking a handler is represented by
the outcome `Invoked(handler, body)`, whose `body` is the body the handler
reads from the restored request.

## Model

| member | source | states |
|---|---|---|
| `CookieTable.CookieOf` | cookie.go:74 | the cookie `Handle` stores is the drawn `Int63` value unchanged, so it is always below 2^63 |
| `CookieTable.Registered` | cookie.go:80 | storing an entry puts the non-evictable entry for the handler at the cookie, overwriting any earlier one; the key set grows by that cookie only, and every other entry is unchanged |
| `CookieTable.Removed` | cookie.go:93 | deleting removes the cookie and keeps every other entry; deleting an absent cookie changes nothing |
| `CookieTable.ServeStep` | cookie.go:98-125 | a request is dropped exactly when the body read fails, the decoder fails, or the cookie has no entry, and then the table is unchanged; otherwise the matched entry's handler is invoked once on the bytes originally read, and the table loses that entry if it is evictable and is otherwise unchanged |
| `CookieTable.HandleLastWriteWins` | cookie.go:80 | registering twice under one cookie equals registering only the second handler |
| `CookieTable.UnhandleIdempotent` | cookie.go:89-94 | removing a cookie twice equals removing it once |
| `CookieTable.UnhandleUndoesHandle` | cookie.go:73-94 | `Unhandle` after `Handle` on the same jar leaves the old table without that cookie, and exactly the old table when the cookie was unused |
| `CookieTable.ServeAfterHandle` | cookie.go:80 | a request carrying a just-registered cookie invokes that handler on its body and leaves the table unchanged |
| `CookieTable.HandledOnlyPreserved` | cookie.go:59-125 | the empty table, `Handle`, `Unhandle` and `Serve` keep every cookie below 2^63 and every entry non-evictable |
| `CookieTable.ServeNeverEvictsHandledOnly` | cookie.go:119-121 | on a table built by these operations alone, `Serve` never evicts, because `Handle` only stores non-evictable entries |
| `CookieTrace.ServeMany` | cookie.go:98-125 | serving a sequence of requests yields one outcome per request, and the table only loses entries: none is added or changed |
| `CookieTrace.AbsentCookieAlwaysDropped` | cookie.go:114-117 | a cookie without an entry stays without one, and every request carrying it is dropped |
| `CookieTrace.PersistentEntryServesEveryMatch` | cookie.go:114-124 | a non-evictable entry survives any sequence of requests, and every request carrying its cookie invokes its handler on that request's own body |
| `CookieTrace.OneShotEntryServesOnce` | cookie.go:119-124 | an evictable entry invokes its handler for the first request carrying its cookie, and every later request carrying it is dropped |
| `Cookie.Jar.SetCookies` | cookie.go:13 | after `SetCookies(c)` the jar holds `c` and `Cookies()` reports it |
| `Cookie.Jar.Cookies` | cookie.go:14 | reports the cookie the jar holds, the one last set; `Unhandle` deletes the entry under it |
| `CookieTable.Token` | cookie.go:99-108 | `None` on a body read error or a decode error, otherwise the cookie the decoder reports for the bytes read |
| `Cookie.CookieHandler.constructor` | cookie.go:59-66 | `NewCookieHandler` starts with an empty table and no decoder |
| `Cookie.CookieHandler.Handle` | cookie.go:73-81 | the jar receives the drawn cookie, which is below 2^63, and the table becomes `Registered` of the old one under that cookie |
| `Cookie.CookieHandler.HandleFunc` | cookie.go:84-86 | the same jar and table effect as `Handle` |
| `Cookie.CookieHandler.Unhandle` | cookie.go:89-94 | the table becomes `Removed` of the old one at the jar's cookie, so that cookie has no entry afterwards |
| `Cookie.CookieHandler.Serve` | cookie.go:98-125 | a read error drops the request without consulting the decoder; otherwise the outcome and the new table are `ServeStep` of the old table |

`Cookie.RegisterServeUnhandle` is a caller of the class. It registers a
handler, serves two requests that carry its cookie (both invoke it), then
serves a failed read (dropped). After `Unhandle` it serves the same request
again, and that one is dropped.

## Left out

- Locking: the `sync.RWMutex` (cookie.go:54, 77-78, 90-91, 110-111) is not
  modelled, because the model is sequential. Two races in the source fall
  outside it. `Serve` deletes from the map while holding only the read lock
  (cookie.go:110-121). `h.rand.Int63()` is called outside any lock
  (cookie.go:74). With concurrent `Serve` calls, an evictable entry can
  therefore be dispatched more than once. `CookieTrace.OneShotEntryServesOnce`
  holds for requests served one after another only. The source also invokes the matched
  handler while still holding the read lock: the deferred `RUnlock`
  (cookie.go:111) runs only after `entry.handler.Serve` (cookie.go:124)
  returns. A handler that calls `Handle`, `HandleFunc` or `Unhandle` on the
  same `CookieHandler` therefore waits at `Lock` (cookie.go:77, 90) for a read
  lock its own goroutine holds, and deadlocks; every later `Serve` then blocks
  behind that waiting writer. The model returns the invocation as an outcome
  after the table update, so it covers only calls made after `Serve` returns,
  as in `Cookie.RegisterServeUnhandle`.
- Random source: the seeding from the clock and the construction of
  `rand.Rand` (cookie.go:59-65) are left out. The drawn value is a parameter
  whose only constraint is the `Int63` range. Whether drawn cookies are
  distinct is a probabilistic property and is not modelled. A repeated draw
  overwrites the earlier entry (`CookieTable.HandleLastWriteWins`).
- I/O: `ioutil.ReadAll` and `bytes.NewBuffer` (cookie.go:99, 105, 123) are
  replaced by the read result passed in as a parameter. The reassignment of
  `r.Body` is represented by the body carried in `Invoked`. On every drop
  path the source leaves the caller's request body consumed and not restored:
  at end of input after a decode error (cookie.go:106-107) or a missing entry
  (cookie.go:115-116), and partly read after a read error (cookie.go:100-101).
  Only a match puts the body back (cookie.go:123). The model does not
  represent the request after `Serve`, so `Dropped` says nothing about it. The
  `ResponseWriter` is passed through untouched by the source and is not
  modelled.
- Decoder and handler: `CookieReader.ReadCookie` and `Handler.Serve` are
  external. The decoder is a function parameter, and the handler is an opaque
  value of type `H`. A decoder that returns a nil jar without an error would
  make the source panic at cookie.go:114; the model's decoder always yields a
  cookie or an error.
- `Cookie.CookieHandler.Serve`: requires the `Reader` field to be set whenever
  the body was read. `NewCookieHandler` leaves it nil, and the source then
  dereferences nil at cookie.go:105, so the model does not cover that panic.
- `CookieReaderFunc` (cookie.go:28-33): its method is named `CookiesJar`, not
  `ReadCookie`, so it does not implement `CookieReader`. It only forwards to
  the wrapped function, so there is nothing to verify.
- `HandleFunc` takes a value of the same handler type `H`, because the Go
  conversion from `HandlerFunc` to `Handler` is an adapter with no behaviour
  of its own.
- `Jar` stands for any `CookieJar` implementation as a plain cookie holder.
  Caller-supplied jars with other behaviour are not modelled.
