/**
 The cookie dispatch table as values: the 64-bit correlation token ("cookie"),
 the table entries, and what one registration, one removal and one served
 request do to a table. The class in module Cookie updates its table field
 exactly as these functions say.
 */
module CookieTable {

  datatype Option<+T> = None | Some(value: T)

  /** Go's uint64. */
  newtype uint64 = x: int | 0 <= x < 0x1_0000_0000_0000_0000

  /** A byte of a request body. */
  type byte = b: int | 0 <= b < 0x100

  /** The values `rand.Int63` can return: non-negative 63-bit integers. */
  type Int63 = x: int | 0 <= x < 0x8000_0000_0000_0000

  /** The decoder (`CookieReader.ReadCookie`): a body either decodes to a jar,
      of which only the cookie it reports matters here, or fails. */
  type Decoder = seq<byte> -> Option<uint64>

  /** `filterEntry`: the registered handler and whether a match evicts it. */
  datatype Entry<H> = Entry(handler: H, evictable: bool)

  /** The `handlers` map of a `CookieHandler`. */
  type Table<H> = map<uint64, Entry<H>>

  /** What serving one request amounts to: either it is dropped, or exactly
      one handler is invoked with a request whose body is `body`. */
  datatype Outcome<H> = Dropped | Invoked(handler: H, body: seq<byte>)

  /** The cookie `Handle` stores: `uint64(rand.Int63())`. The conversion keeps
      the value, so every cookie handed out is below 2^63. */
  function CookieOf(drawn: Int63): (c: uint64)
    ensures c as int == drawn
    ensures c < 0x8000_0000_0000_0000
  {
    drawn as uint64
  }

  /** The table after `Handle` stored `handler` under cookie `c`: the entry at
      `c` is the non-evictable one, whatever was there before, and every other
      key keeps its entry. */
  function Registered<H>(t: Table<H>, c: uint64, handler: H): (r: Table<H>)
    ensures c in r && r[c] == Entry(handler, false)
    ensures r.Keys == t.Keys + {c}
    ensures forall k :: k in t && k != c ==> r[k] == t[k]
  {
    t[c := Entry(handler, false)]
  }

  /** The table after `delete(handlers, c)`: `c` is gone, every other key keeps
      its entry, and nothing happens when `c` was absent. */
  function Removed<H>(t: Table<H>, c: uint64): (r: Table<H>)
    ensures c !in r
    ensures r.Keys == t.Keys - {c}
    ensures forall k :: k in r ==> r[k] == t[k]
    ensures c !in t ==> r == t
  {
    t - {c}
  }

  /** The cookie a request carries: present only when its body could be read
      and the decoder accepted it. */
  function Token(decode: Decoder, read: Option<seq<byte>>): (r: Option<uint64>)
    ensures r.Some? <==> read.Some? && decode(read.value).Some?
    ensures r.Some? ==> decode(read.value) == r
  {
    match read
    case None => None
    case Some(body) => decode(body)
  }

  /** The request carries cookie `c`. */
  predicate Carries(decode: Decoder, read: Option<seq<byte>>, c: uint64)
  {
    Token(decode, read) == Some(c)
  }

  /** `Serve` on a table, given the result of reading the body (`None` for a
      read error) and the decoder. The request is dropped exactly when it
      carries no cookie or one with no entry, and then the table is untouched;
      otherwise the matched handler is invoked once, on the bytes originally
      read, and the only change to the table is the eviction of the matched
      entry when it is evictable. */
  function ServeStep<H>(t: Table<H>, decode: Decoder, read: Option<seq<byte>>): (r: (Table<H>, Outcome<H>))
    ensures r.1.Dropped? <==> Token(decode, read).None? || Token(decode, read).value !in t
    ensures r.1.Dropped? ==> r.0 == t
    ensures r.1.Invoked? ==>
              var c := Token(decode, read).value;
              && read.Some? && r.1.body == read.value
              && r.1.handler == t[c].handler
              && r.0 == (if t[c].evictable then Removed(t, c) else t)
  {
    match read
    case None => (t, Dropped)
    case Some(body) =>
      match decode(body)
      case None => (t, Dropped)
      case Some(c) =>
        if c !in t then (t, Dropped)
        else
          var entry := t[c];
          var t' := if entry.evictable then t - {c} else t;
          (t', Invoked(entry.handler, body))
  }

  /** Registering twice under the same cookie: the last registration wins. */
  lemma HandleLastWriteWins<H>(t: Table<H>, c: uint64, h1: H, h2: H)
    ensures Registered(Registered(t, c, h1), c, h2) == Registered(t, c, h2)
  {
  }

  /** Removing is idempotent. */
  lemma UnhandleIdempotent<H>(t: Table<H>, c: uint64)
    ensures Removed(Removed(t, c), c) == Removed(t, c)
  {
  }

  /** Unhandle undoes Handle for the same jar: the table is the old one without
      the cookie, and is exactly the old one when the cookie was unused. */
  lemma UnhandleUndoesHandle<H>(t: Table<H>, c: uint64, h: H)
    ensures Removed(Registered(t, c, h), c) == Removed(t, c)
    ensures c !in t ==> Removed(Registered(t, c, h), c) == t
  {
  }

  /** A request carrying the cookie just registered invokes that handler on
      the original body and leaves the table as it was. */
  lemma ServeAfterHandle<H>(t: Table<H>, c: uint64, h: H, decode: Decoder, body: seq<byte>)
    requires decode(body) == Some(c)
    ensures ServeStep(Registered(t, c, h), decode, Some(body)) == (Registered(t, c, h), Invoked(h, body))
  {
  }

  /** The tables that `Handle`, `Unhandle` and `Serve` can produce from the
      empty one: every cookie is below 2^63 and no entry is evictable. */
  ghost predicate HandledOnly<H>(t: Table<H>)
  {
    forall k :: k in t ==> k < 0x8000_0000_0000_0000 && !t[k].evictable
  }

  /** The three operations keep a table `HandledOnly`, starting from the empty
      table `NewCookieHandler` creates. */
  lemma HandledOnlyPreserved<H>(t: Table<H>, drawn: Int63, h: H, c: uint64, decode: Decoder, read: Option<seq<byte>>)
    requires HandledOnly(t)
    ensures var empty: Table<H> := map[]; HandledOnly(empty)
    ensures HandledOnly(Registered(t, CookieOf(drawn), h))
    ensures HandledOnly(Removed(t, c))
    ensures HandledOnly(ServeStep(t, decode, read).0)
  {
  }

  /** On such a table `Serve` never evicts: it leaves the table unchanged. */
  lemma ServeNeverEvictsHandledOnly<H>(t: Table<H>, decode: Decoder, read: Option<seq<byte>>)
    requires HandledOnly(t)
    ensures ServeStep(t, decode, read).0 == t
  {
  }
}
