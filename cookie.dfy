/**
 The `CookieHandler` object and the caller's `CookieJar`, as objects whose
 fields are updated in place. Every method is proved against the table
 functions of module CookieTable, whose properties are proved there and in
 module CookieTrace.
 */
module Cookie {
  import opened CookieTable

  /** A `CookieJar`: the protocol object that holds the cookie written into it. */
  class Jar {
    var cookies: uint64

    constructor (c: uint64)
      ensures cookies == c
    {
      cookies := c;
    }

    /** `SetCookies`: the jar now holds `c`. */
    method SetCookies(c: uint64)
      modifies this
      ensures cookies == c && Cookies() == c
    {
      cookies := c;
    }

    /** `Cookies`: the cookie the jar holds, the one last set. */
    function Cookies(): (c: uint64)
      reads this
      ensures c == cookies
    {
      cookies
    }
  }

  /** `CookieHandler`: the dispatch table and the decoder used to read the
      cookie of incoming requests (`None` while no decoder is set). */
  class CookieHandler<H> {
    var reader: Option<Decoder>
    var handlers: Table<H>

    /** `NewCookieHandler`: an empty table, and no decoder yet. */
    constructor ()
      ensures handlers == map[] && reader == None
      ensures HandledOnly(handlers)
    {
      handlers := map[];
      reader := None;
    }

    /** `Handle`: `drawn` is the value `rand.Int63` returned. The jar receives
        the cookie, and the table maps that cookie to a non-evictable entry for
        `handler`, replacing any earlier entry there; every other entry stays. */
    method Handle(jar: Jar, handler: H, drawn: Int63)
      modifies this`handlers, jar
      ensures jar.cookies == CookieOf(drawn) && jar.cookies < 0x8000_0000_0000_0000
      ensures handlers == Registered(old(handlers), jar.cookies, handler)
      ensures old(HandledOnly(handlers)) ==> HandledOnly(handlers)
    {
      var cookies := CookieOf(drawn);
      jar.SetCookies(cookies);
      handlers := handlers[cookies := Entry(handler, false)];
    }

    /** `HandleFunc`: the same effect as `Handle` on the same jar and handler. */
    method HandleFunc(jar: Jar, handler: H, drawn: Int63)
      modifies this`handlers, jar
      ensures jar.cookies == CookieOf(drawn) && jar.cookies < 0x8000_0000_0000_0000
      ensures handlers == Registered(old(handlers), jar.cookies, handler)
      ensures old(HandledOnly(handlers)) ==> HandledOnly(handlers)
    {
      Handle(jar, handler, drawn);
    }

    /** `Unhandle`: the entry under the jar's cookie is gone, if there was one;
        every other entry stays. */
    method Unhandle(jar: Jar)
      modifies this`handlers
      ensures handlers == Removed(old(handlers), jar.Cookies())
      ensures jar.Cookies() !in handlers
      ensures old(HandledOnly(handlers)) ==> HandledOnly(handlers)
    {
      handlers := handlers - {jar.Cookies()};
    }

    /** `Serve`: `read` is the result of reading the whole request body, `None`
        for a read error. The decoder is consulted only once the body was read.
        The outcome and the new table are those ServeStep gives: dropped with
        the table untouched, or the matched handler invoked once on the
        original body, its entry evicted when it is evictable. */
    method Serve(read: Option<seq<byte>>) returns (outcome: Outcome<H>)
      requires read.Some? ==> reader.Some?
      modifies this`handlers
      ensures read.None? ==> outcome == Dropped && handlers == old(handlers)
      ensures read.Some? ==> (handlers, outcome) == ServeStep(old(handlers), reader.value, read)
      ensures old(HandledOnly(handlers)) ==> handlers == old(handlers)
    {
      if read.None? {
        return Dropped;
      }
      var body := read.value;
      var decoded := reader.value(body);
      if decoded.None? {
        return Dropped;
      }
      var c := decoded.value;
      if c !in handlers {
        return Dropped;
      }
      var entry := handlers[c];
      if entry.evictable {
        handlers := handlers - {c};
      }
      outcome := Invoked(entry.handler, body);
    }
  }

  /** A caller of the class: a persistent registration answers each request
      carrying its cookie, and after `Unhandle` such a request is dropped. */
  method RegisterServeUnhandle<H>(handler: H, drawn: Int63, body: seq<byte>)
  {
    var h := new CookieHandler<H>();
    var jar := new Jar(0);
    h.Handle(jar, handler, drawn);
    var c := jar.Cookies();
    h.reader := Some((b: seq<byte>) => if b == body then Some(c) else None);
    var o := h.Serve(Some(body));
    assert o == Invoked(handler, body);
    o := h.Serve(Some(body));
    assert o == Invoked(handler, body);
    o := h.Serve(None);
    assert o == Dropped;
    h.Unhandle(jar);
    o := h.Serve(Some(body));
    assert o == Dropped;
  }
}
