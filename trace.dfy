/**
 Several requests served one after another by the same `CookieHandler`: a
 persistent entry answers every request that carries its cookie, an evictable
 one answers at most one, and a cookie without an entry never gets one back.
 */
module CookieTrace {
  import opened CookieTable

  /** Serve `requests` in order, starting from table `t`: the final table and the
      outcome of each request. Serving never adds an entry and never changes
      one; it can only evict. */
  function ServeMany<H>(t: Table<H>, decode: Decoder, requests: seq<Option<seq<byte>>>): (r: (Table<H>, seq<Outcome<H>>))
    ensures |r.1| == |requests|
    ensures r.0.Keys <= t.Keys
    ensures forall k :: k in r.0 ==> r.0[k] == t[k]
    decreases |requests|
  {
    if requests == [] then (t, [])
    else
      var (t1, o) := ServeStep(t, decode, requests[0]);
      var (t2, os) := ServeMany(t1, decode, requests[1..]);
      (t2, [o] + os)
  }

  /** Unfolding ServeMany once, with the indices of the rest shifted. */
  lemma ServeManyCons<H>(t: Table<H>, decode: Decoder, requests: seq<Option<seq<byte>>>, j: nat)
    requires 0 < j < |requests|
    ensures var step := ServeStep(t, decode, requests[0]);
            ServeMany(t, decode, requests).1[j] == ServeMany(step.0, decode, requests[1..]).1[j - 1]
  {
  }

  /** A cookie without an entry stays without one, and every request that
      carries it is dropped. */
  lemma {:induction false} AbsentCookieAlwaysDropped<H>(t: Table<H>, decode: Decoder, requests: seq<Option<seq<byte>>>, c: uint64)
    requires c !in t
    ensures c !in ServeMany(t, decode, requests).0
    ensures forall j :: 0 <= j < |requests| && Carries(decode, requests[j], c) ==> ServeMany(t, decode, requests).1[j] == Dropped
    decreases |requests|
  {
    if requests != [] {
      var t1 := ServeStep(t, decode, requests[0]).0;
      AbsentCookieAlwaysDropped(t1, decode, requests[1..], c);
      forall j | 0 < j < |requests| && Carries(decode, requests[j], c)
        ensures ServeMany(t, decode, requests).1[j] == Dropped
      {
        assert requests[1..][j - 1] == requests[j];
        ServeManyCons(t, decode, requests, j);
      }
    }
  }

  /** A non-evictable entry survives any sequence of requests unchanged, and
      every request that carries its cookie invokes its handler on that
      request's own body. */
  lemma {:induction false} PersistentEntryServesEveryMatch<H>(t: Table<H>, decode: Decoder, requests: seq<Option<seq<byte>>>, c: uint64)
    requires c in t && !t[c].evictable
    ensures c in ServeMany(t, decode, requests).0 && ServeMany(t, decode, requests).0[c] == t[c]
    ensures forall j :: 0 <= j < |requests| && Carries(decode, requests[j], c) ==>
              ServeMany(t, decode, requests).1[j] == Invoked(t[c].handler, requests[j].value)
    decreases |requests|
  {
    if requests != [] {
      var t1 := ServeStep(t, decode, requests[0]).0;
      assert c in t1 && t1[c] == t[c];
      PersistentEntryServesEveryMatch(t1, decode, requests[1..], c);
      forall j | 0 < j < |requests| && Carries(decode, requests[j], c)
        ensures ServeMany(t, decode, requests).1[j] == Invoked(t[c].handler, requests[j].value)
      {
        assert requests[1..][j - 1] == requests[j];
        ServeManyCons(t, decode, requests, j);
      }
    }
  }

  /** An evictable entry answers exactly one request: the first that carries
      its cookie invokes its handler, every later one is dropped. */
  lemma {:induction false} OneShotEntryServesOnce<H>(t: Table<H>, decode: Decoder, requests: seq<Option<seq<byte>>>, c: uint64)
    requires c in t && t[c].evictable
    ensures forall j :: 0 <= j < |requests| && Carries(decode, requests[j], c) && (forall i :: 0 <= i < j ==> !Carries(decode, requests[i], c)) ==>
              ServeMany(t, decode, requests).1[j] == Invoked(t[c].handler, requests[j].value)
    ensures forall i, j :: 0 <= i < j < |requests| && Carries(decode, requests[i], c) && Carries(decode, requests[j], c) ==>
              ServeMany(t, decode, requests).1[j] == Dropped
    decreases |requests|
  {
    if requests != [] {
      var t1 := ServeStep(t, decode, requests[0]).0;
      if Carries(decode, requests[0], c) {
        assert c !in t1;
        AbsentCookieAlwaysDropped(t1, decode, requests[1..], c);
        forall j | 0 < j < |requests| && Carries(decode, requests[j], c)
          ensures ServeMany(t, decode, requests).1[j] == Dropped
        {
          assert requests[1..][j - 1] == requests[j];
          ServeManyCons(t, decode, requests, j);
        }
      } else {
        assert c in t1 && t1[c] == t[c];
        OneShotEntryServesOnce(t1, decode, requests[1..], c);
        forall j | 0 < j < |requests| && Carries(decode, requests[j], c) && (forall i :: 0 <= i < j ==> !Carries(decode, requests[i], c))
          ensures ServeMany(t, decode, requests).1[j] == Invoked(t[c].handler, requests[j].value)
        {
          assert requests[1..][j - 1] == requests[j];
          assert forall i :: 0 <= i < j - 1 ==> requests[1..][i] == requests[i + 1];
          ServeManyCons(t, decode, requests, j);
        }
        forall i, j | 0 <= i < j < |requests| && Carries(decode, requests[i], c) && Carries(decode, requests[j], c)
          ensures ServeMany(t, decode, requests).1[j] == Dropped
        {
          assert i > 0;
          assert requests[1..][i - 1] == requests[i];
          assert requests[1..][j - 1] == requests[j];
          ServeManyCons(t, decode, requests, j);
        }
      }
    }
  }
}
