/**
 * The background fetcher: a time-to-live cache of citation counts keyed by
 * Scholar URL, the fetch that turns an HTTP outcome into a count or a single
 * opaque failure, and the message listener that answers the page agent.
 *
 * The clock is injected: `now` is the reading taken when the cache is
 * consulted, `later` the reading taken once the fetch has completed (used to
 * stamp the new entry and to sweep). The network is injected too: `http` is
 * what the network would answer if asked; whether it was asked is recorded in
 * the ghost log `CitationCache.requests`.
 */
module Background {
  import opened Wrappers
  import opened Strings
  import opened CitationParser

  /** One hour, in milliseconds. */
  const CacheDuration: int := 60 * 60 * 1000
  /** Longest body that is still parsed, in characters. */
  const MaxBodyLength: nat := 1000000
  /** The only error message that ever leaves the fetcher. */
  const FetchFailedMessage: string := "Citation fetch failed"
  /** The only action the listener answers. */
  const FetchAction: string := "fetchCitations"

  datatype Entry = Entry(count: nat, timestamp: int)

  /** An entry is served while its age is below one hour. */
  predicate Fresh(e: Entry, now: int) {
    now - e.timestamp < CacheDuration
  }

  /** The count a lookup at `now` serves without fetching, if any. */
  function Lookup(entries: map<string, Entry>, url: string, now: int): Option<nat> {
    if url in entries && Fresh(entries[url], now) then Some(entries[url].count) else None
  }

  /** What a sweep at `now` leaves: the entries that are still fresh. */
  function Swept(entries: map<string, Entry>, now: int): map<string, Entry> {
    map url | url in entries && Fresh(entries[url], now) :: entries[url]
  }

  /** What the network does with a request. */
  datatype Http =
    | Unreachable                                     // `fetch` rejects
    | Answered(status: int, statusText: string, body: Option<string>)
                                                      // body None: reading it rejects

  /** `response.ok`: the status is in the range 200-299. */
  predicate Ok(status: int) {
    200 <= status <= 299
  }

  /** The reasons the body of the fetch throws, before they are collapsed. */
  datatype FetchError =
    | NoScholarUrl
    | NetworkError
    | HttpError(status: int, statusText: string)
    | BodyUnreadable
    | ResponseTooLarge

  /** The `try` block of `fetchCitationCount`: the count or the reason it threw. */
  function TryFetch(url: string, http: Http): (r: Result<nat, FetchError>)
    ensures r.Success? ==> http.Answered? && http.body.Some? && r.value == ParseCitationCount(http.body.value)
  {
    if url == "" then Failure(NoScholarUrl)
    else match http
      case Unreachable => Failure(NetworkError)
      case Answered(status, statusText, body) =>
        if !Ok(status) then Failure(HttpError(status, statusText))
        else if body.None? then Failure(BodyUnreadable)
        else if |body.value| > MaxBodyLength then Failure(ResponseTooLarge)
        else Success(ParseCitationCount(body.value))
  }

  /** `fetchCitationCount`: every failure is replaced by one generic message. */
  function FetchCitationCount(url: string, http: Http): (r: Result<nat, string>)
    ensures r.Success? <==> TryFetch(url, http).Success?
    ensures r.Success? ==> r.value == TryFetch(url, http).value
    ensures r.Failure? ==> r.error == FetchFailedMessage
  {
    match TryFetch(url, http)
    case Success(count) => Success(count)
    case Failure(_) => Failure(FetchFailedMessage)
  }

  /** The requests `fetchCitationCount` sends: none for a missing URL. */
  function IssuedRequests(url: string): seq<string> {
    if url == "" then [] else [url]
  }

  /** The outcome of one `getCachedOrFetchCitationCount` call on a cache. */
  datatype Served = Served(result: Result<nat, string>, entries: map<string, Entry>, requests: seq<string>)

  /**
   * A fresh entry is served as is; otherwise the count is fetched and, only on
   * success, stored with the post-fetch time and followed by a sweep.
   */
  function Serve(entries: map<string, Entry>, url: string, now: int, http: Http, later: int): Served {
    match Lookup(entries, url, now)
    case Some(count) => Served(Success(count), entries, [])
    case None =>
      var r := FetchCitationCount(url, http);
      if r.Success? then Served(r, Swept(entries[url := Entry(r.value, later)], later), IssuedRequests(url))
      else Served(r, entries, IssuedRequests(url))
  }

  /** The reply the listener sends for a `fetchCitations` request. */
  datatype Reply = CountReply(count: nat) | ErrorReply(error: string)

  datatype Request = Request(action: string, scholarUrl: string)

  function ToReply(r: Result<nat, string>): Reply {
    match r
    case Success(count) => CountReply(count)
    case Failure(error) => ErrorReply(error)
  }

  /** A fetch fails exactly when the URL is missing, the network is unreachable,
      the status is not ok, the body cannot be read or is over the size bound. */
  lemma FetchFailsExactly(url: string, http: Http)
    ensures FetchCitationCount(url, http).Failure? <==>
      || url == ""
      || http.Unreachable?
      || !Ok(http.status)
      || http.body.None?
      || |http.body.value| > MaxBodyLength
  {
  }

  /** A body of exactly the size bound is still parsed. */
  lemma BodyAtBoundIsParsed(url: string, status: int, statusText: string, body: string)
    requires url != "" && Ok(status) && |body| == MaxBodyLength
    ensures FetchCitationCount(url, Answered(status, statusText, Some(body))) == Success(ParseCitationCount(body))
  {
  }

  /** A 503 answer yields the generic failure, not a count. */
  lemma ServiceUnavailableFails(url: string, body: Option<string>)
    ensures FetchCitationCount(url, Answered(503, "Service Unavailable", body)) == Failure(FetchFailedMessage)
  {
  }

  /** Two failed fetches are indistinguishable to the caller. */
  lemma FailuresIndistinguishable(url1: string, http1: Http, url2: string, http2: Http)
    requires FetchCitationCount(url1, http1).Failure? && FetchCitationCount(url2, http2).Failure?
    ensures FetchCitationCount(url1, http1) == FetchCitationCount(url2, http2)
  {
  }

  /** A sweep removes exactly the entries at least one hour old and keeps the others as they were. */
  lemma SweptRemovesExactlyExpired(entries: map<string, Entry>, now: int)
    ensures forall url :: url in Swept(entries, now) <==>
      url in entries && !(now - entries[url].timestamp >= CacheDuration)
    ensures forall url :: url in Swept(entries, now) ==> Swept(entries, now)[url] == entries[url]
  {
  }

  /** After a sweep every remaining entry is fresh, and a second sweep at the same time changes nothing. */
  lemma SweepIdempotent(entries: map<string, Entry>, now: int)
    ensures forall url :: url in Swept(entries, now) ==> Fresh(Swept(entries, now)[url], now)
    ensures Swept(Swept(entries, now), now) == Swept(entries, now)
  {
  }

  /** Sweeping never changes what a lookup at the same time or later serves. */
  lemma SweepInvisibleToLookups(entries: map<string, Entry>, sweptAt: int, url: string, now: int)
    requires sweptAt <= now
    ensures Lookup(Swept(entries, sweptAt), url, now) == Lookup(entries, url, now)
  {
  }

  /** A hit returns the stored count, sends no request and leaves the cache as it was. */
  lemma ServeHit(entries: map<string, Entry>, url: string, now: int, http: Http, later: int)
    requires url in entries && now - entries[url].timestamp < CacheDuration
    ensures Serve(entries, url, now, http, later) == Served(Success(entries[url].count), entries, [])
  {
  }

  /** A miss whose fetch succeeds returns the fetched count, sends one request and
      stores the count stamped with the post-fetch time. */
  lemma ServeMissSuccess(entries: map<string, Entry>, url: string, now: int, http: Http, later: int, count: nat)
    requires Lookup(entries, url, now).None?
    requires FetchCitationCount(url, http) == Success(count)
    ensures var s := Serve(entries, url, now, http, later);
      && s.result == Success(count)
      && s.requests == [url]
      && url in s.entries && s.entries[url] == Entry(count, later)
  {
  }

  /** A miss whose fetch fails returns the generic error and leaves the cache as it was. */
  lemma ServeMissFailure(entries: map<string, Entry>, url: string, now: int, http: Http, later: int)
    requires Lookup(entries, url, now).None?
    requires FetchCitationCount(url, http).Failure?
    ensures Serve(entries, url, now, http, later) == Served(Failure(FetchFailedMessage), entries, IssuedRequests(url))
  {
  }

  /** Every outcome is a count or the generic error. */
  lemma ServeResultShape(entries: map<string, Entry>, url: string, now: int, http: Http, later: int)
    ensures var r := Serve(entries, url, now, http, later).result;
      r.Success? || r == Failure(FetchFailedMessage)
  {
  }

  /**
   * Two calls for an uncached URL, the second within an hour of the first's
   * successful fetch, send exactly one request: the second is served from the
   * cache with the same count.
   */
  lemma RepeatWithinHourIsServedFromCache(entries: map<string, Entry>, url: string, now: int, http: Http, later: int,
                                          now2: int, http2: Http, later2: int)
    requires Lookup(entries, url, now).None?
    requires FetchCitationCount(url, http).Success?
    requires later <= now2 < later + CacheDuration
    ensures var s1 := Serve(entries, url, now, http, later);
      var s2 := Serve(s1.entries, url, now2, http2, later2);
      && s2 == Served(s1.result, s1.entries, [])
      && s1.requests + s2.requests == [url]
  {
  }

  /** An entry stamped 59 minutes ago is served; one stamped 61 minutes ago is fetched again. */
  lemma FiftyNineServedSixtyOneRefetched(entries: map<string, Entry>, url: string, count: nat, now: int, http: Http, later: int)
    requires url != ""
    ensures var young := entries[url := Entry(count, now - 59 * 60 * 1000)];
      Serve(young, url, now, http, later) == Served(Success(count), young, [])
    ensures var stale := entries[url := Entry(count, now - 61 * 60 * 1000)];
      Serve(stale, url, now, http, later).requests == [url]
  {
  }

  /** The reply to a `fetchCitations` request is a count or the generic error. */
  lemma ReplyShape(entries: map<string, Entry>, url: string, now: int, http: Http, later: int)
    ensures var reply := ToReply(Serve(entries, url, now, http, later).result);
      reply.CountReply? || reply == ErrorReply(FetchFailedMessage)
  {
  }

  /** The module-level cache of the background context, with its listener. */
  class CitationCache {
    var entries: map<string, Entry>
    /** The URLs handed to the network so far, in order. */
    ghost var requests: seq<string>

    constructor()
      ensures entries == map[] && requests == []
    {
      entries := map[];
      requests := [];
    }

    /** `cleanExpiredCache`: deletes every entry at least one hour old. */
    method CleanExpiredCache(now: int)
      modifies this`entries
      ensures entries == Swept(old(entries), now)
    {
      var pending := entries.Keys;
      while pending != {}
        invariant pending <= old(entries).Keys
        invariant forall url :: url in entries <==>
          url in old(entries) && (url in pending || Fresh(old(entries)[url], now))
        invariant forall url :: url in entries ==> entries[url] == old(entries)[url]
        decreases pending
      {
        var url :| url in pending;
        if now - entries[url].timestamp >= CacheDuration {
          entries := entries - {url};
        }
        pending := pending - {url};
      }
    }

    /** `getCachedOrFetchCitationCount`. */
    method GetCachedOrFetchCitationCount(url: string, now: int, http: Http, later: int)
      returns (r: Result<nat, string>)
      modifies this
      ensures var s := Serve(old(entries), url, now, http, later);
        r == s.result && entries == s.entries && requests == old(requests) + s.requests
    {
      if url in entries && now - entries[url].timestamp < CacheDuration {
        return Success(entries[url].count);
      }
      if url != "" {
        requests := requests + [url];
      }
      r := FetchCitationCount(url, http);
      if r.Failure? {
        return;
      }
      entries := entries[url := Entry(r.value, later)];
      CleanExpiredCache(later);
    }

    /** The `onMessage` listener: answers `fetchCitations` requests only. */
    method OnMessage(request: Request, now: int, http: Http, later: int) returns (reply: Option<Reply>)
      modifies this
      ensures request.action != FetchAction ==>
        reply == None && entries == old(entries) && requests == old(requests)
      ensures request.action == FetchAction ==>
        var s := Serve(old(entries), request.scholarUrl, now, http, later);
        reply == Some(ToReply(s.result)) && entries == s.entries && requests == old(requests) + s.requests
    {
      if request.action == FetchAction {
        var r := GetCachedOrFetchCitationCount(request.scholarUrl, now, http, later);
        reply := Some(ToReply(r));
      } else {
        reply := None;
      }
    }
  }
}
