/**
 * The entry point of scraper.py (`get_vinyl_data`): answer from the cache
 * when it holds a fresh payload for the exact query; otherwise assemble an
 * envelope from the three sources' outcomes and cache it only when at least
 * one source produced something.
 *
 * The sources are passed in as their outcomes (None for "no data"); on a
 * cache hit they are not looked at.  The clock is passed in as the reading
 * taken by the cache read, the one taken by the cache write, and the
 * formatted generation time stored in the envelope.
 */
module Aggregator {
  import opened Wrappers
  import opened Cache
  import Discogs
  import Ebay
  import Popsike

  datatype Envelope = Envelope(
    query: string,
    discogs: Option<Discogs.Release>,
    ebay: Option<Ebay.EbayResult>,
    popsike: Option<Popsike.PopsikeResult>,
    timestamp: string)

  /** What the three sources returned on one fetch cycle. */
  datatype Sources = Sources(
    discogs: Option<Discogs.Release>,
    ebay: Option<Ebay.EbayResult>,
    popsike: Option<Popsike.PopsikeResult>)

  /** At least one source returned something. */
  predicate AnyData(src: Sources) {
    src.discogs.Some? || src.ebay.Some? || src.popsike.Some?
  }

  /** The answer and the cache document after one call. */
  datatype Outcome = Outcome(result: Envelope, entries: map<string, Entry<Envelope>>, readable: bool)

  /** One call of the entry point, as a function of the cache document before it. */
  function Resolve(
    entries: map<string, Entry<Envelope>>, readable: bool,
    query: string, readAt: int, writeAt: int, stamp: string, src: Sources): Outcome
  {
    match Lookup(Loaded(entries, readable), query, readAt)
    case Some(cached) => Outcome(cached, entries, readable)
    case None =>
      var env := Envelope(query, src.discogs, src.ebay, src.popsike, stamp);
      if AnyData(src) then Outcome(env, Stored(Loaded(entries, readable), query, env, writeAt), true)
      else Outcome(env, entries, readable)
  }

  /** A fresh cached payload is returned unchanged, the sources are ignored and the cache is untouched. */
  lemma ResolveHit(
    entries: map<string, Entry<Envelope>>, readable: bool,
    query: string, readAt: int, writeAt: int, stamp: string, src: Sources)
    requires readable && query in entries && readAt - entries[query].storedAt < TtlMicros
    ensures Resolve(entries, readable, query, readAt, writeAt, stamp, src)
         == Outcome(entries[query].data, entries, readable)
  {
  }

  /**
   * On a miss the envelope carries the query and the three outcomes, and it
   * is written under the query exactly when some source returned something;
   * otherwise the cache is left as it was.  Read back at the moment of the
   * write, the query hits exactly when some source returned something.
   */
  lemma ResolveMiss(
    entries: map<string, Entry<Envelope>>, readable: bool,
    query: string, readAt: int, writeAt: int, stamp: string, src: Sources)
    requires Lookup(Loaded(entries, readable), query, readAt).None?
    ensures var o := Resolve(entries, readable, query, readAt, writeAt, stamp, src);
      && o.result == Envelope(query, src.discogs, src.ebay, src.popsike, stamp)
      && (AnyData(src) ==> o.readable && o.entries == Loaded(entries, readable)[query := Entry(writeAt, o.result)])
      && (!AnyData(src) ==> o.entries == entries && o.readable == readable)
      && (readAt <= writeAt ==> (Lookup(Loaded(o.entries, o.readable), query, writeAt).Some? <==> AnyData(src)))
  {
    var m := Loaded(entries, readable);
    if readAt <= writeAt && !AnyData(src) && Lookup(m, query, writeAt).Some? {
      FreshEarlier(m, query, readAt, writeAt);
    }
  }

  /** Every cached payload is filed under its own query. */
  ghost predicate WellKeyed(entries: map<string, Entry<Envelope>>, readable: bool) {
    var m := Loaded(entries, readable);
    forall k :: k in m ==> m[k].data.query == k
  }

  /** The answer always carries the query asked, and the cache stays well keyed. */
  lemma ResolveAnswersQuery(
    entries: map<string, Entry<Envelope>>, readable: bool,
    query: string, readAt: int, writeAt: int, stamp: string, src: Sources)
    requires WellKeyed(entries, readable)
    ensures var o := Resolve(entries, readable, query, readAt, writeAt, stamp, src);
      o.result.query == query && WellKeyed(o.entries, o.readable)
  {
  }

  /**
   * A call that fetched something, repeated less than ten minutes after its
   * cache write, returns the same payload whatever the sources would say now.
   */
  lemma RepeatWithinTtl(
    entries: map<string, Entry<Envelope>>, readable: bool,
    query: string, readAt: int, writeAt: int, stamp: string, src: Sources,
    readAt2: int, writeAt2: int, stamp2: string, src2: Sources)
    requires Lookup(Loaded(entries, readable), query, readAt).None? && AnyData(src)
    requires readAt2 - writeAt < TtlMicros
    ensures var o := Resolve(entries, readable, query, readAt, writeAt, stamp, src);
      var o2 := Resolve(o.entries, o.readable, query, readAt2, writeAt2, stamp2, src2);
      o2.result == o.result && o2.entries == o.entries && o2.readable == o.readable
  {
    var o := Resolve(entries, readable, query, readAt, writeAt, stamp, src);
    ReadAfterWrite(Loaded(entries, readable), query, o.result, writeAt, readAt2);
  }

  /**
   * A call on which every source failed leaves nothing behind: a later call
   * misses again and fetches afresh.
   */
  lemma TotalFailureNotCached(
    entries: map<string, Entry<Envelope>>, readable: bool,
    query: string, readAt: int, writeAt: int, stamp: string, src: Sources,
    readAt2: int, writeAt2: int, stamp2: string, src2: Sources)
    requires Lookup(Loaded(entries, readable), query, readAt).None? && !AnyData(src)
    requires readAt <= readAt2
    ensures var o := Resolve(entries, readable, query, readAt, writeAt, stamp, src);
      var o2 := Resolve(o.entries, o.readable, query, readAt2, writeAt2, stamp2, src2);
      o2.result == Envelope(query, src2.discogs, src2.ebay, src2.popsike, stamp2)
  {
    var m := Loaded(entries, readable);
    if Lookup(m, query, readAt2).Some? {
      FreshEarlier(m, query, readAt, readAt2);
    }
  }

  /** `get_vinyl_data` over the cache object. */
  method GetVinylData(
    cache: QueryCache<Envelope>,
    query: string, readAt: int, writeAt: int, stamp: string, src: Sources)
    returns (r: Envelope)
    modifies cache
    ensures var o := Resolve(old(cache.entries), old(cache.readable), query, readAt, writeAt, stamp, src);
      r == o.result && cache.entries == o.entries && cache.readable == o.readable
  {
    var cached := cache.Get(query, readAt);
    if cached.Some? {
      return cached.value;
    }
    r := Envelope(query, src.discogs, src.ebay, src.popsike, stamp);
    if src.discogs.Some? || src.ebay.Some? || src.popsike.Some? {
      cache.Save(query, r, writeAt);
    }
  }
}
