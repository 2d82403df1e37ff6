/**
 * The query cache of scraper.py: a document mapping each exact query string to
 * the time it was stored and the payload stored with it.  An entry is fresh
 * while less than ten minutes have passed since it was stored; stale entries
 * are never deleted, only overwritten by the next write for the same key.  A
 * backing document that does not parse is read as an empty cache.
 *
 * Clock readings are passed in as integers counting microseconds, the
 * resolution of the timestamps the source stores.
 */
module Cache {
  import opened Wrappers

  /** Ten minutes, in microseconds. */
  const TtlMicros: int := 10 * 60 * 1000000

  datatype Entry<T> = Entry(storedAt: int, data: T)

  /** The freshness test of the read path: `now - stored < 10 minutes`. */
  predicate IsFresh<T>(e: Entry<T>, now: int) {
    now - e.storedAt < TtlMicros
  }

  /** The entries a reader or writer starts from: an unparseable document counts as empty. */
  function Loaded<T>(entries: map<string, Entry<T>>, readable: bool): map<string, Entry<T>> {
    if readable then entries else map[]
  }

  /** What a read of `key` at time `now` returns. */
  function Lookup<T>(entries: map<string, Entry<T>>, key: string, now: int): Option<T> {
    if key in entries && IsFresh(entries[key], now) then Some(entries[key].data) else None
  }

  /** The entries after a write of `data` under `key` at time `now`. */
  function Stored<T>(entries: map<string, Entry<T>>, key: string, data: T, now: int): map<string, Entry<T>> {
    entries[key := Entry(now, data)]
  }

  /** A read returns the stored payload exactly when the key is present and not yet ten minutes old. */
  lemma LookupSpec<T>(entries: map<string, Entry<T>>, key: string, now: int)
    ensures Lookup(entries, key, now).Some? <==> key in entries && now - entries[key].storedAt < TtlMicros
    ensures Lookup(entries, key, now).Some? ==> Lookup(entries, key, now).value == entries[key].data
  {
  }

  /** Reading a key just written, at any time less than ten minutes later, returns what was written. */
  lemma ReadAfterWrite<T>(entries: map<string, Entry<T>>, key: string, data: T, writtenAt: int, now: int)
    ensures now - writtenAt < TtlMicros ==> Lookup(Stored(entries, key, data, writtenAt), key, now) == Some(data)
    ensures now - writtenAt >= TtlMicros ==> Lookup(Stored(entries, key, data, writtenAt), key, now) == None
  {
  }

  /** A write touches its own key only: every other key keeps its entry and reads as before. */
  lemma WriteLeavesOtherKeys<T>(entries: map<string, Entry<T>>, key: string, data: T, writtenAt: int, other: string, now: int)
    requires other != key
    ensures other in Stored(entries, key, data, writtenAt) <==> other in entries
    ensures other in entries ==> Stored(entries, key, data, writtenAt)[other] == entries[other]
    ensures Lookup(Stored(entries, key, data, writtenAt), other, now) == Lookup(entries, other, now)
  {
  }

  /** A write replaces the entry for its key, whatever was there before (stale or fresh). */
  lemma WriteOverwrites<T>(entries: map<string, Entry<T>>, key: string, data: T, writtenAt: int)
    ensures Stored(entries, key, data, writtenAt).Keys == entries.Keys + {key}
    ensures Stored(entries, key, data, writtenAt)[key] == Entry(writtenAt, data)
  {
  }

  /** An entry that reads as fresh at some time also reads as fresh at every earlier time. */
  lemma FreshEarlier<T>(entries: map<string, Entry<T>>, key: string, earlier: int, later: int)
    requires earlier <= later
    requires Lookup(entries, key, later).Some?
    ensures Lookup(entries, key, earlier) == Lookup(entries, key, later)
  {
  }

  /** The cache object: the parsed backing document, or a flag saying it is text that is not JSON. */
  class QueryCache<T> {
    var entries: map<string, Entry<T>>
    var readable: bool

    /** No backing document yet: reads as empty. */
    constructor Empty()
      ensures entries == map[] && readable
    {
      entries := map[];
      readable := true;
    }

    /** A backing document with the given contents, or one that does not parse. */
    constructor FromDocument(entries: map<string, Entry<T>>, readable: bool)
      ensures this.entries == entries && this.readable == readable
    {
      this.entries := entries;
      this.readable := readable;
    }

    /** `get_cached_data`: the payload for `key` if it is present and fresh; never changes the store. */
    method Get(key: string, now: int) returns (r: Option<T>)
      ensures r.Some? <==> readable && key in entries && now - entries[key].storedAt < TtlMicros
      ensures r.Some? ==> r.value == entries[key].data
      ensures r == Lookup(Loaded(entries, readable), key, now)
    {
      if readable && key in entries && IsFresh(entries[key], now) {
        r := Some(entries[key].data);
      } else {
        r := None;
      }
    }

    /** `save_to_cache`: store `(now, data)` under `key` over the loaded entries (empty when unparseable). */
    method Save(key: string, data: T, now: int)
      modifies this
      ensures readable
      ensures entries == Stored(Loaded(old(entries), old(readable)), key, data, now)
      ensures old(readable) ==> forall k :: k in old(entries) && k != key ==> k in entries && entries[k] == old(entries)[k]
    {
      var loaded := if readable then entries else map[];
      entries := loaded[key := Entry(now, data)];
      readable := true;
    }
  }
}
