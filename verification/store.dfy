/**
 The in-memory short-code store: a map from short code to entry plus the
 counter that issues codes. Every operation of the store runs under one
 mutex, so each is modelled as a single atomic transition over an immutable
 `Store` value. The wall clock is an explicit argument `now`, in nanoseconds.
 */
module UrlStore {
  import opened Decimal

  type Code = string

  /** A reading of the process clock, in nanoseconds. */
  type Time = int

  /** Go's `time.Duration`: a signed 64-bit count of nanoseconds. */
  type Duration = int

  const MinDuration: Duration := -0x8000_0000_0000_0000
  const MaxDuration: Duration := 0x7fff_ffff_ffff_ffff

  const Second: Duration := 1_000_000_000
  const Hour: Duration := 3600 * Second

  /** Entries older than this are expired; an entry exactly this old is still live. */
  const ExpiryThreshold: Duration := 24 * Hour

  datatype Entry = Entry(originalUrl: string, createdAt: Time)

  datatype Store = Store(urls: map<Code, Entry>, counter: nat)

  /** Result of `shortenURL`: the new state and the code handed back. */
  datatype Shortened = Shortened(store: Store, code: Code)

  /** Result of `getOriginalURL`: the new state and the `(url, found)` pair. */
  datatype Resolved = Resolved(store: Store, url: string, found: bool)

  /** Result of `cleanupExpiredURLs`: the new state and the count it logs. */
  datatype Swept = Swept(store: Store, removed: nat)

  /** The state at process start: no entries, counter zero. */
  function Init(): Store {
    Store(map[], 0)
  }

  /**
   `t.Sub(u)` of Go's time package: the difference as a Duration, saturated
   to the smallest or largest Duration when it does not fit in 64 bits.
   */
  function Sub(t: Time, u: Time): Duration {
    if t - u < MinDuration then MinDuration
    else if t - u > MaxDuration then MaxDuration
    else t - u
  }

  /** The expiry test the code applies, both in lookup and in the sweep. */
  predicate Expired(e: Entry, now: Time) {
    Sub(now, e.createdAt) > ExpiryThreshold
  }

  /** The intended meaning: the entry's true age is at most 24 hours. */
  predicate Live(e: Entry, now: Time) {
    now - e.createdAt <= ExpiryThreshold
  }

  /** Saturating the difference never changes the verdict of the strict `>` test. */
  lemma ExpiredIffNotLive(e: Entry, now: Time)
    ensures Expired(e, now) <==> !Live(e, now)
  {
  }

  /**
   Every stored code is the canonical decimal rendering of a number the
   counter has already passed: between 1 and the counter, inclusive.
   */
  ghost predicate Valid(s: Store) {
    forall k :: k in s.urls ==> IsNumeral(k) && 1 <= ParseDecimal(k) <= s.counter
  }

  /** `shortenURL`: bump the counter, render it in decimal, store the entry under it. */
  function ShortenUrl(s: Store, url: string, now: Time): (r: Shortened)
    ensures r.store.counter == s.counter + 1
    ensures IsNumeral(r.code) && ParseDecimal(r.code) == r.store.counter
    ensures r.code in r.store.urls && r.store.urls[r.code] == Entry(url, now)
    ensures forall k :: k != r.code ==> (k in r.store.urls <==> k in s.urls)
    ensures forall k :: k != r.code && k in s.urls ==> r.store.urls[k] == s.urls[k]
  {
    var counter := s.counter + 1;
    var code := NatToDecimal(counter);
    ParseNatToDecimal(counter);
    Shortened(Store(s.urls[code := Entry(url, now)], counter), code)
  }

  /**
   `getOriginalURL`: look a code up; an entry found expired is deleted on the
   spot. A missing code and an expired one give the same `("", false)`.
   */
  function GetOriginalUrl(s: Store, code: Code, now: Time): (r: Resolved)
    ensures r.store.counter == s.counter
    ensures r.found <==> code in s.urls && Live(s.urls[code], now)
    ensures r.found ==> r.url == s.urls[code].originalUrl
    ensures !r.found ==> r.url == ""
    ensures code !in s.urls ==> r.store == s
    ensures code in s.urls && Live(s.urls[code], now) ==> r.store == s
    ensures code in s.urls && !Live(s.urls[code], now) ==> r.store.urls == s.urls - {code}
  {
    if code !in s.urls then Resolved(s, "", false)
    else
      var entry := s.urls[code];
      ExpiredIffNotLive(entry, now);
      if Expired(entry, now) then Resolved(Store(s.urls - {code}, s.counter), "", false)
      else Resolved(s, entry.originalUrl, true)
  }

  /** The codes a sweep at `now` deletes. */
  function ExpiredCodes(s: Store, now: Time): set<Code> {
    set k | k in s.urls && Expired(s.urls[k], now)
  }

  /**
   Reference definition of `cleanupExpiredURLs`: keep the entries that pass
   the expiry test and count the ones that fail it.
   */
  function Sweep(s: Store, now: Time): Swept {
    var kept := map k | k in s.urls && !Expired(s.urls[k], now) :: s.urls[k];
    Swept(Store(kept, s.counter), |ExpiredCodes(s, now)|)
  }

  /** Deleting one more present key from `kept` grows the set of deleted keys by one. */
  lemma RemovingOneMoreKey<K>(all: set<K>, kept: set<K>, k: K)
    requires kept <= all && k in kept
    ensures |all - (kept - {k})| == |all - kept| + 1
  {
  }

  /**
   A map obtained from `s.urls` by deleting exactly the entries that fail the
   expiry test is the sweep's map, and holds exactly the live entries.
   */
  lemma SweptMapIsSweep(s: Store, now: Time, urls: map<Code, Entry>)
    requires urls.Keys <= s.urls.Keys
    requires forall k :: k in urls ==> urls[k] == s.urls[k]
    requires forall k :: k in s.urls ==> (k in urls <==> !Expired(s.urls[k], now))
    ensures urls == Sweep(s, now).store.urls
    ensures s.urls.Keys - urls.Keys == ExpiredCodes(s, now)
    ensures forall k :: k in urls <==> k in s.urls && Live(s.urls[k], now)
  {
  }

  /**
   `cleanupExpiredURLs` as the source writes it: range over the map, delete
   each entry found expired and count the deletions. The iteration order is
   arbitrary, as it is for a Go map.
   */
  method CleanupExpiredUrls(s: Store, now: Time) returns (r: Swept)
    ensures r.store.counter == s.counter
    ensures forall k :: k in r.store.urls <==> k in s.urls && Live(s.urls[k], now)
    ensures forall k :: k in r.store.urls ==> r.store.urls[k] == s.urls[k]
    ensures r.removed == |s.urls.Keys - r.store.urls.Keys|
    ensures r == Sweep(s, now)
  {
    var urls := s.urls;
    var pending := s.urls.Keys;
    var count := 0;
    while pending != {}
      invariant pending <= urls.Keys <= s.urls.Keys
      invariant forall k :: k in urls ==> urls[k] == s.urls[k]
      invariant forall k :: k in s.urls && k !in pending ==> (k in urls <==> !Expired(s.urls[k], now))
      invariant count == |s.urls.Keys - urls.Keys|
      decreases pending
    {
      var code :| code in pending;
      if Expired(urls[code], now) {
        RemovingOneMoreKey(s.urls.Keys, urls.Keys, code);
        urls := urls - {code};
        count := count + 1;
      }
      pending := pending - {code};
    }
    SweptMapIsSweep(s, now, urls);
    r := Swept(Store(urls, s.counter), count);
  }
}
