/**
 Properties of the store's three transitions: code freshness, the
 insert/lookup round trip, the shared 24-hour boundary, and exactly what the
 sweep removes.
 */
module StoreProperties {
  import opened Decimal
  import opened UrlStore

  /** The initial state satisfies the code invariant. */
  lemma InitValid()
    ensures Valid(Init()) && Init().counter == 0 && |Init().urls| == 0
  {
  }

  /**
   The code `shortenURL` issues is not already in use, and issuing it keeps
   the invariant: it is the rendering of the new counter value, which no
   stored code reaches.
   */
  lemma ShortenIssuesFreshCode(s: Store, url: string, now: Time)
    requires Valid(s)
    ensures ShortenUrl(s, url, now).code !in s.urls
    ensures Valid(ShortenUrl(s, url, now).store)
  {
  }

  /** Successive calls hand out strictly increasing numbers, hence different codes. */
  lemma SuccessiveCodesIncrease(s: Store, url1: string, now1: Time, url2: string, now2: Time)
    ensures var a := ShortenUrl(s, url1, now1);
            var b := ShortenUrl(a.store, url2, now2);
            ParseDecimal(a.code) < ParseDecimal(b.code) && a.code != b.code
  {
  }

  /** Lookup keeps the invariant: it only ever deletes and never moves the counter. */
  lemma GetOriginalUrlPreservesValid(s: Store, code: Code, now: Time)
    requires Valid(s)
    ensures Valid(GetOriginalUrl(s, code, now).store)
  {
  }

  /** The sweep keeps the invariant. */
  lemma SweepPreservesValid(s: Store, now: Time)
    requires Valid(s)
    ensures Valid(Sweep(s, now).store)
  {
  }

  /**
   Round trip: right after `shortenURL(u)` at `created`, a lookup of the
   returned code at any `now` no more than 24 hours later yields `(u, true)`
   and changes nothing; any later than that yields `("", false)` and deletes
   the code.
   */
  lemma ShortenThenGet(s: Store, url: string, created: Time, now: Time)
    ensures var a := ShortenUrl(s, url, created);
            var b := GetOriginalUrl(a.store, a.code, now);
            && (now - created <= ExpiryThreshold ==> b.found && b.url == url && b.store == a.store)
            && (now - created > ExpiryThreshold ==> !b.found && b.url == "" && a.code !in b.store.urls)
  {
  }

  /** An entry exactly 24 hours old is still served; one nanosecond later it is gone. */
  lemma ExpiryBoundary(s: Store, code: Code, now: Time)
    requires code in s.urls && now - s.urls[code].createdAt == ExpiryThreshold
    ensures GetOriginalUrl(s, code, now).found
    ensures GetOriginalUrl(s, code, now).url == s.urls[code].originalUrl
    ensures !GetOriginalUrl(s, code, now + 1).found
    ensures code in Sweep(s, now).store.urls && code !in Sweep(s, now + 1).store.urls
  {
  }

  /** The sweep keeps exactly the live entries, unchanged, and leaves the counter alone. */
  lemma SweepKeepsExactlyLive(s: Store, now: Time)
    ensures Sweep(s, now).store.counter == s.counter
    ensures forall k :: k in Sweep(s, now).store.urls <==> k in s.urls && Live(s.urls[k], now)
    ensures forall k :: k in Sweep(s, now).store.urls ==> Sweep(s, now).store.urls[k] == s.urls[k]
  {
  }

  /** The count the sweep reports is the number of entries it took out of the map. */
  lemma SweepCountsRemoved(s: Store, now: Time)
    ensures Sweep(s, now).removed == |s.urls| - |Sweep(s, now).store.urls|
  {
    var kept := Sweep(s, now).store.urls;
    assert s.urls.Keys - kept.Keys == ExpiredCodes(s, now);
    assert kept.Keys <= s.urls.Keys;
    assert |s.urls.Keys - kept.Keys| == |s.urls.Keys| - |kept.Keys|;
  }

  /** A second sweep at the same instant removes nothing and changes nothing. */
  lemma SweepIdempotent(s: Store, now: Time)
    ensures Sweep(Sweep(s, now).store, now) == Swept(Sweep(s, now).store, 0)
  {
  }

  /**
   Lookup and sweep classify every entry alike at the same instant: a code
   survives the sweep exactly when a lookup would return it as live.
   */
  lemma SweepAgreesWithLookup(s: Store, code: Code, now: Time)
    ensures code in Sweep(s, now).store.urls <==> GetOriginalUrl(s, code, now).found
  {
  }

  /** A lookup answers the same before and after a sweep at the same instant. */
  lemma GetOriginalUrlAfterSweep(s: Store, code: Code, now: Time)
    ensures var before := GetOriginalUrl(s, code, now);
            var after := GetOriginalUrl(Sweep(s, now).store, code, now);
            after.found == before.found && after.url == before.url
  {
  }

  /** Lazy deletion by a lookup never leaves the sweep anything different to do. */
  lemma SweepAfterGetOriginalUrl(s: Store, code: Code, now: Time)
    ensures Sweep(GetOriginalUrl(s, code, now).store, now).store == Sweep(s, now).store
  {
  }
}
