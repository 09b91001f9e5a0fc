/**
 Runs of the store: any interleaving of shorten calls, lookups and sweeps,
 each taken atomically, as the mutex serialises them. The codes issued along
 a run are consecutive numbers, so no code is ever issued twice, even after
 its entry has been deleted.
 */
module Requests {
  import opened Decimal
  import opened UrlStore
  import opened StoreProperties

  /** One atomic step of the store, with the clock reading it sees. */
  datatype Request =
    | Shorten(url: string, now: Time)
    | Lookup(code: Code, now: Time)
    | Cleanup(now: Time)

  /** The state after a run and the codes handed out by its shorten calls, in order. */
  datatype Trace = Trace(store: Store, issued: seq<Code>)

  function Run(s: Store, reqs: seq<Request>): Trace
    decreases |reqs|
  {
    if |reqs| == 0 then Trace(s, [])
    else match reqs[0]
      case Shorten(url, now) =>
        var r := ShortenUrl(s, url, now);
        var t := Run(r.store, reqs[1..]);
        Trace(t.store, [r.code] + t.issued)
      case Lookup(code, now) => Run(GetOriginalUrl(s, code, now).store, reqs[1..])
      case Cleanup(now) => Run(Sweep(s, now).store, reqs[1..])
  }

  /** Every step keeps the code invariant. */
  lemma {:induction false} RunPreservesValid(s: Store, reqs: seq<Request>)
    requires Valid(s)
    ensures Valid(Run(s, reqs).store)
    decreases |reqs|
  {
    if |reqs| > 0 {
      match reqs[0]
      case Shorten(url, now) =>
        ShortenIssuesFreshCode(s, url, now);
        RunPreservesValid(ShortenUrl(s, url, now).store, reqs[1..]);
      case Lookup(code, now) =>
        GetOriginalUrlPreservesValid(s, code, now);
        RunPreservesValid(GetOriginalUrl(s, code, now).store, reqs[1..]);
      case Cleanup(now) =>
        SweepPreservesValid(s, now);
        RunPreservesValid(Sweep(s, now).store, reqs[1..]);
    }
  }

  /**
   The i-th code of a run is the rendering of the starting counter plus
   i + 1, and the counter ends advanced by exactly the number of codes issued:
   lookups and sweeps never touch it.
   */
  lemma {:induction false} RunIssuesConsecutiveCodes(s: Store, reqs: seq<Request>)
    ensures Run(s, reqs).store.counter == s.counter + |Run(s, reqs).issued|
    ensures forall i :: 0 <= i < |Run(s, reqs).issued| ==>
              Run(s, reqs).issued[i] == NatToDecimal(s.counter + 1 + i)
    decreases |reqs|
  {
    if |reqs| > 0 {
      match reqs[0]
      case Shorten(url, now) =>
        var r := ShortenUrl(s, url, now);
        RunIssuesConsecutiveCodes(r.store, reqs[1..]);
      case Lookup(code, now) =>
        RunIssuesConsecutiveCodes(GetOriginalUrl(s, code, now).store, reqs[1..]);
      case Cleanup(now) =>
        RunIssuesConsecutiveCodes(Sweep(s, now).store, reqs[1..]);
    }
  }

  /**
   No code is issued twice in a run, whatever lookups and sweeps delete in
   between, and none of them was in use when the run started.
   */
  lemma CodesNeverReissued(s: Store, reqs: seq<Request>)
    requires Valid(s)
    ensures forall i, j :: 0 <= i < j < |Run(s, reqs).issued| ==>
              Run(s, reqs).issued[i] != Run(s, reqs).issued[j]
    ensures forall i :: 0 <= i < |Run(s, reqs).issued| ==> Run(s, reqs).issued[i] !in s.urls
  {
    var issued := Run(s, reqs).issued;
    RunIssuesConsecutiveCodes(s, reqs);
    forall i, j | 0 <= i < j < |issued|
      ensures issued[i] != issued[j]
    {
      NatToDecimalInjective(s.counter + 1 + i, s.counter + 1 + j);
    }
    forall i | 0 <= i < |issued|
      ensures issued[i] !in s.urls
    {
      ParseNatToDecimal(s.counter + 1 + i);
    }
  }

  /** From a fresh process the codes issued are "1", "2", ..., in order. */
  lemma CodesFromStartAreOneToN(reqs: seq<Request>)
    ensures forall i :: 0 <= i < |Run(Init(), reqs).issued| ==>
              Run(Init(), reqs).issued[i] == NatToDecimal(i + 1)
  {
    RunIssuesConsecutiveCodes(Init(), reqs);
  }

  /**
   A concrete scenario: the first code is "1" and resolves at once; 25 hours
   later it has expired; the next code is still "2".
   */
  lemma ExpiredEntryDoesNotRewindCounter()
    ensures var a := ShortenUrl(Init(), "https://example.com", 0);
            var b := GetOriginalUrl(a.store, a.code, 0);
            var c := GetOriginalUrl(b.store, "1", 25 * Hour);
            var d := ShortenUrl(c.store, "https://other.com", 25 * Hour);
            && a.code == "1"
            && b.found && b.url == "https://example.com"
            && !c.found && c.url == ""
            && d.code == "2"
  {
  }
}
