/**
 The requirement ledger of the scheduler: for each ElasticSearch URL (the
 target a Kibana instance serves), the number of instances that should run.
 The ledger keeps an entry only while that number is strictly positive.
 */
module Ledger {

  /** The desired instance count of `url`, 0 when the ledger has no entry. */
  function Required(req: map<string, int>, url: string): int
  {
    if url in req then req[url] else 0
  }

  /** The ledger invariant: every entry is strictly positive. */
  predicate AllPositive(req: map<string, int>)
  {
    forall u :: u in req ==> req[u] > 0
  }

  /**
   Reference definition of a requirement change: the count of `url` moves
   by `amount` and the entry disappears once the count is no longer positive.
   */
  function Register(req: map<string, int>, url: string, amount: int): (r: map<string, int>)
    ensures AllPositive(req) ==> AllPositive(r)
    ensures url in r <==> Required(req, url) + amount > 0
    ensures Required(r, url) == if Required(req, url) + amount > 0 then Required(req, url) + amount else 0
    ensures forall u :: u != url ==> Required(r, u) == Required(req, u) && (u in r <==> u in req)
  {
    var n := Required(req, url) + amount;
    if n > 0 then req[url := n] else req - {url}
  }

  /** The ledger after one `+1` requirement per URL of `urls`, in order. */
  function RegisterEach(req: map<string, int>, urls: seq<string>): map<string, int>
  {
    if urls == [] then req
    else Register(RegisterEach(req, urls[..|urls| - 1]), urls[|urls| - 1], 1)
  }

  /**
   Registering one instance per listed URL raises each URL's count by the
   number of times it is listed, provided the ledger was well formed.
   */
  lemma {:induction false} RegisterEachCounts(req: map<string, int>, urls: seq<string>)
    requires AllPositive(req)
    ensures AllPositive(RegisterEach(req, urls))
    ensures forall u :: Required(RegisterEach(req, urls), u) == Required(req, u) + multiset(urls)[u]
  {
    if urls != [] {
      var init, last := urls[..|urls| - 1], urls[|urls| - 1];
      RegisterEachCounts(req, init);
      assert urls == init + [last];
      assert multiset(urls) == multiset(init) + multiset{last};
      forall u ensures Required(req, u) >= 0 {
      }
    }
  }
}
