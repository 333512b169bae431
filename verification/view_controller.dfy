/** The visitor counter behind `/api/viewers`: deriving the client address from the
    request (`createViewers`), saving an address that `findOne` does not find, and
    reporting how many documents are stored (`getViewers`). The database collection is a multiset of addresses. */
module ViewController {
  import opened Wrappers
  import opened Text

  const Loopback6: string := "::1"
  const Loopback4: string := "127.0.0.1"

  /** A request header or `request.ip`; JavaScript treats a missing value and `""` alike. */
  predicate Present(v: Option<string>) {
    v.Some? && |v.value| > 0
  }

  /** The first hop of an `x-forwarded-for` list: `split(",")[0].trim()`, the text before
      the first comma (all of it when there is none) with its white space trimmed. */
  function FirstHop(forwarded: string): (r: string)
    ensures IsTrimmed(r) && ',' !in r
    ensures forall k :: 0 <= k <= |forwarded| && ',' !in forwarded[..k] && (k == |forwarded| || forwarded[k] == ',') ==>
              r == Trim(forwarded[..k])
  {
    var first := Split(forwarded, ',')[0];
    TrimNoNew(first, ',');
    assert forall k :: 0 <= k <= |forwarded| && ',' !in forwarded[..k] && (k == |forwarded| || forwarded[k] == ',') ==>
             first == forwarded[..k] by {
      forall k | 0 <= k <= |forwarded| && ',' !in forwarded[..k] && (k == |forwarded| || forwarded[k] == ',')
        ensures first == forwarded[..k]
      {
        SplitFirst(forwarded, ',', k);
      }
    }
    Trim(first)
  }

  /** The IPv6 loopback is rewritten to the IPv4 one; every other address is kept. */
  function Normalize(ip: string): (r: string)
    ensures r != Loopback6
    ensures ip != Loopback6 ==> r == ip
  {
    if ip == Loopback6 then Loopback4 else ip
  }

  /** The address a visit is recorded under. */
  function ClientIp(forwarded: Option<string>, requestIp: Option<string>): (r: string)
    ensures r != Loopback6
    ensures Present(forwarded) ==> r == Normalize(FirstHop(forwarded.value)) && ',' !in r
    ensures !Present(forwarded) && Present(requestIp) ==> r == Normalize(requestIp.value)
    ensures !Present(forwarded) && !Present(requestIp) ==> r == Loopback4
  {
    var ip := if Present(forwarded) then FirstHop(forwarded.value)
              else if Present(requestIp) then requestIp.value
              else Loopback6;
    Normalize(ip)
  }

  /** With a forwarded list, only its first hop counts: the trimmed text before the first
      comma (or the whole header when it has none), whatever follows it and whatever
      address the connection came from. */
  lemma ForwardedFirstHopWins(forwarded: string, k: nat, a: Option<string>, b: Option<string>)
    requires |forwarded| > 0 && k <= |forwarded| && ',' !in forwarded[..k]
    requires k == |forwarded| || forwarded[k] == ','
    ensures ClientIp(Some(forwarded), a) == ClientIp(Some(forwarded), b)
    ensures ClientIp(Some(forwarded), a) == Normalize(Trim(forwarded[..k]))
  {
  }

  /** A header whose first hop is blank yields the empty address, which the schema
      refuses: the visit is answered with status 500 and nothing is stored. */
  lemma BlankFirstHopRejected(store: Store, a: Option<string>)
    requires Storable(store)
    ensures ClientIp(Some(", 10.0.0.1"), a) == ""
    ensures Record(store, ClientIp(Some(", 10.0.0.1"), a)) == (store, Rejected)
  {
    assert ", 10.0.0.1"[..0] == "";
  }

  /** Without a forwarded list, the request's own address is used, else the loopback. */
  lemma FallsBackToRequestIp(requestIp: Option<string>)
    ensures Present(requestIp) ==> ClientIp(None, requestIp) == Normalize(requestIp.value)
    ensures !Present(requestIp) ==> ClientIp(None, requestIp) == Loopback4
  {
  }

  /** The `views` collection: one document per save. The schema declares no unique index
      on `ip`, so nothing stops one address from being stored twice. */
  type Store = multiset<string>

  /** `viewModel.findOne({ ip })`: whether a document of that address is stored. */
  predicate Lookup(store: Store, ip: string) {
    ip in store
  }

  /** `new viewModel({ ip }).save()`: one more document, for that address. The schema
      marks `ip` as required, so an empty address fails validation. */
  function Save(store: Store, ip: string): (r: Option<Store>)
    ensures r.None? <==> ip == ""
    ensures r.Some? ==> r.value[ip] == store[ip] + 1 && forall v :: v != ip ==> r.value[v] == store[v]
  {
    if ip == "" then None else Some(store + multiset{ip})
  }

  /** The answer to a visit: `existing: true` or `existing: false` with status 200, or
      status 500 when the save failed. */
  datatype Answer = Existing | Added | Rejected

  function Status(a: Answer): int {
    if a == Rejected then 500 else 200
  }

  /** A store the schema admits: no document has an empty address. */
  predicate Storable(store: Store) {
    "" !in store
  }

  /** One visit that runs to completion before the next begins: `findOne`, then `save`
      when nothing was found. The result holds the store after the visit and the answer. */
  function Record(store: Store, ip: string): (r: (Store, Answer))
    ensures r.1 == Existing <==> ip in store
    ensures r.1 == Rejected <==> ip !in store && ip == ""
    ensures r.1 != Added ==> r.0 == store
    ensures r.1 == Added ==> r.0[ip] == 1 && forall v :: v != ip ==> r.0[v] == store[v]
    ensures Storable(store) ==> Storable(r.0)
  {
    if Lookup(store, ip) then (store, Existing)
    else match Save(store, ip)
      case None => (store, Rejected)
      case Some(saved) => (saved, Added)
  }

  /** `countDocuments()`. */
  function ViewCount(store: Store): nat {
    |store|
  }

  /** A visit adds one to the count exactly when the address is new. */
  lemma RecordCount(store: Store, ip: string)
    ensures ViewCount(Record(store, ip).0) == ViewCount(store) + (if ip in store || ip == "" then 0 else 1)
  {
  }

  /** The store after a series of visits, one after the other. */
  function RecordAll(store: Store, visits: seq<string>): (r: Store)
    ensures store <= r
    decreases |visits|
  {
    if |visits| == 0 then store else RecordAll(Record(store, visits[0]).0, visits[1..])
  }

  /** Every address is stored at most once. */
  predicate Unique(store: Store) {
    forall v :: v in store ==> store[v] == 1
  }

  /** The addresses stored. */
  function Addresses(store: Store): set<string> {
    set v | v in store
  }

  /** The non-empty addresses among `visits`. */
  function Visitors(visits: seq<string>): set<string> {
    set v | v in visits && v != ""
  }

  /** A series of visits adds exactly the non-empty addresses seen, stores none of them
      twice, and never stores the empty address. */
  lemma {:induction false} RecordsEveryVisitor(store: Store, visits: seq<string>)
    ensures Addresses(RecordAll(store, visits)) == Addresses(store) + Visitors(visits)
    ensures Unique(store) ==> Unique(RecordAll(store, visits))
    ensures Storable(store) ==> Storable(RecordAll(store, visits))
    decreases |visits|
  {
    if |visits| > 0 {
      var next := Record(store, visits[0]).0;
      RecordsEveryVisitor(next, visits[1..]);
      if visits[0] == "" && "" !in store {
        assert Addresses(next) == Addresses(store);
      } else {
        assert Addresses(next) == Addresses(store) + {visits[0]};
      }
      assert Visitors(visits) == (if visits[0] == "" then {} else {visits[0]}) + Visitors(visits[1..]);
    }
  }

  /** A store without repeats holds one document per address. */
  lemma {:induction false} UniqueCount(store: Store)
    requires Unique(store)
    ensures |store| == |Addresses(store)|
    decreases |store|
  {
    if |store| > 0 {
      var v :| v in store;
      var rest := store - multiset{v};
      assert Unique(rest);
      UniqueCount(rest);
      assert Addresses(store) == Addresses(rest) + {v};
      assert v !in Addresses(rest);
    }
  }

  /** Starting from an empty store, with visits handled one after the other, the count is
      the number of distinct non-empty addresses seen, which is never more than the
      number of visits. */
  lemma CountsDistinctVisitors(visits: seq<string>)
    ensures ViewCount(RecordAll(multiset{}, visits)) == |Visitors(visits)|
    ensures ViewCount(RecordAll(multiset{}, visits)) <= |visits|
  {
    RecordsEveryVisitor(multiset{}, visits);
    assert Addresses(multiset{}) == {};
    UniqueCount(RecordAll(multiset{}, visits));
    DistinctAtMostLength(visits);
  }

  /** A sequence has no more distinct non-empty elements than positions. */
  lemma {:induction false} DistinctAtMostLength(visits: seq<string>)
    ensures |Visitors(visits)| <= |visits|
    decreases |visits|
  {
    if |visits| > 0 {
      var rest := Visitors(visits[1..]);
      DistinctAtMostLength(visits[1..]);
      if visits[0] == "" || visits[0] in rest {
        assert Visitors(visits) == rest;
      } else {
        assert Visitors(visits) == rest + {visits[0]};
      }
    }
  }

  /** Visiting twice from the same address, one visit after the other, counts once: the
      second visit changes nothing, and reports a non-empty address as existing. */
  lemma RepeatVisitIgnored(store: Store, ip: string)
    ensures Record(Record(store, ip).0, ip).0 == Record(store, ip).0
    ensures ip != "" ==> Record(Record(store, ip).0, ip).1 == Existing
  {
  }

  /** Two overlapping visits from a new address, both `findOne` calls answering before
      either `save`, both find nothing and both save: the address is stored twice and the
      count grows by two for one visitor. */
  lemma OverlappingVisitsStoreTwice(store: Store, ip: string)
    requires !Lookup(store, ip) && ip != ""
    ensures var after := Save(Save(store, ip).value, ip);
            after.Some? && after.value[ip] == 2 && !Unique(after.value)
            && ViewCount(after.value) == ViewCount(store) + 2
  {
  }
}
