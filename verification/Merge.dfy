/**
 Composition of responses: MergeAllResults folds protobuf's MergeFrom, in which a non-empty proto3
 string of the source overwrites the target's.
 */
module Merge {
  import opened Common

  /** The fields of SearchResponse. */
  datatype Field = NearbyCities | Population | Weather

  datatype Response = Response(nearbyCities: string, population: string, weather: string) {
    function Get(f: Field): string {
      match f
      case NearbyCities => nearbyCities
      case Population => population
      case Weather => weather
    }
  }

  const EMPTY := Response("", "", "")

  function Overwrite(target: string, source: string): string {
    if |source| != 0 then source else target
  }

  function Merged(target: Response, source: Response): Response {
    Response(
      Overwrite(target.nearbyCities, source.nearbyCities),
      Overwrite(target.population, source.population),
      Overwrite(target.weather, source.weather))
  }

  function MergeAll(results: seq<Response>): Response {
    if results == [] then EMPTY
    else Merged(MergeAll(results[..|results| - 1]), results[|results| - 1])
  }

  /** The message object that the generated code mutates. */
  class SearchResponse {
    var nearbyCities: string
    var population: string
    var weather: string

    function Value(): Response
      reads this
    {
      Response(nearbyCities, population, weather)
    }

    constructor ()
      ensures Value() == EMPTY
    {
      nearbyCities, population, weather := "", "", "";
    }

    method MergeFrom(other: SearchResponse)
      modifies this
      ensures Value() == Merged(old(Value()), old(other.Value()))
    {
      if |other.nearbyCities| != 0 {
        nearbyCities := other.nearbyCities;
      }
      if |other.population| != 0 {
        population := other.population;
      }
      if |other.weather| != 0 {
        weather := other.weather;
      }
    }
  }

  function Values(results: seq<SearchResponse>): (values: seq<Response>)
    reads results
    ensures |values| == |results|
  {
    seq(|results|, i requires 0 <= i < |results| reads results => results[i].Value())
  }

  /** A new message that holds the fold; the results themselves are left alone. */
  method MergeAllResults(results: seq<SearchResponse>) returns (result: SearchResponse)
    ensures fresh(result)
    ensures result.Value() == MergeAll(Values(results))
    ensures Values(results) == old(Values(results))
  {
    result := new SearchResponse();
    for k := 0 to |results|
      invariant fresh(result)
      invariant Values(results) == old(Values(results))
      invariant result.Value() == MergeAll(Values(results)[..k])
    {
      ghost var values := Values(results);
      result.MergeFrom(results[k]);
      assert Values(results) == values;
      assert values[..k + 1][..k] == values[..k];
    }
    assert Values(results)[..|results|] == Values(results);
  }

  /******* The algebra of the fold *******/

  lemma MergeFromField(a: Response, b: Response, f: Field)
    ensures Merged(a, b).Get(f) == Overwrite(a.Get(f), b.Get(f))
  {
  }

  lemma SameFields(a: Response, b: Response)
    requires forall f :: a.Get(f) == b.Get(f)
    ensures a == b
  {
    assert a.Get(NearbyCities) == b.Get(NearbyCities);
    assert a.Get(Population) == b.Get(Population);
    assert a.Get(Weather) == b.Get(Weather);
  }

  /** MergeFrom is associative with the empty message as identity, so the fold respects concatenation. */
  lemma {:induction false} MergeAllIsHomomorphism(a: seq<Response>, b: seq<Response>)
    ensures MergeAll(a + b) == Merged(MergeAll(a), MergeAll(b))
  {
    if b == [] {
      assert a + b == a;
    } else {
      var n := |b| - 1;
      assert (a + b)[..|a + b| - 1] == a + b[..n];
      MergeAllIsHomomorphism(a, b[..n]);
    }
  }

  /** Each field of the result is the last non-empty value in order. */
  lemma {:induction false} MergeAllTakesLast(results: seq<Response>, f: Field, i: nat)
    requires i < |results| && results[i].Get(f) != ""
    requires forall j :: i < j < |results| ==> results[j].Get(f) == ""
    ensures MergeAll(results).Get(f) == results[i].Get(f)
  {
    var n := |results| - 1;
    MergeFromField(MergeAll(results[..n]), results[n], f);
    if i < n {
      MergeAllTakesLast(results[..n], f, i);
    }
  }

  /** A field that no message sets stays empty. */
  lemma {:induction false} MergeAllStaysEmpty(results: seq<Response>, f: Field)
    requires forall i :: 0 <= i < |results| ==> results[i].Get(f) == ""
    ensures MergeAll(results).Get(f) == ""
  {
    if results == [] {
    } else {
      var n := |results| - 1;
      MergeFromField(MergeAll(results[..n]), results[n], f);
      MergeAllStaysEmpty(results[..n], f);
    }
  }

  lemma {:induction false} LastNonEmptyExists(results: seq<Response>, f: Field, k: nat) returns (i: nat)
    requires k < |results| && results[k].Get(f) != ""
    ensures i < |results| && results[i].Get(f) != ""
    ensures forall j :: i < j < |results| ==> results[j].Get(f) == ""
    decreases |results| - k
  {
    if j :| k < j < |results| && results[j].Get(f) != "" {
      i := LastNonEmptyExists(results, f, j);
    } else {
      i := k;
    }
  }

  /** A field is non-empty in the result exactly when it is in some message. */
  lemma MergeAllNonEmptyIff(results: seq<Response>, f: Field)
    ensures MergeAll(results).Get(f) != "" <==> exists r :: r in results && r.Get(f) != ""
    ensures MergeAll(results).Get(f) != "" ==> exists r :: r in results && r.Get(f) == MergeAll(results).Get(f)
  {
    if k :| 0 <= k < |results| && results[k].Get(f) != "" {
      var i := LastNonEmptyExists(results, f, k);
      MergeAllTakesLast(results, f, i);
      assert results[i] in results;
    } else {
      MergeAllStaysEmpty(results, f);
    }
  }

  /******* Failed calls *******/

  datatype CallResult = Answered(response: Response) | CallFailed

  /** What the gateway's task yields for a call: its response, or the empty one. */
  function OrEmpty(r: CallResult): Response {
    match r
    case Answered(response) => response
    case CallFailed => EMPTY
  }

  function Responses(results: seq<CallResult>): seq<Response> {
    seq(|results|, i requires 0 <= i < |results| => OrEmpty(results[i]))
  }

  function Successes(results: seq<CallResult>): seq<Response> {
    if results == [] then []
    else
      var n := |results| - 1;
      Successes(results[..n]) + (match results[n] { case Answered(r) => [r] case CallFailed => [] })
  }

  /** Failed calls do not show: the fold is that of the successful responses alone. */
  lemma {:induction false} FailuresAreIsolated(results: seq<CallResult>)
    ensures MergeAll(Responses(results)) == MergeAll(Successes(results))
  {
    if results == [] {
    } else {
      var n := |results| - 1;
      FailuresAreIsolated(results[..n]);
      assert Responses(results)[..n] == Responses(results[..n]);
      var before := Successes(results[..n]);
      match results[n] {
        case Answered(r) => assert (before + [r])[..|before|] == before;
        case CallFailed => assert before + [] == before;
      }
    }
  }

  /******* Order *******/

  /** Any two messages that both set a field agree on it. */
  ghost predicate Compatible(results: seq<Response>) {
    forall a, b, f: Field :: a in results && b in results && a.Get(f) != "" && b.Get(f) != "" ==>
      a.Get(f) == b.Get(f)
  }

  lemma PermutationHasSameElements(a: seq<Response>, b: seq<Response>)
    requires multiset(b) == multiset(a)
    ensures forall r :: r in a <==> r in b
  {
    forall r
      ensures r in a <==> r in b
    {
      assert r in a <==> r in multiset(a);
      assert r in b <==> r in multiset(b);
    }
  }

  lemma CompatibleMergesAgree(a: seq<Response>, b: seq<Response>)
    requires Compatible(a) && forall r :: r in a <==> r in b
    ensures MergeAll(a) == MergeAll(b)
  {
    forall f: Field
      ensures MergeAll(a).Get(f) == MergeAll(b).Get(f)
    {
      MergeAllNonEmptyIff(a, f);
      MergeAllNonEmptyIff(b, f);
    }
    SameFields(MergeAll(a), MergeAll(b));
  }

  /** The same messages with the one at position i moved to the end. */
  function MovedLast(results: seq<Response>, i: nat): seq<Response>
    requires i < |results|
  {
    results[..i] + results[i + 1..] + [results[i]]
  }

  lemma MovedLastPermutes(results: seq<Response>, i: nat, f: Field)
    requires i < |results|
    ensures multiset(MovedLast(results, i)) == multiset(results)
    ensures results[i].Get(f) != "" ==> MergeAll(MovedLast(results, i)).Get(f) == results[i].Get(f)
  {
    assert results == results[..i] + [results[i]] + results[i + 1..];
    var moved := MovedLast(results, i);
    MergeFromField(MergeAll(moved[..|moved| - 1]), results[i], f);
  }

  /**
   The result does not depend on the order of the responses if and only if any two responses that both
   set a field agree on it.
   */
  lemma OrderIndependentIffCompatible(results: seq<Response>)
    ensures (forall p :: multiset(p) == multiset(results) ==> MergeAll(p) == MergeAll(results)) <==>
      forall a, b, f: Field :: a in results && b in results && a.Get(f) != "" && b.Get(f) != "" ==>
        a.Get(f) == b.Get(f)
  {
    if Compatible(results) {
      forall p | multiset(p) == multiset(results)
        ensures MergeAll(p) == MergeAll(results)
      {
        PermutationHasSameElements(results, p);
        CompatibleMergesAgree(results, p);
      }
    } else {
      var a, b, f: Field :| a in results && b in results && a.Get(f) != "" && b.Get(f) != "" && a.Get(f) != b.Get(f);
      var i :| 0 <= i < |results| && results[i] == a;
      var j :| 0 <= j < |results| && results[j] == b;
      MovedLastPermutes(results, i, f);
      MovedLastPermutes(results, j, f);
      var p, p' := MovedLast(results, i), MovedLast(results, j);
      assert MergeAll(p) != MergeAll(results) || MergeAll(p') != MergeAll(results);
    }
  }
}
