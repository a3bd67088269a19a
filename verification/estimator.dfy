/** The false-positive estimator that runs after the load: each candidate
    address is either found in the exact reference set and skipped, or put
    to the filter, which counts as a false positive when the filter claims
    membership. The program draws its candidates at random; here they are
    an input sequence. */
module Estimator {
  import opened BigEndian
  import Filter

  /** How many candidates are in the reference set. */
  function Duplicates(spent: set<Bytes>, candidates: seq<Bytes>): (n: nat)
    ensures n <= |candidates|
  {
    if |candidates| == 0 then 0
    else
      var last := candidates[|candidates| - 1];
      Duplicates(spent, candidates[..|candidates| - 1]) + (if last in spent then 1 else 0)
  }

  /** The candidates outside the reference set, in order. */
  function Unseen(spent: set<Bytes>, candidates: seq<Bytes>): seq<Bytes>
  {
    if |candidates| == 0 then []
    else
      var last := candidates[|candidates| - 1];
      Unseen(spent, candidates[..|candidates| - 1]) + (if last in spent then [] else [last])
  }

  /** How many queries the filter answers with "member". */
  function Hits<F>(lookup: Filter.Lookup<F>, filter: F, queries: seq<Bytes>): nat
  {
    if |queries| == 0 then 0
    else
      Hits(lookup, filter, queries[..|queries| - 1]) + (if lookup(filter, queries[|queries| - 1]) then 1 else 0)
  }

  /** One pass over the candidates. The ghost `queried` records the
      arguments passed to the filter's Lookup, in call order. */
  method Estimate<F>(lookup: Filter.Lookup<F>, filter: F, spent: set<Bytes>, candidates: seq<Bytes>)
    returns (falsePositive: nat, skippedDup: nat, ghost queried: seq<Bytes>)
    ensures skippedDup == Duplicates(spent, candidates)
    ensures queried == Unseen(spent, candidates)
    ensures falsePositive == Hits(lookup, filter, queried)
    ensures forall q :: q in queried ==> q !in spent
    ensures skippedDup + |queried| == |candidates|
    ensures falsePositive + skippedDup <= |candidates|
  {
    falsePositive, skippedDup, queried := 0, 0, [];
    for i := 0 to |candidates|
      invariant skippedDup == Duplicates(spent, candidates[..i])
      invariant queried == Unseen(spent, candidates[..i])
      invariant falsePositive == Hits(lookup, filter, queried)
      invariant forall q :: q in queried ==> q !in spent
      invariant skippedDup + |queried| == i
      invariant falsePositive <= |queried|
    {
      var candidate := candidates[i];
      assert candidates[..i + 1][..i] == candidates[..i];
      if candidate in spent {
        skippedDup := skippedDup + 1;
        continue;
      }
      assert (queried + [candidate])[..|queried|] == queried;
      queried := queried + [candidate];
      if lookup(filter, candidate) {
        falsePositive := falsePositive + 1;
      }
    }
    assert candidates[..|candidates|] == candidates;
  }

  /** A candidate reaches the filter exactly when it is not in the
      reference set. */
  lemma {:induction false} UnseenMembers(spent: set<Bytes>, candidates: seq<Bytes>, x: Bytes)
    ensures x in Unseen(spent, candidates) <==> x in candidates && x !in spent
  {
    if |candidates| > 0 {
      var prefix := candidates[..|candidates| - 1];
      UnseenMembers(spent, prefix, x);
      assert candidates == prefix + [candidates[|candidates| - 1]];
    }
  }

  /** A filter that answers exactly for the reference set reports no false
      positives: true members never reach the count. */
  lemma {:induction false} ExactFilterHasNoFalsePositives<F>(lookup: Filter.Lookup<F>, filter: F, spent: set<Bytes>, candidates: seq<Bytes>)
    requires forall x :: lookup(filter, x) <==> x in spent
    ensures Hits(lookup, filter, Unseen(spent, candidates)) == 0
  {
    var queries := Unseen(spent, candidates);
    forall q | q in queries
      ensures q !in spent
    {
      UnseenMembers(spent, candidates, q);
    }
    HitsOfNonMembers(lookup, filter, spent, queries);
  }

  lemma {:induction false} HitsOfNonMembers<F>(lookup: Filter.Lookup<F>, filter: F, spent: set<Bytes>, queries: seq<Bytes>)
    requires forall x :: lookup(filter, x) <==> x in spent
    requires forall q :: q in queries ==> q !in spent
    ensures Hits(lookup, filter, queries) == 0
  {
    if |queries| > 0 {
      HitsOfNonMembers(lookup, filter, spent, queries[..|queries| - 1]);
      assert queries[|queries| - 1] in queries;
    }
  }
}
