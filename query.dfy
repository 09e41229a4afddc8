/** The parsed query of a request (net/url's Values), the map HandleGETRequest rewrites. */
module Query {
  import opened Foreign

  /** The last element of a non-empty list. */
  function Last(xs: seq<string>): string
    requires xs != []
  {
    xs[|xs| - 1]
  }

  /** What HandleGETRequest leaves under key k of the original map: a skipped key keeps
      its whole list; any other key ends with the one sanitised last value that the
      repeated Set leaves behind, or is gone when its list was empty. */
  ghost predicate RewrittenKey(skip: seq<string>, policy: Sanitizer,
                               before: map<string, seq<string>>, after: map<string, seq<string>>, k: string)
    requires k in before
  {
    if k in skip then k in after && after[k] == before[k]
    else if before[k] == [] then k !in after
    else k in after && after[k] == [policy(Last(before[k]))]
  }

  /** One turn of HandleGETRequest's loop on key k of the current map m: a skipped key
      is left alone; any other key is deleted and then Set to each sanitised value in
      turn, so only the last one stays. */
  function VisitKey(skip: seq<string>, policy: Sanitizer, m: map<string, seq<string>>, k: string)
    : (r: map<string, seq<string>>)
    requires k in m
    ensures forall k' :: k' != k ==> (k' in r <==> k' in m) && (k' in r ==> r[k'] == m[k'])
  {
    if k in skip then m
    else if m[k] == [] then m - {k}
    else m[k := [policy(Last(m[k]))]]
  }

  /** The whole effect of HandleGETRequest on the query map: no key is added and every
      original key is rewritten as RewrittenKey says. */
  ghost predicate Rewritten(skip: seq<string>, policy: Sanitizer,
                            before: map<string, seq<string>>, after: map<string, seq<string>>)
  {
    (forall k :: k in after ==> k in before) &&
    (forall k :: k in before ==> RewrittenKey(skip, policy, before, after, k))
  }

  /** The loop invariant of HandleGETRequest after the first i keys of order. */
  ghost predicate RewrittenUpTo(skip: seq<string>, policy: Sanitizer, order: seq<string>, i: nat,
                                before: map<string, seq<string>>, now: map<string, seq<string>>)
    requires i <= |order|
  {
    (forall k :: k in now ==> k in before) &&
    (forall j :: i <= j < |order| ==> order[j] in now && now[order[j]] == before[order[j]]) &&
    (forall j :: 0 <= j < i ==> order[j] in before && RewrittenKey(skip, policy, before, now, order[j]))
  }

  predicate Distinct(order: seq<string>)
  {
    forall i, j :: 0 <= i < j < |order| ==> order[i] != order[j]
  }

  /** A skipped key leaves the map as it is. */
  lemma SkipStep(skip: seq<string>, policy: Sanitizer, order: seq<string>, i: nat,
                 before: map<string, seq<string>>, now: map<string, seq<string>>)
    requires i < |order| && order[i] in skip
    requires RewrittenUpTo(skip, policy, order, i, before, now)
    ensures RewrittenUpTo(skip, policy, order, i + 1, before, now)
  {
  }

  /** Replacing the values of a key that is not skipped rewrites exactly that key. */
  lemma ReplaceStep(skip: seq<string>, policy: Sanitizer, order: seq<string>, i: nat,
                    before: map<string, seq<string>>, now: map<string, seq<string>>,
                    next: map<string, seq<string>>)
    requires i < |order| && order[i] !in skip && Distinct(order)
    requires RewrittenUpTo(skip, policy, order, i, before, now)
    requires next == VisitKey(skip, policy, now, order[i])
    ensures RewrittenUpTo(skip, policy, order, i + 1, before, next)
  {
    var key := order[i];
    forall j | 0 <= j < i
      ensures order[j] in before && RewrittenKey(skip, policy, before, next, order[j])
    {
      assert order[j] != key;
      assert RewrittenKey(skip, policy, before, now, order[j]);
    }
    forall j | i + 1 <= j < |order|
      ensures order[j] in next && next[order[j]] == before[order[j]]
    {
      assert order[j] != key;
    }
  }

  /** Go's range over a map may or may not produce an entry that Set re-inserts during
      the loop, so a key that was already rewritten can be visited again. A second visit
      sanitises the single remaining value once more; when the policy is idempotent the
      map does not change. */
  lemma RevisitIsStable(skip: seq<string>, policy: Sanitizer,
                        before: map<string, seq<string>>, now: map<string, seq<string>>, k: string)
    requires k in before && k in now && RewrittenKey(skip, policy, before, now, k)
    ensures k !in skip ==> VisitKey(skip, policy, now, k) == now[k := [policy(policy(Last(before[k])))]]
    ensures Idempotent(policy) ==> VisitKey(skip, policy, now, k) == now
  {
    if k !in skip {
      assert before[k] != [] && now[k] == [policy(Last(before[k]))];
      assert Last(now[k]) == policy(Last(before[k]));
    }
  }

  /** Once every key of the map has been visited, the map is rewritten. */
  lemma AllVisited(skip: seq<string>, policy: Sanitizer, order: seq<string>,
                   before: map<string, seq<string>>, now: map<string, seq<string>>)
    requires forall k :: k in order <==> k in before
    requires RewrittenUpTo(skip, policy, order, |order|, before, now)
    ensures Rewritten(skip, policy, before, now)
  {
    forall k | k in before
      ensures RewrittenKey(skip, policy, before, now, k)
    {
      var j :| 0 <= j < |order| && order[j] == k;
    }
  }

  class QueryValues {
    var entries: map<string, seq<string>>

    constructor (entries0: map<string, seq<string>>)
      ensures entries == entries0
    {
      entries := entries0;
    }

    /** Values.Del: the key and all its values are gone. */
    method Del(key: string)
      modifies this
      ensures entries == old(entries) - {key}
    {
      entries := entries - {key};
    }

    /** Values.Set: the key has exactly the one value. */
    method Set(key: string, value: string)
      modifies this
      ensures entries == old(entries)[key := [value]]
    {
      entries := entries[key := [value]];
    }
  }
}
