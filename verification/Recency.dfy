/** Keys in the order of their latest use. */
module Recency {
  import opened Wrappers

  /** How far into a history of uses `k` was last used; 0 if never. */
  function LastUse<K(==)>(used: seq<Option<K>>, k: K): (n: nat)
    ensures n <= |used|
  {
    if used == [] then 0
    else if used[|used| - 1] == Some(k) then |used|
    else LastUse(used[..|used| - 1], k)
  }

  ghost predicate ByUse<K>(order: seq<K>, used: seq<Option<K>>) {
    forall i, j :: 0 <= i < j < |order| ==> LastUse(used, order[i]) < LastUse(used, order[j])
  }

  lemma LastUseNext<K>(used: seq<Option<K>>, u: Option<K>, k: K)
    ensures LastUse(used + [u], k) == if u == Some(k) then |used| + 1 else LastUse(used, k)
  {
    assert (used + [u])[..|used|] == used;
  }

  lemma NothingUsed<K>(order: seq<K>, used: seq<Option<K>>)
    requires ByUse(order, used)
    ensures ByUse(order, used + [None])
  {
    hide LastUse;
    forall i | 0 <= i < |order| ensures LastUse(used + [None], order[i]) == LastUse(used, order[i]) {
      LastUseNext(used, None, order[i]);
    }
  }

  /** Using a key moves it to the end. */
  lemma UsedLast<K>(rest: seq<K>, k: K, used: seq<Option<K>>)
    requires ByUse(rest, used) && k !in rest
    ensures ByUse(rest + [k], used + [Some(k)])
  {
    hide LastUse;
    LastUseNext(used, Some(k), k);
    forall i | 0 <= i < |rest| ensures LastUse(used + [Some(k)], rest[i]) == LastUse(used, rest[i]) <= |used| {
      assert rest[i] in rest;
      LastUseNext(used, Some(k), rest[i]);
    }
  }

  lemma OneDropped<K>(order: seq<K>, i: nat, used: seq<Option<K>>)
    requires ByUse(order, used) && i < |order|
    ensures ByUse(order[..i] + order[i + 1..], used)
  {
    hide LastUse;
    var rest := order[..i] + order[i + 1..];
    assert forall j :: 0 <= j < |rest| ==> rest[j] == order[if j < i then j else j + 1];
  }
}
