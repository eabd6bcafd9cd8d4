/**
 * The LINQ operators the queries are built from, computed eagerly over
 * sequences: Any, Where, Select, Join, Sum, GroupBy and the first-occurrence
 * MaxBy/MinBy, plus the ordinal string order that stands in for the default
 * string comparer.
 */
module Linq {
  import opened Wrappers

  /** `Enumerable.Any`. */
  function Any<T>(s: seq<T>, p: T -> bool): (r: bool)
    ensures r <==> exists i | 0 <= i < |s| :: p(s[i])
  {
    if s == [] then false else p(s[0]) || Any(s[1..], p)
  }

  /** `Any` is false exactly when no element satisfies `p`. */
  lemma NoneSatisfies<T>(s: seq<T>, p: T -> bool)
    ensures !Any(s, p) <==> forall x | x in s :: !p(x)
  {
    if Any(s, p) {
      var i :| 0 <= i < |s| && p(s[i]);
      assert s[i] in s;
    } else {
      forall x | x in s ensures !p(x) {
        var i :| 0 <= i < |s| && s[i] == x;
      }
    }
  }

  /** `Enumerable.Where`: the elements satisfying `p`, in their order. */
  function Where<T(==)>(s: seq<T>, p: T -> bool): (r: seq<T>)
    ensures |r| <= |s|
    ensures forall i | 0 <= i < |r| :: r[i] in s && p(r[i])
    ensures forall i | 0 <= i < |s| && p(s[i]) :: s[i] in r
  {
    if s == [] then [] else (if p(s[0]) then [s[0]] else []) + Where(s[1..], p)
  }

  /** `Enumerable.Select`: the image of every element, in order. */
  function Select<A, B>(s: seq<A>, f: A -> B): (r: seq<B>)
    ensures |r| == |s| && forall i | 0 <= i < |s| :: r[i] == f(s[i])
  {
    seq(|s|, i requires 0 <= i < |s| => f(s[i]))
  }

  /** The pairs `a` makes with the elements of `inner` it matches, in `inner`'s order. */
  function Partners<A(==), B(==)>(a: A, inner: seq<B>, on: (A, B) -> bool): (r: seq<(A, B)>)
    ensures forall i | 0 <= i < |r| :: r[i].0 == a && r[i].1 in inner && on(a, r[i].1)
  {
    if inner == [] then []
    else (if on(a, inner[0]) then [(a, inner[0])] else []) + Partners(a, inner[1..], on)
  }

  /** `Enumerable.Join` (an inner join): for each element of `outer` in order,
      its pairs with every element of `inner` it matches. Elements without a
      partner contribute nothing. */
  function Join<A(==), B(==)>(outer: seq<A>, inner: seq<B>, on: (A, B) -> bool): (r: seq<(A, B)>)
    ensures forall i | 0 <= i < |r| :: r[i].0 in outer && r[i].1 in inner && on(r[i].0, r[i].1)
  {
    if outer == [] then [] else Partners(outer[0], inner, on) + Join(outer[1..], inner, on)
  }

  /** An element survives `Where` exactly when it occurs and satisfies `p`. */
  lemma WhereMember<T>(s: seq<T>, p: T -> bool, x: T)
    ensures x in Where(s, p) <==> x in s && p(x)
  {
  }

  /** `Where` over a sequence with one more element at the end. */
  lemma {:induction false} WhereSnoc<T>(s: seq<T>, x: T, p: T -> bool)
    ensures Where(s + [x], p) == Where(s, p) + (if p(x) then [x] else [])
  {
    if s != [] {
      assert (s + [x])[1..] == s[1..] + [x];
      WhereSnoc(s[1..], x, p);
    } else {
      assert s + [x] == [x];
    }
  }

  /** Nothing survives `Where` when nothing satisfies `p`. */
  lemma {:induction false} WhereNone<T>(s: seq<T>, p: T -> bool)
    requires forall i | 0 <= i < |s| :: !p(s[i])
    ensures Where(s, p) == []
  {
    if s != [] {
      WhereNone(s[1..], p);
    }
  }

  /** Every element of `inner` that `a` matches is paired with it. */
  lemma {:induction false} PartnersComplete<A, B>(a: A, inner: seq<B>, on: (A, B) -> bool, b: B)
    requires b in inner && on(a, b)
    ensures (a, b) in Partners(a, inner, on)
  {
    if inner[0] != b {
      PartnersComplete(a, inner[1..], on, b);
    }
  }

  /** A pair is in the join exactly when both sides occur and match. */
  lemma {:induction false} JoinMember<A, B>(outer: seq<A>, inner: seq<B>, on: (A, B) -> bool, a: A, b: B)
    ensures (a, b) in Join(outer, inner, on) <==> a in outer && b in inner && on(a, b)
  {
    var r := Join(outer, inner, on);
    if (a, b) in r {
      var i :| 0 <= i < |r| && r[i] == (a, b);
    }
    if a in outer && b in inner && on(a, b) {
      if outer[0] == a {
        PartnersComplete(a, inner, on, b);
      } else {
        JoinMember(outer[1..], inner, on, a, b);
      }
    }
  }

  /** `Where` distributes over concatenation: with `Where([x], p)` being `[x]`
      or `[]`, this fixes both the order and the number of copies it keeps. */
  lemma {:induction false} WhereAppend<T>(a: seq<T>, b: seq<T>, p: T -> bool)
    ensures Where(a + b, p) == Where(a, p) + Where(b, p)
  {
    if a == [] {
      assert a + b == b;
    } else {
      assert (a + b)[1..] == a[1..] + b;
      WhereAppend(a[1..], b, p);
    }
  }

  /** `Partners` distributes over concatenation of the inner sequence. */
  lemma {:induction false} PartnersAppend<A, B>(a: A, i1: seq<B>, i2: seq<B>, on: (A, B) -> bool)
    ensures Partners(a, i1 + i2, on) == Partners(a, i1, on) + Partners(a, i2, on)
  {
    if i1 == [] {
      assert i1 + i2 == i2;
    } else {
      assert (i1 + i2)[1..] == i1[1..] + i2;
      PartnersAppend(a, i1[1..], i2, on);
    }
  }

  /** `Join` distributes over concatenation of the outer sequence, and a single
      outer element contributes its partners. With `PartnersAppend` this fixes
      the order and the number of copies of every pair. */
  lemma {:induction false} JoinAppend<A, B>(o1: seq<A>, o2: seq<A>, inner: seq<B>, on: (A, B) -> bool)
    ensures Join(o1 + o2, inner, on) == Join(o1, inner, on) + Join(o2, inner, on)
    ensures |o1| == 1 ==> Join(o1, inner, on) == Partners(o1[0], inner, on)
  {
    if o1 == [] {
      assert o1 + o2 == o2;
    } else {
      var rest := o1[1..];
      assert (o1 + o2)[0] == o1[0] && (o1 + o2)[1..] == rest + o2;
      JoinAppend(rest, o2, inner, on);
      calc {
        Join(o1 + o2, inner, on);
        Partners(o1[0], inner, on) + Join(rest + o2, inner, on);
        Partners(o1[0], inner, on) + (Join(rest, inner, on) + Join(o2, inner, on));
        (Partners(o1[0], inner, on) + Join(rest, inner, on)) + Join(o2, inner, on);
      }
      if |o1| == 1 {
        assert rest == [];
      }
    }
  }

  /** `Select` distributes over concatenation. */
  lemma SelectAppend<A, B>(a: seq<A>, b: seq<A>, f: A -> B)
    ensures Select(a + b, f) == Select(a, f) + Select(b, f)
  {
  }

  /** `Enumerable.Sum` over unbounded integers: never negative over
      non-negative terms. */
  function Sum(s: seq<int>): (r: int)
    ensures (forall i | 0 <= i < |s| :: s[i] >= 0) ==> r >= 0
  {
    if s == [] then 0 else s[0] + Sum(s[1..])
  }

  lemma {:induction false} SumAppend(a: seq<int>, b: seq<int>)
    ensures Sum(a + b) == Sum(a) + Sum(b)
  {
    if a == [] {
      assert a + b == b;
    } else {
      assert (a + b)[1..] == a[1..] + b;
      SumAppend(a[1..], b);
    }
  }



  // ---------------------------------------------------------------------------
  // MaxBy / MinBy over integer keys

  /** `i` is where `MaxBy` stops: a maximal key, and the first one. */
  predicate IsFirstMax(keys: seq<int>, i: int) {
    && 0 <= i < |keys|
    && (forall j | 0 <= j < |keys| :: keys[j] <= keys[i])
    && (forall j | 0 <= j < i :: keys[j] < keys[i])
  }

  /** `i` is where `MinBy` stops: a minimal key, and the first one. */
  predicate IsFirstMin(keys: seq<int>, i: int) {
    && 0 <= i < |keys|
    && (forall j | 0 <= j < |keys| :: keys[i] <= keys[j])
    && (forall j | 0 <= j < i :: keys[i] < keys[j])
  }

  /** The position `MaxBy` selects: it replaces its candidate only on a
      strictly greater key. */
  function FirstMaxIndex(keys: seq<int>): (i: nat)
    requires |keys| > 0
    ensures IsFirstMax(keys, i)
  {
    if |keys| == 1 then 0
    else
      var m := 1 + FirstMaxIndex(keys[1..]);
      if keys[0] < keys[m] then m else 0
  }

  /** The position `MinBy` selects: it replaces its candidate only on a
      strictly smaller key. */
  function FirstMinIndex(keys: seq<int>): (i: nat)
    requires |keys| > 0
    ensures IsFirstMin(keys, i)
  {
    if |keys| == 1 then 0
    else
      var m := 1 + FirstMinIndex(keys[1..]);
      if keys[m] < keys[0] then m else 0
  }

  // ---------------------------------------------------------------------------
  // GroupBy

  /** One group of `GroupBy`: its key and its elements in encounter order. */
  datatype Grouping<K> = Grouping(key: K, elements: seq<int>)

  /** Adds `(k, v)` to `groups`: onto the group with key `k`, or as a new last group. */
  function AddToGroups<K(==)>(groups: seq<Grouping<K>>, k: K, v: int): seq<Grouping<K>> {
    if groups == [] then [Grouping(k, [v])]
    else if groups[0].key == k then [groups[0].(elements := groups[0].elements + [v])] + groups[1..]
    else [groups[0]] + AddToGroups(groups[1..], k, v)
  }

  /** Groups (key, element) pairs by adding them one at a time, from the first. */
  function GroupPairs<K(==)>(pairs: seq<(K, int)>): seq<Grouping<K>> {
    if pairs == [] then []
    else
      var last := pairs[|pairs| - 1];
      AddToGroups(GroupPairs(pairs[..|pairs| - 1]), last.0, last.1)
  }

  /** The elements paired with key `k`, in order: what the group of `k` must hold. */
  function ElementsOf<K(==)>(pairs: seq<(K, int)>, k: K): seq<int> {
    if pairs == [] then []
    else
      var last := pairs[|pairs| - 1];
      ElementsOf(pairs[..|pairs| - 1], k) + (if last.0 == k then [last.1] else [])
  }

  /** The sum of the elements paired with `k`. */
  function Total<K(==)>(pairs: seq<(K, int)>, k: K): int {
    Sum(ElementsOf(pairs, k))
  }

  /** The position at which key `k` first appears, or `|pairs|` when it does not. */
  function FirstIndex<K(==)>(pairs: seq<(K, int)>, k: K): (i: nat)
    ensures i <= |pairs|
    ensures i < |pairs| ==> pairs[i].0 == k
    ensures forall j | 0 <= j < i :: pairs[j].0 != k
  {
    if pairs == [] then 0
    else if pairs[0].0 == k then 0
    else 1 + FirstIndex(pairs[1..], k)
  }

  ghost predicate KeysDistinct<K>(groups: seq<Grouping<K>>) {
    forall i, j | 0 <= i < j < |groups| :: groups[i].key != groups[j].key
  }

  ghost predicate HasKey<K>(pairs: seq<(K, int)>, k: K) {
    exists j | 0 <= j < |pairs| :: pairs[j].0 == k
  }

  /** A position at which a key that occurs appears. */
  lemma KeyWitness<K>(pairs: seq<(K, int)>, k: K) returns (j: nat)
    requires HasKey(pairs, k)
    ensures j < |pairs| && pairs[j].0 == k
  {
    j :| 0 <= j < |pairs| && pairs[j].0 == k;
  }

  ghost predicate HasGroup<K>(groups: seq<Grouping<K>>, k: K) {
    exists i | 0 <= i < |groups| :: groups[i].key == k
  }

  /** What `GroupBy` promises: one group per key that occurs and no other
      group, each holding exactly that key's elements in order, the groups
      ordered by the first appearance of their keys. */
  ghost predicate IsGrouping<K>(pairs: seq<(K, int)>, groups: seq<Grouping<K>>) {
    && KeysDistinct(groups)
    && (forall i | 0 <= i < |groups| :: HasKey(pairs, groups[i].key))
    && (forall j | 0 <= j < |pairs| :: HasGroup(groups, pairs[j].0))
    && (forall i | 0 <= i < |groups| :: groups[i].elements == ElementsOf(pairs, groups[i].key))
    && FirstSeenOrder(pairs, groups)
  }

  lemma KeysDistinctTail<K>(groups: seq<Grouping<K>>)
    requires groups != [] && KeysDistinct(groups)
    ensures KeysDistinct(groups[1..])
  {
    var tail := groups[1..];
    forall i, j | 0 <= i < j < |tail| ensures tail[i].key != tail[j].key {
      assert tail[i] == groups[i + 1] && tail[j] == groups[j + 1];
    }
  }

  lemma HasGroupTail<K>(groups: seq<Grouping<K>>, k: K)
    requires groups != [] && groups[0].key != k
    ensures HasGroup(groups, k) <==> HasGroup(groups[1..], k)
  {
    var tail := groups[1..];
    if HasGroup(tail, k) {
      var i :| 0 <= i < |tail| && tail[i].key == k;
      assert groups[i + 1] == tail[i];
    }
    if HasGroup(groups, k) {
      var i :| 0 <= i < |groups| && groups[i].key == k;
      assert tail[i - 1] == groups[i];
    }
  }

  /** How adding one pair changes distinct-keyed groups. */
  lemma {:induction false} AddToGroupsEffect<K>(groups: seq<Grouping<K>>, k: K, v: int)
    requires KeysDistinct(groups)
    ensures var r := AddToGroups(groups, k, v);
      && |r| == |groups| + (if HasGroup(groups, k) then 0 else 1)
      && KeysDistinct(r)
      && (forall i | 0 <= i < |groups| :: r[i].key == groups[i].key)
      && (forall i | 0 <= i < |groups| ::
            r[i].elements == groups[i].elements + (if groups[i].key == k then [v] else []))
      && (!HasGroup(groups, k) ==> r[|groups|] == Grouping(k, [v]))
  {
    if groups == [] {
    } else if groups[0].key == k {
      assert HasGroup(groups, k);
    } else {
      var tail := groups[1..];
      KeysDistinctTail(groups);
      AddToGroupsEffect(tail, k, v);
      HasGroupTail(groups, k);
      var r := AddToGroups(groups, k, v);
      var rest := AddToGroups(tail, k, v);
      assert r == [groups[0]] + rest;
      forall i | 0 < i < |r| ensures r[i].key != groups[0].key {
        assert r[i] == rest[i - 1];
        if i - 1 < |tail| {
          assert tail[i - 1] == groups[i];
        }
      }
      forall i | 0 < i < |groups| ensures r[i] == rest[i - 1] && groups[i] == tail[i - 1] {
      }
    }
  }

  lemma ElementsOfSnoc<K>(front: seq<(K, int)>, last: (K, int), k: K)
    ensures ElementsOf(front + [last], k) == ElementsOf(front, k) + (if last.0 == k then [last.1] else [])
  {
  }

  lemma {:induction false} ElementsOfAbsent<K>(pairs: seq<(K, int)>, k: K)
    requires forall j | 0 <= j < |pairs| :: pairs[j].0 != k
    ensures ElementsOf(pairs, k) == []
  {
    if pairs != [] {
      var front := pairs[..|pairs| - 1];
      forall j | 0 <= j < |front| ensures front[j].0 != k {
        assert front[j] == pairs[j];
      }
      ElementsOfAbsent(front, k);
    }
  }

  /** Appending a pair keeps every first appearance, and puts a key new to
      `front` at the end. */
  lemma {:induction false} FirstIndexSnoc<K>(front: seq<(K, int)>, last: (K, int), k: K)
    ensures HasKey(front, k) ==> FirstIndex(front + [last], k) == FirstIndex(front, k) < |front|
    ensures !HasKey(front, k) && last.0 == k ==> FirstIndex(front + [last], k) == |front|
  {
    if front != [] {
      var tail := front[1..];
      assert (front + [last])[1..] == tail + [last];
      if front[0].0 != k {
        FirstIndexSnoc(tail, last, k);
        assert HasKey(front, k) <==> HasKey(tail, k) by {
          if HasKey(front, k) {
            var j :| 0 <= j < |front| && front[j].0 == k;
            assert tail[j - 1] == front[j];
          }
          if HasKey(tail, k) {
            var j :| 0 <= j < |tail| && tail[j].0 == k;
            assert front[j + 1] == tail[j];
          }
        }
      }
    }
  }

  /** The keys of `GroupBy`: distinct, each occurring, every occurring key present. */
  lemma {:induction false} GroupByKeys<K>(pairs: seq<(K, int)>)
    ensures KeysDistinct(GroupPairs(pairs))
    ensures forall i | 0 <= i < |GroupPairs(pairs)| :: HasKey(pairs, GroupPairs(pairs)[i].key)
    ensures forall j | 0 <= j < |pairs| :: HasGroup(GroupPairs(pairs), pairs[j].0)
  {
    if pairs != [] {
      var n := |pairs| - 1;
      var front, last := pairs[..n], pairs[n];
      assert pairs == front + [last];
      GroupByKeys(front);
      var before, after := GroupPairs(front), GroupPairs(pairs);
      AddToGroupsEffect(before, last.0, last.1);
      forall i | 0 <= i < |after| ensures HasKey(pairs, after[i].key) {
        if i < |before| {
          var j :| 0 <= j < |front| && front[j].0 == before[i].key;
          assert pairs[j] == front[j];
        } else {
          assert pairs[n].0 == after[i].key;
        }
      }
      forall j | 0 <= j < |pairs| ensures HasGroup(after, pairs[j].0) {
        if j < n {
          assert pairs[j] == front[j];
          var i :| 0 <= i < |before| && before[i].key == front[j].0;
          assert after[i].key == pairs[j].0;
        } else if HasGroup(before, last.0) {
          var i :| 0 <= i < |before| && before[i].key == last.0;
          assert after[i].key == pairs[j].0;
        } else {
          assert after[|before|].key == pairs[j].0;
        }
      }
    }
  }

  /** Each group of `GroupBy` holds exactly its key's elements, in order. */
  lemma {:induction false} GroupByElements<K>(pairs: seq<(K, int)>)
    ensures forall i | 0 <= i < |GroupPairs(pairs)| ::
      GroupPairs(pairs)[i].elements == ElementsOf(pairs, GroupPairs(pairs)[i].key)
  {
    if pairs != [] {
      var n := |pairs| - 1;
      var front, last := pairs[..n], pairs[n];
      assert pairs == front + [last];
      GroupByKeys(front);
      GroupByElements(front);
      var before, after := GroupPairs(front), GroupPairs(pairs);
      AddToGroupsEffect(before, last.0, last.1);
      forall i | 0 <= i < |after| ensures after[i].elements == ElementsOf(pairs, after[i].key) {
        ElementsOfSnoc(front, last, after[i].key);
        if i == |before| {
          forall j | 0 <= j < |front| ensures front[j].0 != last.0 {
            assert HasGroup(before, front[j].0);
          }
          ElementsOfAbsent(front, last.0);
        }
      }
    }
  }

  /** The groups come in the order their keys first appear in `pairs`. */
  ghost predicate FirstSeenOrder<K>(pairs: seq<(K, int)>, groups: seq<Grouping<K>>) {
    forall i, j | 0 <= i < j < |groups| ::
      FirstIndex(pairs, groups[i].key) < FirstIndex(pairs, groups[j].key)
  }

  /** Adding one pair keeps the groups in first-appearance order. */
  lemma GroupOrderStep<K>(front: seq<(K, int)>, last: (K, int), before: seq<Grouping<K>>)
    requires KeysDistinct(before)
    requires forall i | 0 <= i < |before| :: HasKey(front, before[i].key)
    requires forall j | 0 <= j < |front| :: HasGroup(before, front[j].0)
    requires FirstSeenOrder(front, before)
    ensures FirstSeenOrder(front + [last], AddToGroups(before, last.0, last.1))
  {
    var pairs, after := front + [last], AddToGroups(before, last.0, last.1);
    AddToGroupsEffect(before, last.0, last.1);
    forall i | 0 <= i < |before|
      ensures FirstIndex(pairs, after[i].key) == FirstIndex(front, before[i].key) < |front|
    {
      FirstIndexSnoc(front, last, before[i].key);
    }
    if !HasGroup(before, last.0) {
      assert !HasKey(front, last.0) by {
        forall j | 0 <= j < |front| ensures front[j].0 != last.0 {
          assert HasGroup(before, front[j].0);
        }
      }
      FirstIndexSnoc(front, last, last.0);
    }
    forall i, j | 0 <= i < j < |after|
      ensures FirstIndex(pairs, after[i].key) < FirstIndex(pairs, after[j].key)
    {
      if j < |before| {
        assert FirstIndex(front, before[i].key) < FirstIndex(front, before[j].key);
      }
    }
  }

  /** The groups of `GroupBy` come in the order their keys first appear. */
  lemma {:induction false} GroupByOrder<K>(pairs: seq<(K, int)>)
    ensures FirstSeenOrder(pairs, GroupPairs(pairs))
  {
    if pairs != [] {
      var n := |pairs| - 1;
      var front, last := pairs[..n], pairs[n];
      assert pairs == front + [last];
      GroupByKeys(front);
      GroupByOrder(front);
      GroupOrderStep(front, last, GroupPairs(front));
    }
  }

  /** Adding the pairs one at a time meets the grouping specification. */
  lemma GroupPairsIsGrouping<K>(pairs: seq<(K, int)>)
    ensures IsGrouping(pairs, GroupPairs(pairs))
  {
    GroupByKeys(pairs);
    GroupByElements(pairs);
    GroupByOrder(pairs);
  }

  /** `Enumerable.GroupBy` over (key, element) pairs: one group per distinct
      key, holding that key's elements in order, the groups in the order their
      keys first appear. */
  function GroupBy<K(==)>(pairs: seq<(K, int)>): (r: seq<Grouping<K>>)
    ensures IsGrouping(pairs, r)
  {
    GroupPairsIsGrouping(pairs);
    GroupPairs(pairs)
  }



  /** The size of every group, in group order. */
  function Sizes<K>(groups: seq<Grouping<K>>): seq<int> {
    seq(|groups|, i requires 0 <= i < |groups| => |groups[i].elements|)
  }

  /** The sum of every group, in group order. */
  function Totals<K>(groups: seq<Grouping<K>>): (r: seq<int>)
    ensures |r| == |groups|
  {
    seq(|groups|, i requires 0 <= i < |groups| => Sum(groups[i].elements))
  }

  /** The group whose key is that of the `j`-th pair. */
  lemma GroupIndexOf<K>(pairs: seq<(K, int)>, j: nat) returns (i: nat)
    requires j < |pairs|
    ensures i < |GroupBy(pairs)| && GroupBy(pairs)[i].key == pairs[j].0
  {
    GroupByKeys(pairs);
    assert HasGroup(GroupBy(pairs), pairs[j].0);
    i :| 0 <= i < |GroupBy(pairs)| && GroupBy(pairs)[i].key == pairs[j].0;
  }

  /** A group's total is its key's total. */
  lemma GroupTotal<K>(pairs: seq<(K, int)>, i: nat)
    requires i < |GroupBy(pairs)|
    ensures Totals(GroupBy(pairs))[i] == Total(pairs, GroupBy(pairs)[i].key)
  {
    GroupByElements(pairs);
  }

  /** A group precedes every group whose key first appears later. */
  lemma GroupPrecedes<K>(pairs: seq<(K, int)>, i: nat)
    requires i < |GroupBy(pairs)|
    ensures forall m | 0 <= m < |GroupBy(pairs)| &&
      FirstIndex(pairs, GroupBy(pairs)[i].key) < FirstIndex(pairs, GroupBy(pairs)[m].key) :: i < m
  {
    var groups := GroupBy(pairs);
    GroupByOrder(pairs);
    assert forall m | 0 <= m < i :: FirstIndex(pairs, groups[m].key) < FirstIndex(pairs, groups[i].key);
  }

  /** The group that holds the key of the `j`-th pair: its total is that
      key's total, and it precedes every group whose key appears later. */
  lemma GroupOf<K>(pairs: seq<(K, int)>, j: nat) returns (i: nat)
    requires j < |pairs|
    ensures i < |GroupBy(pairs)| && GroupBy(pairs)[i].key == pairs[j].0
    ensures Totals(GroupBy(pairs))[i] == Total(pairs, pairs[j].0)
    ensures forall m | 0 <= m < |GroupBy(pairs)| &&
      FirstIndex(pairs, pairs[j].0) < FirstIndex(pairs, GroupBy(pairs)[m].key) :: i < m
  {
    i := GroupIndexOf(pairs, j);
    GroupTotal(pairs, i);
    GroupPrecedes(pairs, i);
  }

  /** The `m`-th group's key occurs, and its total is that key's total. */
  lemma GroupAt<K>(pairs: seq<(K, int)>, m: nat)
    requires m < |GroupBy(pairs)|
    ensures HasKey(pairs, GroupBy(pairs)[m].key)
    ensures Totals(GroupBy(pairs))[m] == Total(pairs, GroupBy(pairs)[m].key)
  {
    GroupByKeys(pairs);
    GroupTotal(pairs, m);
  }

  /** `k` is a key `MinBy(g => g.Sum())` may pick: it occurs, its total is no
      larger than any key's, and every key that appears earlier has a strictly
      greater total. */
  ghost predicate IsLeastTotalKey<K>(pairs: seq<(K, int)>, k: K) {
    && HasKey(pairs, k)
    && (forall j | 0 <= j < |pairs| :: Total(pairs, k) <= Total(pairs, pairs[j].0))
    && (forall j | 0 <= j < |pairs| && FirstIndex(pairs, pairs[j].0) < FirstIndex(pairs, k) ::
          Total(pairs, k) < Total(pairs, pairs[j].0))
  }

  /** `k` is a key `MaxBy(g => g.Sum())` may pick: it occurs, its total is no
      smaller than any key's, and every key that appears earlier has a strictly
      smaller total. */
  ghost predicate IsGreatestTotalKey<K>(pairs: seq<(K, int)>, k: K) {
    && HasKey(pairs, k)
    && (forall j | 0 <= j < |pairs| :: Total(pairs, pairs[j].0) <= Total(pairs, k))
    && (forall j | 0 <= j < |pairs| && FirstIndex(pairs, pairs[j].0) < FirstIndex(pairs, k) ::
          Total(pairs, pairs[j].0) < Total(pairs, k))
  }

  /** The key of the group at `m`, where `MinBy` stops over the totals, is a
      least-total key. */
  lemma LeastTotalGroup<K>(pairs: seq<(K, int)>, m: nat)
    requires m < |GroupBy(pairs)| && IsFirstMin(Totals(GroupBy(pairs)), m)
    ensures IsLeastTotalKey(pairs, GroupBy(pairs)[m].key)
  {
    var k := GroupBy(pairs)[m].key;
    GroupAt(pairs, m);
    forall j | 0 <= j < |pairs|
      ensures Total(pairs, k) <= Total(pairs, pairs[j].0)
      ensures FirstIndex(pairs, pairs[j].0) < FirstIndex(pairs, k) ==> Total(pairs, k) < Total(pairs, pairs[j].0)
    {
      var i := GroupOf(pairs, j);
    }
  }

  /** The key of the group at `m`, where `MaxBy` stops over the totals, is a
      greatest-total key. */
  lemma GreatestTotalGroup<K>(pairs: seq<(K, int)>, m: nat)
    requires m < |GroupBy(pairs)| && IsFirstMax(Totals(GroupBy(pairs)), m)
    ensures IsGreatestTotalKey(pairs, GroupBy(pairs)[m].key)
  {
    var k := GroupBy(pairs)[m].key;
    GroupAt(pairs, m);
    forall j | 0 <= j < |pairs|
      ensures Total(pairs, pairs[j].0) <= Total(pairs, k)
      ensures FirstIndex(pairs, pairs[j].0) < FirstIndex(pairs, k) ==> Total(pairs, pairs[j].0) < Total(pairs, k)
    {
      var i := GroupOf(pairs, j);
    }
  }

  /** `GroupBy(...).MinBy(g => g.Sum())?.Key`: no key iff there are no pairs;
      otherwise a key that occurs, whose total is no larger than any key's,
      and every key that appears earlier has a strictly greater total. */
  function MinTotalKey<K(==)>(pairs: seq<(K, int)>): (r: Option<K>)
    ensures r.None? <==> pairs == []
    ensures r.Some? ==> IsLeastTotalKey(pairs, r.value)
  {
    var groups := GroupBy(pairs);
    if groups == [] then None
    else
      var m := FirstMinIndex(Totals(groups));
      LeastTotalGroup(pairs, m);
      Some(groups[m].key)
  }

  /** `GroupBy(...).MaxBy(g => g.Sum())?.Key`: no key iff there are no pairs;
      otherwise a key that occurs, whose total is no smaller than any key's,
      and every key that appears earlier has a strictly smaller total. */
  function MaxTotalKey<K(==)>(pairs: seq<(K, int)>): (r: Option<K>)
    ensures r.None? <==> pairs == []
    ensures r.Some? ==> IsGreatestTotalKey(pairs, r.value)
  {
    var groups := GroupBy(pairs);
    if groups == [] then None
    else
      var m := FirstMaxIndex(Totals(groups));
      GreatestTotalGroup(pairs, m);
      Some(groups[m].key)
  }

  // ---------------------------------------------------------------------------
  // Ordinal string order

  /** Lexicographic order on character codes. */
  predicate OrdinalLess(a: string, b: string) {
    if a == [] then b != []
    else if b == [] then false
    else a[0] < b[0] || (a[0] == b[0] && OrdinalLess(a[1..], b[1..]))
  }

  lemma {:induction false} OrdinalLessIrreflexive(a: string)
    ensures !OrdinalLess(a, a)
  {
    if a != [] {
      OrdinalLessIrreflexive(a[1..]);
    }
  }

  lemma {:induction false} OrdinalLessTransitive(a: string, b: string, c: string)
    requires OrdinalLess(a, b) && OrdinalLess(b, c)
    ensures OrdinalLess(a, c)
  {
    if a != [] && b != [] && c != [] && a[0] == b[0] && b[0] == c[0] {
      OrdinalLessTransitive(a[1..], b[1..], c[1..]);
    }
  }

  lemma {:induction false} OrdinalLessTotal(a: string, b: string)
    requires a != b
    ensures OrdinalLess(a, b) || OrdinalLess(b, a)
  {
    if a != [] && b != [] && a[0] == b[0] {
      assert a == [a[0]] + a[1..] && b == [b[0]] + b[1..];
      OrdinalLessTotal(a[1..], b[1..]);
    }
  }
}
