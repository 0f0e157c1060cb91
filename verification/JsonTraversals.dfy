/**
 * The worklist loops of `compare.ts` and `body.ts` over JSON values: `deepEqual`,
 * `differingMembers` and `nestingDepth`.
 */
module JsonTraversals {
  import opened JsonValues

  // ---- deepEqual ----

  lemma AllEqualSplit(pairs: seq<JsonPair>, n: nat)
    requires n <= |pairs|
    ensures AllEqual(pairs) <==> AllEqual(pairs[..n]) && AllEqual(pairs[n..])
  {
    hide Meaning;
    if AllEqual(pairs[..n]) && AllEqual(pairs[n..]) {
      forall i | 0 <= i < |pairs| ensures Meaning(pairs[i].0) == Meaning(pairs[i].1) {
        if i < n {
          assert pairs[..n][i] == pairs[i];
        } else {
          assert pairs[n..][i - n] == pairs[i];
        }
      }
    }
  }

  /** The pairs pushed for two arrays are all equal exactly when the arrays are. */
  lemma PushedItems(pending: seq<JsonPair>, xs: seq<Json>, ys: seq<Json>, pushed: seq<JsonPair>)
    requires |xs| == |ys| && |pushed| == |pending| + |xs| && pending <= pushed
    requires forall i :: 0 <= i < |xs| ==> pushed[|pending| + i] == (xs[i], ys[i])
    requires AreJsonPairs(pending) && IsJson(Array(xs)) && IsJson(Array(ys))
    ensures AreJsonPairs(pushed)
    ensures AllEqual(pushed) <==> AllEqual(pending) && Meaning(Array(xs)) == Meaning(Array(ys))
  {
    hide Meaning;
    forall i | |pending| <= i < |pushed| ensures pushed[i] == (xs[i - |pending|], ys[i - |pending|]) {
      assert pushed[|pending| + (i - |pending|)] == pushed[i];
    }
    AllEqualSplit(pushed, |pending|);
    ItemsEqualIff(xs, ys);
  }

  lemma PushedMembers(pending: seq<JsonPair>, xs: seq<Member>, ys: seq<Member>, pushed: seq<JsonPair>)
    requires |xs| == |ys| && |pushed| == |pending| + |xs| && pending <= pushed
    requires forall i :: 0 <= i < |xs| ==>
      HasOwn(ys, xs[i].name) && pushed[|pending| + i] == (xs[i].value, Own(ys, xs[i].name).value)
    requires AreJsonPairs(pending) && IsJson(Object(xs)) && IsJson(Object(ys))
    ensures AreJsonPairs(pushed)
    ensures AllEqual(pushed) <==> AllEqual(pending) && Meaning(Object(xs)) == Meaning(Object(ys))
  {
    hide Meaning;
    forall i | |pending| <= i < |pushed|
      ensures pushed[i] == (xs[i - |pending|].value, Own(ys, xs[i - |pending|].name).value)
    {
      assert pushed[|pending| + (i - |pending|)] == pushed[i];
    }
    AllEqualSplit(pushed, |pending|);
    MembersEqualIff(xs, ys);
  }

  lemma DifferentSizes(xs: seq<Member>, ys: seq<Member>)
    requires DistinctNames(xs) && DistinctNames(ys) && |xs| != |ys|
    ensures Meaning(Object(xs)) != Meaning(Object(ys))
  {
    MapSize(xs);
    MapSize(ys);
  }

  lemma MissingMember(xs: seq<Member>, ys: seq<Member>, i: nat)
    requires DistinctNames(xs) && DistinctNames(ys) && i < |xs| && !HasOwn(ys, xs[i].name)
    ensures Meaning(Object(xs)) != Meaning(Object(ys))
  {
    MemberMeaning(xs, i);
    OwnMeaning(ys, xs[i].name);
  }

  lemma PopPair(pending: seq<JsonPair>)
    requires pending != []
    ensures var n := |pending| - 1;
      && PairsSize(pending) == PairsSize(pending[..n]) + Size(pending[n].0)
      && (AllEqual(pending) <==> AllEqual(pending[..n]) && Meaning(pending[n].0) == Meaning(pending[n].1))
  {
    hide Meaning;
    hide Size;
    hide AllEqual;
    var n := |pending| - 1;
    assert pending == pending[..n] + [pending[n]];
    PairsSizeAppend(pending[..n], [pending[n]]);
    AllEqualSplit(pending, n);
    assert pending[n..] == [(pending[n].0, pending[n].1)];
    OnePair(pending[n].0, pending[n].1);
    assert PairsSize([pending[n]]) == Size(pending[n].0) by {
      assert [pending[n]][1..] == [];
    }
  }

  /** Two values that differ at a glance: in type, in length, or as scalars. */
  predicate Differ(x: Json, y: Json) {
    && !Identical(x, y)
    && (|| !SameType(x, y) || x.Null? || y.Null?
        || ((x.Array? || y.Array?) && !(x.Array? && y.Array? && |x.items| == |y.items|))
        || (!x.Array? && !y.Array? && !x.Object?)
        || (x.Object? && y.Object? && |x.members| != |y.members|))
  }

  lemma IdenticalMeansEqual(x: Json, y: Json)
    requires Identical(x, y)
    ensures Meaning(x) == Meaning(y)
  {
  }

  lemma DifferingMeanOther(x: Json, y: Json)
    requires IsJson(x) && IsJson(y) && Differ(x, y)
    ensures Meaning(x) != Meaning(y)
  {
    if x.Object? && y.Object? {
      DifferentSizes(x.members, y.members);
    }
  }

  lemma MemberIsMissing(xs: seq<Member>, ys: seq<Member>)
    requires IsJson(Object(xs)) && IsJson(Object(ys)) && !forall i :: 0 <= i < |xs| ==> HasOwn(ys, xs[i].name)
    ensures Meaning(Object(xs)) != Meaning(Object(ys))
  {
    hide Meaning;
    hide HasOwn;
    var i :| 0 <= i < |xs| && !HasOwn(ys, xs[i].name);
    MissingMember(xs, ys, i);
  }

  /** Two values are equal exactly when they mean the same: equal up to the order of members. */
  method DeepEqual(a: Json, b: Json) returns (equal: bool)
    requires IsJson(a) && IsJson(b)
    ensures equal <==> Meaning(a) == Meaning(b)
  {
    hide Meaning;
    hide IsJson;
    hide Size;
    hide Own;
    hide HasOwn;
    hide AllEqual;
    var pending: seq<JsonPair> := [(a, b)];
    OnePair(a, b);
    while pending != []
      invariant AreJsonPairs(pending)
      invariant Meaning(a) == Meaning(b) <==> AllEqual(pending)
      decreases PairsSize(pending)
    {
      PopPair(pending);
      var (x, y) := pending[|pending| - 1];
      pending := pending[..|pending| - 1];
      if Identical(x, y) {
        IdenticalMeansEqual(x, y);
        continue;
      }
      if !SameType(x, y) || x.Null? || y.Null? {
        DifferingMeanOther(x, y);
        return false;
      }
      if x.Array? || y.Array? {
        if !(x.Array? && y.Array? && |x.items| == |y.items|) {
          DifferingMeanOther(x, y);
          return false;
        }
        var pushed := PushItems(pending, x.items, y.items);
        PushedItems(pending, x.items, y.items, pushed);
        ChildrenAreSmaller(x);
        pending := pushed;
        continue;
      }
      if !x.Object? {
        DifferingMeanOther(x, y);
        return false;
      }
      if |x.members| != |y.members| {
        DifferingMeanOther(x, y);
        return false;
      }
      var found, pushed := PushMembers(pending, x.members, y.members);
      if !found {
        MemberIsMissing(x.members, y.members);
        return false;
      }
      PushedMembers(pending, x.members, y.members, pushed);
      ChildrenAreSmaller(x);
      pending := pushed;
    }
    NoPairs();
    equal := true;
  }

  lemma OnePair(a: Json, b: Json)
    ensures AllEqual([(a, b)]) <==> Meaning(a) == Meaning(b)
  {
    assert [(a, b)][0] == (a, b);
  }

  lemma NoPairs()
    ensures AllEqual([])
  {
  }

  lemma ChildrenAreSmaller(v: Json)
    ensures v.Array? ==> SizeOfItems(v.items) < Size(v)
    ensures v.Object? ==> SizeOfMembers(v.members) < Size(v)
  {
  }

  // ---- nestingDepth ----

  function Max(a: nat, b: nat): nat {
    if a < b then b else a
  }

  /** A scalar is 0, an array or object one more than its deepest member. */
  function Depth(v: Json): nat
    decreases v, 1
  {
    match v
    case Array(items) => 1 + DepthOfItems(items)
    case Object(members) => 1 + DepthOfMembers(members)
    case _ => 0
  }

  function DepthOfItems(items: seq<Json>): nat
    decreases items, 0
  {
    if items == [] then 0 else Max(Depth(items[0]), DepthOfItems(items[1..]))
  }

  function DepthOfMembers(members: seq<Member>): nat
    decreases members, 0
  {
    if members == [] then 0 else Max(Depth(members[0].value), DepthOfMembers(members[1..]))
  }

  /** How deep a pending value reaches from the outermost one; a scalar is not counted at all. */
  function Reach(p: (Json, nat)): nat {
    if Depth(p.0) == 0 then 0 else p.1 + Depth(p.0)
  }

  function DeepestReach(pending: seq<(Json, nat)>): nat {
    if pending == [] then 0 else Max(Reach(pending[0]), DeepestReach(pending[1..]))
  }

  function PendingSize(pending: seq<(Json, nat)>): nat {
    if pending == [] then 0 else Size(pending[0].0) + PendingSize(pending[1..])
  }

  lemma {:induction false} PendingAppend(a: seq<(Json, nat)>, b: seq<(Json, nat)>)
    ensures DeepestReach(a + b) == Max(DeepestReach(a), DeepestReach(b))
    ensures PendingSize(a + b) == PendingSize(a) + PendingSize(b)
  {
    if a == [] {
      assert a + b == b;
    } else {
      assert (a + b)[1..] == a[1..] + b;
      PendingAppend(a[1..], b);
    }
  }

  /** The children of a value, each one level deeper. */
  function Children(v: Json, depth: nat): seq<(Json, nat)>
    decreases v, 1
  {
    match v
    case Array(items) => ItemChildren(items, depth)
    case Object(members) => MemberChildren(members, depth)
    case _ => []
  }

  function ItemChildren(items: seq<Json>, depth: nat): seq<(Json, nat)> {
    if items == [] then [] else [(items[0], depth + 1)] + ItemChildren(items[1..], depth)
  }

  function MemberChildren(members: seq<Member>, depth: nat): seq<(Json, nat)> {
    if members == [] then [] else [(members[0].value, depth + 1)] + MemberChildren(members[1..], depth)
  }

  lemma {:induction false} ReachOfItems(items: seq<Json>, depth: nat)
    ensures var children := ItemChildren(items, depth);
      && PendingSize(children) == SizeOfItems(items)
      && DeepestReach(children) == (if DepthOfItems(items) == 0 then 0 else depth + 1 + DepthOfItems(items))
  {
    if items != [] {
      ReachOfItems(items[1..], depth);
    }
  }

  lemma {:induction false} ReachOfMembers(members: seq<Member>, depth: nat)
    ensures var children := MemberChildren(members, depth);
      && PendingSize(children) == SizeOfMembers(members)
      && DeepestReach(children) == (if DepthOfMembers(members) == 0 then 0 else depth + 1 + DepthOfMembers(members))
  {
    if members != [] {
      ReachOfMembers(members[1..], depth);
    }
  }

  /** What replaces a container on the worklist reaches as deep as it did, and is smaller. */
  lemma ReachOfChildren(v: Json, depth: nat)
    requires v.Array? || v.Object?
    ensures PendingSize(Children(v, depth)) < Size(v)
    ensures Reach((v, depth)) == Max(depth + 1, DeepestReach(Children(v, depth)))
  {
    if v.Array? {
      ReachOfItems(v.items, depth);
    } else {
      ReachOfMembers(v.members, depth);
    }
  }

  /** The iterative depth is the recursive one. */
  method NestingDepth(value: Json) returns (deepest: nat)
    ensures deepest == Depth(value)
  {
    hide Children;
    hide Size;
    deepest := 0;
    var pending: seq<(Json, nat)> := [(value, 0)];
    while pending != []
      invariant Depth(value) == Max(deepest, DeepestReach(pending))
      decreases PendingSize(pending)
    {
      var n := |pending| - 1;
      var (v, depth) := pending[n];
      assert pending == pending[..n] + [pending[n]];
      PendingAppend(pending[..n], [pending[n]]);
      pending := pending[..n];
      if !v.Array? && !v.Object? {
        continue;
      }
      deepest := Max(deepest, depth + 1);
      var children := Children(v, depth);
      ReachOfChildren(v, depth);
      PendingAppend(pending, children);
      pending := pending + children;
    }
  }
}
