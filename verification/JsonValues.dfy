/**
 * JSON values and the explicit-stack traversals of `compare.ts` and `body.ts`: deep
 * equality, the members at which two objects differ, and nesting depth. Each loop is
 * proved against a recursive meaning of the value.
 */
module JsonValues {
  import opened Texts
  import opened Wrappers

  datatype Json =
    | Null
    | Bool(b: bool)
    | Number(n: real)
    | String(s: Text)
    | Array(items: seq<Json>)
    | Object(members: seq<Member>)

  datatype Member = Member(name: Text, value: Json)

  ghost predicate DistinctNames(members: seq<Member>) {
    forall i, j :: 0 <= i < j < |members| ==> members[i].name != members[j].name
  }

  /** A value as a parser gives it: no object holds a name twice. */
  ghost predicate IsJson(v: Json) {
    match v
    case Array(items) => forall i :: 0 <= i < |items| ==> IsJson(items[i])
    case Object(members) => DistinctNames(members) && forall i :: 0 <= i < |members| ==> IsJson(members[i].value)
    case _ => true
  }

  // ---- What a value means ----

  /** The value with each object as a map, so that the order of members is gone and nothing else is. */
  datatype Tree = TNull | TBool(b: bool) | TNumber(n: real) | TString(s: Text) | TArray(items: seq<Tree>) | TObject(members: map<Text, Tree>)

  ghost function Meaning(v: Json): Tree
    decreases v, 1
  {
    match v
    case Null => TNull
    case Bool(b) => TBool(b)
    case Number(n) => TNumber(n)
    case String(s) => TString(s)
    case Array(items) => TArray(MeaningOfItems(items))
    case Object(members) => TObject(MeaningOfMembers(members))
  }

  ghost function MeaningOfItems(items: seq<Json>): (r: seq<Tree>)
    ensures |r| == |items| && forall i :: 0 <= i < |items| ==> r[i] == Meaning(items[i])
    decreases items, 0
  {
    if items == [] then [] else [Meaning(items[0])] + MeaningOfItems(items[1..])
  }

  ghost function MeaningOfMembers(members: seq<Member>): (r: map<Text, Tree>)
    ensures forall name :: name in r <==> exists i :: 0 <= i < |members| && members[i].name == name
    decreases members, 0
  {
    if members == [] then map[] else
    assert forall i :: 0 < i < |members| ==> members[i] == members[1..][i - 1];
    MeaningOfMembers(members[1..])[members[0].name := Meaning(members[0].value)]
  }

  lemma {:induction false} MemberMeaning(members: seq<Member>, i: nat)
    requires DistinctNames(members) && i < |members|
    ensures members[i].name in MeaningOfMembers(members)
    ensures MeaningOfMembers(members)[members[i].name] == Meaning(members[i].value)
  {
    if i > 0 {
      MemberMeaning(members[1..], i - 1);
    }
  }

  // ---- Looking up a member ----

  /** The place of a member, or the number of members when there is none of the name. */
  function Find(members: seq<Member>, name: Text): (i: nat)
    ensures i <= |members|
    ensures i < |members| ==> members[i].name == name
    ensures forall j :: 0 <= j < i ==> members[j].name != name
  {
    if members == [] || members[0].name == name then 0 else 1 + Find(members[1..], name)
  }

  predicate HasOwn(members: seq<Member>, name: Text) {
    Find(members, name) < |members|
  }

  function Own(members: seq<Member>, name: Text): Option<Json> {
    if HasOwn(members, name) then Some(members[Find(members, name)].value) else None
  }

  lemma OwnMeaning(members: seq<Member>, name: Text)
    requires DistinctNames(members)
    ensures HasOwn(members, name) <==> name in MeaningOfMembers(members)
    ensures HasOwn(members, name) ==> MeaningOfMembers(members)[name] == Meaning(Own(members, name).value)
  {
    if HasOwn(members, name) {
      MemberMeaning(members, Find(members, name));
    }
  }

  // ---- Deep equality ----

  function Size(v: Json): (n: nat)
    ensures n > 0
    decreases v, 1
  {
    match v
    case Array(items) => 1 + SizeOfItems(items)
    case Object(members) => 1 + SizeOfMembers(members)
    case _ => 1
  }

  function SizeOfItems(items: seq<Json>): nat
    decreases items, 0
  {
    if items == [] then 0 else Size(items[0]) + SizeOfItems(items[1..])
  }

  function SizeOfMembers(members: seq<Member>): nat
    decreases members, 0
  {
    if members == [] then 0 else Size(members[0].value) + SizeOfMembers(members[1..])
  }

  type JsonPair = (Json, Json)

  ghost predicate AllEqual(pairs: seq<JsonPair>) {
    forall i :: 0 <= i < |pairs| ==> Meaning(pairs[i].0) == Meaning(pairs[i].1)
  }

  ghost predicate AreJsonPairs(pairs: seq<JsonPair>) {
    forall i :: 0 <= i < |pairs| ==> IsJson(pairs[i].0) && IsJson(pairs[i].1)
  }

  function PairsSize(pairs: seq<JsonPair>): nat {
    if pairs == [] then 0 else Size(pairs[0].0) + PairsSize(pairs[1..])
  }

  lemma {:induction false} PairsSizeAppend(a: seq<JsonPair>, b: seq<JsonPair>)
    ensures PairsSize(a + b) == PairsSize(a) + PairsSize(b)
  {
    if a == [] {
      assert a + b == b;
    } else {
      assert (a + b)[1..] == a[1..] + b;
      PairsSizeAppend(a[1..], b);
    }
  }

  lemma {:induction false} SizeOfItemsStep(items: seq<Json>, i: nat)
    requires i < |items|
    ensures SizeOfItems(items[..i + 1]) == SizeOfItems(items[..i]) + Size(items[i])
  {
    if i > 0 {
      assert items[..i + 1][1..] == items[1..][..i] && items[..i][1..] == items[1..][..i - 1];
      SizeOfItemsStep(items[1..], i - 1);
    }
  }

  lemma {:induction false} SizeOfMembersStep(members: seq<Member>, i: nat)
    requires i < |members|
    ensures SizeOfMembers(members[..i + 1]) == SizeOfMembers(members[..i]) + Size(members[i].value)
  {
    if i > 0 {
      assert members[..i + 1][1..] == members[1..][..i] && members[..i][1..] == members[1..][..i - 1];
      SizeOfMembersStep(members[1..], i - 1);
    }
  }

  /** Push one pair for each item of two arrays of one length. */
  method PushItems(pending: seq<JsonPair>, xs: seq<Json>, ys: seq<Json>) returns (pushed: seq<JsonPair>)
    requires |xs| == |ys|
    ensures PairsSize(pushed) == PairsSize(pending) + SizeOfItems(xs)
    ensures |pushed| == |pending| + |xs| && pending <= pushed
    ensures forall i :: 0 <= i < |xs| ==> pushed[|pending| + i] == (xs[i], ys[i])
  {
    pushed := pending;
    for i := 0 to |xs|
      invariant |pushed| == |pending| + i && pending <= pushed
      invariant forall k :: 0 <= k < i ==> pushed[|pending| + k] == (xs[k], ys[k])
      invariant PairsSize(pushed) == PairsSize(pending) + SizeOfItems(xs[..i])
    {
      PairsSizeAppend(pushed, [(xs[i], ys[i])]);
      SizeOfItemsStep(xs, i);
      pushed := pushed + [(xs[i], ys[i])];
    }
    assert xs[..|xs|] == xs;
  }

  /** Push one pair for each member of `xs` and its namesake of `ys`; stop at a member that has none. */
  method PushMembers(pending: seq<JsonPair>, xs: seq<Member>, ys: seq<Member>) returns (found: bool, pushed: seq<JsonPair>)
    ensures found <==> forall i :: 0 <= i < |xs| ==> HasOwn(ys, xs[i].name)
    ensures found ==> PairsSize(pushed) == PairsSize(pending) + SizeOfMembers(xs)
    ensures found ==> |pushed| == |pending| + |xs| && pending <= pushed
    ensures found ==> forall i :: 0 <= i < |xs| ==> HasOwn(ys, xs[i].name) && pushed[|pending| + i] == (xs[i].value, Own(ys, xs[i].name).value)
  {
    pushed := pending;
    for i := 0 to |xs|
      invariant |pushed| == |pending| + i && pending <= pushed
      invariant forall k :: 0 <= k < i ==> HasOwn(ys, xs[k].name) && pushed[|pending| + k] == (xs[k].value, Own(ys, xs[k].name).value)
      invariant PairsSize(pushed) == PairsSize(pending) + SizeOfMembers(xs[..i])
    {
      if !HasOwn(ys, xs[i].name) {
        return false, pushed;
      }
      var pair := (xs[i].value, Own(ys, xs[i].name).value);
      PairsSizeAppend(pushed, [pair]);
      SizeOfMembersStep(xs, i);
      pushed := pushed + [pair];
    }
    assert xs[..|xs|] == xs;
    found := true;
  }

  predicate SameType(x: Json, y: Json) {
    match x
    case Bool(_) => y.Bool?
    case Number(_) => y.Number?
    case String(_) => y.String?
    case _ => y.Null? || y.Array? || y.Object?
  }

  /** Whether `===` holds of two values that are not arrays or objects. */
  predicate Identical(x: Json, y: Json) {
    (x.Null? || x.Bool? || x.Number? || x.String?) && x == y
  }

  lemma ItemsEqualIff(xs: seq<Json>, ys: seq<Json>)
    requires |xs| == |ys|
    ensures Meaning(Array(xs)) == Meaning(Array(ys)) <==> forall i :: 0 <= i < |xs| ==> Meaning(xs[i]) == Meaning(ys[i])
  {
    var a, b := MeaningOfItems(xs), MeaningOfItems(ys);
    if forall i :: 0 <= i < |xs| ==> Meaning(xs[i]) == Meaning(ys[i]) {
      assert forall i :: 0 <= i < |a| ==> a[i] == b[i];
      assert a == b;
    } else {
      var i :| 0 <= i < |xs| && Meaning(xs[i]) != Meaning(ys[i]);
      assert a[i] != b[i];
    }
  }

  lemma {:induction false} MapSize(members: seq<Member>)
    requires DistinctNames(members)
    ensures |MeaningOfMembers(members)| == |members|
  {
    if members != [] {
      MapSize(members[1..]);
      assert forall i :: 0 < i < |members| ==> members[i] == members[1..][i - 1];
      assert members[0].name !in MeaningOfMembers(members[1..]);
    }
  }

  /** Objects with equally many members are equal exactly when each member of the one has its equal in the other. */
  lemma MembersEqualIff(xs: seq<Member>, ys: seq<Member>)
    requires DistinctNames(xs) && DistinctNames(ys) && |xs| == |ys|
    ensures Meaning(Object(xs)) == Meaning(Object(ys)) <==>
      forall i :: 0 <= i < |xs| ==> HasOwn(ys, xs[i].name) && Meaning(xs[i].value) == Meaning(Own(ys, xs[i].name).value)
  {
    var a, b := MeaningOfMembers(xs), MeaningOfMembers(ys);
    forall i | 0 <= i < |xs|
      ensures xs[i].name in a && a[xs[i].name] == Meaning(xs[i].value)
      ensures HasOwn(ys, xs[i].name) <==> xs[i].name in b
      ensures HasOwn(ys, xs[i].name) ==> b[xs[i].name] == Meaning(Own(ys, xs[i].name).value)
    {
      MemberMeaning(xs, i);
      OwnMeaning(ys, xs[i].name);
    }
    if forall i :: 0 <= i < |xs| ==> HasOwn(ys, xs[i].name) && Meaning(xs[i].value) == Meaning(Own(ys, xs[i].name).value) {
      MapSize(xs);
      MapSize(ys);
      forall name | name in a ensures name in b && a[name] == b[name] {
        var i :| 0 <= i < |xs| && xs[i].name == name;
      }
      SubmapOfSameSize(a, b);
    }
  }

  lemma SubmapOfSameSize<K, V>(a: map<K, V>, b: map<K, V>)
    requires |a| == |b| && forall k :: k in a ==> k in b && a[k] == b[k]
    ensures a == b
  {
    var extra := b.Keys - a.Keys;
    assert b.Keys == a.Keys + extra;
    assert |b.Keys| == |a.Keys| + |extra|;
    assert b.Keys == a.Keys;
  }
}
