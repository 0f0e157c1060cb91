/**
 * `differingMembers` of `compare.ts`: the members at which two objects differ, in the
 * order of their names, and the one name that it can miss.
 */
module JsonDifferences {
  import opened JsonTraversals
  import opened JsonValues
  import opened Sorting
  import opened Texts
  import opened Wrappers

  /** The name `__proto__`: an object without such a member still has a prototype to read under it. */
  const PROTO: Text := [0x5F, 0x5F, 0x70, 0x72, 0x6F, 0x74, 0x6F, 0x5F, 0x5F]

  datatype Path = WholeValue | Named(name: Text)

  /**
   * What reading a name off an object gives: its own member; or, for `__proto__`, the prototype of all objects,
   * which has no enumerable member of its own; or nothing that equals a JSON value.
   */
  function Read(members: seq<Member>, name: Text): Option<Json> {
    if HasOwn(members, name) then Own(members, name)
    else if name == PROTO then Some(Object([]))
    else None
  }

  ghost predicate SameSlot(x: Option<Json>, y: Option<Json>) {
    if x.Some? && y.Some? then Meaning(x.value) == Meaning(y.value) else x == y
  }

  // ---- Names in order ----

  /** The order of code units, by which the names are sorted. */
  predicate NameLe(a: Text, b: Text) {
    a == [] || (b != [] && (a[0] < b[0] || (a[0] == b[0] && NameLe(a[1..], b[1..]))))
  }

  lemma {:induction false} NameLeTotal(a: Text, b: Text)
    ensures NameLe(a, b) || NameLe(b, a)
    ensures NameLe(a, b) && NameLe(b, a) ==> a == b
  {
    if a != [] && b != [] && a[0] == b[0] {
      NameLeTotal(a[1..], b[1..]);
      assert a == [a[0]] + a[1..] && b == [b[0]] + b[1..];
    }
  }

  lemma {:induction false} NameLeTransitive(a: Text, b: Text, c: Text)
    requires NameLe(a, b) && NameLe(b, c)
    ensures NameLe(a, c)
  {
    if a != [] && a[0] == b[0] == c[0] {
      NameLeTransitive(a[1..], b[1..], c[1..]);
    }
  }

  lemma NamesAreOrdered(names: seq<Text>)
    ensures Orders(NameLe, names)
  {
    forall x, y | x in names && y in names ensures NameLe(x, y) || NameLe(y, x) {
      NameLeTotal(x, y);
    }
    forall x, y, z | x in names && y in names && z in names && NameLe(x, y) && NameLe(y, z) ensures NameLe(x, z) {
      NameLeTransitive(x, y, z);
    }
  }

  ghost predicate AllDistinct(names: seq<Text>) {
    forall i, j :: 0 <= i < j < |names| ==> names[i] != names[j]
  }

  function Names(members: seq<Member>): (names: seq<Text>)
    ensures |names| == |members| && forall i :: 0 <= i < |members| ==> names[i] == members[i].name
  {
    seq(|members|, i requires 0 <= i < |members| => members[i].name)
  }

  /** Each name once, as a set holds it. */
  function Once(names: seq<Text>): (once: seq<Text>)
    ensures forall x :: x in once <==> x in names
    ensures AllDistinct(once)
  {
    if names == [] then [] else
    var n := |names| - 1;
    assert names == names[..n] + [names[n]];
    var rest := Once(names[..n]);
    if names[n] in rest then rest else rest + [names[n]]
  }

  function Keys(xs: seq<Member>, ys: seq<Member>): seq<Text> {
    Sort(NameLe, Once(Names(xs) + Names(ys)))
  }

  lemma OwnIsNamed(members: seq<Member>, name: Text)
    ensures HasOwn(members, name) <==> name in Names(members)
  {
    if HasOwn(members, name) {
      assert Names(members)[Find(members, name)] == name;
    }
  }

  lemma {:induction false} DistinctByCount(names: seq<Text>)
    ensures AllDistinct(names) <==> forall x :: multiset(names)[x] <= 1
  {
    if names != [] {
      var n := |names| - 1;
      assert names == names[..n] + [names[n]];
      DistinctByCount(names[..n]);
      assert multiset(names) == multiset(names[..n]) + multiset{names[n]};
      if AllDistinct(names) {
        assert names[n] !in multiset(names[..n]);
      } else if AllDistinct(names[..n]) {
        var i :| 0 <= i < n && names[i] == names[n];
        assert names[..n][i] in multiset(names[..n]);
        assert multiset(names)[names[n]] >= 2;
      } else {
        var x :| multiset(names[..n])[x] > 1;
        assert multiset(names)[x] > 1;
      }
    }
  }

  lemma KeysAreTheNames(xs: seq<Member>, ys: seq<Member>)
    ensures var keys := Keys(xs, ys);
      && (forall name :: name in keys <==> HasOwn(xs, name) || HasOwn(ys, name))
      && AllDistinct(keys) && SortedBy(NameLe, keys)
  {
    var all := Names(xs) + Names(ys);
    NamesAreOrdered(Once(all));
    SortIsSorted(NameLe, Once(all));
    SameElements(Keys(xs, ys), Once(all));
    DistinctByCount(Once(all));
    DistinctByCount(Keys(xs, ys));
    forall name ensures name in all <==> HasOwn(xs, name) || HasOwn(ys, name) {
      OwnIsNamed(xs, name);
      OwnIsNamed(ys, name);
    }
  }

  // ---- differingMembers ----

  /** The names among `keys` under which the two objects read differently, in their order. */
  ghost function Listed(xs: seq<Member>, ys: seq<Member>, keys: seq<Text>): (out: seq<Path>)
    ensures forall p :: p in out <==> p.Named? && p.name in keys && !SameSlot(Read(xs, p.name), Read(ys, p.name))
  {
    if keys == [] then [] else
    var n := |keys| - 1;
    assert keys == keys[..n] + [keys[n]];
    var rest := Listed(xs, ys, keys[..n]);
    if SameSlot(Read(xs, keys[n]), Read(ys, keys[n])) then rest else rest + [Named(keys[n])]
  }

  ghost function Differences(a: Json, b: Json): seq<Path> {
    if Meaning(a) == Meaning(b) then []
    else if !a.Object? || !b.Object? then [WholeValue]
    else Listed(a.members, b.members, Keys(a.members, b.members))
  }

  method SlotsEqual(x: Option<Json>, y: Option<Json>) returns (equal: bool)
    requires (x.Some? ==> IsJson(x.value)) && (y.Some? ==> IsJson(y.value))
    ensures equal <==> SameSlot(x, y)
  {
    if x.Some? && y.Some? {
      equal := DeepEqual(x.value, y.value);
    } else {
      equal := x.None? && y.None?;
    }
  }

  lemma ReadIsJson(members: seq<Member>, name: Text)
    requires IsJson(Object(members))
    ensures Read(members, name).Some? ==> IsJson(Read(members, name).value)
  {
  }

  method DifferingMembers(a: Json, b: Json) returns (out: seq<Path>)
    requires IsJson(a) && IsJson(b)
    ensures out == Differences(a, b)
  {
    hide Read;
    hide SameSlot;
    hide Meaning;
    hide Keys;
    hide IsJson;
    var equal := DeepEqual(a, b);
    if equal {
      return [];
    }
    if !a.Object? || !b.Object? {
      return [WholeValue];
    }
    var keys := Keys(a.members, b.members);
    out := [];
    for i := 0 to |keys|
      invariant out == Listed(a.members, b.members, keys[..i])
    {
      assert keys[..i + 1][..i] == keys[..i] && keys[..i + 1][i] == keys[i];
      ReadIsJson(a.members, keys[i]);
      ReadIsJson(b.members, keys[i]);
      var same := SlotsEqual(Read(a.members, keys[i]), Read(b.members, keys[i]));
      if !same {
        out := out + [Named(keys[i])];
      }
    }
    assert keys[..|keys|] == keys;
  }

  // ---- What the list says ----

  /** Whether the two objects differ in the member of this name: one lacks it, or the values differ. */
  ghost predicate DifferIn(xs: seq<Member>, ys: seq<Member>, name: Text) {
    !SameSlot(Own(xs, name), Own(ys, name))
  }

  /** A `__proto__` member of one object alone whose value is an empty object. */
  ghost predicate HiddenByPrototype(xs: seq<Member>, ys: seq<Member>) {
    || (HasOwn(xs, PROTO) && !HasOwn(ys, PROTO) && Meaning(Own(xs, PROTO).value) == TObject(map[]))
    || (HasOwn(ys, PROTO) && !HasOwn(xs, PROTO) && Meaning(Own(ys, PROTO).value) == TObject(map[]))
  }

  lemma ReadsDifferIff(xs: seq<Member>, ys: seq<Member>, name: Text)
    ensures !SameSlot(Read(xs, name), Read(ys, name)) <==>
            DifferIn(xs, ys, name) && !(name == PROTO && HiddenByPrototype(xs, ys))
  {
    assert Meaning(Object([])) == TObject(map[]);
  }

  /** Equal objects are those that differ in no member. */
  lemma EqualIffNoMemberDiffers(xs: seq<Member>, ys: seq<Member>)
    requires DistinctNames(xs) && DistinctNames(ys)
    ensures Meaning(Object(xs)) == Meaning(Object(ys)) <==> forall name :: !DifferIn(xs, ys, name)
  {
    hide HasOwn;
    hide Own;
    hide Meaning;
    var a, b := MeaningOfMembers(xs), MeaningOfMembers(ys);
    assert Meaning(Object(xs)) == TObject(a) && Meaning(Object(ys)) == TObject(b) by {
      ObjectMeaning(xs);
      ObjectMeaning(ys);
    }
    forall name ensures DifferIn(xs, ys, name) <==> (name in a) != (name in b) || (name in a && a[name] != b[name]) {
      SlotOfMeaning(xs, name);
      SlotOfMeaning(ys, name);
    }
    if forall name :: !DifferIn(xs, ys, name) {
      assert a == b;
    }
  }

  lemma ObjectMeaning(members: seq<Member>)
    ensures Meaning(Object(members)) == TObject(MeaningOfMembers(members))
  {
  }

  lemma SlotOfMeaning(members: seq<Member>, name: Text)
    requires DistinctNames(members)
    ensures Own(members, name).Some? <==> name in MeaningOfMembers(members)
    ensures Own(members, name).Some? ==> Meaning(Own(members, name).value) == MeaningOfMembers(members)[name]
  {
    OwnMeaning(members, name);
  }

  /** The names listed, each once and in order, are those in which the objects differ, less the one hidden. */
  lemma ListedNames(xs: seq<Member>, ys: seq<Member>, name: Text)
    requires DistinctNames(xs) && DistinctNames(ys)
    ensures Named(name) in Differences(Object(xs), Object(ys)) <==>
            DifferIn(xs, ys, name) && !(name == PROTO && HiddenByPrototype(xs, ys))
  {
    hide Meaning;
    hide SameSlot;
    hide HiddenByPrototype;
    hide Keys;
    KeysAreTheNames(xs, ys);
    ReadsDifferIff(xs, ys, name);
    EqualIffNoMemberDiffers(xs, ys);
    if DifferIn(xs, ys, name) {
      AbsentFromBoth(xs, ys, name);
    }
  }

  lemma AbsentFromBoth(xs: seq<Member>, ys: seq<Member>, name: Text)
    requires DifferIn(xs, ys, name)
    ensures HasOwn(xs, name) || HasOwn(ys, name)
  {
  }

  /** The list is exact, for every two objects, unless a `__proto__` member is hidden by the prototype. */
  lemma ListIsExactIff(xs: seq<Member>, ys: seq<Member>)
    requires DistinctNames(xs) && DistinctNames(ys)
    ensures (forall name :: Named(name) in Differences(Object(xs), Object(ys)) <==> DifferIn(xs, ys, name))
            <==> !HiddenByPrototype(xs, ys)
  {
    hide Differences;
    forall name
      ensures Named(name) in Differences(Object(xs), Object(ys)) <==>
              DifferIn(xs, ys, name) && !(name == PROTO && HiddenByPrototype(xs, ys))
    {
      ListedNames(xs, ys, name);
    }
    if HiddenByPrototype(xs, ys) {
      assert DifferIn(xs, ys, PROTO);
      assert Named(PROTO) !in Differences(Object(xs), Object(ys));
    }
  }

  /** The list is empty exactly for equal objects and for those whose one difference is hidden. */
  lemma ListIsEmptyIff(xs: seq<Member>, ys: seq<Member>)
    requires DistinctNames(xs) && DistinctNames(ys)
    ensures Differences(Object(xs), Object(ys)) == [] <==>
      || Meaning(Object(xs)) == Meaning(Object(ys))
      || (HiddenByPrototype(xs, ys) && forall name :: name != PROTO ==> !DifferIn(xs, ys, name))
  {
    hide Meaning;
    hide HiddenByPrototype;
    hide DifferIn;
    var out := Differences(Object(xs), Object(ys));
    EqualIffNoMemberDiffers(xs, ys);
    forall name
      ensures Named(name) in out <==> DifferIn(xs, ys, name) && !(name == PROTO && HiddenByPrototype(xs, ys))
    {
      ListedNames(xs, ys, name);
    }
    if out != [] && Meaning(Object(xs)) != Meaning(Object(ys)) {
      assert out[0] in out && out[0].Named?;
      assert Named(out[0].name) in out;
    }
  }

  /** The first object with the members of these names taken from the second. */
  ghost function Patched(m: map<Text, Tree>, n: map<Text, Tree>, names: set<Text>): map<Text, Tree> {
    map k | k in m.Keys + n.Keys && (if k in names then k in n else k in m) :: if k in names then n[k] else m[k]
  }

  lemma ReplacedAre(xs: seq<Member>, ys: seq<Member>, names: set<Text>)
    requires DistinctNames(xs) && DistinctNames(ys)
    ensures Patched(MeaningOfMembers(xs), MeaningOfMembers(ys), names) == MeaningOfMembers(ys) <==>
            forall name :: DifferIn(xs, ys, name) ==> name in names
  {
    hide MeaningOfMembers;
    hide HasOwn;
    hide Own;
    hide DifferIn;
    var m, n := MeaningOfMembers(xs), MeaningOfMembers(ys);
    var patched := Patched(m, n, names);
    forall name ensures DifferIn(xs, ys, name) <==> (name in m) != (name in n) || (name in m && m[name] != n[name]) {
      DifferInMeans(xs, ys, name);
    }
    if forall name :: DifferIn(xs, ys, name) ==> name in names {
      assert patched == n;
    } else {
      var name :| DifferIn(xs, ys, name) && name !in names;
      assert (name in patched) != (name in n) || (name in n && patched[name] != n[name]);
    }
  }

  lemma DifferInMeans(xs: seq<Member>, ys: seq<Member>, name: Text)
    requires DistinctNames(xs) && DistinctNames(ys)
    ensures var m, n := MeaningOfMembers(xs), MeaningOfMembers(ys);
      DifferIn(xs, ys, name) <==> (name in m) != (name in n) || (name in m && m[name] != n[name])
  {
    hide MeaningOfMembers;
    hide HasOwn;
    hide Own;
    SlotOfMeaning(xs, name);
    SlotOfMeaning(ys, name);
  }

  /** Replacing just the members that the list names makes the objects equal, and replacing fewer does not. */
  ghost predicate ListIsWhatToReplace(xs: seq<Member>, ys: seq<Member>) {
    forall names: set<Text> ::
      Patched(MeaningOfMembers(xs), MeaningOfMembers(ys), names) == MeaningOfMembers(ys) <==>
      forall name :: Named(name) in Differences(Object(xs), Object(ys)) ==> name in names
  }

  /** Replacing members makes two objects equal exactly when all those listed are replaced, if and only if none is hidden. */
  lemma ReplacingTheListedMembers(xs: seq<Member>, ys: seq<Member>)
    requires DistinctNames(xs) && DistinctNames(ys)
    ensures ListIsWhatToReplace(xs, ys) <==> !HiddenByPrototype(xs, ys)
  {
    hide Differences;
    hide MeaningOfMembers;
    hide DifferIn;
    hide Patched;
    hide HasOwn;
    hide Own;
    forall name
      ensures Named(name) in Differences(Object(xs), Object(ys)) <==> DifferIn(xs, ys, name) && !(name == PROTO && HiddenByPrototype(xs, ys))
    {
      ListedNames(xs, ys, name);
    }
    forall names: set<Text>
      ensures Patched(MeaningOfMembers(xs), MeaningOfMembers(ys), names) == MeaningOfMembers(ys) <==>
              forall name :: DifferIn(xs, ys, name) ==> name in names
    {
      ReplacedAre(xs, ys, names);
    }
    if HiddenByPrototype(xs, ys) {
      var listed := ListedSet(xs, ys);
      HiddenDiffers(xs, ys);
      assert PROTO !in listed && DifferIn(xs, ys, PROTO);
      assert Patched(MeaningOfMembers(xs), MeaningOfMembers(ys), listed) != MeaningOfMembers(ys);
    } else {
      forall names: set<Text>
        ensures (forall name :: Named(name) in Differences(Object(xs), Object(ys)) ==> name in names)
          <==> Patched(MeaningOfMembers(xs), MeaningOfMembers(ys), names) == MeaningOfMembers(ys)
      {
        assert forall name :: Named(name) in Differences(Object(xs), Object(ys)) <==> DifferIn(xs, ys, name);
      }
    }
  }

  lemma HiddenDiffers(xs: seq<Member>, ys: seq<Member>)
    requires HiddenByPrototype(xs, ys)
    ensures DifferIn(xs, ys, PROTO)
  {
  }

  /** The names listed, as a set. */
  ghost function ListedSet(xs: seq<Member>, ys: seq<Member>): (names: set<Text>)
    ensures forall name :: name in names <==> Named(name) in Differences(Object(xs), Object(ys))
  {
    var out := Differences(Object(xs), Object(ys));
    var named := set p | p in out && p.Named? :: p.name;
    assert forall name :: Named(name) in out ==> Named(name).name in named;
    named
  }

  /** `{}` and `{"__proto__": {}}` differ, and nothing is listed. */
  lemma AHiddenMemberIsMissed()
    ensures var a, b := Object([]), Object([Member(PROTO, Object([]))]);
      Meaning(a) != Meaning(b) && Differences(a, b) == []
  {
    var ys := [Member(PROTO, Object([]))];
    assert Own(ys, PROTO) == Some(Object([])) && Meaning(Object([])) == TObject(map[]);
    assert DifferIn([], ys, PROTO) && HiddenByPrototype([], ys);
    EqualIffNoMemberDiffers([], ys);
    forall name | name != PROTO ensures !DifferIn([], ys, name) {
      assert !HasOwn(ys, name);
    }
    ListIsEmptyIff([], ys);
  }
}
