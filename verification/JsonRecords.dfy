/** The members of one object as code sets, deletes and renames them, and what reading a name then gives. */
module JsonRecords {
  import opened JsonValues
  import opened Texts
  import opened Wrappers

  /** Sets a member where it stands, or adds it last. */
  function Put(members: seq<Member>, name: Text, value: Json): seq<Member> {
    if members == [] then [Member(name, value)]
    else if members[0].name == name then [Member(name, value)] + members[1..]
    else [members[0]] + Put(members[1..], name, value)
  }

  function Remove(members: seq<Member>, name: Text): seq<Member> {
    if members == [] then []
    else if members[0].name == name then Remove(members[1..], name)
    else [members[0]] + Remove(members[1..], name)
  }

  /** Puts another member where one of this name stood. */
  function Replace(members: seq<Member>, name: Text, instead: Member): seq<Member> {
    if members == [] then []
    else [if members[0].name == name then instead else members[0]] + Replace(members[1..], name, instead)
  }

  lemma OwnOfRest(members: seq<Member>, name: Text)
    requires members != []
    ensures Own(members, name) == if members[0].name == name then Some(members[0].value) else Own(members[1..], name)
  {
  }

  lemma OwnOfCons(first: Member, rest: seq<Member>, name: Text)
    ensures Own([first] + rest, name) == if first.name == name then Some(first.value) else Own(rest, name)
  {
    OwnOfRest([first] + rest, name);
    assert ([first] + rest)[1..] == rest;
  }

  lemma {:induction false} OwnOfPut(members: seq<Member>, name: Text, value: Json, other: Text)
    ensures Own(Put(members, name, value), other) == if other == name then Some(value) else Own(members, other)
  {
    hide Own;
    if members == [] {
      assert [Member(name, value)] + [] == [Member(name, value)];
      OwnOfCons(Member(name, value), [], other);
      OwnOfNothing(other);
    } else {
      OwnOfRest(members, other);
      if members[0].name == name {
        OwnOfCons(Member(name, value), members[1..], other);
      } else {
        OwnOfPut(members[1..], name, value, other);
        OwnOfCons(members[0], Put(members[1..], name, value), other);
      }
    }
  }

  lemma {:induction false} PutSame(members: seq<Member>, name: Text)
    requires Own(members, name).Some?
    ensures Put(members, name, Own(members, name).value) == members
  {
    hide Own;
    OwnOfNothing(name);
    OwnOfRest(members, name);
    assert members == [members[0]] + members[1..];
    if members[0].name != name {
      PutSame(members[1..], name);
    }
  }

  lemma OwnOfNothing(name: Text)
    ensures Own([], name).None?
  {
  }

  lemma {:induction false} OwnOfRemove(members: seq<Member>, name: Text, other: Text)
    ensures Own(Remove(members, name), other) == if other == name then None else Own(members, other)
  {
    hide Own;
    OwnOfNothing(other);
    if members != [] {
      OwnOfRest(members, other);
      OwnOfRemove(members[1..], name, other);
      OwnOfCons(members[0], Remove(members[1..], name), other);
    }
  }

  /** What stood under the replaced name is gone, and the new member is read where no other of its name stands. */
  lemma {:induction false} OwnOfReplace(members: seq<Member>, name: Text, instead: Member, other: Text)
    requires instead.name != name && Own(members, instead.name).None?
    ensures Own(Replace(members, name, instead), other) ==
      if other == name then None
      else if other == instead.name && Own(members, name).Some? then Some(instead.value)
      else Own(members, other)
  {
    hide Own;
    OwnOfNothing(other);
    OwnOfNothing(name);
    if members != [] {
      OwnOfRest(members, other);
      OwnOfRest(members, name);
      OwnOfRest(members, instead.name);
      OwnOfReplace(members[1..], name, instead, other);
      OwnOfCons(if members[0].name == name then instead else members[0], Replace(members[1..], name, instead), other);
    }
  }

  /** Objects that differ, if at all, only in members of the given names. */
  ghost predicate SameExcept(a: seq<Member>, b: seq<Member>, names: set<Text>) {
    forall n :: n !in names ==> Own(a, n) == Own(b, n)
  }

  lemma PutChangesOnly(members: seq<Member>, name: Text, value: Json)
    ensures Own(Put(members, name, value), name) == Some(value) && SameExcept(members, Put(members, name, value), {name})
  {
    hide Own;
    forall other ensures Own(Put(members, name, value), other) == if other == name then Some(value) else Own(members, other) {
      OwnOfPut(members, name, value, other);
    }
  }

  lemma RemoveChangesOnly(members: seq<Member>, name: Text)
    ensures Own(Remove(members, name), name).None? && SameExcept(members, Remove(members, name), {name})
  {
    hide Own;
    forall other ensures Own(Remove(members, name), other) == if other == name then None else Own(members, other) {
      OwnOfRemove(members, name, other);
    }
  }

  lemma ReplaceChangesOnly(members: seq<Member>, name: Text, instead: Member)
    requires instead.name != name && Own(members, instead.name).None? && Own(members, name).Some?
    ensures Own(Replace(members, name, instead), instead.name) == Some(instead.value)
    ensures SameExcept(members, Replace(members, name, instead), {name, instead.name})
  {
    hide Own;
    forall other
      ensures other != name && other != instead.name ==> Own(Replace(members, name, instead), other) == Own(members, other)
    {
      OwnOfReplace(members, name, instead, other);
    }
    OwnOfReplace(members, name, instead, instead.name);
  }
}
