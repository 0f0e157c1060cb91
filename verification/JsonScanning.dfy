/**
 * The scanner of `json.ts` decides a property of the parse tree from the text alone: it
 * stops at a repeated name exactly when some object of the tree holds one.
 */
module JsonScanning {
  import opened JsonText
  import opened Texts
  import opened Wrappers

  // ---- The first repeat of a tree, in the order of the text ----

  ghost function FirstRepeat(v: Value): Option<Text>
    requires IsValue(v)
    decreases v, 1
  {
    match v
    case Literal(_) => None
    case String(_) => None
    case Array(_, items) => FirstOfItems(items)
    case Object(_, members) => FirstOfMembers(members, {})
  }

  ghost predicate AreItems(items: seq<Item>) {
    forall i :: 0 <= i < |items| ==> IsSpace(items[i].before) && IsSpace(items[i].after) && IsValue(items[i].value)
  }

  ghost predicate IsMember(m: Member) {
    && IsSpace(m.beforeName) && AreChars(m.name) && IsSpace(m.afterName)
    && IsSpace(m.before) && IsSpace(m.after) && IsValue(m.value)
  }

  ghost predicate AreMembers(members: seq<Member>) {
    forall i :: 0 <= i < |members| ==> IsMember(members[i])
  }

  ghost function FirstOfItems(items: seq<Item>): Option<Text>
    requires AreItems(items)
    decreases items, 0
  {
    if items == [] then None else
    var first := FirstRepeat(items[0].value);
    if first.Some? then first else FirstOfItems(items[1..])
  }

  ghost function FirstOfMembers(members: seq<Member>, names: set<Text>): Option<Text>
    requires AreMembers(members)
    decreases members, 0
  {
    if members == [] then None else
    var name := Decoded(members[0].name);
    if name in names then Some(name) else
    var first := FirstRepeat(members[0].value);
    if first.Some? then first else FirstOfMembers(members[1..], names + {name})
  }

  /** There is a first repeat exactly when there is a repeat. */
  lemma {:induction false} FirstRepeatIffRepeats(v: Value)
    requires IsValue(v)
    ensures FirstRepeat(v).Some? <==> RepeatsAName(v)
    decreases v, 1
  {
    match v
    case Literal(_) =>
    case String(_) =>
    case Array(_, items) => ItemsIff(items);
    case Object(_, members) => MembersIff(members, {});
  }

  lemma {:induction false} ItemsIff(items: seq<Item>)
    requires AreItems(items)
    ensures FirstOfItems(items).Some? <==> exists i :: 0 <= i < |items| && RepeatsAName(items[i].value)
    decreases items, 0
  {
    if items != [] {
      FirstRepeatIffRepeats(items[0].value);
      ItemsIff(items[1..]);
      assert forall i :: 0 < i < |items| ==> items[i] == items[1..][i - 1];
    }
  }

  /** Some member's name is already among `names`, or two members share one, or a member's value repeats a name. */
  ghost predicate MembersRepeat(members: seq<Member>, names: set<Text>)
    requires AreMembers(members)
  {
    || (exists i :: 0 <= i < |members| && Decoded(members[i].name) in names)
    || (exists i, j :: 0 <= i < j < |members| && Decoded(members[i].name) == Decoded(members[j].name))
    || (exists i :: 0 <= i < |members| && RepeatsAName(members[i].value))
  }

  lemma {:induction false} MembersIff(members: seq<Member>, names: set<Text>)
    requires AreMembers(members)
    ensures FirstOfMembers(members, names).Some? <==> MembersRepeat(members, names)
    decreases members, 0
  {
    if members != [] {
      var name, rest := Decoded(members[0].name), members[1..];
      FirstRepeatIffRepeats(members[0].value);
      MembersIff(rest, names + {name});
      MembersStep(members, names);
    }
  }

  lemma MembersStep(members: seq<Member>, names: set<Text>)
    requires AreMembers(members) && members != []
    ensures var name := Decoded(members[0].name);
      MembersRepeat(members, names) <==>
        name in names || RepeatsAName(members[0].value) || MembersRepeat(members[1..], names + {name})
  {
    hide Decoded;
    hide RepeatsAName;
    var name, rest := Decoded(members[0].name), members[1..];
    assert forall i :: 0 < i < |members| ==> members[i] == rest[i - 1];
    assert forall i :: 0 <= i < |rest| ==> rest[i] == members[i + 1];
    if MembersRepeat(rest, names + {name}) {
      if i :| 0 <= i < |rest| && Decoded(rest[i].name) in names + {name} {
        assert Decoded(members[i + 1].name) == Decoded(rest[i].name);
      } else if i, j :| 0 <= i < j < |rest| && Decoded(rest[i].name) == Decoded(rest[j].name) {
        assert Decoded(members[i + 1].name) == Decoded(members[j + 1].name);
      } else {
        var i :| 0 <= i < |rest| && RepeatsAName(rest[i].value);
        assert RepeatsAName(members[i + 1].value);
      }
    }
    if MembersRepeat(members, names) && name !in names && !RepeatsAName(members[0].value) {
      if i :| 0 <= i < |members| && Decoded(members[i].name) in names {
        assert Decoded(rest[i - 1].name) in names + {name};
      } else if i, j :| 0 <= i < j < |members| && Decoded(members[i].name) == Decoded(members[j].name) {
        if i == 0 {
          assert Decoded(rest[j - 1].name) in names + {name};
        } else {
          assert Decoded(rest[i - 1].name) == Decoded(rest[j - 1].name);
        }
      } else {
        var i :| 0 <= i < |members| && RepeatsAName(members[i].value);
        assert RepeatsAName(rest[i - 1].value);
      }
    }
  }

  // ---- Strings ----

  lemma {:induction false} SpanOfString(chars: seq<Char>, post: Text)
    requires AreChars(chars)
    ensures StringSpan(CharsText(chars) + [QUOTE] + post) == |CharsText(chars)|
  {
    if chars == [] {
      assert CharsText(chars) + [QUOTE] + post == [QUOTE] + post;
    } else {
      var c, rest := CharText(chars[0]), CharsText(chars[1..]) + [QUOTE] + post;
      assert CharsText(chars) + [QUOTE] + post == c + rest;
      SpanOfString(chars[1..], post);
      SpanOfChar(chars[0], rest);
    }
  }

  lemma SpanOfChar(c: Char, rest: Text)
    requires IsChar(c) && rest != []
    ensures StringSpan(CharText(c) + rest) == |CharText(c)| + StringSpan(rest)
  {
    var text := CharText(c) + rest;
    match c
    case Plain(unit) => assert text[1..] == rest;
    case Escape(letter) => assert text[2..] == rest;
    case Hex(digits) =>
      assert text[2..] == digits + rest;
      PlainSpan(digits, rest);
  }

  lemma {:induction false} PlainSpan(digits: Text, rest: Text)
    requires forall i :: 0 <= i < |digits| ==> IsHexDigit(digits[i])
    ensures StringSpan(digits + rest) == |digits| + StringSpan(rest)
  {
    if digits == [] {
      assert digits + rest == rest;
    } else {
      assert (digits + rest)[1..] == digits[1..] + rest;
      PlainSpan(digits[1..], rest);
    }
  }

  /** Decoding the spelling from the text gives the string of the tree. */
  lemma {:induction false} UnescapeIsDecoded(chars: seq<Char>)
    requires AreChars(chars)
    ensures Unescape(CharsText(chars)) == Decoded(chars)
  {
    if chars != [] {
      UnescapeIsDecoded(chars[1..]);
      UnescapeChar(chars[0], CharsText(chars[1..]));
    }
  }

  lemma UnescapeChar(c: Char, rest: Text)
    requires IsChar(c)
    ensures Unescape(CharText(c) + rest) == [CharUnit(c)] + Unescape(rest)
  {
    var text := CharText(c) + rest;
    match c
    case Plain(unit) => assert text[1..] == rest;
    case Escape(letter) => assert text[2..] == rest && text[1] != LOWER_U;
    case Hex(digits) =>
      assert text[2..6] == digits && text[6..] == rest;
      assert forall i :: 2 <= i < 6 ==> text[i] == digits[i - 2];
  }

  // ---- Scanning the text of a tree ----

  /** A unit the scanner passes over. */
  predicate IsNeutral(unit: CodeUnit) {
    unit !in {QUOTE, OPEN_OBJECT, OPEN_ARRAY, CLOSE_OBJECT, CLOSE_ARRAY, COMMA}
  }

  lemma {:induction false} ScanNeutral(skipped: Text, post: Text, open: Open, expectName: bool)
    requires forall i :: 0 <= i < |skipped| ==> IsNeutral(skipped[i])
    ensures Scan(skipped + post, open, expectName) == Scan(post, open, expectName)
  {
    if skipped == [] {
      assert skipped + post == post;
    } else {
      assert (skipped + post)[1..] == skipped[1..] + post;
      ScanNeutral(skipped[1..], post, open, expectName);
    }
  }

  lemma StringPlaces(chars: seq<Char>, post: Text)
    requires AreChars(chars)
    ensures var text := StringText(chars) + post; var span := StringSpan(text[1..]);
      && span == |CharsText(chars)| && 2 + span <= |text|
      && text[0] == QUOTE && text[1..1 + span] == CharsText(chars) && text[2 + span..] == post
  {
    hide CharsText;
    hide StringSpan;
    hide AreChars;
    var text, raw := StringText(chars) + post, CharsText(chars);
    SpanOfString(chars, post);
    assert text == [QUOTE] + (raw + [QUOTE] + post);
    assert text[1..] == raw + [QUOTE] + post;
  }

  /** A string where no name is expected is stepped over, whatever it holds. */
  lemma ScanString(chars: seq<Char>, post: Text, open: Open)
    requires AreChars(chars)
    ensures Scan(StringText(chars) + post, open, false) == Scan(post, open, false)
  {
    hide Unescape;
    hide StringText;
    StringPlaces(chars, post);
  }

  /** A string where a name is expected is compared, as decoded, with the names the object has so far. */
  lemma ScanName(chars: seq<Char>, post: Text, open: Open, names: set<Text>)
    requires AreChars(chars)
    ensures Scan(StringText(chars) + post, open + [Some(names)], true) ==
      if Decoded(chars) in names then Some(Decoded(chars)) else Scan(post, open + [Some(names + {Decoded(chars)})], false)
  {
    hide Unescape;
    hide StringText;
    hide Decoded;
    StringPlaces(chars, post);
    UnescapeIsDecoded(chars);
    assert Pop(open + [Some(names)]) == open;
  }

  /** The scan goes on after `post`, unless the tree before it held a repeat. */
  ghost function Onward(first: Option<Text>, post: Text, open: Open): Option<Text> {
    if first.Some? then first else Scan(post, open, false)
  }

  lemma {:induction false} ScanValue(v: Value, post: Text, open: Open)
    requires IsValue(v)
    ensures Scan(ValueText(v) + post, open, false) == Onward(FirstRepeat(v), post, open)
    decreases v, 1
  {
    hide Scan;
    match v
    case Literal(text) => ScanNeutral(text, post, open, false);
    case String(chars) => ScanString(chars, post, open);
    case Array(inside, items) =>
      ScanOpen(v, post, open);
      var closing := [CLOSE_ARRAY] + post;
      ScanClose(closing, open, None);
      if items == [] {
        ScanNeutral(inside, closing, open + [None], false);
      } else {
        ScanItems(items, closing, open + [None]);
      }
    case Object(inside, members) =>
      ScanOpen(v, post, open);
      var closing := [CLOSE_OBJECT] + post;
      if members == [] {
        ScanNeutral(inside, closing, open + [Some({})], true);
        ScanCloseExpecting(closing, open, {});
      } else {
        ScanMembers(members, closing, open, {});
      }
  }

  /** An opening bracket opens a container, and a name is expected in an object. */
  lemma ScanOpen(v: Value, post: Text, open: Open)
    requires v.Array? || v.Object?
    ensures var body := if v.Array? then (if v.items == [] then v.inside else ItemsText(v.items)) + ([CLOSE_ARRAY] + post)
                        else (if v.members == [] then v.inside else MembersText(v.members)) + ([CLOSE_OBJECT] + post);
      Scan(ValueText(v) + post, open, false) == Scan(body, open + [if v.Array? then None else Some({})], v.Object?)
  {
    hide ItemsText;
    hide MembersText;
    var text := ValueText(v) + post;
    if v.Array? {
      var body := if v.items == [] then v.inside else ItemsText(v.items);
      assert text == [OPEN_ARRAY] + (body + ([CLOSE_ARRAY] + post));
    } else {
      var body := if v.members == [] then v.inside else MembersText(v.members);
      assert text == [OPEN_OBJECT] + (body + ([CLOSE_OBJECT] + post));
    }
  }

  lemma ScanClose(closing: Text, open: Open, top: Option<set<Text>>)
    requires closing != [] && closing[0] in {CLOSE_OBJECT, CLOSE_ARRAY}
    ensures Scan(closing, open + [top], false) == Scan(closing[1..], open, false)
  {
    assert Pop(open + [top]) == open;
  }

  lemma ScanCloseExpecting(closing: Text, open: Open, names: set<Text>)
    requires closing != [] && closing[0] in {CLOSE_OBJECT, CLOSE_ARRAY}
    ensures Scan(closing, open + [Some(names)], true) == Scan(closing[1..], open, false)
  {
    assert Pop(open + [Some(names)]) == open;
  }

  lemma ScanComma(post: Text, open: Open, top: Option<set<Text>>)
    ensures Scan([COMMA] + post, open + [top], false) == Scan(post, open + [top], top.Some?)
  {
    assert ([COMMA] + post)[1..] == post;
  }

  lemma {:induction false} ScanItems(items: seq<Item>, post: Text, open: Open)
    requires AreItems(items) && items != [] && open != [] && Top(open).None?
    ensures Scan(ItemsText(items) + post, open, false) == Onward(FirstOfItems(items), post, open)
    decreases items, 0
  {
    hide Scan;
    var item, rest := items[0], items[1..];
    var onward := if rest == [] then post else [COMMA] + (ItemsText(rest) + post);
    assert ItemsText(items) + post == item.before + (ValueText(item.value) + (item.after + onward)) by {
      if rest == [] {
        assert item.before + ValueText(item.value) + item.after + post == item.before + (ValueText(item.value) + (item.after + post));
      } else {
        assert item.before + ValueText(item.value) + item.after + [COMMA] + ItemsText(rest) + post
            == item.before + (ValueText(item.value) + (item.after + onward));
      }
    }
    ScanNeutral(item.before, ValueText(item.value) + (item.after + onward), open, false);
    ScanValue(item.value, item.after + onward, open);
    ScanNeutral(item.after, onward, open, false);
    if rest != [] {
      assert open == Pop(open) + [Top(open)];
      ScanComma(ItemsText(rest) + post, Pop(open), None);
      ScanItems(rest, post, open);
    }
  }

  /** One member, up to what follows it. */
  lemma {:induction false} ScanMember(m: Member, onward: Text, open: Open, names: set<Text>)
    requires IsMember(m)
    ensures var name := Decoded(m.name);
      Scan(MemberText(m) + onward, open + [Some(names)], true) ==
        if name in names then Some(name) else Onward(FirstRepeat(m.value), onward, open + [Some(names + {name})])
    decreases m, 0
  {
    hide Scan;
    hide StringText;
    hide Decoded;
    var name := Decoded(m.name);
    var inner := open + [Some(names + {name})];
    var fourth := ValueText(m.value) + (m.after + onward);
    var third := [COLON] + (m.before + fourth);
    var second := m.afterName + third;
    assert MemberText(m) + onward == m.beforeName + (StringText(m.name) + second);
    ScanNeutral(m.beforeName, StringText(m.name) + second, open + [Some(names)], true);
    ScanName(m.name, second, open, names);
    ScanNeutral(m.afterName, third, inner, false);
    ScanNeutral([COLON], m.before + fourth, inner, false);
    ScanNeutral(m.before, fourth, inner, false);
    ScanValue(m.value, m.after + onward, inner);
    ScanNeutral(m.after, onward, inner, false);
  }

  lemma {:induction false} ScanMembers(members: seq<Member>, closing: Text, open: Open, names: set<Text>)
    requires AreMembers(members) && members != [] && closing != [] && closing[0] in {CLOSE_OBJECT, CLOSE_ARRAY}
    ensures Scan(MembersText(members) + closing, open + [Some(names)], true) ==
            Onward(FirstOfMembers(members, names), closing[1..], open)
    decreases members, 0
  {
    hide Scan;
    hide MemberText;
    hide Decoded;
    var m, rest := members[0], members[1..];
    var known := names + {Decoded(m.name)};
    var onward := if rest == [] then closing else [COMMA] + (MembersText(rest) + closing);
    assert MembersText(members) + closing == MemberText(m) + onward;
    ScanMember(m, onward, open, names);
    if rest == [] {
      ScanClose(closing, open, Some(known));
    } else {
      ScanComma(MembersText(rest) + closing, open, Some(known));
      ScanMembers(rest, closing, open, known);
    }
  }

  /**
   * On every JSON text, whatever its white space, escapes and nesting, the scanner finds a repeated name
   * exactly when some object of the text's tree holds two members of one decoded name, and it finds the
   * first one in the order of the text.
   */
  lemma ScannerDecidesRepeats(d: Document)
    requires IsDocument(d)
    ensures Scan(DocumentText(d), [], false) == FirstRepeat(d.value)
    ensures Scan(DocumentText(d), [], false).Some? <==> RepeatsAName(d.value)
  {
    hide Scan;
    hide FirstRepeat;
    hide RepeatsAName;
    assert DocumentText(d) == d.before + (ValueText(d.value) + d.after);
    ScanNeutral(d.before, ValueText(d.value) + d.after, [], false);
    ScanValue(d.value, d.after, []);
    assert d.after == d.after + [];
    ScanNeutral(d.after, [], [], false);
    NothingLeft();
    FirstRepeatIffRepeats(d.value);
  }

  lemma NothingLeft()
    ensures Scan([], [], false) == None
  {
  }
}
