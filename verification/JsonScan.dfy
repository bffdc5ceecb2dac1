/** Reading members out of accepted JSON, and the loops that scan it in place. */
module JsonScan {
  import opened CoreTypes
  import opened Decimal
  import opened Fixed
  import opened JsonGrammar

  /** A type and the text it was found in, unconverted. */
  datatype JsonValue = JsonValue(raw: string, kind: JsonType)

  datatype Member = Member(key: string, value: JsonValue)

  /** A member and the text after it and its white space. */
  datatype Taken = Taken(member: Member, rest: string)

  // ----- lookups, on what is left of the text -----

  /** The value after a colon, and what follows it. */
  function TakeValue(t: string, key: string): (r: Option<Taken>)
    ensures r.Some? ==> |r.value.rest| < |t|
  {
    var u := t[SkipSpace(t)..];
    match SkipValue(u, 0)
    case None => None
    case Some(m) => Some(Taken(Member(key, JsonValue(u[..m], Classify(u))), u[m..][SkipSpace(u[m..])..]))
  }

  function TakeMember(t: string): (r: Option<Taken>)
    ensures r.Some? ==> |r.value.rest| < |t|
  {
    var u := t[SkipSpace(t)..];
    match SkipString(u)
    case None => None
    case Some(n) =>
      match SkipColon(u[n..])
      case None => None
      case Some(c) => TakeValue(u[n..][c..], u[1..n - 1])
  }

  function FindIn(t: string, key: string): Option<JsonValue>
    decreases |t|
  {
    var k := SkipSpace(t);
    if k == |t| || t[k] == '}' then None
    else
      match TakeMember(t)
      case None => None
      case Some(m) =>
        if m.member.key == key then Some(m.member.value)
        else if m.rest == "" || m.rest[0] != ',' then None
        else FindIn(m.rest[1..], key)
  }

  /** The first member named `key` of the object that `s` starts with. */
  function Find(s: string, key: string): Option<JsonValue> {
    var k := SkipSpace(s);
    if k == |s| || s[k] != '{' then None else FindIn(s[k + 1..], key)
  }

  /** A walk over all members: those reported, and whether the text was one whole object. */
  datatype Walked = Walked(ok: bool, members: seq<Member>)

  function WalkMembers(t: string): Walked
    decreases |t|
  {
    match TakeMember(t)
    case None => Walked(false, [])
    case Some(m) =>
      if m.rest == "" then Walked(false, [m.member])
      else if m.rest[0] == '}' then Walked(AllSpace(m.rest[1..]), [m.member])
      else if m.rest[0] != ',' then Walked(false, [m.member])
      else
        var w := WalkMembers(m.rest[1..]);
        Walked(w.ok, [m.member] + w.members)
  }

  function Walk(s: string): Walked {
    var k := SkipSpace(s);
    if k == |s| || s[k] != '{' then Walked(false, [])
    else
      var inside := s[k + 1..];
      var e := SkipSpace(inside);
      if e < |inside| && inside[e] == '}' then Walked(AllSpace(inside[e + 1..]), [])
      else WalkMembers(inside)
  }

  // ----- what they find, in terms of the tree -----

  predicate IsObject(t: Tree) { !t.Leaf? && t.braces }

  function MemberOf(i: Item): Member
    requires ItemOk(i, true)
  {
    Member(i.name.key[1..|i.name.key| - 1], JsonValue(Render(i.value), TypeOf(i.value)))
  }

  function ItemMembers(items: seq<Item>): seq<Member>
    requires ItemsOk(items, true)
  {
    if items == [] then [] else [MemberOf(items[0])] + ItemMembers(items[1..])
  }

  function Members(t: Tree): seq<Member>
    requires TreeOk(t) && IsObject(t)
  {
    if t.Node? then ItemMembers(t.items) else []
  }

  function FirstNamed(ms: seq<Member>, key: string): Option<JsonValue> {
    if ms == [] then None else if ms[0].key == key then Some(ms[0].value) else FirstNamed(ms[1..], key)
  }

  /** An item's text yields the item, whatever comes after it. */
  lemma TakeValueOf(i: Item, key: string, rest: string)
    requires AllSpace(i.before) && TreeOk(i.value) && AllSpace(i.after) && Height(i.value) <= MAX_DEPTH
    requires rest != "" && IsDelimiter(rest[0]) && !IsSpace(rest[0])
    ensures TakeValue(i.before + (Render(i.value) + (i.after + rest)), key)
         == Some(Taken(Member(key, JsonValue(Render(i.value), TypeOf(i.value))), rest))
  {
    hide SkipValue, TreeOk, Render, SkipSpace, TypeOf, Classify, IsDelimiter, AllSpace, Delimited;
    var text, tail := Render(i.value), i.after + rest;
    ValueStart(i.value);
    SpaceThen(i.before, text + tail);
    Behind(i.before, text + tail);
    SpaceThenDelimiter(i.after, rest);
    TakenText(i.value, tail);
    SpaceThen(i.after, rest);
    Behind(i.after, rest);
  }

  lemma SpaceThenDelimiter(after: string, rest: string)
    requires AllSpace(after) && rest != "" && IsDelimiter(rest[0])
    ensures Delimited(after + rest)
  {
  }

  lemma TakenText(t: Tree, tail: string)
    requires TreeOk(t) && Height(t) <= MAX_DEPTH && Delimited(tail)
    ensures var u, n := Render(t) + tail, |Render(t)|;
            SkipValue(u, 0) == Some(n) && Classify(u) == TypeOf(t) && u[..n] == Render(t) && u[n..] == tail
  {
    hide SkipValue, TreeOk, Render, TypeOf, Classify, Delimited;
    var u := Render(t) + tail;
    assert "" + u == u && "" + Render(t) + tail == u;
    ValueComplete(t, "", tail, 0);
    ClassifyIsTypeOf(t, "", tail);
  }

  lemma TakeMemberOf(i: Item, rest: string)
    requires ItemOk(i, true) && Height(i.value) <= MAX_DEPTH
    requires rest != "" && IsDelimiter(rest[0]) && !IsSpace(rest[0])
    ensures TakeMember(RenderItem(i) + rest) == Some(Taken(MemberOf(i), rest))
  {
    hide TakeValue, TreeOk, Render, SkipSpace, SkipColon, SkipString, IsString, TypeOf, IsDelimiter;
    var l := i.name;
    var padded := i.before + (Render(i.value) + (i.after + rest));
    var tail := l.after + (":" + padded);
    StringStart(l.key);
    assert RenderItem(i) + rest == l.before + (l.key + tail);
    SpaceThen(l.before, l.key + tail);
    Behind(l.before, l.key + tail);
    StringComplete(l.key, tail);
    KeyText(l.key, tail);
    Behind(l.key, tail);
    ColonComplete(l.after, padded);
    PastColon(l.after, padded);
    TakeValueOf(i, l.key[1..|l.key| - 1], rest);
  }

  lemma KeyText(key: string, tail: string)
    requires |key| >= 2
    ensures (key + tail)[1..|key| - 1] == key[1..|key| - 1]
  {
  }

  lemma PastColon(ws: string, padded: string)
    ensures (ws + (":" + padded))[|ws| + 1..] == padded
  {
  }

  lemma {:induction false} FindInItems(items: seq<Item>, rest: string, key: string)
    requires items != [] && ItemsOk(items, true) && ItemsHeight(items) <= MAX_DEPTH
    ensures FindIn(RenderItems(items, true) + rest, key) == FirstNamed(ItemMembers(items), key)
  {
    hide TakeMember, RenderItem, ItemOk, Height, RenderItems, MemberOf, SkipSpace;
    FirstOk(items, true);
    var tail := ItemTail(items, true) + rest;
    RenderFirst(items, true);
    assert RenderItems(items, true) + rest == RenderItem(items[0]) + tail;
    var lead, more := LeadIn(items[0], true, tail);
    SpaceThen(lead, more);
    Behind(lead, more);
    TakeMemberOf(items[0], tail);
    if |items| > 1 {
      FindInItems(items[1..], rest, key);
      Behind(",", RenderItems(items[1..], true) + rest);
      assert tail == "," + (RenderItems(items[1..], true) + rest);
    }
  }

  lemma {:induction false} WalkItems(items: seq<Item>, after: string)
    requires items != [] && ItemsOk(items, true) && ItemsHeight(items) <= MAX_DEPTH && AllSpace(after)
    ensures WalkMembers(RenderItems(items, true) + after) == Walked(true, ItemMembers(items))
  {
    hide TakeMember, RenderItem, ItemOk, Height, RenderItems, MemberOf;
    FirstOk(items, true);
    var tail := ItemTail(items, true) + after;
    RenderFirst(items, true);
    assert RenderItems(items, true) + after == RenderItem(items[0]) + tail;
    TakeMemberOf(items[0], tail);
    if |items| > 1 {
      WalkItems(items[1..], after);
      assert tail == "," + (RenderItems(items[1..], true) + after);
      Behind(",", RenderItems(items[1..], true) + after);
    } else {
      Behind("}", after);
    }
  }

  lemma ObjectStart(t: Tree, before: string, rest: string)
    requires TreeOk(t) && IsObject(t) && AllSpace(before)
    ensures var s := before + Render(t) + rest;
            var inside := if t.Node? then RenderItems(t.items, true) + rest else t.space + ("}" + rest);
            SkipSpace(s) == |before| < |s| && s[|before|] == '{' && s[|before| + 1..] == inside
  {
    hide RenderItems, ItemsOk, SkipSpace;
    var inside := if t.Node? then RenderItems(t.items, true) + rest else t.space + ("}" + rest);
    assert before + Render(t) + rest == before + ("{" + inside);
    SpaceThen(before, "{" + inside);
  }

  lemma ClosesAtOnce(space: string, rest: string)
    requires AllSpace(space)
    ensures var t := space + ("}" + rest);
            var e := SkipSpace(t);
            e < |t| && t[e] == '}' && t[e + 1..] == rest
  {
    SpaceThen(space, "}" + rest);
  }

  /** A lookup gives the first member of that name, or nothing when there is none - on any object
      nested no deeper than 33 levels, whatever follows it. */
  lemma FindIsFirst(before: string, t: Tree, rest: string, key: string)
    requires TreeOk(t) && IsObject(t) && AllSpace(before) && Height(t) <= MAX_DEPTH + 1
    ensures Find(before + Render(t) + rest, key) == FirstNamed(Members(t), key)
  {
    hide FindIn, Render, RenderItems, ItemsOk, SkipSpace, ItemMembers;
    ObjectStart(t, before, rest);
    if t.Node? {
      FindInItems(t.items, rest, key);
    } else {
      ClosesAtOnce(t.space, rest);
      FindNothing(t.space + ("}" + rest), key);
    }
  }

  lemma FindNothing(t: string, key: string)
    requires SkipSpace(t) < |t| && t[SkipSpace(t)] == '}'
    ensures FindIn(t, key) == None
  {
  }

  function NumberItem(key: string, a: string): Item { Item(Label("", key, ""), "", Leaf(a), "") }

  lemma NumberItemIs(name: string, a: string)
    requires IsString("\"" + name + "\"") && IsNumber(a)
    ensures var x := NumberItem("\"" + name + "\"", a);
            ItemOk(x, true) && Height(x.value) == 0 && MemberOf(x) == Member(name, JsonValue(a, NumberType))
  {
    hide IsNumber, IsString;
    var key := "\"" + name + "\"";
    assert key[1..|key| - 1] == name;
    TypesAre(a, key, "", []);
    assert TreeOk(Leaf(a)) && Render(Leaf(a)) == a;
  }

  lemma TwoMembers(x: Item, y: Item)
    requires ItemOk(x, true) && ItemOk(y, true) && Height(x.value) == Height(y.value) == 0
    ensures ItemsOk([x, y], true) && ItemsHeight([x, y]) == 0
    ensures ItemMembers([x, y]) == [MemberOf(x), MemberOf(y)]
  {
    hide ItemOk, Height, MemberOf;
    var both, last := [x, y], [y];
    var none := both[2..];
    assert both[1..] == last && last[1..] == none;
    assert ItemsOk(none, true) && ItemsOk(last, true) && ItemsOk(both, true);
    assert ItemMembers(none) == [] && ItemMembers(last) == [MemberOf(y)];
    assert ItemsHeight(none) == 0 && ItemsHeight(last) == 0;
  }

  /** A member's key is what stands between its quotes, escapes untouched, and its value is the text of
      its tree; the first of two with one name is the one found. */
  lemma MembersAre(name: string, a: string, b: string)
    requires IsString("\"" + name + "\"") && IsNumber(a) && IsNumber(b)
    ensures var t := Node(true, [NumberItem("\"" + name + "\"", a), NumberItem("\"" + name + "\"", b)]);
            && TreeOk(t) && Height(t) == 1
            && Members(t) == [Member(name, JsonValue(a, NumberType)), Member(name, JsonValue(b, NumberType))]
            && FirstNamed(Members(t), name) == Some(JsonValue(a, NumberType))
  {
    hide IsNumber, IsString, ItemOk, MemberOf, ItemMembers, ItemsOk, ItemsHeight, NumberItem;
    NumberItemIs(name, a);
    NumberItemIs(name, b);
    TwoMembers(NumberItem("\"" + name + "\"", a), NumberItem("\"" + name + "\"", b));
  }

  /** A walk reports every member of the object, in order. */
  lemma WalkReportsMembers(s: string, before: string, t: Tree, after: string)
    requires IsDocument(s, before, t, after) && IsObject(t) && Height(t) <= MAX_DEPTH + 1
    ensures Walk(s) == Walked(true, Members(t))
  {
    hide Walk, WalkMembers, Render, RenderItems, ItemsOk, SkipSpace, ItemMembers, ItemsHeight;
    ObjectStart(t, before, after);
    WalkInside(s);
    if t.Node? {
      OpensWithItem(t.items, after);
      WalkItems(t.items, after);
    } else {
      ClosesAtOnce(t.space, after);
    }
  }

  lemma WalkInside(s: string)
    requires SkipSpace(s) < |s| && s[SkipSpace(s)] == '{'
    ensures var inside := s[SkipSpace(s) + 1..];
            var e := SkipSpace(inside);
            Walk(s) ==
              if e < |inside| && inside[e] == '}' then Walked(AllSpace(inside[e + 1..]), [])
              else WalkMembers(inside)
  {
    hide WalkMembers, SkipSpace;
  }

  lemma OpensWithItem(items: seq<Item>, rest: string)
    requires items != [] && ItemsOk(items, true)
    ensures var t := RenderItems(items, true) + rest;
            var e := SkipSpace(t);
            e < |t| && t[e] != '}'
  {
    hide RenderItem, RenderItems, ItemsOk, SkipSpace;
    FirstOk(items, true);
    RenderFirst(items, true);
    var lead, more := LeadIn(items[0], true, ItemTail(items, true) + rest);
    assert RenderItems(items, true) + rest == lead + more;
    SpaceThen(lead, more);
    Behind(lead, more);
  }

  /** The key a member starts with. */
  function LeadingKey(t: string): string
    requires SkipLabel(t).Some?
  {
    var u := t[SkipSpace(t)..];
    u[1..SkipString(u).value - 1]
  }

  /** Taking a member is the scanner's step over an item, with values counted from depth zero. */
  lemma TakeMemberIsItem(t: string)
    ensures TakeMember(t).Some? == SkipItem(t, true, 0).Some?
    ensures TakeMember(t).Some? ==> TakeMember(t).value.rest == t[SkipItem(t, true, 0).value..]
  {
    hide SkipPadded, SkipLabel, TakeMember, LeadingKey, TakeValue;
    TakeMemberIsLabel(t);
    var p := SkipLabel(t);
    if p.Some? {
      TakeValueIsPadded(t[p.value..], LeadingKey(t));
      var m := SkipPadded(t[p.value..], 0);
      if m.Some? { Parts(t, p.value, m.value); }
    }
  }

  lemma TakeMemberIsLabel(t: string)
    ensures TakeMember(t) == if SkipLabel(t).None? then None else TakeValue(t[SkipLabel(t).value..], LeadingKey(t))
  {
    hide SkipString, SkipColon, TakeValue, SkipSpace;
    var k := SkipSpace(t);
    var u := t[k..];
    var n := SkipString(u);
    if n.Some? {
      var c := SkipColon(u[n.value..]);
      if c.Some? {
        Parts(t, k, n.value + c.value);
        Parts(u, n.value, c.value);
      }
    }
  }

  lemma TakeValueIsPadded(t: string, key: string)
    ensures TakeValue(t, key).Some? == SkipPadded(t, 0).Some?
    ensures TakeValue(t, key).Some? ==> TakeValue(t, key).value.rest == t[SkipPadded(t, 0).value..]
  {
    hide SkipBare, Classify, SkipSpace;
    var k := SkipSpace(t);
    var u := t[k..];
    NoMoreSpace(t);
    assert u[0..] == u;
    var m := SkipBare(u, 0);
    if m.Some? {
      Parts(t, k, m.value);
      Parts(u, m.value, SkipSpace(u[m.value..]));
      Parts(t, k + m.value, SkipSpace(u[m.value..]));
    }
  }

  lemma NoMoreSpace(t: string)
    ensures SkipSpace(t[SkipSpace(t)..]) == 0
  {
  }

  lemma {:induction false} WalkedOkIsItems(t: string)
    ensures WalkMembers(t).ok <==> SkipItems(t, true, 0).Some? && AllSpace(t[SkipItems(t, true, 0).value..])
    decreases |t|
  {
    hide TakeMember, SkipItem, AllSpace;
    TakeMemberIsItem(t);
    var m := TakeMember(t);
    if m.Some? {
      var n := SkipItem(t, true, 0).value;
      var u := m.value.rest;
      assert u == t[n..];
      if u != "" && u[0] == '}' {
        Parts(t, n, 1);
      } else if u != "" && u[0] == ',' {
        WalkedOkIsItems(u[1..]);
        var rest := SkipItems(u[1..], true, 0);
        if rest.Some? {
          Parts(t, n, 1 + rest.value);
          Parts(u, 1, rest.value);
        }
      }
    }
  }

  /** A successful walk validates the whole text: it succeeds exactly on an object, white space
      around it, whose members nest within the limit - one level more than a well-formed text. */
  lemma WalkOkIff(s: string)
    ensures Walk(s).ok <==>
            exists before, t, after :: IsDocument(s, before, t, after) && IsObject(t) && Height(t) <= MAX_DEPTH + 1
  {
    hide Walk, TreeOk, Render, IsDocument;
    if Walk(s).ok {
      var before, t, after := WalkSound(s);
    }
    forall before, t, after | IsDocument(s, before, t, after) && IsObject(t) && Height(t) <= MAX_DEPTH + 1
      ensures Walk(s).ok
    {
      WalkReportsMembers(s, before, t, after);
    }
  }

  lemma WalkSound(s: string) returns (before: string, t: Tree, after: string)
    requires Walk(s).ok
    ensures IsDocument(s, before, t, after) && IsObject(t) && Height(t) <= MAX_DEPTH + 1
  {
    hide WalkMembers, SkipItems, ItemsOk, RenderItems, ItemsHeight, SkipSpace, AllSpace;
    var k := SkipSpace(s);
    before := s[..k];
    var inside := s[k + 1..];
    var e := SkipSpace(inside);
    var body;
    if e < |inside| && inside[e] == '}' {
      t, after, body := Bare(true, inside[..e]), inside[e + 1..], inside[..e] + "}";
      Cut(inside, e);
    } else {
      WalkedOkIsItems(inside);
      var n := SkipItems(inside, true, 0).value;
      var items := ItemsSound(inside, true, 0);
      t, after, body := Node(true, items), inside[n..], inside[..n];
    }
    assert inside == body + after;
    Cut(s, k);
    assert Render(t) == "{" + body;
    Joined(s, before, body, after);
  }

  lemma Cut(s: string, k: nat)
    requires k < |s|
    ensures s == s[..k] + [s[k]] + s[k + 1..]
  {
  }

  lemma Joined(s: string, before: string, body: string, after: string)
    requires s == before + "{" + (body + after)
    ensures s == before + ("{" + body) + after
  {
  }

  /** Capturing the first occurrence of a key in a successful walk is looking it up. */
  lemma FirstCaptureIsFind(s: string, key: string)
    requires Walk(s).ok
    ensures FirstNamed(Walk(s).members, key) == Find(s, key)
  {
    hide Walk, Find, TreeOk, Render, Members;
    var before, t, after := WalkSound(s);
    WalkReportsMembers(s, before, t, after);
    FindIsFirst(before, t, after, key);
  }

  /** The extra level: an object 33 deep can be walked, though it is not well formed. */
  lemma WalkAcceptsOneLevelMore(s: string, before: string, t: Tree, after: string)
    requires IsDocument(s, before, t, after) && IsObject(t) && Height(t) == MAX_DEPTH + 1
    ensures Walk(s).ok && !WellFormedText(s)
  {
    hide Walk, TreeOk, Render, WellFormedText;
    WalkReportsMembers(s, before, t, after);
    TooDeepIsRefused(s, before, t, after);
  }

  /** Objects nested `n` deep around a null. */
  function Nested(n: nat): Tree {
    if n == 0 then Leaf("null") else Node(true, [Item(Label("", "\"a\"", ""), "", Nested(n - 1), "")])
  }

  lemma {:induction false} NestedIsOk(n: nat)
    ensures TreeOk(Nested(n)) && Height(Nested(n)) == n
  {
    hide IsNumber;
    if n > 0 {
      NestedIsOk(n - 1);
      KeyIsAString();
      var items := [Item(Label("", "\"a\"", ""), "", Nested(n - 1), "")];
      assert items[1..] == [];
      assert ItemOk(items[0], true) && ItemsOk(items[1..], true);
      assert ItemsHeight(items[1..]) == 0;
    }
  }

  lemma KeyIsAString()
    ensures IsString("\"a\"")
  {
    assert "\"a\""[1..2] == "a" && "a"[1..] == "";
    assert IsBody("");
  }

  /** Such a text exists: 33 objects, one inside the other. */
  lemma ThirtyThreeObjects()
    ensures Walk(Render(Nested(33))).ok && !WellFormedText(Render(Nested(33)))
  {
    hide Walk, TreeOk, Render, WellFormedText, Nested;
    var s := Render(Nested(33));
    NestedIsOk(33);
    NestedIsAnObject(33);
    assert s == "" + s + "";
    WalkAcceptsOneLevelMore(s, "", Nested(33), "");
  }

  lemma NestedIsAnObject(n: nat)
    requires n > 0
    ensures IsObject(Nested(n))
  {
  }

  // ----- the loops -----

  method SkipSpaceAt(s: string, pos: nat) returns (p: nat)
    requires pos <= |s|
    ensures p == pos + SkipSpace(s[pos..]) && p <= |s|
  {
    p := pos;
    while p < |s| && IsSpace(s[p])
      invariant pos <= p <= |s|
      invariant p + SkipSpace(s[p..]) == pos + SkipSpace(s[pos..])
    {
      assert s[p..][1..] == s[p + 1..];
      p := p + 1;
    }
  }

  method SkipStringAt(s: string, pos: nat) returns (end: Option<nat>)
    requires pos <= |s|
    ensures end == Offset(pos, SkipString(s[pos..]))
  {
    hide SkipBody, SkipString;
    StringStep(s, pos);
    if pos >= |s| || s[pos] != '"' {
      return None;
    }
    var p := pos + 1;
    ghost var target := Offset(pos, SkipString(s[pos..]));
    while p < |s|
      invariant target == if p <= |s| then Offset(p, SkipBody(s[p..])) else None
      decreases |s| - p
    {
      BodyStep(s, p);
      if s[p] == '\\' {
        p := p + 2;
      } else if s[p] == '"' {
        return Some(p + 1);
      } else {
        p := p + 1;
      }
    }
    NoBody();
    end := None;
  }

  lemma StringStep(s: string, pos: nat)
    requires pos <= |s|
    ensures Offset(pos, SkipString(s[pos..])) ==
            if pos < |s| && s[pos] == '"' then Offset(pos + 1, SkipBody(s[pos + 1..])) else None
  {
    hide SkipBody;
    if pos < |s| { Slice(s, pos, pos + 1); }
  }

  /** One character of a string's body, or an escape and what it escapes. */
  lemma BodyStep(s: string, p: nat)
    requires p < |s|
    ensures Offset(p, SkipBody(s[p..])) ==
            if s[p] == '\\' then if p + 2 <= |s| then Offset(p + 2, SkipBody(s[p + 2..])) else None
            else if s[p] == '"' then Some(p + 1)
            else Offset(p + 1, SkipBody(s[p + 1..]))
  {
    Slice(s, p, p + 1);
    if p + 2 <= |s| { Slice(s, p, p + 2); }
  }

  lemma NoBody()
    ensures SkipBody("") == None
  {
  }

  method DigitsAt(t: string, from: nat) returns (i: nat)
    requires from <= |t|
    ensures i == RunEnd(t, from)
  {
    i := from;
    while i < |t| && IsDigit(t[i])
      invariant from <= i <= |t| && RunEnd(t, i) == RunEnd(t, from)
    {
      i := i + 1;
    }
  }

  method IsJsonNumber(t: string) returns (ok: bool)
    ensures ok == IsNumber(t)
  {
    hide ScanExponent;
    var i, n := 0, |t|;
    if i < n && t[i] == '-' {
      i := i + 1;
    }
    if i >= n {
      return false;
    }
    var start := i;
    ScanWhole(t, start);
    if t[i] == '0' {
      i := i + 1;
    } else if IsDigit(t[i]) {
      i := DigitsAt(t, i);
    } else {
      return false;
    }
    ok := TailAt(t, start, i);
  }

  lemma ScanWhole(t: string, start: nat)
    requires start == (if t != "" && t[0] == '-' then 1 else 0) < |t|
    ensures !IsDigit(t[start]) ==> !IsNumber(t)
  {
    hide ScanExponent;
  }

  /** What is left to check once the whole part ends at `from`: a leading zero stands alone. */
  lemma NumberParts(t: string, start: nat, from: nat)
    requires start == (if t != "" && t[0] == '-' then 1 else 0) && start < from <= |t| && IsDigit(t[start])
    requires if t[start] == '0' then from == start + 1 else from == RunEnd(t, start)
    ensures IsNumber(t) ==
            if from < |t| && t[from] == '.' then
              RunEnd(t, from + 1) > from + 1 && ScanExponent(t, RunEnd(t, from + 1)).Some?
            else ScanExponent(t, from).Some?
  {
    hide ScanExponent, RunEnd;
    assert SignAt(t, 0) == t[..start];
    var wholeEnd := RunEnd(t, start);
    WholeRun(t, start);
    assert t[start..wholeEnd][0] == t[start];
    if wholeEnd > from {
      assert IsDigit(t[from]) by { assert t[start..wholeEnd][from - start] == t[from]; }
      assert t[start..wholeEnd] != "0";
      DigitIsNoExponent(t, from);
    } else {
      assert t[start] == '0' ==> t[start..wholeEnd] == "0";
    }
  }

  lemma WholeRun(t: string, start: nat)
    requires start < |t| && IsDigit(t[start])
    ensures RunEnd(t, start) > start
  {
  }

  lemma DigitIsNoExponent(t: string, i: nat)
    requires i < |t| && IsDigit(t[i])
    ensures ScanExponent(t, i).None? && t[i] != '.'
  {
  }

  /** An optional exponent, which must end the text. */
  method ExponentAt(t: string, from: nat) returns (ok: bool)
    requires from <= |t|
    ensures ok == ScanExponent(t, from).Some?
  {
    hide RunEnd;
    var i := from;
    if i < |t| && (t[i] == 'e' || t[i] == 'E') {
      i := i + 1;
      if i < |t| && (t[i] == '+' || t[i] == '-') {
        i := i + 1;
      }
      var exponent := i;
      i := DigitsAt(t, i);
      if i == exponent {
        return false;
      }
    }
    ok := i == |t|;
  }

  /** The fraction and exponent, after a whole part that ends at `from`. */
  method TailAt(t: string, start: nat, from: nat) returns (ok: bool)
    requires start == (if t != "" && t[0] == '-' then 1 else 0) && start < from <= |t| && IsDigit(t[start])
    requires if t[start] == '0' then from == start + 1 else from == RunEnd(t, start)
    ensures ok == IsNumber(t)
  {
    hide IsNumber, ScanExponent;
    NumberParts(t, start, from);
    var i := from;
    if i < |t| && t[i] == '.' {
      i := i + 1;
      var fraction := i;
      i := DigitsAt(t, i);
      if i == fraction {
        return false;
      }
    }
    ok := ExponentAt(t, i);
  }

  method IsJsonScalar(t: string) returns (ok: bool)
    ensures ok == IsScalar(t)
  {
    if t == "true" || t == "false" || t == "null" {
      return true;
    }
    ok := IsJsonNumber(t);
  }

  // ----- the scanner over positions -----

  lemma Slice(s: string, p: nat, q: nat)
    requires p <= q <= |s|
    ensures s[p..][q - p..] == s[q..] && s[p..][..q - p] == s[p..q]
    ensures q < |s| ==> s[p..][q - p] == s[q]
  {
  }

  /** Skipping white space first changes nothing for an item, which skips it itself. */
  lemma SpaceBeforeItems(t: string, braces: bool, depth: nat)
    ensures SkipItems(t, braces, depth) == Offset(SkipSpace(t), SkipItems(t[SkipSpace(t)..], braces, depth))
  {
    hide SkipRest, SkipItem, SkipSpace;
    var k := SkipSpace(t);
    SpaceBeforeItem(t, braces, depth);
    var n := SkipItem(t[k..], braces, depth);
    if n.Some? { Parts(t, k, n.value); }
  }

  lemma SpaceBeforeItem(t: string, braces: bool, depth: nat)
    ensures SkipItem(t, braces, depth) == Offset(SkipSpace(t), SkipItem(t[SkipSpace(t)..], braces, depth))
  {
    hide SkipLabel, SkipPadded, SkipSpace;
    var k := SkipSpace(t);
    var u := t[k..];
    if braces {
      SpaceBeforeLabel(t);
      var p := SkipLabel(u);
      if p.Some? { Parts(t, k, p.value); }
    } else {
      assert t[0..] == t && u[0..] == u;
      SpaceBeforePadded(t, depth);
    }
  }

  lemma SpaceBeforeLabel(t: string)
    ensures SkipLabel(t) == Offset(SkipSpace(t), SkipLabel(t[SkipSpace(t)..]))
  {
    hide SkipString, SkipColon, SkipSpace;
    var u := t[SkipSpace(t)..];
    NoMoreSpace(t);
    assert u[0..] == u;
  }

  lemma SpaceBeforePadded(t: string, depth: nat)
    ensures SkipPadded(t, depth) == Offset(SkipSpace(t), SkipPadded(t[SkipSpace(t)..], depth))
  {
    hide SkipBare, SkipSpace;
    var k := SkipSpace(t);
    var u := t[k..];
    NoMoreSpace(t);
    assert u[0..] == u;
    if depth <= MAX_DEPTH {
      var m := SkipBare(u, depth);
      if m.Some? { Parts(t, k, m.value); }
    }
  }

  method ColonAt(s: string, pos: nat) returns (end: Option<nat>)
    requires pos <= |s|
    ensures end == Offset(pos, SkipColon(s[pos..]))
  {
    hide SkipSpace;
    var c := SkipSpaceAt(s, pos);
    Slice(s, pos, c);
    end := if c >= |s| || s[c] != ':' then None else Some(c + 1);
  }

  /** A key and its colon; the key is the text between its quotes. */
  method LabelAt(s: string, pos: nat) returns (end: Option<nat>, key: string)
    requires pos <= |s|
    ensures end == Offset(pos, SkipLabel(s[pos..]))
    ensures end.Some? ==> key == LeadingKey(s[pos..])
  {
    hide SkipSpace, SkipString, SkipColon;
    var p := SkipSpaceAt(s, pos);
    Slice(s, pos, p);
    var q := SkipStringAt(s, p);
    if q.None? {
      return None, "";
    }
    Slice(s, p, q.value);
    end := ColonAt(s, q.value);
    key := s[p + 1..q.value - 1];
    assert s[p..][1..q.value - p - 1] == key;
  }

  /** A value and the white space after it. */
  method PaddedAt(s: string, pos: nat, depth: nat) returns (end: Option<nat>)
    requires pos <= |s|
    ensures end == Offset(pos, SkipPadded(s[pos..], depth))
    decreases |s| - pos, 3
  {
    hide SkipSpace, SkipValue;
    var v := SkipValueAt(s, pos, depth);
    if v.None? {
      return None;
    }
    Slice(s, pos, v.value);
    var q := SkipSpaceAt(s, v.value);
    end := Some(q);
  }

  /** One item of a container, and the white space after it. */
  method ItemAt(s: string, pos: nat, braces: bool, depth: nat) returns (end: Option<nat>)
    requires pos <= |s|
    ensures end == Offset(pos, SkipItem(s[pos..], braces, depth))
    decreases |s| - pos, 4
  {
    hide SkipLabel, SkipPadded;
    var p := Some(pos);
    if braces {
      var key;
      p, key := LabelAt(s, pos);
      if p.None? {
        return None;
      }
    }
    Slice(s, pos, p.value);
    end := PaddedAt(s, p.value, depth);
  }

  /** The items of a container and its closing bracket. */
  method ItemsAt(s: string, pos: nat, braces: bool, depth: nat) returns (end: Option<nat>)
    requires pos <= |s|
    ensures end == Offset(pos, SkipItems(s[pos..], braces, depth))
    decreases |s| - pos, 5
  {
    hide SkipItem, SkipItems;
    var p := pos;
    while p < |s|
      invariant pos <= p <= |s|
      invariant Offset(p, SkipItems(s[p..], braces, depth)) == Offset(pos, SkipItems(s[pos..], braces, depth))
      decreases |s| - p
    {
      var q := ItemAt(s, p, braces, depth);
      ItemsStep(s, p, braces, depth);
      if q.None? {
        return None;
      }
      if q.value >= |s| {
        return None;
      }
      if s[q.value] == Close(braces) {
        return Some(q.value + 1);
      }
      if s[q.value] != ',' {
        return None;
      }
      p := q.value + 1;
    }
    NoItems(braces, depth);
    end := None;
  }

  /** What is left after one item. */
  lemma ItemsStep(s: string, p: nat, braces: bool, depth: nat)
    requires p <= |s|
    ensures var q := Offset(p, SkipItem(s[p..], braces, depth));
            Offset(p, SkipItems(s[p..], braces, depth)) ==
              if q.None? || q.value >= |s| then None
              else if s[q.value] == Close(braces) then Some(q.value + 1)
              else if s[q.value] != ',' then None
              else Offset(q.value + 1, SkipItems(s[q.value + 1..], braces, depth))
  {
    hide SkipItem, SkipRest;
    var n := SkipItem(s[p..], braces, depth);
    if n.Some? {
      Slice(s, p, p + n.value);
      RestStep(s, p + n.value, braces, depth);
    }
  }

  lemma RestStep(s: string, q: nat, braces: bool, depth: nat)
    requires q <= |s|
    ensures Offset(q, SkipRest(s[q..], braces, depth)) ==
              if q == |s| then None
              else if s[q] == Close(braces) then Some(q + 1)
              else if s[q] != ',' then None
              else Offset(q + 1, SkipItems(s[q + 1..], braces, depth))
  {
    hide SkipItems;
    if q < |s| { Slice(s, q, q + 1); }
  }

  lemma NoItems(braces: bool, depth: nat)
    ensures SkipItems("", braces, depth) == None
  {
  }

  /** A container after its opening bracket. */
  method InsideAt(s: string, pos: nat, braces: bool, depth: nat) returns (end: Option<nat>)
    requires pos <= |s|
    ensures end == Offset(pos, SkipInside(s[pos..], braces, depth))
    decreases |s| - pos, 6
  {
    hide SkipSpace, SkipItems;
    var q := SkipSpaceAt(s, pos);
    Slice(s, pos, q);
    if q < |s| && s[q] == Close(braces) {
      return Some(q + 1);
    }
    SpaceBeforeItems(s[pos..], braces, depth);
    end := ItemsAt(s, q, braces, depth);
  }

  /** Skip any value; recursion stops at the depth limit. */
  method SkipValueAt(s: string, pos: nat, depth: nat) returns (end: Option<nat>)
    requires pos <= |s|
    ensures end == Offset(pos, SkipValue(s[pos..], depth))
    decreases |s| - pos, 2
  {
    hide SkipSpace, SkipBare;
    if depth > MAX_DEPTH {
      return None;
    }
    var p := SkipSpaceAt(s, pos);
    Slice(s, pos, p);
    end := BareAt(s, p, depth);
  }

  method BareAt(s: string, p: nat, depth: nat) returns (end: Option<nat>)
    requires p <= |s|
    ensures end == Offset(p, SkipBare(s[p..], depth))
    decreases |s| - p, 1
  {
    hide SkipString, SkipInside, IsScalar, ScalarRun;
    if p >= |s| {
      return None;
    }
    if s[p] == '"' {
      end := SkipStringAt(s, p);
      return;
    }
    if s[p] == '{' || s[p] == '[' {
      Slice(s, p, p + 1);
      end := InsideAt(s, p + 1, s[p] == '{', depth + 1);
      return;
    }
    var q := RunAt(s, p);
    Slice(s, p, q);
    var scalar := IsJsonScalar(s[p..q]);
    end := if q == p || !scalar then None else Some(q);
  }

  method RunAt(s: string, pos: nat) returns (q: nat)
    requires pos <= |s|
    ensures q == pos + ScalarRun(s[pos..])
  {
    q := pos;
    while q < |s| && !IsDelimiter(s[q])
      invariant pos <= q <= |s|
      invariant q + ScalarRun(s[q..]) == pos + ScalarRun(s[pos..])
    {
      assert s[q..][1..] == s[q + 1..];
      q := q + 1;
    }
  }

  method WellFormed(s: string) returns (ok: bool)
    ensures ok == WellFormedText(s)
  {
    hide SkipValue, SkipSpace;
    assert s[0..] == s;
    var end := SkipValueAt(s, 0, 0);
    if end.None? {
      return false;
    }
    var p := SkipSpaceAt(s, end.value);
    AllSpaceIff(s[end.value..]);
    ok := p == |s|;
  }

  lemma AllSpaceIff(t: string)
    ensures AllSpace(t) <==> SkipSpace(t) == |t|
  {
    assert t[..|t|] == t;
  }

  /** A value after a colon, and where the scan stands after it. */
  method ValueAt(s: string, pos: nat, key: string) returns (m: Option<Member>, end: nat)
    requires pos <= |s|
    ensures m.Some? == TakeValue(s[pos..], key).Some?
    ensures m.Some? ==> pos < end <= |s| && TakeValue(s[pos..], key) == Some(Taken(m.value, s[end..]))
  {
    hide SkipSpace, SkipValue, Classify;
    end := pos;
    var v := SkipSpaceAt(s, pos);
    Slice(s, pos, v);
    var w := SkipValueAt(s, v, 0);
    if w.None? {
      return None, end;
    }
    Slice(s, v, w.value);
    end := SkipSpaceAt(s, w.value);
    Slice(s, w.value, end);
    m := Some(Member(key, JsonValue(s[v..w.value], Classify(s[v..]))));
  }

  /** A key, a colon and a value, and where the scan stands after them. */
  method MemberAt(s: string, pos: nat) returns (m: Option<Member>, end: nat)
    requires pos <= |s|
    ensures m.Some? == TakeMember(s[pos..]).Some?
    ensures m.Some? ==> pos < end <= |s| && TakeMember(s[pos..]) == Some(Taken(m.value, s[end..]))
  {
    hide SkipLabel, LeadingKey, TakeValue, TakeMember;
    TakeMemberIsLabel(s[pos..]);
    end := pos;
    var c, key := LabelAt(s, pos);
    if c.None? {
      return None, end;
    }
    Slice(s, pos, c.value);
    m, end := ValueAt(s, c.value, key);
  }

  /** Look a member up: the first of that name wins. */
  method FindMember(s: string, key: string) returns (r: Option<JsonValue>)
    ensures r == Find(s, key)
  {
    hide SkipSpace, TakeMember;
    assert s[0..] == s;
    var pos := SkipSpaceAt(s, 0);
    if pos >= |s| || s[pos] != '{' {
      return None;
    }
    pos := pos + 1;
    while true
      invariant pos <= |s| && FindIn(s[pos..], key) == Find(s, key)
      decreases |s| - pos
    {
      var p := SkipSpaceAt(s, pos);
      if p >= |s| || s[p] == '}' {
        return None;
      }
      var m, end := MemberAt(s, pos);
      if m.None? {
        return None;
      }
      if m.value.key == key {
        return Some(m.value.value);
      }
      if end >= |s| || s[end] != ',' {
        return None;
      }
      assert s[end..][1..] == s[end + 1..];
      pos := end + 1;
    }
  }

  /** What a visitor sees of the members still to come: it is shown one after another until it
      declines, which counts as success whatever follows. */
  function Shown(seen: seq<Member>, w: Walked, more: seq<Member> -> bool): Walked
    decreases |w.members|
  {
    if w.members == [] then Walked(w.ok, seen)
    else
      var seen' := seen + [w.members[0]];
      if more(seen') then Shown(seen', Walked(w.ok, w.members[1..]), more) else Walked(true, seen')
  }

  /** Whatever the visitor, it is shown a front of the members, agreed to every part of it but the whole,
      and answers for the walk's success only by declining, which is success. */
  lemma {:induction false} ShownIs(seen: seq<Member>, w: Walked, more: seq<Member> -> bool)
    ensures var r := Shown(seen, w, more);
            && seen <= r.members <= seen + w.members
            && (forall k :: |seen| < k < |r.members| ==> more(r.members[..k]))
            && ((r.ok == w.ok && r.members == seen + w.members)
                || (r.ok && |r.members| > |seen| && !more(r.members)))
    decreases |w.members|
  {
    if w.members == [] {
      assert seen + [] == seen;
    } else {
      var seen' := seen + [w.members[0]];
      assert seen' + w.members[1..] == seen + w.members;
      if more(seen') {
        ShownIs(seen', Walked(w.ok, w.members[1..]), more);
        var r := Shown(seen, w, more);
        assert r.members[..|seen'|] == seen';
      }
    }
  }

  /** A visitor that never declines sees the whole walk. */
  lemma {:induction false} ShownAll(seen: seq<Member>, w: Walked, more: seq<Member> -> bool)
    requires forall ms: seq<Member> :: more(ms)
    ensures Shown(seen, w, more) == Walked(w.ok, seen + w.members)
    decreases |w.members|
  {
    if w.members == [] {
      assert seen + [] == seen;
    } else {
      ShownAll(seen + [w.members[0]], Walked(w.ok, w.members[1..]), more);
      assert seen + [w.members[0]] + w.members[1..] == seen + w.members;
    }
  }

  /** Walk the members once, showing each to the visitor, which says whether to go on. */
  method ForEachMember(s: string, more: seq<Member> -> bool) returns (ok: bool, seen: seq<Member>)
    ensures Walked(ok, seen) == Shown([], Walk(s), more)
  {
    hide SkipSpace, TakeMember, AllSpace;
    assert s[0..] == s;
    seen := [];
    var pos := SkipSpaceAt(s, 0);
    if pos >= |s| || s[pos] != '{' {
      return false, seen;
    }
    pos := pos + 1;
    var p := SkipSpaceAt(s, pos);
    Slice(s, pos, p);
    if p < |s| && s[p] == '}' {
      ok := EndsAt(s, p);
      return;
    }
    while true
      invariant pos <= |s| && Shown(seen, WalkMembers(s[pos..]), more) == Shown([], Walk(s), more)
      decreases |s| - pos
    {
      var m, end := MemberAt(s, pos);
      ghost var w := WalkMembers(s[pos..]);
      if m.None? {
        return false, seen;
      }
      FirstShown(seen, w, more);
      seen := seen + [m.value];
      if !more(seen) {
        return true, seen;
      }
      if end >= |s| {
        return false, seen;
      }
      assert s[end..][1..] == s[end + 1..];
      if s[end] == '}' {
        ok := EndsAt(s, end);
        return;
      }
      if s[end] != ',' {
        return false, seen;
      }
      ghost var next := WalkMembers(s[end + 1..]);
      assert w.members[1..] == next.members;
      pos := end + 1;
    }
  }

  lemma FirstShown(seen: seq<Member>, w: Walked, more: seq<Member> -> bool)
    requires w.members != []
    ensures var seen' := seen + [w.members[0]];
            Shown(seen, w, more) ==
              if more(seen') then Shown(seen', Walked(w.ok, w.members[1..]), more) else Walked(true, seen')
  {
  }

  /** Nothing but white space after the closing brace. */
  method EndsAt(s: string, close: nat) returns (ok: bool)
    requires close < |s|
    ensures ok == AllSpace(s[close + 1..])
  {
    var p := SkipSpaceAt(s, close + 1);
    AllSpaceIff(s[close + 1..]);
    ok := p == |s|;
  }
}
