/** The JSON this library accepts, as trees and the texts they spell, and a scanner for it. */
module JsonGrammar {
  import opened CoreTypes
  import opened Decimal
  import opened Fixed

  const MAX_DEPTH: int := 32

  predicate IsSpace(c: char) { c == ' ' || c == '\t' || c == '\n' || c == '\r' }

  predicate AllSpace(s: string) { forall i :: 0 <= i < |s| ==> IsSpace(s[i]) }

  predicate IsDelimiter(c: char) { c == ',' || c == '}' || c == ']' || IsSpace(c) }

  // ----- scalars -----

  /** Section 6 of RFC 8259: no plus sign, no leading zeros, no bare point. */
  predicate StrictNumber(t: Token) {
    && t.sign != "+"
    && (t.whole == "0" || (t.whole != "" && t.whole[0] != '0'))
    && (t.point ==> t.fraction != "")
  }

  predicate IsNumber(u: string) { Scan(u).Some? && StrictNumber(Scan(u).value) }

  /** The numbers are exactly the spellings of well-formed, strict tokens. */
  lemma NumberGrammar(u: string)
    ensures IsNumber(u) <==> exists t: Token :: WellFormed(t) && StrictNumber(t) && Spelling(t) == u
  {
    hide Scan, WellFormed, StrictNumber, Spelling;
    if IsNumber(u) { ScanSound(u); }
    forall t: Token | WellFormed(t) && StrictNumber(t) && Spelling(t) == u ensures IsNumber(u) {
      ScanComplete(t);
    }
  }

  /** In terms of a number's parts: no plus in front, digits before any point and after it, and no
      zero in front of another digit. */
  lemma NumberIff(t: Token)
    requires WellFormed(t)
    ensures IsNumber(Spelling(t)) <==>
              && t.sign != "+" && t.whole != "" && !(t.point && t.fraction == "")
              && !(t.whole[0] == '0' && |t.whole| > 1)
  {
    hide Scan, Spelling;
    ScanComplete(t);
    if t.whole != "" && t.whole[0] == '0' && |t.whole| == 1 { assert t.whole == "0"; }
  }

  predicate IsScalar(u: string) { u == "true" || u == "false" || u == "null" || IsNumber(u) }

  /** Besides numbers the scalars are three words, in lower case. */
  lemma ScalarsAre(u: string)
    ensures IsScalar("true") && IsScalar("false") && IsScalar("null")
    ensures u == "" || ('A' <= u[0] <= 'Z') || u[0] == '"' ==> !IsScalar(u)
  {
    hide Scan;
    if IsNumber(u) { ScanSound(u); }
  }

  /** A string literal: any escape and any raw character is let through. */
  predicate IsBody(u: string) {
    || u == ""
    || (u[0] == '\\' && |u| >= 2 && IsBody(u[2..]))
    || (u[0] != '\\' && u[0] != '"' && IsBody(u[1..]))
  }

  predicate IsString(u: string) { |u| >= 2 && u[0] == '"' && u[|u| - 1] == '"' && IsBody(u[1..|u| - 1]) }

  // ----- values -----

  datatype Tree =
    | Leaf(text: string)
    | Bare(braces: bool, space: string)
    | Node(braces: bool, items: seq<Item>)

  /** One member of an object, or element of an array, with the white space around its parts. */
  datatype Item = Item(name: Label, before: string, value: Tree, after: string)

  datatype Label = NoLabel | Label(before: string, key: string, after: string)

  function Open(braces: bool): char { if braces then '{' else '[' }
  function Close(braces: bool): char { if braces then '}' else ']' }

  predicate LabelOk(l: Label, braces: bool) {
    l.Label? == braces && (l.Label? ==> AllSpace(l.before) && IsString(l.key) && AllSpace(l.after))
  }

  predicate TreeOk(t: Tree) {
    match t
    case Leaf(text) => IsScalar(text) || IsString(text)
    case Bare(_, space) => AllSpace(space)
    case Node(braces, items) => items != [] && ItemsOk(items, braces)
  }

  predicate ItemOk(i: Item, braces: bool) {
    LabelOk(i.name, braces) && AllSpace(i.before) && TreeOk(i.value) && AllSpace(i.after)
  }

  predicate ItemsOk(items: seq<Item>, braces: bool) {
    items != [] ==> ItemOk(items[0], braces) && ItemsOk(items[1..], braces)
  }

  function Render(t: Tree): string {
    match t
    case Leaf(text) => text
    case Bare(braces, space) => [Open(braces)] + space + [Close(braces)]
    case Node(braces, items) => [Open(braces)] + RenderItems(items, braces)
  }

  function RenderLabel(l: Label): string {
    match l
    case NoLabel => ""
    case Label(before, key, after) => before + key + after + ":"
  }

  function RenderItem(i: Item): string { RenderLabel(i.name) + i.before + Render(i.value) + i.after }

  /** The items, separated by commas, and the closing bracket. */
  function RenderItems(items: seq<Item>, braces: bool): string {
    if items == [] then ""
    else RenderItem(items[0]) + (if |items| == 1 then [Close(braces)] else "," + RenderItems(items[1..], braces))
  }

  /** How far brackets nest: an empty container nests no deeper than a scalar. */
  function Height(t: Tree): nat {
    match t
    case Leaf(_) => 0
    case Bare(_, _) => 0
    case Node(_, items) => 1 + ItemsHeight(items)
  }

  function ItemsHeight(items: seq<Item>): nat {
    if items == [] then 0 else Max(Height(items[0].value), ItemsHeight(items[1..]))
  }

  // ----- the scanner, on what is left of the text -----

  function Offset(k: nat, n: Option<nat>): Option<nat> { if n.Some? then Some(k + n.value) else None }

  function SkipSpace(t: string): (n: nat)
    ensures n <= |t| && AllSpace(t[..n]) && (n < |t| ==> !IsSpace(t[n]))
  {
    if t != "" && IsSpace(t[0]) then
      var n := SkipSpace(t[1..]);
      assert t[..n + 1] == [t[0]] + t[1..][..n];
      n + 1
    else 0
  }

  function SkipBody(t: string): (n: Option<nat>)
    ensures n.Some? ==> 0 < n.value <= |t|
  {
    if t == "" then None
    else if t[0] == '\\' then if |t| < 2 then None else Offset(2, SkipBody(t[2..]))
    else if t[0] == '"' then Some(1)
    else Offset(1, SkipBody(t[1..]))
  }

  function SkipString(t: string): (n: Option<nat>)
    ensures n.Some? ==> 2 <= n.value <= |t|
  {
    if t == "" || t[0] != '"' then None else Offset(1, SkipBody(t[1..]))
  }

  function ScalarRun(t: string): (n: nat)
    ensures n <= |t|
  {
    if t == "" || IsDelimiter(t[0]) then 0 else 1 + ScalarRun(t[1..])
  }

  function SkipColon(t: string): (n: Option<nat>)
    ensures n.Some? ==> 0 < n.value <= |t|
  {
    var p := SkipSpace(t);
    if p < |t| && t[p] == ':' then Some(p + 1) else None
  }

  /** The key of a member and its colon. */
  function SkipLabel(t: string): (n: Option<nat>)
    ensures n.Some? ==> 3 <= n.value <= |t|
  {
    var k := SkipSpace(t);
    match SkipString(t[k..])
    case None => None
    case Some(n) => Offset(k, Offset(n, SkipColon(t[k..][n..])))
  }

  /** A value and the white space after it. */
  function SkipPadded(t: string, depth: nat): (n: Option<nat>)
    ensures n.Some? ==> 0 < n.value <= |t|
    decreases |t|, 3
  {
    match SkipValue(t, depth)
    case None => None
    case Some(m) => Some(m + SkipSpace(t[m..]))
  }

  function SkipItem(t: string, braces: bool, depth: nat): (n: Option<nat>)
    ensures n.Some? ==> 0 < n.value <= |t|
    decreases |t|, 4
  {
    match if braces then SkipLabel(t) else Some(0)
    case None => None
    case Some(p) => Offset(p, SkipPadded(t[p..], depth))
  }

  /** What follows an item: the closing bracket, or a comma and more items. */
  function SkipRest(t: string, braces: bool, depth: nat): (n: Option<nat>)
    ensures n.Some? ==> 0 < n.value <= |t|
    decreases |t|, 0
  {
    if t == "" then None
    else if t[0] == Close(braces) then Some(1)
    else if t[0] != ',' then None
    else Offset(1, SkipItems(t[1..], braces, depth))
  }

  function SkipItems(t: string, braces: bool, depth: nat): (n: Option<nat>)
    ensures n.Some? ==> 0 < n.value <= |t|
    decreases |t|, 5
  {
    match SkipItem(t, braces, depth)
    case None => None
    case Some(n) => Offset(n, SkipRest(t[n..], braces, depth))
  }

  /** A container after its opening bracket. */
  function SkipInside(t: string, braces: bool, depth: nat): (n: Option<nat>)
    ensures n.Some? ==> 0 < n.value <= |t|
    decreases |t|, 6
  {
    var e := SkipSpace(t);
    if e < |t| && t[e] == Close(braces) then Some(e + 1) else SkipItems(t, braces, depth)
  }

  /** A value with no white space before it. */
  function SkipBare(t: string, depth: nat): (n: Option<nat>)
    ensures n.Some? ==> 0 < n.value <= |t|
    decreases |t|, 1
  {
    if t == "" then None
    else if t[0] == '"' then SkipString(t)
    else if t[0] == '{' || t[0] == '[' then Offset(1, SkipInside(t[1..], t[0] == '{', depth + 1))
    else
      var run := ScalarRun(t);
      if run > 0 && IsScalar(t[..run]) then Some(run) else None
  }

  /** The length of the value at the front of `t`, white space before it included. */
  function SkipValue(t: string, depth: nat): (n: Option<nat>)
    ensures n.Some? ==> 0 < n.value <= |t|
    decreases |t|, 2
  {
    if depth > MAX_DEPTH then None
    else
      var k := SkipSpace(t);
      Offset(k, SkipBare(t[k..], depth))
  }

  predicate WellFormedText(s: string) {
    var end := SkipValue(s, 0);
    end.Some? && AllSpace(s[end.value..])
  }

  // ----- facts about the pieces -----

  lemma {:induction false} SpaceThen(ws: string, rest: string)
    requires AllSpace(ws) && (rest != "" ==> !IsSpace(rest[0]))
    ensures SkipSpace(ws + rest) == |ws|
  {
    if ws == "" {
      assert ws + rest == rest;
    } else {
      assert (ws + rest)[1..] == ws[1..] + rest;
      SpaceThen(ws[1..], rest);
    }
  }

  lemma {:induction false} BodyComplete(u: string, rest: string)
    requires IsBody(u)
    ensures SkipBody(u + "\"" + rest) == Some(|u| + 1)
  {
    var t := u + "\"" + rest;
    if u == "" {
      assert t[0] == '"';
    } else if u[0] == '\\' {
      assert t[2..] == u[2..] + "\"" + rest;
      BodyComplete(u[2..], rest);
    } else {
      assert t[1..] == u[1..] + "\"" + rest;
      BodyComplete(u[1..], rest);
    }
  }

  lemma {:induction false} BodySound(t: string)
    requires SkipBody(t).Some?
    ensures var n := SkipBody(t).value; t[n - 1] == '"' && IsBody(t[..n - 1])
  {
    var n := SkipBody(t).value;
    if t[0] == '\\' {
      BodySound(t[2..]);
      assert t[..n - 1][2..] == t[2..][..n - 3];
    } else if t[0] != '"' {
      BodySound(t[1..]);
      assert t[..n - 1][1..] == t[1..][..n - 2];
    }
  }

  lemma StringComplete(u: string, rest: string)
    requires IsString(u)
    ensures SkipString(u + rest) == Some(|u|)
  {
    var body := u[1..|u| - 1];
    BodyComplete(body, rest);
    assert (u + rest)[1..] == body + "\"" + rest;
  }

  /** White space is the four characters of section 2 of RFC 8259, by code. */
  lemma SpacesAre(c: char)
    ensures IsSpace(c) <==> c as int == 0x20 || c as int == 0x09 || c as int == 0x0A || c as int == 0x0D
  {
  }

  /** A backslash keeps the character after it inside the string, a quote too. */
  lemma EscapesKeepQuotes(c: char, a: string, b: string)
    requires NoQuotes(a) && NoQuotes(b)
    ensures IsString("\"" + (a + ("\\" + ([c] + b))) + "\"")
  {
    var rest := "\\" + ([c] + b);
    PlainThen(a, rest);
    PlainThen(b, "");
    assert b + "" == b && rest[2..] == b;
    BetweenQuotes(a + rest);
  }

  /** A bare quote ends it. */
  lemma QuotesEnd(a: string, b: string)
    requires NoQuotes(a)
    ensures !IsString("\"" + (a + ("\"" + b)) + "\"")
  {
    PlainThen(a, "\"" + b);
    BetweenQuotes(a + ("\"" + b));
  }

  lemma BetweenQuotes(body: string)
    ensures IsString("\"" + body + "\"") == IsBody(body)
  {
    var u := "\"" + body + "\"";
    assert u[1..|u| - 1] == body;
  }

  predicate NoQuotes(s: string) { forall i :: 0 <= i < |s| ==> s[i] != '"' && s[i] != '\\' }

  lemma {:induction false} PlainThen(a: string, rest: string)
    requires NoQuotes(a)
    ensures IsBody(a + rest) == IsBody(rest)
  {
    if a == "" {
      assert a + rest == rest;
    } else {
      PlainThen(a[1..], rest);
      assert (a + rest)[1..] == a[1..] + rest;
    }
  }

  lemma StringSound(t: string)
    requires SkipString(t).Some?
    ensures IsString(t[..SkipString(t).value])
  {
    var n := SkipString(t).value;
    BodySound(t[1..]);
    assert t[..n][1..n - 1] == t[1..][..n - 2];
  }

  predicate NoDelimiters(u: string) { forall i :: 0 <= i < |u| ==> !IsDelimiter(u[i]) }

  /** What may follow a scalar. */
  predicate Delimited(rest: string) { rest != "" ==> IsDelimiter(rest[0]) }

  lemma {:induction false} RunThen(u: string, rest: string)
    requires NoDelimiters(u) && Delimited(rest)
    ensures ScalarRun(u + rest) == |u|
  {
    if u == "" {
      assert u + rest == rest;
    } else {
      assert (u + rest)[1..] == u[1..] + rest;
      RunThen(u[1..], rest);
    }
  }

  lemma {:induction false} RunStops(t: string)
    ensures Delimited(t[ScalarRun(t)..])
  {
    if t != "" && !IsDelimiter(t[0]) {
      RunStops(t[1..]);
      assert t[ScalarRun(t)..] == t[1..][ScalarRun(t[1..])..];
    }
  }

  predicate NumberChar(c: char) { IsDigit(c) || c == '+' || c == '-' || c == '.' || c == 'e' || c == 'E' }

  predicate NumberChars(u: string) { forall i :: 0 <= i < |u| ==> NumberChar(u[i]) }

  lemma DigitsAreNumberChars(u: string)
    requires AllDigits(u)
    ensures NumberChars(u)
  {
  }

  lemma NumberHasItsChars(u: string)
    requires IsNumber(u)
    ensures NumberChars(u) && u != "" && (u[0] == '-' || IsDigit(u[0]))
  {
    hide Scan;
    ScanSound(u);
    var t := Scan(u).value;
    DigitsAreNumberChars(t.whole);
    DigitsAreNumberChars(t.fraction);
    var tail := SpellExponent(t.exponent);
    assert NumberChars(tail);
    assert u == t.sign + t.whole + (if t.point then "." else "") + t.fraction + tail;
    assert u[0] == (t.sign + t.whole)[0];
  }

  /** Scalars hold no delimiter and start like nothing else. */
  lemma ScalarShape(u: string)
    requires IsScalar(u)
    ensures u != "" && NoDelimiters(u) && u[0] != '"' && u[0] != '{' && u[0] != '['
  {
    hide IsNumber;
    if IsNumber(u) { NumberHasItsChars(u); }
  }

  // ----- every tree's text is accepted -----

  lemma Behind(a: string, b: string)
    ensures (a + b)[|a|..] == b && (b != "" ==> (a + b)[|a|] == b[0])
  {
  }

  lemma ColonComplete(ws: string, rest: string)
    requires AllSpace(ws)
    ensures SkipColon(ws + (":" + rest)) == Some(|ws| + 1)
  {
    SpaceThen(ws, ":" + rest);
  }

  lemma LabelComplete(l: Label, rest: string)
    requires LabelOk(l, true)
    ensures SkipLabel(RenderLabel(l) + rest) == Some(|RenderLabel(l)|)
  {
    hide IsString, SkipString, SkipColon, SkipSpace;
    StringStart(l.key);
    var tail := l.after + (":" + rest);
    assert RenderLabel(l) + rest == l.before + (l.key + tail);
    SpaceThen(l.before, l.key + tail);
    Behind(l.before, l.key + tail);
    StringComplete(l.key, tail);
    Behind(l.key, tail);
    ColonComplete(l.after, rest);
  }

  lemma StringStart(u: string)
    requires IsString(u)
    ensures |u| >= 2 && u[0] == '"'
  {
  }

  /** Nothing but a scalar's end is left to the text that follows. */
  predicate MayFollow(t: Tree, rest: string) { t.Leaf? && IsScalar(t.text) ==> Delimited(rest) }

  lemma LeafComplete(text: string, rest: string, depth: nat)
    requires TreeOk(Leaf(text)) && MayFollow(Leaf(text), rest)
    ensures SkipBare(text + rest, depth) == Some(|text|)
  {
    hide IsScalar, IsString, SkipString, ScalarRun, SkipInside;
    if IsString(text) {
      StringStart(text);
      StringComplete(text, rest);
    } else {
      ScalarShape(text);
      RunThen(text, rest);
      assert (text + rest)[..|text|] == text;
    }
  }

  lemma BracketComplete(braces: bool, inside: string, depth: nat)
    ensures SkipBare([Open(braces)] + inside, depth) == Offset(1, SkipInside(inside, braces, depth + 1))
  {
    hide SkipInside;
    Behind([Open(braces)], inside);
  }

  /** Accepted, and whole, when it nests within the limit; refused when it does not. */
  function Accepted(n: nat, height: nat, depth: nat): Option<nat> {
    if depth + height <= MAX_DEPTH then Some(n) else None
  }

  lemma {:induction false} BareComplete(t: Tree, rest: string, depth: nat)
    requires TreeOk(t) && depth <= MAX_DEPTH && MayFollow(t, rest)
    ensures SkipBare(Render(t) + rest, depth) == Accepted(|Render(t)|, Height(t), depth)
    decreases t, 0
  {
    hide SkipBare, SkipItems, SkipInside, MayFollow, SkipSpace;
    match t
    case Leaf(text) => LeafComplete(text, rest, depth);
    case Bare(braces, space) =>
      var inside := space + ([Close(braces)] + rest);
      assert Render(t) + rest == [Open(braces)] + inside;
      BracketComplete(braces, inside, depth);
      ClosedInside(braces, space, rest, depth + 1);
    case Node(braces, items) =>
      var inside := RenderItems(items, braces) + rest;
      assert Render(t) + rest == [Open(braces)] + inside;
      BracketComplete(braces, inside, depth);
      ItemsComplete(items, braces, rest, depth + 1);
      OpenInside(items, braces, rest, depth + 1);
  }

  lemma ClosedInside(braces: bool, space: string, rest: string, depth: nat)
    requires AllSpace(space)
    ensures SkipInside(space + ([Close(braces)] + rest), braces, depth) == Some(|space| + 1)
  {
    hide SkipItems, SkipSpace;
    SpaceThen(space, [Close(braces)] + rest);
  }

  /** A container with items does not look empty. */
  lemma OpenInside(items: seq<Item>, braces: bool, rest: string, depth: nat)
    requires items != [] && ItemsOk(items, braces)
    ensures var t := RenderItems(items, braces) + rest;
            SkipInside(t, braces, depth) == SkipItems(t, braces, depth)
  {
    hide SkipItems, SkipSpace, RenderItem, RenderItems, ItemsOk;
    assert ItemOk(items[0], braces) by { FirstOk(items, braces); }
    RenderFirst(items, braces);
    var t := RenderItems(items, braces) + rest;
    var lead, more := LeadIn(items[0], braces, ItemTail(items, braces) + rest);
    assert t == lead + more;
    SpaceThen(lead, more);
    Behind(lead, more);
  }

  lemma FirstOk(items: seq<Item>, braces: bool)
    requires items != [] && ItemsOk(items, braces)
    ensures ItemOk(items[0], braces)
  {
  }

  /** What an item's text starts with: white space, then a key or a value. */
  lemma LeadIn(i: Item, braces: bool, tail: string) returns (lead: string, more: string)
    requires ItemOk(i, braces)
    ensures AllSpace(lead) && RenderItem(i) + tail == lead + more
    ensures more != "" && !IsSpace(more[0]) && more[0] != Close(braces)
  {
    hide IsString, Render, TreeOk;
    if braces {
      lead, more := i.name.before, i.name.key + (i.name.after + ":" + i.before + Render(i.value) + i.after + tail);
      StringStart(i.name.key);
    } else {
      lead, more := i.before, Render(i.value) + (i.after + tail);
      ValueStart(i.value);
    }
  }

  lemma ValueStart(t: Tree)
    requires TreeOk(t)
    ensures Render(t) != "" && !IsSpace(Render(t)[0]) && !IsDelimiter(Render(t)[0])
  {
    hide IsScalar, RenderItems, ItemsOk;
    if t.Leaf? && IsScalar(t.text) { ScalarShape(t.text); }
  }

  function ItemTail(items: seq<Item>, braces: bool): string
    requires items != []
  {
    if |items| == 1 then [Close(braces)] else "," + RenderItems(items[1..], braces)
  }

  lemma RenderFirst(items: seq<Item>, braces: bool)
    requires items != []
    ensures RenderItems(items, braces) == RenderItem(items[0]) + ItemTail(items, braces)
  {
    hide RenderItem;
  }

  lemma {:induction false} ValueComplete(t: Tree, ws: string, rest: string, depth: nat)
    requires TreeOk(t) && AllSpace(ws) && MayFollow(t, rest)
    ensures SkipValue(ws + (Render(t) + rest), depth) == Accepted(|ws| + |Render(t)|, Height(t), depth)
    decreases t, 1
  {
    hide SkipBare, TreeOk, Render, SkipSpace;
    ValueStart(t);
    SpaceThen(ws, Render(t) + rest);
    Behind(ws, Render(t) + rest);
    if depth <= MAX_DEPTH { BareComplete(t, rest, depth); }
  }

  /** The value of an item, with the white space around it. */
  lemma {:induction false} PaddedComplete(i: Item, rest: string, depth: nat)
    requires AllSpace(i.before) && TreeOk(i.value) && AllSpace(i.after)
    requires rest != "" && IsDelimiter(rest[0]) && !IsSpace(rest[0])
    ensures SkipPadded(i.before + (Render(i.value) + (i.after + rest)), depth)
         == Accepted(|i.before| + |Render(i.value)| + |i.after|, Height(i.value), depth)
    decreases i, 0
  {
    hide SkipValue, TreeOk, Render, SkipSpace;
    assert Delimited(i.after + rest);
    ValueComplete(i.value, i.before, i.after + rest, depth);
    assert i.before + (Render(i.value) + (i.after + rest)) == (i.before + Render(i.value)) + (i.after + rest);
    Behind(i.before + Render(i.value), i.after + rest);
    SpaceThen(i.after, rest);
  }

  lemma {:induction false} ItemComplete(i: Item, braces: bool, rest: string, depth: nat)
    requires ItemOk(i, braces)
    requires rest != "" && IsDelimiter(rest[0]) && !IsSpace(rest[0])
    ensures SkipItem(RenderItem(i) + rest, braces, depth) == Accepted(|RenderItem(i)|, Height(i.value), depth)
    decreases i, 1
  {
    hide SkipPadded, SkipLabel, TreeOk, Render, RenderLabel, IsDelimiter, IsSpace, AllSpace;
    var padded := i.before + (Render(i.value) + (i.after + rest));
    assert RenderItem(i) + rest == RenderLabel(i.name) + padded;
    if braces { LabelComplete(i.name, padded); } else { NoLabelText(i.name); }
    Behind(RenderLabel(i.name), padded);
    PaddedComplete(i, rest, depth);
  }

  lemma NoLabelText(l: Label)
    ensures l.NoLabel? ==> RenderLabel(l) == ""
  {
  }

  lemma {:induction false} ItemsComplete(items: seq<Item>, braces: bool, rest: string, depth: nat)
    requires items != [] && ItemsOk(items, braces)
    ensures SkipItems(RenderItems(items, braces) + rest, braces, depth)
         == Accepted(|RenderItems(items, braces)|, ItemsHeight(items), depth)
    decreases items, 1
  {
    hide SkipItem, SkipRest, RenderItem, ItemOk, Height, RenderItems, ItemTail;
    RenderFirst(items, braces);
    var tail := ItemTail(items, braces) + rest;
    assert RenderItems(items, braces) + rest == RenderItem(items[0]) + tail;
    RestComplete(items, braces, rest, depth);
    ItemComplete(items[0], braces, tail, depth);
    Behind(RenderItem(items[0]), tail);
  }

  lemma {:induction false} RestComplete(items: seq<Item>, braces: bool, rest: string, depth: nat)
    requires items != [] && ItemsOk(items, braces)
    ensures var tail := ItemTail(items, braces) + rest;
            tail != "" && IsDelimiter(tail[0]) && !IsSpace(tail[0])
            && (depth <= MAX_DEPTH ==> SkipRest(tail, braces, depth) == Accepted(|ItemTail(items, braces)|,
                ItemsHeight(items[1..]), depth))
    decreases items, 0
  {
    hide SkipItems, ItemOk, Height, RenderItems;
    if |items| > 1 {
      var more := RenderItems(items[1..], braces) + rest;
      assert ItemTail(items, braces) + rest == "," + more;
      Behind(",", more);
      ItemsComplete(items[1..], braces, rest, depth);
    }
  }

  // ----- and nothing else is -----

  lemma Parts(t: string, k: nat, m: nat)
    requires k + m <= |t|
    ensures t[..k + m] == t[..k] + t[k..][..m] && t[k + m..] == t[k..][m..]
  {
  }

  lemma ColonSound(t: string) returns (ws: string)
    requires SkipColon(t).Some?
    ensures AllSpace(ws) && t[..SkipColon(t).value] == ws + ":"
  {
    var p := SkipSpace(t);
    ws := t[..p];
    assert t[..p + 1] == t[..p] + [t[p]];
  }

  lemma LabelSound(t: string) returns (l: Label)
    requires SkipLabel(t).Some?
    ensures LabelOk(l, true) && t[..SkipLabel(t).value] == RenderLabel(l)
  {
    hide IsString, SkipString, SkipColon, SkipSpace, AllSpace;
    var k := SkipSpace(t);
    var u := t[k..];
    var n := SkipString(u).value;
    StringSound(u);
    var m := SkipColon(u[n..]).value;
    var ws := ColonSound(u[n..]);
    l := Label(t[..k], u[..n], ws);
    Parts(t, k, n + m);
    Parts(u, n, m);
    assert RenderLabel(l) == t[..k] + (u[..n] + (ws + ":"));
  }

  lemma {:induction false} BareSound(s: string, depth: nat) returns (t: Tree)
    requires SkipBare(s, depth).Some? && depth <= MAX_DEPTH
    ensures TreeOk(t) && depth + Height(t) <= MAX_DEPTH
    ensures var end := SkipBare(s, depth).value; s[..end] == Render(t) && MayFollow(t, s[end..])
    decreases |s|, 1
  {
    hide SkipInside, IsScalar, IsString, SkipString;
    if s[0] == '"' {
      StringSound(s);
      t := Leaf(s[..SkipString(s).value]);
      StringIsNotScalar(t.text);
    } else if s[0] == '{' || s[0] == '[' {
      t := InsideSound(s[1..], s[0] == '{', depth + 1);
      var m := SkipInside(s[1..], s[0] == '{', depth + 1).value;
      Parts(s, 1, m);
      assert s[..1] == [Open(s[0] == '{')];
    } else {
      t := Leaf(s[..ScalarRun(s)]);
      RunStops(s);
    }
  }

  lemma {:induction false} InsideSound(s: string, braces: bool, depth: nat) returns (t: Tree)
    requires SkipInside(s, braces, depth).Some? && depth <= MAX_DEPTH + 1
    ensures TreeOk(t) && !t.Leaf? && depth - 1 + Height(t) <= MAX_DEPTH
    ensures [Open(braces)] + s[..SkipInside(s, braces, depth).value] == Render(t)
    decreases |s|, 6
  {
    hide SkipItems, SkipSpace;
    var e := SkipSpace(s);
    if e < |s| && s[e] == Close(braces) {
      t := Bare(braces, s[..e]);
      assert s[..e + 1] == s[..e] + [s[e]];
    } else {
      var items := ItemsSound(s, braces, depth);
      t := Node(braces, items);
    }
  }

  lemma {:induction false} ValueSound(s: string, depth: nat) returns (ws: string, t: Tree)
    requires SkipValue(s, depth).Some?
    ensures TreeOk(t) && AllSpace(ws) && depth + Height(t) <= MAX_DEPTH
    ensures var end := SkipValue(s, depth).value; s[..end] == ws + Render(t) && MayFollow(t, s[end..])
    decreases |s|, 2
  {
    hide SkipBare, MayFollow, TreeOk, Render;
    var k := SkipSpace(s);
    ws := s[..k];
    t := BareSound(s[k..], depth);
    Parts(s, k, SkipBare(s[k..], depth).value);
  }

  lemma StringIsNotScalar(u: string)
    requires IsString(u)
    ensures !IsScalar(u)
  {
    hide IsNumber;
    if IsScalar(u) { ScalarShape(u); }
  }

  lemma {:induction false} PaddedSound(u: string, depth: nat) returns (before: string, value: Tree, after: string)
    requires SkipPadded(u, depth).Some?
    ensures AllSpace(before) && TreeOk(value) && AllSpace(after) && depth + Height(value) <= MAX_DEPTH
    ensures u[..SkipPadded(u, depth).value] == before + Render(value) + after
    decreases |u|, 3
  {
    hide SkipValue, TreeOk, Render, Height, MayFollow;
    before, value := ValueSound(u, depth);
    var m := SkipValue(u, depth).value;
    var e := SkipSpace(u[m..]);
    after := u[m..][..e];
    Parts(u, m, e);
  }

  lemma {:induction false} ItemSound(s: string, braces: bool, depth: nat) returns (i: Item)
    requires SkipItem(s, braces, depth).Some?
    ensures ItemOk(i, braces) && depth + Height(i.value) <= MAX_DEPTH
    ensures s[..SkipItem(s, braces, depth).value] == RenderItem(i)
    decreases |s|, 4
  {
    hide SkipLabel, SkipPadded, LabelOk, RenderLabel, TreeOk, Render, Height, AllSpace;
    var name, p := NoLabel, 0;
    if braces {
      name := LabelSound(s);
      p := SkipLabel(s).value;
    } else {
      NoLabelOk();
      NoLabelText(name);
    }
    var before, value, after := PaddedSound(s[p..], depth);
    i := Item(name, before, value, after);
    Parts(s, p, SkipPadded(s[p..], depth).value);
    assert RenderLabel(name) + (before + Render(value) + after) == RenderItem(i);
  }

  lemma NoLabelOk()
    ensures LabelOk(NoLabel, false)
  {
  }

  lemma {:induction false} ItemsSound(s: string, braces: bool, depth: nat) returns (items: seq<Item>)
    requires SkipItems(s, braces, depth).Some?
    ensures items != [] && ItemsOk(items, braces) && depth + ItemsHeight(items) <= MAX_DEPTH
    ensures s[..SkipItems(s, braces, depth).value] == RenderItems(items, braces)
    decreases |s|, 5
  {
    hide SkipItem, RenderItem, ItemOk, Height, RenderItems, ItemsOk, ItemsHeight;
    var i := ItemSound(s, braces, depth);
    var n := SkipItem(s, braces, depth).value;
    var u := s[n..];
    if u[0] == Close(braces) {
      items := [i];
      OneItem(i, braces);
      RenderFirst(items, braces);
      Parts(s, n, 1);
      assert u[..1] == [u[0]];
    } else {
      var more := ItemsSound(u[1..], braces, depth);
      items := [i] + more;
      assert items[1..] == more;
      MoreItems(i, more, braces);
      RenderFirst(items, braces);
      var m := SkipItems(u[1..], braces, depth).value;
      Parts(s, n, 1 + m);
      Parts(u, 1, m);
      assert u[..1] == ",";
    }
  }

  lemma OneItem(i: Item, braces: bool)
    requires ItemOk(i, braces)
    ensures ItemsOk([i], braces) && ItemsHeight([i]) == Height(i.value)
  {
    hide ItemOk, Height;
    assert [i][1..] == [];
  }

  lemma MoreItems(i: Item, more: seq<Item>, braces: bool)
    requires ItemOk(i, braces) && ItemsOk(more, braces)
    ensures ItemsOk([i] + more, braces) && ItemsHeight([i] + more) == Max(Height(i.value), ItemsHeight(more))
  {
    hide ItemOk, Height;
    assert ([i] + more)[1..] == more;
  }

  /** Nothing nested deeper than the limit is let through. */
  lemma TooDeepIsRefused(s: string, before: string, t: Tree, after: string)
    requires IsDocument(s, before, t, after) && Height(t) > MAX_DEPTH
    ensures !WellFormedText(s)
  {
    hide SkipValue, TreeOk, Render;
    SpaceIsDelimited(after);
    ValueComplete(t, before, after, 0);
    assert s == before + (Render(t) + after);
  }

  lemma TwoItems(x: Item, y: Item, braces: bool)
    ensures RenderItems([x, y], braces) == RenderItem(x) + ("," + (RenderItem(y) + [Close(braces)]))
  {
    hide RenderItem;
    assert [x, y][1..] == [y];
    assert RenderItems([y], braces) == RenderItem(y) + [Close(braces)];
  }

  lemma OneMember(key: string, a: string)
    ensures RenderItem(Item(Label("", key, ""), "", Leaf(a), "")) == key + ":" + a
  {
    assert Render(Leaf(a)) == a;
  }

  lemma OneElement(a: string)
    ensures RenderItem(Item(NoLabel, "", Leaf(a), "")) == a
  {
    assert Render(Leaf(a)) == a;
  }

  /** Trees are spelled with the six structural characters of RFC 8259. */
  lemma TreesAreSpelled(key: string, a: string, b: string)
    ensures Render(Bare(true, "")) == "{}" && Render(Bare(false, "")) == "[]"
    ensures Render(Node(true, [Item(Label("", key, ""), "", Leaf(a), ""), Item(Label("", key, ""), "", Leaf(b), "")]))
         == "{" + ((key + ":" + a) + ("," + ((key + ":" + b) + "}")))
    ensures Render(Node(false, [Item(NoLabel, "", Leaf(a), ""), Item(NoLabel, "", Leaf(b), "")]))
         == "[" + (a + ("," + (b + "]")))
  {
    hide RenderItem, RenderItems;
    OneMember(key, a);
    OneMember(key, b);
    OneElement(a);
    OneElement(b);
    TwoItems(Item(Label("", key, ""), "", Leaf(a), ""), Item(Label("", key, ""), "", Leaf(b), ""), true);
    TwoItems(Item(NoLabel, "", Leaf(a), ""), Item(NoLabel, "", Leaf(b), ""), false);
  }

  /** A text is well formed exactly when it is white space, one value no more than 32 levels deep,
      and white space. */
  lemma WellFormedIff(s: string)
    ensures WellFormedText(s) <==>
            exists before, t, after :: IsDocument(s, before, t, after) && Height(t) <= MAX_DEPTH
  {
    hide SkipValue, TreeOk, Render;
    if WellFormedText(s) {
      var before, t := ValueSound(s, 0);
      var end := SkipValue(s, 0).value;
      assert s == s[..end] + s[end..];
      assert IsDocument(s, before, t, s[end..]);
    }
    forall before, t, after | IsDocument(s, before, t, after) && Height(t) <= MAX_DEPTH ensures WellFormedText(s) {
      DocumentAccepted(s, before, t, after);
    }
  }

  predicate IsDocument(s: string, before: string, t: Tree, after: string) {
    AllSpace(before) && TreeOk(t) && AllSpace(after) && s == before + Render(t) + after
  }

  lemma DocumentAccepted(s: string, before: string, t: Tree, after: string)
    requires IsDocument(s, before, t, after) && Height(t) <= MAX_DEPTH
    ensures WellFormedText(s)
  {
    hide SkipValue, TreeOk, Render;
    SpaceIsDelimited(after);
    ValueComplete(t, before, after, 0);
    assert s == before + (Render(t) + after);
    assert s[|before + Render(t)|..] == after;
  }

  lemma SpaceIsDelimited(after: string)
    requires AllSpace(after)
    ensures Delimited(after)
  {
  }

  // ----- types -----

  datatype JsonType = Invalid | ObjectType | ArrayType | StringType | NumberType | BoolType | NullType

  /** A value's type by its first character. */
  function Classify(t: string): JsonType {
    var k := SkipSpace(t);
    if k == |t| then Invalid
    else if t[k] == '{' then ObjectType
    else if t[k] == '[' then ArrayType
    else if t[k] == '"' then StringType
    else if t[k] == 't' || t[k] == 'f' then BoolType
    else if t[k] == 'n' then NullType
    else if t[k] == '-' || IsDigit(t[k]) then NumberType
    else Invalid
  }

  function TypeOf(t: Tree): JsonType {
    match t
    case Leaf(text) =>
      if IsString(text) then StringType
      else if text == "null" then NullType
      else if text == "true" || text == "false" then BoolType
      else NumberType
    case Bare(braces, _) => if braces then ObjectType else ArrayType
    case Node(braces, _) => if braces then ObjectType else ArrayType
  }

  /** Which text is of which type. */
  lemma TypesAre(n: string, k: string, space: string, items: seq<Item>)
    requires IsNumber(n) && IsString(k)
    ensures TypeOf(Leaf("true")) == TypeOf(Leaf("false")) == BoolType && TypeOf(Leaf("null")) == NullType
    ensures TypeOf(Leaf(n)) == NumberType && TypeOf(Leaf(k)) == StringType
    ensures TypeOf(Bare(true, space)) == TypeOf(Node(true, items)) == ObjectType
    ensures TypeOf(Bare(false, space)) == TypeOf(Node(false, items)) == ArrayType
  {
    hide IsNumber;
    NumberHasItsChars(n);
    StringIsNotScalar(k);
  }

  /** On anything accepted, the first character tells the type, and it is never invalid. */
  lemma ClassifyIsTypeOf(t: Tree, ws: string, rest: string)
    requires TreeOk(t) && AllSpace(ws)
    ensures Classify(ws + Render(t) + rest) == TypeOf(t) != Invalid
  {
    hide IsNumber, ItemsOk, RenderItems;
    var text := Render(t);
    if t.Leaf? {
      if IsNumber(text) { NumberHasItsChars(text); }
      if IsString(text) { StringIsNotScalar(text); } else { ScalarShape(text); }
    }
    assert text != "" && !IsSpace(text[0]);
    assert ws + text + rest == ws + (text + rest);
    SpaceThen(ws, text + rest);
  }

  lemma AcceptedHasAType(s: string, depth: nat)
    requires SkipValue(s, depth).Some?
    ensures Classify(s) != Invalid
  {
    hide SkipValue, TreeOk, Render;
    var ws, t := ValueSound(s, depth);
    var end := SkipValue(s, depth).value;
    assert s == ws + Render(t) + s[end..];
    ClassifyIsTypeOf(t, ws, s[end..]);
  }
}
