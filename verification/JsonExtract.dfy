/**
 * Extraction of a JSON object from the text of a model reply: first from a
 * fenced block, else by matching braces outside of string literals.
 */
module JsonExtract {
  import opened Options
  import opened Text

  const FENCE := "```json"
  const FENCE_END := "```"

  function Shift(n: nat, r: Option<nat>): Option<nat> {
    if r.Some? then Some(n + r.value) else None
  }

  /** Brace depth, and whether the scanner is inside a string or behind a backslash there. */
  datatype ScanState = ScanState(depth: int, inString: bool, escaped: bool)

  function Outside(depth: int): ScanState {
    ScanState(depth, false, false)
  }

  function Inner(depth: int): ScanState {
    ScanState(depth, true, false)
  }

  function Step(st: ScanState, c: char): ScanState {
    if st.escaped then st.(escaped := false)
    else if c == '\\' && st.inString then st.(escaped := true)
    else if c == '"' then st.(inString := !st.inString)
    else if c == '{' && !st.inString then st.(depth := st.depth + 1)
    else if c == '}' && !st.inString then st.(depth := st.depth - 1)
    else st
  }

  predicate Closes(st: ScanState, c: char) {
    !st.escaped && !st.inString && c == '}' && st.depth == 1
  }

  /** Offset of the brace that brings the depth back to 0. */
  function Scan(s: string, st: ScanState): (r: Option<nat>)
    ensures r.Some? ==> r.value < |s|
  {
    if s == "" then None
    else if Closes(st, s[0]) then Some(0)
    else Shift(1, Scan(s[1..], Step(st, s[0])))
  }

  function Fenced(text: string): Option<string> {
    var start := Find(text, FENCE, 0);
    if start.None? then None
    else
      var afterStart := text[start.value + |FENCE|..];
      var end := Find(afterStart, FENCE_END, 0);
      if end.None? then None
      else
        var candidate := Trim(afterStart[..end.value]);
        if StartsWith(candidate, '{') || StartsWith(candidate, '[') then Some(candidate) else None
  }

  function Bare(text: string): Option<string> {
    var start := Find(text, "{", 0);
    if start.None? then None
    else
      var end := Scan(text[start.value..], Outside(0));
      if end.Some? then Some(text[start.value..start.value + end.value + 1]) else None
  }

  /** The fenced block wins over a bare object. */
  function Extracted(text: string): Option<string> {
    if Fenced(text).Some? then Fenced(text) else Bare(text)
  }

  /** The first occurrence of `p` at or after `from`. */
  ghost predicate FirstAt(s: string, p: string, from: nat, i: nat) {
    from <= i && OccursAt(s, p, i) && forall j: nat :: from <= j < i ==> !OccursAt(s, p, j)
  }

  /** `block` stands, up to white space, between the first opening fence, at `i`, and the next fence, at `j`. */
  ghost predicate BlockAt(text: string, block: string, i: nat, j: nat) {
    FirstAt(text, "```json", 0, i) && FirstAt(text, "```", i + 7, j) && block == Trim(text[i + 7..j])
  }

  /** The first fenced block is an object or an array. */
  ghost predicate IsBlock(text: string, block: string) {
    block != "" && (block[0] == '{' || block[0] == '[') && exists i: nat, j: nat :: BlockAt(text, block, i, j)
  }

  lemma FoundIsFirst(s: string, p: string, from: nat, i: nat)
    ensures Find(s, p, from) == Some(i) <==> FirstAt(s, p, from, i)
  {
    hide Find, OccursAt;
    if FirstAt(s, p, from, i) {
      FindIs(s, p, from, i);
    }
  }

  lemma OccursBehind(s: string, p: string, from: nat, i: nat)
    requires from <= |s|
    ensures OccursAt(s[from..], p, i) <==> OccursAt(s, p, from + i)
  {
    if i + |p| <= |s[from..]| {
      assert s[from..][i..i + |p|] == s[from + i..from + i + |p|];
    }
  }

  lemma FoundBehind(s: string, p: string, from: nat, i: nat)
    requires from <= |s| && from <= i
    ensures Find(s[from..], p, 0) == Some(i - from) <==> FirstAt(s, p, from, i)
  {
    hide OccursAt, Find;
    FoundIsFirst(s[from..], p, 0, i - from);
    OccursBehind(s, p, from, i - from);
    forall j: nat
      ensures OccursAt(s[from..], p, j) <==> OccursAt(s, p, from + j)
    {
      OccursBehind(s, p, from, j);
    }
    assert forall j: nat :: from <= j < i && OccursAt(s, p, j) ==> OccursAt(s[from..], p, j - from);
  }

  /** The fenced branch gives exactly the block, and the brace scan is tried exactly when there is none. */
  lemma ExtractedExactlyWhen(text: string)
    ensures forall block :: IsBlock(text, block) ==> Extracted(text) == Some(block)
    ensures (forall block :: !IsBlock(text, block)) ==> Extracted(text) == Bare(text)
  {
    hide Trim, Bare, Find;
    var start := Find(text, FENCE, 0);
    forall block, i: nat, j: nat | BlockAt(text, block, i, j)
      ensures start == Some(i) && Find(text[i + 7..], FENCE_END, 0) == Some(j - (i + 7))
      ensures text[i + 7..][..j - (i + 7)] == text[i + 7..j]
    {
      FoundIsFirst(text, "```json", 0, i);
      FoundBehind(text, "```", i + 7, j);
    }
    if Fenced(text).Some? {
      var i := start.value;
      var j := i + 7 + Find(text[i + 7..], FENCE_END, 0).value;
      FoundIsFirst(text, "```json", 0, i);
      FoundBehind(text, "```", i + 7, j);
      assert text[i + 7..][..j - (i + 7)] == text[i + 7..j];
      assert BlockAt(text, Fenced(text).value, i, j);
      assert IsBlock(text, Fenced(text).value);
    }
  }

  method ExtractJson(text: string) returns (r: Option<string>)
    ensures r == Extracted(text)
  {
    hide Scan, Find, Trim;
    var fence := Find(text, FENCE, 0);
    if fence.Some? {
      var afterStart := text[fence.value + |FENCE|..];
      var end := Find(afterStart, FENCE_END, 0);
      if end.Some? {
        var candidate := Trim(afterStart[..end.value]);
        if StartsWith(candidate, '{') || StartsWith(candidate, '[') {
          return Some(candidate);
        }
      }
    }

    var first := Find(text, "{", 0);
    if first.Some? {
      r := MatchBraces(text, first.value);
    } else {
      r := None;
    }
  }

  /** The loop over the characters from the first brace on. */
  method MatchBraces(text: string, start: nat) returns (r: Option<string>)
    requires start <= |text|
    ensures var end := Scan(text[start..], Outside(0));
            r == if end.Some? then Some(text[start..start + end.value + 1]) else None
  {
    hide Scan;
    var depth, inString, escaped := 0, false, false;
    ghost var whole := Scan(text[start..], Outside(0));
    ShiftTwice(0, 0, whole);
    for i := start to |text|
      invariant whole == Shift(i - start, Scan(text[i..], ScanState(depth, inString, escaped)))
    {
      var c := text[i];
      ghost var st := ScanState(depth, inString, escaped);
      ScanHead(text, i, st);
      ShiftTwice(i - start, 1, Scan(text[i + 1..], Step(st, c)));
      if escaped {
        escaped := false;
      } else if c == '\\' && inString {
        escaped := true;
      } else if c == '"' {
        inString := !inString;
      } else if c == '{' && !inString {
        depth := depth + 1;
      } else if c == '}' && !inString {
        depth := depth - 1;
        if depth == 0 {
          return Some(text[start..i + 1]);
        }
      }
    }
    ScanEmpty(ScanState(depth, inString, escaped));
    assert text[|text|..] == "";
    r := None;
  }

  lemma ScanHead(text: string, i: nat, st: ScanState)
    requires i < |text|
    ensures Scan(text[i..], st)
            == if Closes(st, text[i]) then Some(0) else Shift(1, Scan(text[i + 1..], Step(st, text[i])))
  {
    assert text[i..][1..] == text[i + 1..];
  }

  lemma ScanEmpty(st: ScanState)
    ensures Scan("", st) == None
  {
  }

  /** The scanner on `c` followed by `rest`. */
  lemma ScanCons(c: char, rest: string, st: ScanState)
    ensures Scan([c] + rest, st) == if Closes(st, c) then Some(0) else Shift(1, Scan(rest, Step(st, c)))
  {
    assert ([c] + rest)[1..] == rest;
  }

  // ----- JSON texts (RFC 8259), with every choice of white space -----

  /** One item of a string literal: section 7 of RFC 8259. */
  datatype StringItem =
    | Unescaped(c: char)
    | Escape(c: char)
    | UnicodeEscape(h0: char, h1: char, h2: char, h3: char)

  datatype Json =
    | Literal(name: string)
    | Number(digits: string)
    | Str(items: seq<StringItem>)
    | Array(space: string, elements: seq<Element>)
    | Object(space: string, members: seq<Member>)

  /** A value with the white space around it. */
  datatype Element = Element(before: string, value: Json, after: string)

  datatype Member = Member(before: string, key: seq<StringItem>, after: string, element: Element)

  predicate IsHex(c: char) {
    '0' <= c <= '9' || 'a' <= c <= 'f' || 'A' <= c <= 'F'
  }

  predicate ValidItem(item: StringItem) {
    match item
    case Unescaped(c) => c != '"' && c != '\\' && c as int >= 0x20
    case Escape(c) => c in "\"\\/bfnrt"
    case UnicodeEscape(a, b, c, d) => IsHex(a) && IsHex(b) && IsHex(c) && IsHex(d)
  }

  predicate ValidItems(items: seq<StringItem>) {
    forall i :: 0 <= i < |items| ==> ValidItem(items[i])
  }

  /** The white space of section 2 of RFC 8259. */
  predicate JsonSpace(s: string) {
    forall i :: 0 <= i < |s| ==> s[i] in " \t\n\r"
  }

  /** Digits, signs, points and exponents: a superset of the numbers of section 6. */
  predicate NumberText(s: string) {
    s != "" && forall i :: 0 <= i < |s| ==> s[i] in "0123456789+-.eE"
  }

  predicate Valid(v: Json)
    decreases v, 1
  {
    match v
    case Literal(name) => name == "null" || name == "true" || name == "false"
    case Number(digits) => NumberText(digits)
    case Str(items) => ValidItems(items)
    case Array(space, elements) => JsonSpace(space) && ValidElements(elements)
    case Object(space, members) => JsonSpace(space) && ValidMembers(members)
  }

  predicate ValidElement(e: Element)
    decreases e, 0
  {
    JsonSpace(e.before) && Valid(e.value) && JsonSpace(e.after)
  }

  predicate ValidElements(elements: seq<Element>)
    decreases elements, 0
  {
    elements != [] ==> ValidElement(elements[0]) && ValidElements(elements[1..])
  }

  predicate ValidMember(m: Member)
    decreases m, 0
  {
    JsonSpace(m.before) && ValidItems(m.key) && JsonSpace(m.after) && ValidElement(m.element)
  }

  predicate ValidMembers(members: seq<Member>)
    decreases members, 0
  {
    members != [] ==> ValidMember(members[0]) && ValidMembers(members[1..])
  }

  function PrintItem(item: StringItem): string {
    match item
    case Unescaped(c) => [c]
    case Escape(c) => ['\\', c]
    case UnicodeEscape(a, b, c, d) => ['\\', 'u', a, b, c, d]
  }

  function PrintItems(items: seq<StringItem>): string {
    if items == [] then "" else PrintItem(items[0]) + PrintItems(items[1..])
  }

  function PrintString(items: seq<StringItem>): string {
    "\"" + PrintItems(items) + "\""
  }

  function Print(v: Json): string
    decreases v, 1
  {
    match v
    case Literal(name) => name
    case Number(digits) => digits
    case Str(items) => PrintString(items)
    case Array(space, elements) => "[" + (if elements == [] then space else PrintElements(elements)) + "]"
    case Object(space, members) => "{" + Inside(space, members) + "}"
  }

  function Inside(space: string, members: seq<Member>): string
    decreases members, 1
  {
    if members == [] then space else PrintMembers(members)
  }

  function PrintElement(e: Element): string
    decreases e, 0
  {
    e.before + Print(e.value) + e.after
  }

  function PrintElements(elements: seq<Element>): string
    requires elements != []
    decreases elements, 0
  {
    if |elements| == 1 then PrintElement(elements[0])
    else PrintElement(elements[0]) + "," + PrintElements(elements[1..])
  }

  function PrintMember(m: Member): string
    decreases m, 0
  {
    m.before + PrintString(m.key) + m.after + ":" + PrintElement(m.element)
  }

  function PrintMembers(members: seq<Member>): string
    requires members != []
    decreases members, 0
  {
    if |members| == 1 then PrintMember(members[0])
    else PrintMember(members[0]) + "," + PrintMembers(members[1..])
  }

  // ----- the scanner passes over JSON text -----

  /** Outside of strings and below the top level, the scanner walks over `t` and is back where it was. */
  ghost predicate Skips(t: string) {
    forall rest: string, depth: int :: depth >= 1 ==>
      Scan(t + rest, Outside(depth)) == Shift(|t|, Scan(rest, Outside(depth)))
  }

  lemma ShiftTwice(m: nat, n: nat, r: Option<nat>)
    ensures Shift(m, Shift(n, r)) == Shift(m + n, r)
  {
  }

  lemma NoShift(r: Option<nat>)
    ensures Shift(0, r) == r
  {
  }

  lemma SkipsNothing()
    ensures Skips("")
  {
    assert forall rest: string :: "" + rest == rest;
  }

  lemma SkipsBoth(t: string, u: string)
    requires Skips(t) && Skips(u)
    ensures Skips(t + u)
  {
    hide Scan;
    forall rest: string, depth: int | depth >= 1
      ensures Scan(t + u + rest, Outside(depth)) == Shift(|t + u|, Scan(rest, Outside(depth)))
    {
      assert t + u + rest == t + (u + rest);
      ShiftTwice(|t|, |u|, Scan(rest, Outside(depth)));
    }
  }

  lemma {:induction false} SkipsPlain(t: string)
    requires forall i :: 0 <= i < |t| ==> t[i] != '"' && t[i] != '{' && t[i] != '}'
    ensures Skips(t)
  {
    if t == "" {
      SkipsNothing();
    } else {
      SkipsPlain(t[1..]);
      hide Scan;
      forall rest: string, depth: int | depth >= 1
        ensures Scan(t + rest, Outside(depth)) == Shift(|t|, Scan(rest, Outside(depth)))
      {
        assert t + rest == [t[0]] + (t[1..] + rest);
        ScanCons(t[0], t[1..] + rest, Outside(depth));
        ShiftTwice(1, |t| - 1, Scan(rest, Outside(depth)));
      }
    }
  }

  /** Inside a string the scanner walks over every item, escaped quotes included. */
  lemma {:induction false} ScanItems(items: seq<StringItem>, rest: string, depth: int)
    requires ValidItems(items)
    ensures Scan(PrintItems(items) + rest, Inner(depth)) == Shift(|PrintItems(items)|, Scan(rest, Inner(depth)))
  {
    hide Scan, Shift, Inner, PrintItem, ValidItem;
    if items == [] {
      NoShift(Scan(rest, Inner(depth)));
      assert PrintItems(items) + rest == rest;
    } else {
      var head, tail := PrintItem(items[0]), PrintItems(items[1..]);
      ScanItems(items[1..], rest, depth);
      ScanItem(items[0], tail + rest, depth);
      Regroup(head, tail, rest);
      ShiftTwice(|head|, |tail|, Scan(rest, Inner(depth)));
    }
  }

  lemma ScanItem(item: StringItem, rest: string, depth: int)
    requires ValidItem(item)
    ensures Scan(PrintItem(item) + rest, Inner(depth)) == Shift(|PrintItem(item)|, Scan(rest, Inner(depth)))
  {
    hide Scan;
    match item
    case Unescaped(c) =>
      ScanCons(c, rest, Inner(depth));
    case Escape(c) =>
      ScanEscape(c, rest, depth);
    case UnicodeEscape(h0, h1, h2, h3) =>
      var digits := [h0, h1, h2, h3];
      assert PrintItem(item) + rest == ['\\', 'u'] + (digits + rest);
      ScanEscape('u', digits + rest, depth);
      ScanInString(digits, rest, depth);
      ShiftTwice(2, 4, Scan(rest, Inner(depth)));
  }

  lemma ScanEscape(c: char, rest: string, depth: int)
    ensures Scan(['\\', c] + rest, Inner(depth)) == Shift(2, Scan(rest, Inner(depth)))
  {
    hide Scan;
    assert ['\\', c] + rest == ['\\'] + ([c] + rest);
    ScanCons('\\', [c] + rest, Inner(depth));
    ScanCons(c, rest, ScanState(depth, true, true));
    ShiftTwice(1, 1, Scan(rest, Inner(depth)));
  }

  lemma {:induction false} ScanInString(t: string, rest: string, depth: int)
    requires forall i :: 0 <= i < |t| ==> t[i] != '"' && t[i] != '\\'
    ensures Scan(t + rest, Inner(depth)) == Shift(|t|, Scan(rest, Inner(depth)))
  {
    if t == "" {
      assert t + rest == rest;
    } else {
      hide Scan;
      assert t + rest == [t[0]] + (t[1..] + rest);
      ScanCons(t[0], t[1..] + rest, Inner(depth));
      ScanInString(t[1..], rest, depth);
      ShiftTwice(1, |t| - 1, Scan(rest, Inner(depth)));
    }
  }

  /** Two quotes around items, which leave the scanner inside the string. */
  lemma OverQuotes(items: seq<StringItem>, rest: string, depth: int)
    requires ValidItems(items)
    ensures Scan(PrintString(items) + rest, Outside(depth)) == Shift(|PrintString(items)|, Scan(rest, Outside(depth)))
  {
    hide Scan, PrintItems, ValidItems;
    var body, quoted := PrintItems(items), "\"" + rest;
    ScanItems(items, quoted, depth);
    assert PrintString(items) + rest == "\"" + (body + quoted);
    ScanCons('"', body + quoted, Outside(depth));
    ScanCons('"', rest, Inner(depth));
    ShiftTwice(|body|, 1, Scan(rest, Outside(depth)));
    ShiftTwice(1, |body| + 1, Scan(rest, Outside(depth)));
  }

  lemma SkipsString(items: seq<StringItem>)
    requires ValidItems(items)
    ensures Skips(PrintString(items))
  {
    hide Scan, PrintString, ValidItems;
    forall rest: string, depth: int | depth >= 1
      ensures Scan(PrintString(items) + rest, Outside(depth))
              == Shift(|PrintString(items)|, Scan(rest, Outside(depth)))
    {
      OverQuotes(items, rest, depth);
    }
  }

  lemma SkipsBraces(inside: string)
    requires Skips(inside)
    ensures Skips("{" + inside + "}")
  {
    forall rest: string, depth: int | depth >= 1
      ensures Scan("{" + inside + "}" + rest, Outside(depth))
              == Shift(|"{" + inside + "}"|, Scan(rest, Outside(depth)))
    {
      OverBraces(inside, rest, depth);
    }
  }

  lemma OverBraces(inside: string, rest: string, depth: int)
    requires Skips(inside) && depth >= 0
    ensures Scan("{" + inside + "}" + rest, Outside(depth))
            == if depth == 0 then Some(|inside| + 1)
               else Shift(|inside| + 2, Scan(rest, Outside(depth)))
  {
    hide Scan;
    var closing := "}" + rest;
    assert "{" + inside + "}" + rest == "{" + (inside + closing);
    ScanCons('{', inside + closing, Outside(depth));
    ScanCons('}', rest, Outside(depth + 1));
    assert Scan(inside + closing, Outside(depth + 1)) == Shift(|inside|, Scan(closing, Outside(depth + 1)));
    ShiftTwice(|inside|, 1, Scan(rest, Outside(depth)));
    ShiftTwice(1, |inside| + 1, Scan(rest, Outside(depth)));
  }

  lemma {:induction false} SkipsValue(v: Json)
    requires Valid(v)
    ensures Skips(Print(v))
    decreases v, 1
  {
    hide Skips, Scan, PrintElements, PrintMembers, PrintString, ValidElements, ValidMembers, ValidItems, Inside;
    match v
    case Literal(name) => SkipsPlain(name);
    case Number(digits) => SkipsPlain(digits);
    case Str(items) => SkipsString(items);
    case Array(space, elements) => SkipsArray(space, elements);
    case Object(space, members) =>
      SkipsInside(space, members);
      SkipsBraces(Inside(space, members));
  }

  lemma {:induction false} SkipsArray(space: string, elements: seq<Element>)
    requires JsonSpace(space) && ValidElements(elements)
    ensures Skips("[" + (if elements == [] then space else PrintElements(elements)) + "]")
    decreases elements, 1
  {
    hide Skips, Scan;
    var inside := if elements == [] then space else PrintElements(elements);
    if elements == [] {
      SkipsPlain(space);
    } else {
      SkipsElements(elements);
    }
    SkipsPlain("[");
    SkipsPlain("]");
    SkipsBoth("[", inside);
    SkipsBoth("[" + inside, "]");
  }

  lemma {:induction false} SkipsInside(space: string, members: seq<Member>)
    requires JsonSpace(space) && ValidMembers(members)
    ensures Skips(Inside(space, members))
    decreases members, 1
  {
    hide Skips, Scan;
    if members == [] {
      SkipsPlain(space);
    } else {
      SkipsMembers(members);
    }
  }

  lemma {:induction false} SkipsElement(e: Element)
    requires ValidElement(e)
    ensures Skips(PrintElement(e))
    decreases e, 0
  {
    hide Skips, Scan;
    SkipsPlain(e.before);
    SkipsPlain(e.after);
    SkipsValue(e.value);
    SkipsBoth(e.before, Print(e.value));
    SkipsBoth(e.before + Print(e.value), e.after);
  }

  lemma {:induction false} SkipsElements(elements: seq<Element>)
    requires elements != [] && ValidElements(elements)
    ensures Skips(PrintElements(elements))
    decreases elements, 0
  {
    hide Skips, Scan;
    SkipsElement(elements[0]);
    if |elements| > 1 {
      SkipsPlain(",");
      SkipsElements(elements[1..]);
      SkipsBoth(PrintElement(elements[0]), ",");
      SkipsBoth(PrintElement(elements[0]) + ",", PrintElements(elements[1..]));
    }
  }

  lemma {:induction false} SkipsMember(m: Member)
    requires ValidMember(m)
    ensures Skips(PrintMember(m))
    decreases m, 0
  {
    hide Skips, Scan;
    var head := m.before + PrintString(m.key);
    SkipsPlain(m.before);
    SkipsPlain(m.after);
    SkipsPlain(":");
    SkipsString(m.key);
    SkipsElement(m.element);
    SkipsBoth(m.before, PrintString(m.key));
    SkipsBoth(head, m.after);
    SkipsBoth(head + m.after, ":");
    SkipsBoth(head + m.after + ":", PrintElement(m.element));
  }

  lemma {:induction false} SkipsMembers(members: seq<Member>)
    requires members != [] && ValidMembers(members)
    ensures Skips(PrintMembers(members))
    decreases members, 0
  {
    hide Skips, Scan;
    SkipsMember(members[0]);
    if |members| > 1 {
      SkipsPlain(",");
      SkipsMembers(members[1..]);
      SkipsBoth(PrintMember(members[0]), ",");
      SkipsBoth(PrintMember(members[0]) + ",", PrintMembers(members[1..]));
    }
  }

  // ----- round trips -----

  /**
   * An object printed anywhere in a reply is found again exactly, whatever
   * braces, quotes and escapes its strings contain, as long as no brace
   * precedes it and the reply has no fenced block, opened fences or not.
   */
  lemma BareRoundTrip(pre: string, v: Json, post: string)
    requires v.Object? && Valid(v)
    requires '{' !in pre
    requires forall block :: !IsBlock(pre + Print(v) + post, block)
    ensures Extracted(pre + Print(v) + post) == Some(Print(v))
  {
    hide Scan, Skips, Valid, Find, IsBlock, Extracted;
    var text := pre + Print(v) + post;
    ExtractedExactlyWhen(text);
    var inside := Inside(v.space, v.members);
    assert Valid(v) && ValidMembers(v.members) && JsonSpace(v.space) by {
      ValidObject(v);
    }
    SkipsInside(v.space, v.members);
    assert Print(v) == "{" + inside + "}";
    assert text[|pre|] == '{';
    forall j: nat | j < |pre|
      ensures !OccursAt(text, "{", j)
    {
      assert text[j] == pre[j] && pre[j] in pre;
      OccursOne(text, '{', j);
    }
    OccursOne(text, '{', |pre|);
    FindIs(text, "{", 0, |pre|);
    assert text[|pre|..] == "{" + inside + "}" + post;
    OverBraces(inside, post, 0);
    assert text[|pre|..|pre| + |Print(v)|] == Print(v);
  }

  lemma ValidObject(v: Json)
    requires v.Object? && Valid(v)
    ensures JsonSpace(v.space) && ValidMembers(v.members)
  {
  }

  /** Without a fence, extraction never looks past the first brace of the reply. */
  lemma BareStartsAtFirstBrace(text: string)
    requires Find(text, FENCE, 0).None? && Extracted(text).Some?
    ensures var r := Extracted(text).value;
            exists k: nat :: k + |r| <= |text| && text[k..k + |r|] == r && '{' !in text[..k] && StartsWith(r, '{')
                             && r[|r| - 1] == '}'
  {
    var start := Find(text, "{", 0).value;
    var r := Extracted(text).value;
    assert text[start..start + |r|] == r;
    OccursOne(text, '{', start);
    assert '{' !in text[..start] by {
      forall j | 0 <= j < start
        ensures text[j] != '{'
      {
        OccursOne(text, '{', j);
      }
    }
    ScanEndsAtBrace(text[start..], Outside(0));
    assert text[start..][|r| - 1] == r[|r| - 1];
  }

  lemma {:induction false} ScanEndsAtBrace(s: string, st: ScanState)
    requires Scan(s, st).Some?
    ensures s[Scan(s, st).value] == '}'
    decreases |s|
  {
    if !Closes(st, s[0]) {
      ScanEndsAtBrace(s[1..], Step(st, s[0]));
    }
  }

  lemma {:induction false} PrintIsTight(v: Json)
    requires v.Object? || v.Array?
    ensures Tight(Print(v)) && (StartsWith(Print(v), '{') || StartsWith(Print(v), '['))
    ensures Print(v)[|Print(v)| - 1] in "}]"
  {
  }

  /**
   * An object or array printed in the first fenced block is found again
   * exactly, without the white space around it, if it contains no fence mark.
   */
  lemma FencedRoundTrip(pre: string, before: string, v: Json, after: string, post: string)
    requires v.Object? || v.Array?
    requires AllSpace(before) && AllSpace(after)
    requires FirstAt(pre + "```json", "```json", 0, |pre|)
    requires Find(Print(v), "```", 0).None?
    ensures Extracted(pre + "```json" + before + Print(v) + after + "```" + post) == Some(Print(v))
  {
    hide Print, Find, Trim, AllSpace, Bare, Tight, StartsWith;
    var text := pre + FENCE + before + Print(v) + after + FENCE_END + post;
    var block := before + Print(v) + after;
    var afterStart := block + FENCE_END + post;
    assert text == pre + FENCE + afterStart;
    FirstHasNoneBefore(pre);
    FenceFound(pre, afterStart);
    assert text[|pre| + |FENCE|..] == afterStart;
    BlockEndFound(before, Print(v), after, post, v);
    assert afterStart[..|block|] == block;
    PrintIsTight(v);
    TrimPadded(before, Print(v), after);
  }

  lemma FirstHasNoneBefore(pre: string)
    requires FirstAt(pre + "```json", "```json", 0, |pre|)
    ensures forall j: nat :: j < |pre| ==> !OccursAt(pre + FENCE, FENCE, j)
  {
    hide OccursAt;
  }

  lemma FenceFound(pre: string, rest: string)
    requires forall j: nat :: j < |pre| ==> !OccursAt(pre + FENCE, FENCE, j)
    ensures Find(pre + FENCE + rest, FENCE, 0) == Some(|pre|)
  {
    var text := pre + FENCE + rest;
    assert text[|pre|..|pre| + |FENCE|] == FENCE;
    forall j: nat | j < |pre|
      ensures !OccursAt(text, FENCE, j)
    {
      assert !OccursAt(pre + FENCE, FENCE, j);
      assert text[j..j + |FENCE|] == (pre + FENCE)[j..j + |FENCE|];
    }
    FindIs(text, FENCE, 0, |pre|);
  }

  lemma BlockEndFound(before: string, body: string, after: string, post: string, v: Json)
    requires body == Print(v) && (v.Object? || v.Array?)
    requires AllSpace(before) && AllSpace(after)
    requires Find(body, FENCE_END, 0).None?
    ensures Find(before + body + after + FENCE_END + post, FENCE_END, 0) == Some(|before + body + after|)
  {
    hide Print, Find;
    var block := before + body + after;
    var s := block + FENCE_END + post;
    PrintIsTight(v);
    assert s[|block|..|block| + 3] == FENCE_END;
    forall j: nat | j < |block|
      ensures !OccursAt(s, FENCE_END, j)
    {
      assert s == block + (FENCE_END + post);
      TicksInValue(before, body, after, FENCE_END + post, j);
    }
    FindIs(s, FENCE_END, 0, |block|);
  }

  /** A fence mark that starts inside the block lies inside the printed value. */
  lemma TicksInValue(before: string, body: string, after: string, rest: string, j: nat)
    requires AllSpace(before) && AllSpace(after) && j < |before + body + after|
    requires body != "" && body[|body| - 1] != '`'
    ensures OccursAt(before + body + after + rest, FENCE_END, j) ==>
      j >= |before| && OccursAt(body, FENCE_END, j - |before|)
  {
    var s := before + body + after + rest;
    if OccursAt(s, FENCE_END, j) {
      assert forall k :: 0 <= k < 3 ==> s[j..j + 3][k] == FENCE_END[k];
      assert s[j] == '`' && s[j + 1] == '`' && s[j + 2] == '`';
      NoTickInSpace(before, body, after, rest, j);
      assert s[|before| + |body| - 1] == body[|body| - 1];
      assert j + 2 < |before| + |body|;
      assert body[j - |before|..j - |before| + 3] == s[j..j + 3];
    }
  }

  /** A tick inside the block lies strictly inside the printed value. */
  lemma NoTickInSpace(before: string, body: string, after: string, rest: string, j: nat)
    requires AllSpace(before) && AllSpace(after) && j < |before + body + after|
    ensures (before + body + after + rest)[j] == '`' ==> |before| <= j < |before| + |body|
  {
    var s := before + body + after + rest;
    if j < |before| {
      assert s[j] == before[j] && IsSpace(before[j]);
    } else if j >= |before| + |body| {
      assert s[j] == after[j - |before| - |body|] && IsSpace(after[j - |before| - |body|]);
    }
  }
}
