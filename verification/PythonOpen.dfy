/**
 * Classification of Python `open` calls in a command line: read-only, or
 * possibly a mutation.
 */
module PythonOpen {
  import opened Options
  import opened Text
  import opened PythonCalls

  datatype OpenEffect = NoOpen | ReadOnly | MutationOrUnknown

  datatype Signature = FileThenMode | ModeFirst | UnknownMethod

  // ----- string literals and modes -----

  predicate IsLetter(c: char) {
    'a' <= c <= 'z' || 'A' <= c <= 'Z'
  }

  predicate IsPrefixLetter(c: char) {
    c in "rubRUB"
  }

  function LetterCount(s: string): (n: nat)
    ensures n <= |s| && (forall i :: 0 <= i < n ==> IsLetter(s[i])) && (n < |s| ==> !IsLetter(s[n]))
  {
    if s != "" && IsLetter(s[0]) then 1 + LetterCount(s[1..]) else 0
  }

  /** The content between `from` and the first terminator, if that ends the expression. */
  function LiteralBody(e: string, from: nat, terminator: string): Option<string> {
    var end := Find(e, terminator, from);
    if end.None? then None
    else
      var body := e[from..end.value];
      if Trim(e[end.value + |terminator|..]) == "" && '\\' !in body then Some(body) else None
  }

  /** The content of a simple string literal; escapes and interpolating prefixes give nothing. */
  function StringLiteral(expression: string): Option<string> {
    var e := Trim(expression);
    var n := LetterCount(e);
    if exists i :: 0 <= i < n && !IsPrefixLetter(e[i]) then None
    else if n < |e| && IsQuote(e[n]) then LiteralBody(e, n + 1, [e[n]])
    else if n + 1 < |e| && e[n] == '\\' && IsQuote(e[n + 1]) then LiteralBody(e, n + 2, ['\\', e[n + 1]])
    else None
  }

  predicate IsReadModeChar(c: char) {
    c in "rbtRBT"
  }

  /** A literal mode that can only read. */
  predicate ReadMode(expression: string) {
    var mode := StringLiteral(expression);
    && mode.Some?
    && ('r' in mode.value || 'R' in mode.value)
    && forall i :: 0 <= i < |mode.value| ==> IsReadModeChar(mode.value[i])
  }

  /** `text` is a literal with content `body`: optional r, u or b prefixes and matching (shell-escaped) quotes. */
  ghost predicate IsLiteralText(text: string, body: string) {
    exists prefix: string, q: char ::
      && (q == '\'' || q == '"') && '\\' !in body
      && (forall i :: 0 <= i < |prefix| ==> prefix[i] in {'r', 'R', 'u', 'U', 'b', 'B'})
      && (   (q !in body && text == prefix + [q] + body + [q])
          || text == prefix + ['\\', q] + body + ['\\', q])
  }

  lemma TrimmedIsTight(s: string)
    ensures Tight(Trim(s))
  {
    TrimStartTight(s);
    TrimEndTight(TrimStart(s));
  }

  lemma {:induction false} TrimStartTight(s: string)
    ensures var r := TrimStart(s); r == "" || !IsSpace(r[0])
  {
    if s != "" && IsSpace(s[0]) {
      TrimStartTight(s[1..]);
    }
  }

  lemma {:induction false} TrimEndTight(s: string)
    requires s == "" || !IsSpace(s[0])
    ensures Tight(TrimEnd(s))
  {
    if s != "" && IsSpace(s[|s| - 1]) {
      TrimEndTight(s[..|s| - 1]);
    }
  }

  lemma {:induction false} BlankTrim(s: string)
    requires Trim(s) == ""
    ensures AllSpace(s)
  {
    BlankTrimStart(s);
    BlankTrimEnd(TrimStart(s));
  }

  lemma {:induction false} BlankTrimEnd(s: string)
    requires TrimEnd(s) == ""
    ensures AllSpace(s)
  {
    if s != "" {
      BlankTrimEnd(s[..|s| - 1]);
      assert s == s[..|s| - 1] + [s[|s| - 1]];
    }
  }

  lemma {:induction false} BlankTrimStart(s: string)
    ensures AllSpace(TrimStart(s)) ==> AllSpace(s)
  {
    if s != "" && IsSpace(s[0]) {
      BlankTrimStart(s[1..]);
      assert s == [s[0]] + s[1..];
    }
  }

  lemma {:induction false} LetterCountIs(prefix: string, rest: string)
    requires forall i :: 0 <= i < |prefix| ==> IsPrefixLetter(prefix[i])
    requires rest != "" && !IsLetter(rest[0])
    ensures LetterCount(prefix + rest) == |prefix|
  {
    if prefix == "" {
      assert prefix + rest == rest;
    } else {
      assert (prefix + rest)[1..] == prefix[1..] + rest;
      LetterCountIs(prefix[1..], rest);
    }
  }

  /** A terminator that the body cannot contain is found right behind the body. */
  lemma BodyFound(head: string, body: string, terminator: string)
    requires '\\' !in body
    requires (|terminator| == 1 && terminator[0] !in body) || (|terminator| == 2 && terminator[0] == '\\')
    ensures LiteralBody(head + body + terminator, |head|, terminator) == Some(body)
  {
    hide Trim;
    var e := head + body + terminator;
    var end := |head| + |body|;
    assert e[end..end + |terminator|] == terminator;
    forall j: nat | |head| <= j < end
      ensures !OccursAt(e, terminator, j)
    {
      assert e[j] == body[j - |head|] && body[j - |head|] in body;
      OccursHead(e, terminator, j);
    }
    FindIs(e, terminator, |head|, end);
    assert e[|head|..end] == body;
    assert e[end + |terminator|..] == "";
    TrimPadded("", "", "");
    assert "" + "" + "" == "";
  }

  /** Prefix letters and an opening mark are read off the front. */
  lemma MarkedHead(prefix: string, mark: string, q: char, tail: string)
    requires IsQuote(q) && (mark == [q] || mark == ['\\', q])
    requires forall i :: 0 <= i < |prefix| ==> IsPrefixLetter(prefix[i])
    ensures var e := prefix + (mark + tail);
            && LetterCount(e) == |prefix|
            && (forall i :: 0 <= i < |prefix| ==> IsPrefixLetter(e[i]))
            && !IsSpace(e[0])
            && e[|prefix|] == mark[0] && (|mark| == 2 ==> e[|prefix| + 1] == q)
  {
    var e := prefix + (mark + tail);
    LetterCountIs(prefix, mark + tail);
    assert forall i :: 0 <= i < |prefix| ==> e[i] == prefix[i];
    assert e[|prefix|] == mark[0];
    assert |mark| == 2 ==> e[|prefix| + 1] == mark[1];
  }

  lemma MarkedLiteral(prefix: string, mark: string, q: char, body: string)
    requires IsQuote(q) && '\\' !in body
    requires (mark == [q] && q !in body) || mark == ['\\', q]
    requires forall i :: 0 <= i < |prefix| ==> IsPrefixLetter(prefix[i])
    ensures StringLiteral(prefix + mark + body + mark) == Some(body)
  {
    hide Trim, LiteralBody, LetterCount;
    var text := prefix + mark + body + mark;
    assert text == prefix + (mark + (body + mark));
    MarkedHead(prefix, mark, q, body + mark);
    assert text[|text| - 1] == mark[|mark| - 1] == q;
    TrimPadded("", text, "");
    assert "" + text + "" == text;
    BodyFound(prefix + mark, body, mark);
    assert |mark| == 2 ==> mark == ['\\', text[|prefix| + 1]];
  }

  lemma LiteralTextParses(text: string, body: string)
    requires IsLiteralText(text, body)
    ensures StringLiteral(text) == Some(body)
  {
    hide StringLiteral;
    var prefix, q :|
      && (q == '\'' || q == '"') && '\\' !in body
      && (forall i :: 0 <= i < |prefix| ==> prefix[i] in {'r', 'R', 'u', 'U', 'b', 'B'})
      && (   (q !in body && text == prefix + [q] + body + [q])
          || text == prefix + ['\\', q] + body + ['\\', q]);
    if text == prefix + ['\\', q] + body + ['\\', q] {
      MarkedLiteral(prefix, ['\\', q], q, body);
    } else {
      MarkedLiteral(prefix, [q], q, body);
    }
  }

  lemma BodyMeans(e: string, head: string, terminator: string, body: string)
    requires Tight(e) && |head| <= |e| && e[..|head|] == head
    requires LiteralBody(e, |head|, terminator) == Some(body)
    ensures e == head + body + terminator && '\\' !in body
    ensures |terminator| == 1 ==> terminator[0] !in body
  {
    hide Trim;
    var end := Find(e, terminator, |head|).value;
    var tail := e[end + |terminator|..];
    BlankTrim(tail);
    TightTail(e, end + |terminator|);
    assert e == e[..|head|] + e[|head|..end] + e[end..end + |terminator|] + tail;
    if |terminator| == 1 {
      forall i | 0 <= i < |body|
        ensures body[i] != terminator[0]
      {
        assert !OccursAt(e, terminator, |head| + i);
        assert body[i] == e[|head| + i];
        OccursOne(e, terminator[0], |head| + i);
        assert [terminator[0]] == terminator;
      }
    }
  }

  lemma ParsedIsLiteralText(expression: string, body: string)
    requires StringLiteral(expression) == Some(body)
    ensures IsLiteralText(Trim(expression), body)
  {
    hide Trim, LiteralBody, LetterCount;
    var e := Trim(expression);
    TrimmedIsTight(expression);
    var n := LetterCount(e);
    var prefix := e[..n];
    assert forall i :: 0 <= i < n ==> IsPrefixLetter(prefix[i]);
    if n < |e| && IsQuote(e[n]) {
      var q := e[n];
      assert e[..n + 1] == prefix + [q];
      BodyMeans(e, prefix + [q], [q], body);
    } else {
      var q := e[n + 1];
      assert e[..n + 2] == prefix + ['\\', q];
      BodyMeans(e, prefix + ['\\', q], ['\\', q], body);
    }
  }

  /** The literal parser accepts exactly the literal texts, up to surrounding white space. */
  lemma StringLiteralExact(expression: string, body: string)
    ensures StringLiteral(expression) == Some(body) <==> IsLiteralText(Trim(expression), body)
  {
    hide Trim, StringLiteral, IsLiteralText;
    if StringLiteral(expression) == Some(body) {
      ParsedIsLiteralText(expression, body);
    }
    if IsLiteralText(Trim(expression), body) {
      LiteralTextParses(Trim(expression), body);
      TrimTwice(expression);
      SameLiteral(expression, Trim(expression));
    }
  }

  lemma TrimTwice(s: string)
    ensures Trim(Trim(s)) == Trim(s)
  {
    hide Trim;
    TrimmedIsTight(s);
    TrimPadded("", Trim(s), "");
    assert "" + Trim(s) + "" == Trim(s);
  }

  lemma SameLiteral(s: string, t: string)
    requires Trim(s) == Trim(t)
    ensures StringLiteral(s) == StringLiteral(t)
  {
  }

  // ----- which modes read -----

  /** Some `r`, and nothing but `r`, `b` and `t`, in either case. */
  predicate ReadingBody(body: string) {
    && (exists i :: 0 <= i < |body| && (body[i] == 'r' || body[i] == 'R'))
    && forall i :: 0 <= i < |body| ==>
         || body[i] == 'r' || body[i] == 'R' || body[i] == 'b' || body[i] == 'B' || body[i] == 't' || body[i] == 'T'
  }

  /** A letter or sign that asks to write, append, create or update. */
  predicate AsksToWrite(c: char) {
    c == 'w' || c == 'W' || c == 'a' || c == 'A' || c == 'x' || c == 'X' || c == '+'
  }

  /** The text is a literal whose content can only read. */
  ghost predicate ReadingText(text: string) {
    exists body :: IsLiteralText(Trim(text), body) && ReadingBody(body)
  }

  /** A mode reads exactly when it is a literal of `r`, `b` and `t` with at least one `r`. */
  lemma ReadModeExactlyWhen(expression: string)
    ensures ReadMode(expression) <==> ReadingText(expression)
  {
    hide StringLiteral, IsLiteralText, Trim;
    forall body
      ensures StringLiteral(expression) == Some(body) <==> IsLiteralText(Trim(expression), body)
    {
      StringLiteralExact(expression, body);
    }
    forall body: string
      ensures ReadingBody(body)
              <==> ('r' in body || 'R' in body) && forall i :: 0 <= i < |body| ==> IsReadModeChar(body[i])
    {
    }
  }

  /** A literal that asks to write anywhere is no read mode. */
  lemma WritingTextIsNoRead(expression: string, body: string, k: nat)
    requires k < |body| && AsksToWrite(body[k]) && IsLiteralText(Trim(expression), body)
    ensures !ReadMode(expression)
  {
    hide StringLiteral, IsLiteralText, Trim;
    ReadModeExactlyWhen(expression);
    StringLiteralExact(expression, body);
    forall other | IsLiteralText(Trim(expression), other)
      ensures other == body
    {
      StringLiteralExact(expression, other);
    }
  }

  // ----- arguments -----

  predicate IsWordChar(c: char) {
    IsLetter(c) || '0' <= c <= '9' || c == '_'
  }

  function WordLength(s: string): (n: nat)
    ensures n <= |s|
  {
    if s != "" && IsWordChar(s[0]) then 1 + WordLength(s[1..]) else 0
  }

  /** The name and value of `name=value`; a comparison `name==value` is not one. */
  function KeywordArgument(argument: string): Option<(string, string)> {
    var n := WordLength(argument);
    if n == 0 then None
    else
      var remainder := TrimStart(argument[n..]);
      if !StartsWith(remainder, '=') || StartsWith(remainder[1..], '=') then None
      else Some((argument[..n], Trim(remainder[1..])))
  }

  /** `text` is `name = value` with any white space around the sign and the value, and no second sign right behind it. */
  ghost predicate IsKeywordText(text: string, name: string, value: string) {
    && name != "" && Tight(value)
    && (forall i :: 0 <= i < |name| ==>
          'a' <= name[i] <= 'z' || 'A' <= name[i] <= 'Z' || '0' <= name[i] <= '9' || name[i] == '_')
    && exists before, between, after ::
         && AllSpace(before) && AllSpace(between) && AllSpace(after)
         && text == name + (before + ("=" + (between + value + after)))
         && !StartsWith(between + value + after, '=')
  }

  lemma {:induction false} WordLengthIs(word: string, rest: string)
    requires forall i :: 0 <= i < |word| ==> IsWordChar(word[i])
    requires rest != "" ==> !IsWordChar(rest[0])
    ensures WordLength(word + rest) == |word|
  {
    if word == "" {
      assert word + rest == rest;
    } else {
      assert (word + rest)[1..] == word[1..] + rest;
      WordLengthIs(word[1..], rest);
    }
  }

  lemma {:induction false} WordIsAWord(s: string)
    ensures forall i :: 0 <= i < WordLength(s) ==> IsWordChar(s[i])
  {
    if s != "" && IsWordChar(s[0]) {
      WordIsAWord(s[1..]);
    }
  }

  lemma {:induction false} TrimStartSplits(s: string) returns (before: string)
    ensures AllSpace(before) && s == before + TrimStart(s)
  {
    if s != "" && IsSpace(s[0]) {
      before := TrimStartSplits(s[1..]);
      var head, rest := [s[0]], TrimStart(s[1..]);
      hide TrimStart;
      assert s == head + s[1..];
      Regroup(head, before, rest);
      before := head + before;
    } else {
      before := "";
    }
  }

  lemma {:induction false} TrimEndSplits(s: string) returns (after: string)
    ensures AllSpace(after) && s == TrimEnd(s) + after
  {
    if s != "" && IsSpace(s[|s| - 1]) {
      after := TrimEndSplits(s[..|s| - 1]);
      assert s == s[..|s| - 1] + [s[|s| - 1]];
      after := after + [s[|s| - 1]];
    } else {
      after := "";
    }
  }

  lemma TrimSplits(s: string) returns (before: string, after: string)
    ensures AllSpace(before) && AllSpace(after) && s == before + Trim(s) + after && Tight(Trim(s))
  {
    hide TrimStart, TrimEnd, Tight;
    before := TrimStartSplits(s);
    after := TrimEndSplits(TrimStart(s));
    TrimmedIsTight(s);
  }

  lemma KeywordTextParses(text: string, name: string, value: string)
    ensures IsKeywordText(text, name, value) ==> KeywordArgument(text) == Some((name, value))
  {
    hide Trim, TrimStart, WordLength, Tight;
    if IsKeywordText(text, name, value) {
      var before, between, after :|
        && AllSpace(before) && AllSpace(between) && AllSpace(after)
        && text == name + (before + ("=" + (between + value + after)))
        && !StartsWith(between + value + after, '=');
      var tail := between + value + after;
      assert before != "" ==> IsSpace(before[0]);
      WordLengthIs(name, before + ("=" + tail));
      assert text[..|name|] == name && text[|name|..] == before + ("=" + tail);
      TrimStartSpaces(before, "=" + tail);
      assert ("=" + tail)[1..] == tail;
      TrimPadded(between, value, after);
    }
  }

  lemma ParsedIsKeywordText(text: string)
    requires KeywordArgument(text).Some?
    ensures IsKeywordText(text, KeywordArgument(text).value.0, KeywordArgument(text).value.1)
  {
    hide Trim, TrimStart, WordLength, Tight;
    var n := WordLength(text);
    WordIsAWord(text);
    var before := TrimStartSplits(text[n..]);
    var remainder := TrimStart(text[n..]);
    var between, after := TrimSplits(remainder[1..]);
    assert remainder == "=" + remainder[1..];
    assert text == text[..n] + (before + ("=" + (between + Trim(remainder[1..]) + after)));
  }

  /** The keyword parser accepts exactly the texts `name = value` and gives back both parts. */
  lemma KeywordArgumentExact(text: string, name: string, value: string)
    ensures KeywordArgument(text) == Some((name, value)) <==> IsKeywordText(text, name, value)
  {
    hide KeywordArgument, IsKeywordText;
    if KeywordArgument(text) == Some((name, value)) {
      ParsedIsKeywordText(text);
    }
    KeywordTextParses(text, name, value);
  }

  predicate IsKeyword(argument: string) {
    KeywordArgument(Trim(argument)).Some?
  }

  predicate IsModeKeyword(argument: string) {
    IsKeyword(argument) && KeywordArgument(Trim(argument)).value.0 == "mode"
  }

  predicate IsCustomOpener(argument: string) {
    && IsKeyword(argument)
    && KeywordArgument(Trim(argument)).value.0 == "opener"
    && KeywordArgument(Trim(argument)).value.1 != "None"
  }

  predicate IsExpansion(argument: string) {
    StartsWith(Trim(argument), '*')
  }

  function ModeIndex(signature: Signature): nat {
    if signature == FileThenMode then 1 else 0
  }

  /** The number of arguments before the first keyword. */
  function PositionalCount(arguments: seq<string>): (n: nat)
    ensures n <= |arguments| && (forall i :: 0 <= i < n ==> !IsKeyword(arguments[i]))
    ensures n < |arguments| ==> IsKeyword(arguments[n])
  {
    if arguments != [] && !IsKeyword(arguments[0]) then 1 + PositionalCount(arguments[1..]) else 0
  }

  /**
   * The call can only read: no `*` expansion, no custom opener, keywords last,
   * at most one mode keyword, and the mode absent or a read literal given once.
   */
  ghost predicate OnlyReads(arguments: seq<string>, signature: Signature) {
    && signature != UnknownMethod
    && (forall i :: 0 <= i < |arguments| ==> !IsExpansion(arguments[i]) && !IsCustomOpener(arguments[i]))
    && (forall i, j :: 0 <= i < j < |arguments| && IsKeyword(arguments[i]) ==> IsKeyword(arguments[j]))
    && (forall i, j :: 0 <= i < j < |arguments| ==> !(IsModeKeyword(arguments[i]) && IsModeKeyword(arguments[j])))
    && (forall i :: 0 <= i < |arguments| && IsModeKeyword(arguments[i]) ==>
          PositionalCount(arguments) <= ModeIndex(signature)
          && ReadMode(KeywordArgument(Trim(arguments[i])).value.1))
    && (PositionalCount(arguments) > ModeIndex(signature) ==> ReadMode(Trim(arguments[ModeIndex(signature)])))
  }

  lemma {:induction false} PositionalCountIs(arguments: seq<string>, n: nat)
    requires n <= |arguments| && (forall i :: 0 <= i < n ==> !IsKeyword(arguments[i]))
    requires n < |arguments| ==> IsKeyword(arguments[n])
    ensures PositionalCount(arguments) == n
  {
    hide IsKeyword;
    if n > 0 {
      PositionalCountIs(arguments[1..], n - 1);
    }
  }

  function ModeEffect(expression: string): OpenEffect {
    if ReadMode(expression) then ReadOnly else MutationOrUnknown
  }

  method ClassifyPythonOpenArguments(arguments: seq<string>, signature: Signature) returns (effect: OpenEffect)
    ensures effect == if OnlyReads(arguments, signature) then ReadOnly else MutationOrUnknown
  {
    hide IsExpansion, IsCustomOpener, ReadMode, KeywordArgument, Trim;
    if signature == UnknownMethod {
      return MutationOrUnknown;
    }
    var modeIndex := ModeIndex(signature);
    var positional: seq<string> := [];
    var keywordMode: Option<string> := None;
    var sawKeyword := false;
    ghost var modeAt := 0;
    for i := 0 to |arguments|
      invariant |positional| <= i && (!sawKeyword ==> |positional| == i)
      invariant sawKeyword ==> |positional| < i && IsKeyword(arguments[|positional|])
      invariant forall k :: 0 <= k < |positional| ==>
        !IsKeyword(arguments[k]) && positional[k] == Trim(arguments[k])
      invariant forall k :: |positional| <= k < i ==> IsKeyword(arguments[k])
      invariant forall k :: 0 <= k < i ==> !IsExpansion(arguments[k]) && !IsCustomOpener(arguments[k])
      invariant keywordMode.Some? ==>
        modeAt < i && IsModeKeyword(arguments[modeAt])
        && keywordMode.value == KeywordArgument(Trim(arguments[modeAt])).value.1
      invariant forall k :: 0 <= k < i && IsModeKeyword(arguments[k]) ==> keywordMode.Some? && k == modeAt
    {
      var argument := Trim(arguments[i]);
      if IsExpansion(arguments[i]) {
        return MutationOrUnknown;
      }
      var keyword := KeywordArgument(argument);
      if keyword.Some? {
        sawKeyword := true;
        if keyword.value.0 == "mode" {
          if keywordMode.Some? {
            assert IsModeKeyword(arguments[modeAt]) && IsModeKeyword(arguments[i]);
            return MutationOrUnknown;
          }
          keywordMode := Some(keyword.value.1);
          modeAt := i;
        } else if IsCustomOpener(arguments[i]) {
          return MutationOrUnknown;
        }
        assert !IsCustomOpener(arguments[i]) by {
          NotBoth(arguments[i]);
        }
      } else {
        if sawKeyword {
          assert IsKeyword(arguments[|positional|]) && !IsKeyword(arguments[i]);
          return MutationOrUnknown;
        }
        NoOpenerWithoutKeyword(arguments[i]);
        positional := positional + [argument];
      }
    }
    PositionalCountIs(arguments, |positional|);
    if keywordMode.Some? {
      if |positional| > modeIndex {
        return MutationOrUnknown;
      }
      return ModeEffect(keywordMode.value);
    }
    effect := if modeIndex < |positional| then ModeEffect(positional[modeIndex]) else ReadOnly;
  }

  lemma NotBoth(argument: string)
    ensures IsModeKeyword(argument) ==> !IsCustomOpener(argument)
  {
  }

  lemma NoOpenerWithoutKeyword(argument: string)
    ensures !IsKeyword(argument) ==> !IsCustomOpener(argument) && !IsModeKeyword(argument)
  {
  }

  // ----- occurrences -----

  /** An ASCII word character or any non-ASCII one. */
  predicate IsIdentifierChar(c: char) {
    IsWordChar(c) || c as int >= 128
  }

  predicate IsAsciiSpace(c: char) {
    c == ' ' || c == '\t' || c == '\n' || c as int == 12 || c == '\r'
  }

  function SkipSpace(s: string, from: nat): (r: nat)
    ensures from <= r
    decreases |s| - from
  {
    if from < |s| && IsAsciiSpace(s[from]) then SkipSpace(s, from + 1) else from
  }

  function SkipSpaceBack(s: string, to: nat): (r: nat)
    requires to <= |s|
    ensures r <= to
  {
    if to > 0 && IsAsciiSpace(s[to - 1]) then SkipSpaceBack(s, to - 1) else to
  }

  function WordStart(s: string, to: nat): (r: nat)
    requires to <= |s|
    ensures r <= to
  {
    if to > 0 && IsIdentifierChar(s[to - 1]) then WordStart(s, to - 1) else to
  }

  /** `name` stands at `i` as a whole identifier and a parenthesis follows it. */
  predicate CallAt(s: string, name: string, i: nat) {
    && OccursAt(s, name, i)
    && (i > 0 ==> !IsIdentifierChar(s[i - 1]))
    && (i + |name| < |s| ==> !IsIdentifierChar(s[i + |name|]))
    && SkipSpace(s, i + |name|) < |s|
    && s[SkipSpace(s, i + |name|)] == '('
  }

  function ParenOf(s: string, name: string, i: nat): nat {
    SkipSpace(s, i + |name|)
  }

  /** A `Path(...)` call ends, up to white space, at `receiverEnd`. */
  predicate PathCallEndsAt(s: string, i: nat, receiverEnd: nat) {
    && i + 4 <= receiverEnd <= |s| && CallAt(s, "Path", i)
    && var call := ParseCall(s, ParenOf(s, "Path", i));
       call.Some? && call.value.1 <= receiverEnd
       && forall k :: call.value.1 <= k < receiverEnd ==> IsAsciiSpace(s[k])
  }

  predicate IsPathReceiver(s: string, receiverEnd: nat) {
    exists i :: 0 <= i < receiverEnd && PathCallEndsAt(s, i, receiverEnd)
  }

  /** How the `open` at `start` is called: plainly, on a module, on a path object, or on something else. */
  function SignatureAt(s: string, start: nat): Signature
    requires start <= |s|
  {
    var dot := SkipSpaceBack(s, start);
    if dot == 0 || s[dot - 1] != '.' then FileThenMode
    else
      var end := SkipSpaceBack(s, dot - 1);
      var receiver := s[WordStart(s, end)..end];
      if receiver == "io" || receiver == "builtins" then FileThenMode
      else if IsPathReceiver(s, end) then ModeFirst
      else UnknownMethod
  }

  /** A stretch of ASCII white space that nothing of the kind stands before. */
  predicate SpaceFrom(s: string, from: nat, to: nat)
    requires from <= to <= |s|
  {
    && (forall k :: from <= k < to ==> IsAsciiSpace(s[k]))
    && (from > 0 ==> !IsAsciiSpace(s[from - 1]))
  }

  /** A stretch of identifier characters that none stands before. */
  predicate WordFrom(s: string, from: nat, to: nat)
    requires from <= to <= |s|
  {
    && (forall k :: from <= k < to ==> IsIdentifierChar(s[k]))
    && (from > 0 ==> !IsIdentifierChar(s[from - 1]))
  }

  /** Up to white space, a dot stands before `start`; it ends at `dot`. */
  predicate DotBefore(s: string, start: nat, dot: nat)
    requires start <= |s|
  {
    0 < dot <= start && s[dot - 1] == '.' && SpaceFrom(s, dot, start)
  }

  /** What stands before the dot: it ends at `end`, and its last word starts at `from`. */
  predicate ReceiverAt(s: string, dot: nat, from: nat, end: nat)
    requires 0 < dot <= |s|
  {
    from <= end < dot && SpaceFrom(s, end, dot - 1) && WordFrom(s, from, end)
  }

  predicate IsModule(name: string) {
    name == "io" || name == "builtins"
  }

  lemma {:induction false} SpaceIsSkipped(s: string, to: nat)
    requires to <= |s|
    ensures SpaceFrom(s, SkipSpaceBack(s, to), to)
    ensures forall from :: 0 <= from <= to && SpaceFrom(s, from, to) ==> from == SkipSpaceBack(s, to)
  {
    if to > 0 && IsAsciiSpace(s[to - 1]) {
      SpaceIsSkipped(s, to - 1);
      forall from | 0 <= from <= to && SpaceFrom(s, from, to)
        ensures from == SkipSpaceBack(s, to)
      {
        assert from < to && SpaceFrom(s, from, to - 1);
      }
    }
  }

  lemma {:induction false} WordIsSkipped(s: string, to: nat)
    requires to <= |s|
    ensures WordFrom(s, WordStart(s, to), to)
    ensures forall from :: 0 <= from <= to && WordFrom(s, from, to) ==> from == WordStart(s, to)
  {
    if to > 0 && IsIdentifierChar(s[to - 1]) {
      WordIsSkipped(s, to - 1);
      forall from | 0 <= from <= to && WordFrom(s, from, to)
        ensures from == WordStart(s, to)
      {
        assert from < to && WordFrom(s, from, to - 1);
      }
    }
  }

  /** No dot stands before the call, or a module name stands before that dot. */
  ghost predicate CalledPlainly(s: string, start: nat)
    requires start <= |s|
  {
    || (forall dot :: 0 <= dot <= start ==> !DotBefore(s, start, dot))
    || exists dot, from, end ::
         && 0 <= dot <= start && DotBefore(s, start, dot)
         && 0 <= from <= end < dot && ReceiverAt(s, dot, from, end) && IsModule(s[from..end])
  }

  /** A path object stands before the dot before the call. */
  ghost predicate CalledOnPath(s: string, start: nat)
    requires start <= |s|
  {
    exists dot, from, end ::
      && 0 <= dot <= start && DotBefore(s, start, dot)
      && 0 <= from <= end < dot && ReceiverAt(s, dot, from, end)
      && !IsModule(s[from..end]) && IsPathReceiver(s, end)
  }

  /** The mode comes second in a plain call, first on a path object, and is unknown on anything else. */
  lemma SignatureExactlyWhen(s: string, start: nat)
    requires start <= |s|
    ensures SignatureAt(s, start) == FileThenMode <==> CalledPlainly(s, start)
    ensures SignatureAt(s, start) == ModeFirst <==> CalledOnPath(s, start)
  {
    hide IsPathReceiver, SpaceFrom, WordFrom, IsAsciiSpace, IsIdentifierChar;
    var dot := SkipSpaceBack(s, start);
    SpaceIsSkipped(s, start);
    assert forall d :: 0 <= d <= start && DotBefore(s, start, d) ==> d == dot;
    if dot > 0 && s[dot - 1] == '.' {
      var end := SkipSpaceBack(s, dot - 1);
      SpaceIsSkipped(s, dot - 1);
      WordIsSkipped(s, end);
      var from := WordStart(s, end);
      assert DotBefore(s, start, dot) && ReceiverAt(s, dot, from, end);
      assert forall f, e :: 0 <= f <= e < dot && ReceiverAt(s, dot, f, e) ==> f == from && e == end;
    }
  }

  /** The call at `i` parses and can only read. */
  ghost predicate SafeOpen(s: string, i: nat)
    requires CallAt(s, "open", i)
  {
    var call := ParseCall(s, ParenOf(s, "open", i));
    call.Some? && OnlyReads(call.value.0, SignatureAt(s, i))
  }

  /** The argument is a keyword argument, whatever its name. */
  ghost predicate IsNamed(argument: string) {
    exists name, value :: IsKeywordText(Trim(argument), name, value)
  }

  /** The argument names the mode. */
  ghost predicate IsMode(argument: string) {
    exists value :: IsKeywordText(Trim(argument), "mode", value)
  }

  ghost predicate ModeReads(argument: string) {
    forall value :: IsKeywordText(Trim(argument), "mode", value) ==> ReadingText(value)
  }

  /** The argument names an opener other than `None`. */
  ghost predicate OpensOtherwise(argument: string) {
    exists value :: IsKeywordText(Trim(argument), "opener", value) && value != "None"
  }

  /** The conditions on a call that can only read, on the texts of its arguments; the mode comes at `index`. */
  ghost predicate ReadingCall(arguments: seq<string>, index: nat) {
    && (forall i :: 0 <= i < |arguments| ==> !("*" <= Trim(arguments[i])))
    && (forall i :: 0 <= i < |arguments| ==> !OpensOtherwise(arguments[i]))
    && (forall i, j :: 0 <= i < j < |arguments| && IsNamed(arguments[i]) ==> IsNamed(arguments[j]))
    && (forall i, j :: 0 <= i < j < |arguments| ==> !(IsMode(arguments[i]) && IsMode(arguments[j])))
    && (forall i :: 0 <= i < |arguments| && IsMode(arguments[i]) ==>
          ModeReads(arguments[i]) && (index < |arguments| ==> IsNamed(arguments[index])))
    && (index < |arguments| ==> IsNamed(arguments[index]) || ReadingText(arguments[index]))
  }

  lemma KeywordsAreTexts(argument: string)
    ensures IsKeyword(argument) <==> IsNamed(argument)
    ensures IsModeKeyword(argument) <==> IsMode(argument)
    ensures IsCustomOpener(argument) <==> OpensOtherwise(argument)
    ensures IsModeKeyword(argument) ==>
      KeywordArgument(Trim(argument)).Some? && (ReadMode(KeywordArgument(Trim(argument)).value.1) <==> ModeReads(argument))
  {
    hide IsKeywordText, KeywordArgument, Trim, ReadMode, ReadingText;
    forall name, value
      ensures IsKeywordText(Trim(argument), name, value) <==> KeywordArgument(Trim(argument)) == Some((name, value))
    {
      KeywordArgumentExact(Trim(argument), name, value);
    }
    if IsKeyword(argument) {
      var (name, value) := KeywordArgument(Trim(argument)).value;
      assert IsKeywordText(Trim(argument), name, value);
      ReadModeExactlyWhen(value);
    }
  }

  lemma ReadsAfterTrim(argument: string)
    ensures ReadMode(Trim(argument)) <==> ReadingText(argument)
    ensures IsExpansion(argument) <==> "*" <= Trim(argument)
  {
    hide IsLiteralText, ReadMode, Trim;
    ReadModeExactlyWhen(Trim(argument));
    TrimTwice(argument);
  }

  /** Once keywords come last, the mode is given by position exactly when the argument there is no keyword. */
  lemma PositionIsNoKeyword(arguments: seq<string>, index: nat)
    requires forall i, j :: 0 <= i < j < |arguments| && IsKeyword(arguments[i]) ==> IsKeyword(arguments[j])
    ensures PositionalCount(arguments) > index <==> index < |arguments| && !IsKeyword(arguments[index])
  {
    hide IsKeyword, PositionalCount;
    var n := PositionalCount(arguments);
    assert n < |arguments| ==> IsKeyword(arguments[n]);
  }

  /** Only texts matter: a call can only read exactly when its arguments, as printed, meet the conditions. */
  lemma OnlyReadsExactlyWhen(arguments: seq<string>, signature: Signature)
    ensures OnlyReads(arguments, signature)
            <==> (signature == FileThenMode && ReadingCall(arguments, 1))
                 || (signature == ModeFirst && ReadingCall(arguments, 0))
  {
    hide IsKeywordText, KeywordArgument, Trim, ReadMode, ReadingText, IsExpansion, IsNamed, IsKeyword, IsModeKeyword,
         IsMode, IsCustomOpener, OpensOtherwise, ModeReads, PositionalCount;
    forall i | 0 <= i < |arguments|
      ensures IsKeyword(arguments[i]) <==> IsNamed(arguments[i])
      ensures IsModeKeyword(arguments[i]) <==> IsMode(arguments[i])
      ensures IsCustomOpener(arguments[i]) <==> OpensOtherwise(arguments[i])
      ensures IsModeKeyword(arguments[i]) ==>
        KeywordArgument(Trim(arguments[i])).Some?
        && (ReadMode(KeywordArgument(Trim(arguments[i])).value.1) <==> ModeReads(arguments[i]))
      ensures ReadMode(Trim(arguments[i])) <==> ReadingText(arguments[i])
      ensures IsExpansion(arguments[i]) <==> "*" <= Trim(arguments[i])
    {
      KeywordsAreTexts(arguments[i]);
      ReadsAfterTrim(arguments[i]);
    }
    if forall i, j :: 0 <= i < j < |arguments| && IsKeyword(arguments[i]) ==> IsKeyword(arguments[j]) {
      PositionIsNoKeyword(arguments, ModeIndex(signature));
    }
  }

  /** A call whose mode, by position or by name, is a literal that asks to write is not safe. */
  lemma WritingOpenIsUnsafe(source: string, i: nat, text: string, body: string, k: nat)
    requires CallAt(source, "open", i) && ParseCall(source, ParenOf(source, "open", i)).Some?
    requires var arguments := ParseCall(source, ParenOf(source, "open", i)).value.0;
             var index := if SignatureAt(source, i) == FileThenMode then 1 else 0;
             || (index < |arguments| && text == arguments[index] && !IsNamed(text))
             || exists n :: 0 <= n < |arguments| && IsKeywordText(Trim(arguments[n]), "mode", text)
    requires IsLiteralText(Trim(text), body) && k < |body| && AsksToWrite(body[k])
    ensures !SafeOpen(source, i)
  {
    hide IsKeywordText, ParseCall, Trim, ReadMode, ReadingText, IsNamed, IsLiteralText, AsksToWrite, OnlyReads,
         SignatureAt, ParenOf;
    var arguments := ParseCall(source, ParenOf(source, "open", i)).value.0;
    assert i <= |source| by {
      AtIsInside(source, "open", i);
    }
    OnlyReadsExactlyWhen(arguments, SignatureAt(source, i));
    WritingTextIsNoRead(text, body, k);
    ReadModeExactlyWhen(text);
    assert !ReadingText(text);
    forall n | 0 <= n < |arguments| && IsKeywordText(Trim(arguments[n]), "mode", text)
      ensures IsMode(arguments[n]) && !ModeReads(arguments[n])
    {
    }
  }

  /** A word whose first letter does not come back cannot overlap itself. */
  lemma NoOverlap(s: string, name: string, i: nat, j: nat)
    requires OccursAt(s, name, i) && i < j < i + |name|
    requires forall k :: 0 < k < |name| ==> name[k] != name[0]
    ensures !OccursAt(s, name, j)
  {
    OccursHead(s, name, j);
    assert s[j] == s[i..i + |name|][j - i];
  }

  /** The search loop skips no occurrence: what it passes over up to the end of a hit is not one. */
  lemma NothingSkipped(s: string, name: string, from: nat, j: nat)
    requires Find(s, name, from).Some?
    requires name == "open" || name == "Path"
    requires from <= j < Find(s, name, from).value + |name| && j != Find(s, name, from).value
    ensures !OccursAt(s, name, j)
  {
    hide Find;
    var first := Find(s, name, from).value;
    if j > first {
      NoOverlap(s, name, first, j);
    }
  }

  method ClassifyPythonOpenEffect(source: string) returns (effect: OpenEffect)
    ensures effect == NoOpen <==> forall i: nat :: !CallAt(source, "open", i)
    ensures effect == ReadOnly
            <==> && (exists i: nat :: CallAt(source, "open", i))
                 && forall i: nat :: CallAt(source, "open", i) ==> SafeOpen(source, i)
    ensures effect == MutationOrUnknown <==> exists i: nat :: CallAt(source, "open", i) && !SafeOpen(source, i)
  {
    hide Find, SkipSpace, ParseCall, OnlyReads, IsPathReceiver, OccursAt, SignatureAt;
    var searchFrom := 0;
    var foundRead := false;
    ghost var witnessAt: nat := 0;
    while searchFrom < |source|
      invariant forall i: nat :: i < searchFrom && CallAt(source, "open", i) ==> foundRead && SafeOpen(source, i)
      invariant foundRead ==> CallAt(source, "open", witnessAt)
      decreases |source| - searchFrom
    {
      var start := Find(source, "open", searchFrom);
      if start.None? {
        NoneFrom(source, "open", searchFrom);
        break;
      }
      var at := start.value;
      AtIsInside(source, "open", at);
      var afterName := at + 4;
      forall i: nat | searchFrom <= i < afterName && i != at
        ensures !CallAt(source, "open", i)
      {
        NothingSkipped(source, "open", searchFrom, i);
      }
      searchFrom := afterName;
      if (at > 0 && IsIdentifierChar(source[at - 1])) || (afterName < |source| && IsIdentifierChar(source[afterName])) {
        continue;
      }
      var openParen := SkipSpace(source, afterName);
      if openParen >= |source| || source[openParen] != '(' {
        continue;
      }
      assert CallAt(source, "open", at);
      var signature := PythonOpenSignature(source, at);
      var call := ParsePythonCallArguments(source, openParen);
      if call.None? {
        assert !SafeOpen(source, at);
        return MutationOrUnknown;
      }
      var verdict := ClassifyPythonOpenArguments(call.value.0, signature);
      match verdict {
        case MutationOrUnknown =>
          assert !SafeOpen(source, at);
          return MutationOrUnknown;
        case ReadOnly =>
          foundRead := true;
          witnessAt := at;
        case NoOpen =>
      }
    }
    if searchFrom >= |source| {
      NonePastEnd(source, "open", searchFrom);
    }
    assert forall i: nat :: CallAt(source, "open", i) ==> foundRead && SafeOpen(source, i);
    effect := if foundRead then ReadOnly else NoOpen;
  }

  lemma NoneFrom(s: string, name: string, from: nat)
    requires Find(s, name, from).None?
    ensures forall i: nat :: from <= i ==> !CallAt(s, name, i)
  {
  }

  lemma NonePastEnd(s: string, name: string, from: nat)
    requires from >= |s| && name != ""
    ensures forall i: nat :: from <= i ==> !CallAt(s, name, i)
  {
  }

  lemma AtIsInside(s: string, name: string, at: nat)
    requires OccursAt(s, name, at)
    ensures at + |name| <= |s|
  {
  }

  method PythonOpenSignature(source: string, openStart: nat) returns (signature: Signature)
    requires openStart <= |source|
    ensures signature == SignatureAt(source, openStart)
    ensures signature == FileThenMode <==> CalledPlainly(source, openStart)
    ensures signature == ModeFirst <==> CalledOnPath(source, openStart)
  {
    hide IsPathReceiver, CalledPlainly, CalledOnPath;
    SignatureExactlyWhen(source, openStart);
    var cursor := SkipSpaceBack(source, openStart);
    if cursor == 0 || source[cursor - 1] != '.' {
      return FileThenMode;
    }
    var receiverEnd := SkipSpaceBack(source, cursor - 1);
    var receiver := source[WordStart(source, receiverEnd)..receiverEnd];
    if receiver == "io" || receiver == "builtins" {
      return FileThenMode;
    }
    var isPath := IsPathConstructorReceiver(source, receiverEnd);
    signature := if isPath then ModeFirst else UnknownMethod;
  }

  method IsPathConstructorReceiver(source: string, receiverEnd: nat) returns (isPath: bool)
    requires receiverEnd <= |source|
    ensures isPath <==> IsPathReceiver(source, receiverEnd)
  {
    hide Find, SkipSpace, ParseCall, OccursAt;
    var searchFrom := 0;
    while searchFrom < receiverEnd
      invariant forall i: nat :: i < searchFrom ==> !PathCallEndsAt(source, i, receiverEnd)
      decreases receiverEnd - searchFrom
    {
      var start := Find(source, "Path", searchFrom);
      if start.None? {
        NoneFrom(source, "Path", searchFrom);
        return false;
      }
      var at := start.value;
      AtIsInside(source, "Path", at);
      forall i: nat | searchFrom <= i < at + 4 && i != at
        ensures !PathCallEndsAt(source, i, receiverEnd)
      {
        NothingSkipped(source, "Path", searchFrom, i);
      }
      if at + 4 > receiverEnd {
        forall i: nat | at <= i
          ensures !PathCallEndsAt(source, i, receiverEnd)
        {
        }
        return false;
      }
      searchFrom := at + 4;
      if CallAt(source, "Path", at) {
        var call := ParsePythonCallArguments(source, ParenOf(source, "Path", at));
        if call.Some? {
          var normalizedEnd := call.value.1;
          while normalizedEnd < receiverEnd && IsAsciiSpace(source[normalizedEnd])
            invariant call.value.1 <= normalizedEnd
            invariant call.value.1 <= receiverEnd ==> normalizedEnd <= receiverEnd
            invariant forall k :: call.value.1 <= k < normalizedEnd && k < |source| ==> IsAsciiSpace(source[k])
          {
            normalizedEnd := normalizedEnd + 1;
          }
          if normalizedEnd == receiverEnd {
            assert PathCallEndsAt(source, at, receiverEnd);
            return true;
          }
        }
      }
    }
    isPath := false;
  }

  // ----- what counts as a call -----

  /** `name` stands at `i`, no identifier character touches it, and after ASCII white space comes a parenthesis. */
  ghost predicate CallText(s: string, name: string, i: nat, paren: nat) {
    && i + |name| <= paren < |s| && s[i..i + |name|] == name
    && (i > 0 ==> !PartOfName(s[i - 1])) && !PartOfName(s[i + |name|])
    && (forall k :: i + |name| <= k < paren ==>
          s[k] == ' ' || s[k] == '\t' || s[k] == '\n' || s[k] == '\r' || s[k] as int == 12)
    && s[paren] == '('
  }

  predicate PartOfName(c: char) {
    'a' <= c <= 'z' || 'A' <= c <= 'Z' || '0' <= c <= '9' || c == '_' || c as int > 127
  }

  lemma {:induction false} SpaceUpTo(s: string, from: nat, end: nat)
    requires from <= end < |s| && !IsAsciiSpace(s[end])
    requires forall k :: from <= k < end ==> IsAsciiSpace(s[k])
    ensures SkipSpace(s, from) == end
    decreases |s| - from
  {
    if from < end {
      SpaceUpTo(s, from + 1, end);
    }
  }

  lemma {:induction false} SkippedIsSpace(s: string, from: nat)
    ensures from <= |s| ==> SkipSpace(s, from) <= |s|
    ensures forall k :: from <= k < SkipSpace(s, from) && k < |s| ==> IsAsciiSpace(s[k])
    decreases |s| - from
  {
    if from < |s| && IsAsciiSpace(s[from]) {
      SkippedIsSpace(s, from + 1);
    }
  }

  lemma PrintedIsCall(s: string, name: string, i: nat, paren: nat)
    ensures CallText(s, name, i, paren) ==> CallAt(s, name, i) && ParenOf(s, name, i) == paren
  {
    if CallText(s, name, i, paren) {
      SpaceUpTo(s, i + |name|, paren);
    }
  }

  lemma CallIsPrinted(s: string, name: string, i: nat)
    ensures CallAt(s, name, i) ==> CallText(s, name, i, ParenOf(s, name, i))
  {
    hide SkipSpace;
    SkippedIsSpace(s, i + |name|);
  }

  /** The scanner sees a call exactly where one is printed, and its parenthesis there. */
  lemma CallExactlyWhen(s: string, name: string, i: nat, paren: nat)
    ensures CallAt(s, name, i) && ParenOf(s, name, i) == paren <==> CallText(s, name, i, paren)
  {
    hide CallAt, CallText, ParenOf;
    PrintedIsCall(s, name, i, paren);
    CallIsPrinted(s, name, i);
  }
}
