/**
 * The splitter that reads the arguments of a Python call out of a command
 * line. It runs on characters; the original runs on bytes, where every
 * delimiter is a single ASCII byte.
 */
module PythonCalls {
  import opened Options
  import opened Text

  datatype Mode =
    | Code
    | InQuote(delimiter: char, shellEscaped: bool)
    | InComment

  datatype State = State(stack: string, mode: Mode)

  /** What the splitter does next, and how many characters that takes. */
  datatype Move =
    | Go(n: nat, state: State)
    | Cut
    | Finish
    | Mismatch

  predicate IsQuote(c: char) {
    c == '\'' || c == '"'
  }

  predicate IsOpener(c: char) {
    c == '(' || c == '[' || c == '{'
  }

  predicate IsCloser(c: char) {
    c == ')' || c == ']' || c == '}'
  }

  function CloserOf(opener: char): char {
    if opener == '(' then ')' else if opener == '[' then ']' else '}'
  }

  /** `c` is the next character and `next` the one after it, if any. */
  function MoveOn(c: char, next: Option<char>, st: State): (m: Move)
    requires st.stack != ""
    ensures m.Go? ==> 1 <= m.n <= 2 && m.state.stack != ""
  {
    match st.mode
    case InComment => Go(1, if c == '\n' then st.(mode := Code) else st)
    case InQuote(q, shell) =>
      if shell && c == '\\' && next == Some(q) then Go(2, st.(mode := Code))
      else if !shell && c == q then Go(1, st.(mode := Code))
      else Go(if c == '\\' then 2 else 1, st)
    case Code =>
      if c == '\\' && next.Some? && IsQuote(next.value) then Go(2, st.(mode := InQuote(next.value, true)))
      else if IsQuote(c) then Go(1, st.(mode := InQuote(c, false)))
      else if c == '#' then Go(1, st.(mode := InComment))
      else if IsOpener(c) then Go(1, st.(stack := st.stack + [CloserOf(c)]))
      else if IsCloser(c) then
        if st.stack[|st.stack| - 1] != c then Mismatch
        else if |st.stack| == 1 then Finish
        else Go(1, st.(stack := st.stack[..|st.stack| - 1]))
      else if c == ',' && |st.stack| == 1 then Cut
      else Go(1, st)
  }

  function NextOf(s: string): Option<char> {
    if |s| > 1 then Some(s[1]) else None
  }

  /** The arguments found, and how many characters up to and including the closing parenthesis. */
  datatype Parsed = Parsed(arguments: seq<string>, consumed: nat)

  function Later(n: nat, r: Option<Parsed>): Option<Parsed> {
    if r.Some? then Some(Parsed(r.value.arguments, n + r.value.consumed)) else None
  }

  /** Adds the argument that `current` holds, unless it is blank. */
  function WithArgument(arguments: seq<string>, current: string): seq<string> {
    if Trim(current) == "" then arguments else arguments + [Trim(current)]
  }

  /** Splits `s`, with `current` read of the argument at hand and `done` read before it. */
  function Split(s: string, st: State, current: string, done: seq<string>): (r: Option<Parsed>)
    requires st.stack != ""
    ensures r.Some? ==> r.value.consumed <= |s|
    decreases |s|
  {
    if s == "" then None
    else
      match MoveOn(s[0], NextOf(s), st)
      case Mismatch => None
      case Finish => Some(Parsed(WithArgument(done, current), 1))
      case Cut => Later(1, Split(s[1..], st, "", WithArgument(done, current)))
      case Go(n, next) => if n > |s| then None else Later(n, Split(s[n..], next, current + s[..n], done))
  }

  const Start := State(")", Code)

  /** The arguments of the call whose opening parenthesis is at `openParen`, and the index after the call. */
  function ParseCall(source: string, openParen: nat): Option<(seq<string>, nat)> {
    if openParen >= |source| then None
    else
      var r := Split(source[openParen + 1..], Start, "", []);
      if r.Some? then Some((r.value.arguments, openParen + 1 + r.value.consumed)) else None
  }

  // ----- the splitter itself -----

  method ParsePythonCallArguments(source: string, openParen: nat) returns (r: Option<(seq<string>, nat)>)
    ensures r == ParseCall(source, openParen)
  {
    hide Split, Trim;
    if openParen >= |source| {
      return None;
    }
    var delimiters := [')'];
    var quote: Option<(char, bool)> := None;
    var comment := false;
    var argumentStart := openParen + 1;
    var arguments: seq<string> := [];
    var cursor := argumentStart;
    ghost var whole := Split(source[cursor..], Start, "", []);
    LaterZero(whole);
    assert source[argumentStart..cursor] == "";

    while cursor < |source|
      invariant openParen + 1 <= argumentStart <= cursor <= |source| && delimiters != []
      invariant comment ==> quote.None?
      invariant whole == Later(cursor - openParen - 1,
                               Split(source[cursor..], StateOf(delimiters, quote, comment),
                                     source[argumentStart..cursor], arguments))
      decreases |source| - cursor
    {
      ghost var st := StateOf(delimiters, quote, comment);
      SplitStep(source, argumentStart, cursor, st, arguments, whole, openParen + 1);
      var byte := source[cursor];
      var next := if cursor + 1 < |source| then Some(source[cursor + 1]) else None;
      assert next == NextOf(source[cursor..]);
      if comment {
        if byte == '\n' {
          comment := false;
        }
        cursor := cursor + 1;
        continue;
      }
      if quote.Some? {
        var (delimiter, shellEscaped) := quote.value;
        if shellEscaped && byte == '\\' && next == Some(delimiter) {
          quote := None;
          cursor := cursor + 2;
          continue;
        }
        if !shellEscaped && byte == delimiter {
          quote := None;
          cursor := cursor + 1;
          continue;
        }
        if byte == '\\' {
          if cursor + 2 > |source| {
            return None;
          }
          cursor := cursor + 2;
        } else {
          cursor := cursor + 1;
        }
        continue;
      }
      if byte == '\\' && next.Some? && IsQuote(next.value) {
        quote := Some((next.value, true));
        cursor := cursor + 2;
        continue;
      }
      if IsQuote(byte) {
        quote := Some((byte, false));
        cursor := cursor + 1;
        continue;
      }
      if byte == '#' {
        comment := true;
        cursor := cursor + 1;
        continue;
      }
      if IsOpener(byte) {
        delimiters := delimiters + [CloserOf(byte)];
      } else if IsCloser(byte) {
        var top := delimiters[|delimiters| - 1];
        delimiters := delimiters[..|delimiters| - 1];
        if top != byte {
          return None;
        }
        if delimiters == [] {
          arguments := WithArgument(arguments, source[argumentStart..cursor]);
          return Some((arguments, cursor + 1));
        }
      } else if byte == ',' && |delimiters| == 1 {
        arguments := WithArgument(arguments, source[argumentStart..cursor]);
        argumentStart := cursor + 1;
      }
      cursor := cursor + 1;
    }
    SplitEnd(StateOf(delimiters, quote, comment), source[argumentStart..cursor], arguments);
    assert source[cursor..] == "";
    r := None;
  }

  /** The splitter's three variables as one state. */
  function StateOf(delimiters: string, quote: Option<(char, bool)>, comment: bool): State {
    State(delimiters,
          if comment then InComment
          else if quote.Some? then InQuote(quote.value.0, quote.value.1)
          else Code)
  }

  lemma LaterZero(r: Option<Parsed>)
    ensures Later(0, r) == r
  {
  }

  lemma LaterTwice(m: nat, n: nat, r: Option<Parsed>)
    ensures Later(m, Later(n, r)) == Later(m + n, r)
  {
  }

  lemma SplitEnd(st: State, current: string, done: seq<string>)
    requires st.stack != ""
    ensures Split("", st, current, done) == None
  {
  }

  /** One round of the loop, on the text. */
  lemma SplitStep(source: string, argumentStart: nat, cursor: nat, st: State, arguments: seq<string>,
                  whole: Option<Parsed>, origin: nat)
    requires origin <= argumentStart <= cursor < |source| && st.stack != ""
    requires whole == Later(cursor - origin, Split(source[cursor..], st, source[argumentStart..cursor], arguments))
    ensures match MoveOn(source[cursor], NextOf(source[cursor..]), st)
            case Mismatch => whole == None
            case Finish =>
              whole == Some(Parsed(WithArgument(arguments, source[argumentStart..cursor]), cursor - origin + 1))
            case Cut =>
              && source[cursor + 1..cursor + 1] == ""
              && whole == Later(cursor + 1 - origin,
                                Split(source[cursor + 1..], st, source[cursor + 1..cursor + 1],
                                      WithArgument(arguments, source[argumentStart..cursor])))
            case Go(n, next) =>
              if cursor + n > |source| then whole == None
              else next.stack != ""
                   && whole == Later(cursor + n - origin,
                                     Split(source[cursor + n..], next, source[argumentStart..cursor + n], arguments))
  {
    hide MoveOn, WithArgument, Split, Later;
    var s := source[cursor..];
    SplitOnce(s, st, source[argumentStart..cursor], arguments);
    match MoveOn(source[cursor], NextOf(s), st)
    case Mismatch => LaterOutcome(cursor - origin, None, 0);
    case Finish =>
      LaterOutcome(cursor - origin, Some(WithArgument(arguments, source[argumentStart..cursor])), 1);
    case Cut =>
      assert s[1..] == source[cursor + 1..];
      LaterTwice(cursor - origin, 1,
                 Split(source[cursor + 1..], st, "", WithArgument(arguments, source[argumentStart..cursor])));
    case Go(n, next) =>
      if n <= |s| {
        assert s[n..] == source[cursor + n..];
        assert source[argumentStart..cursor] + s[..n] == source[argumentStart..cursor + n];
        LaterTwice(cursor - origin, n,
                   Split(source[cursor + n..], next, source[argumentStart..cursor + n], arguments));
      } else {
        LaterOutcome(cursor - origin, None, 0);
      }
  }

  lemma LaterOutcome(n: nat, arguments: Option<seq<string>>, consumed: nat)
    ensures Later(n, None) == None
    ensures arguments.Some? ==>
      Later(n, Some(Parsed(arguments.value, consumed))) == Some(Parsed(arguments.value, n + consumed))
  {
  }

  /** One move of the splitter. */
  lemma SplitOnce(s: string, st: State, current: string, done: seq<string>)
    requires s != "" && st.stack != ""
    ensures var whole, move := Split(s, st, current, done), MoveOn(s[0], NextOf(s), st);
            && (move.Mismatch? ==> whole == None)
            && (move.Finish? ==> whole == Some(Parsed(WithArgument(done, current), 1)))
            && (move.Cut? ==> whole == Later(1, Split(s[1..], st, "", WithArgument(done, current))))
            && (move.Go? && move.n > |s| ==> whole == None)
            && (move.Go? && move.n <= |s| ==>
                  whole == Later(move.n, Split(s[move.n..], move.state, current + s[..move.n], done)))
  {
  }

  // ----- argument texts -----

  /** One item of a quoted string. */
  datatype QuoteItem = Same(c: char) | Escaped(c: char)

  /** A piece of an argument. `Group` holds any pieces, commas included. */
  datatype Piece =
    | Plain(c: char)
    | Backslash
    | Quoted(delimiter: char, items: seq<QuoteItem>)
    | ShellQuoted(delimiter: char, items: seq<QuoteItem>)
    | Comment(text: string)
    | Comma
    | Group(opener: char, inner: seq<Piece>, closer: char)

  /** A character with no meaning to the splitter. */
  predicate IsPlain(c: char) {
    c !in {'\'', '"', '(', '[', '{', ')', ']', '}', '#', ',', '\\'}
  }

  predicate IsPair(opener: char, closer: char) {
    (opener == '(' && closer == ')') || (opener == '[' && closer == ']') || (opener == '{' && closer == '}')
  }

  /** In a plain quote the delimiter must be escaped; in a shell quote it may stand alone. */
  predicate ValidItem(item: QuoteItem, delimiter: char, shell: bool) {
    match item
    case Same(c) => c != '\\' && (shell || c != delimiter)
    case Escaped(c) => !shell || c != delimiter
  }

  predicate ValidItems(items: seq<QuoteItem>, delimiter: char, shell: bool) {
    forall i :: 0 <= i < |items| ==> ValidItem(items[i], delimiter, shell)
  }

  predicate ValidPiece(p: Piece, nested: bool)
    decreases p, 1
  {
    match p
    case Plain(c) => IsPlain(c)
    case Backslash => true
    case Quoted(q, items) => (q == '\'' || q == '"') && ValidItems(items, q, false)
    case ShellQuoted(q, items) => (q == '\'' || q == '"') && ValidItems(items, q, true)
    case Comment(text) => '\n' !in text
    case Comma => nested
    case Group(opener, inner, closer) => IsPair(opener, closer) && ValidPieces(inner, true)
  }

  /** A lone backslash must not stand before a quote, which it would turn into a shell quote. */
  predicate ValidPieces(ps: seq<Piece>, nested: bool)
    decreases ps, 0
  {
    ps != [] ==>
      && ValidPiece(ps[0], nested) && ValidPieces(ps[1..], nested)
      && (ps[0].Backslash? ==> !QuoteFirst(PrintPieces(ps[1..])))
  }

  predicate QuoteFirst(s: string) {
    s != "" && (s[0] == '\'' || s[0] == '"')
  }

  function PrintItem(item: QuoteItem): string {
    match item
    case Same(c) => [c]
    case Escaped(c) => ['\\', c]
  }

  function PrintItems(items: seq<QuoteItem>): string {
    if items == [] then "" else PrintItem(items[0]) + PrintItems(items[1..])
  }

  function PrintPiece(p: Piece): string
    decreases p, 1
  {
    match p
    case Plain(c) => [c]
    case Backslash => "\\"
    case Quoted(q, items) => [q] + PrintItems(items) + [q]
    case ShellQuoted(q, items) => ['\\', q] + PrintItems(items) + ['\\', q]
    case Comment(text) => "#" + text + "\n"
    case Comma => ","
    case Group(opener, inner, closer) => [opener] + PrintPieces(inner) + [closer]
  }

  function PrintPieces(ps: seq<Piece>): string
    decreases ps, 0
  {
    if ps == [] then "" else PrintPiece(ps[0]) + PrintPieces(ps[1..])
  }

  /** Arguments separated by commas. */
  function PrintArguments(args: seq<seq<Piece>>): string {
    if args == [] then ""
    else if |args| == 1 then PrintPieces(args[0])
    else PrintPieces(args[0]) + "," + PrintArguments(args[1..])
  }

  /** The trimmed texts of the arguments that are not blank. */
  function Texts(args: seq<seq<Piece>>): seq<string> {
    if args == [] then []
    else (if Trim(PrintPieces(args[0])) == "" then [] else [Trim(PrintPieces(args[0]))]) + Texts(args[1..])
  }

  predicate ValidArguments(args: seq<seq<Piece>>) {
    forall i :: 0 <= i < |args| ==> ValidPieces(args[i], false)
  }

  // ----- the splitter passes over argument texts -----

  /**
   * At nesting `least` or deeper, the splitter reads `t` into the current
   * argument and goes on; if `t` may end in a lone backslash, no quote may follow.
   */
  ghost predicate Passes(t: string, least: nat, lone: bool) {
    forall rest: string, stack: string, current: string, done: seq<string> ::
      |stack| >= least && stack != "" && (lone ==> !QuoteFirst(rest)) ==>
        Split(t + rest, State(stack, Code), current, done)
        == Later(|t|, Split(rest, State(stack, Code), current + t, done))
  }

  lemma PassesNothing(least: nat)
    ensures Passes("", least, true)
  {
    hide Split;
    forall rest: string, stack: string, current: string, done: seq<string> | |stack| >= least && stack != ""
      ensures Split("" + rest, State(stack, Code), current, done)
              == Later(0, Split(rest, State(stack, Code), current + "", done))
    {
      assert "" + rest == rest && current + "" == current;
      LaterZero(Split(rest, State(stack, Code), current, done));
    }
  }

  lemma PassesBoth(t: string, u: string, least: nat, lone: bool)
    requires Passes(t, least, lone) && Passes(u, least, true) && (lone ==> !QuoteFirst(u))
    ensures Passes(t + u, least, true)
  {
    hide Split, Later;
    forall rest: string, stack: string, current: string, done: seq<string>
      | |stack| >= least && stack != "" && !QuoteFirst(rest)
      ensures Split(t + u + rest, State(stack, Code), current, done)
              == Later(|t + u|, Split(rest, State(stack, Code), current + (t + u), done))
    {
      Regroup(t, u, rest);
      Regroup(current, t, u);
      assert lone ==> !QuoteFirst(u + rest);
      LaterTwice(|t|, |u|, Split(rest, State(stack, Code), current + t + u, done));
    }
  }

  /** The splitter on a text whose first `|t|` characters it takes in one move. */
  lemma SplitMove(t: string, rest: string, st: State, next: State, current: string, done: seq<string>)
    requires st.stack != "" && next.stack != "" && t != ""
    requires MoveOn(t[0], NextOf(t + rest), st) == Go(|t|, next)
    ensures Split(t + rest, st, current, done) == Later(|t|, Split(rest, next, current + t, done))
  {
    var s := t + rest;
    assert s[0] == t[0];
    assert s[|t|..] == rest && s[..|t|] == t;
  }

  /** Quoted text: the state stays in the quote. */
  lemma {:induction false} SplitItems(items: seq<QuoteItem>, q: char, shell: bool, rest: string, stack: string,
                                      current: string, done: seq<string>)
    requires IsQuote(q) && ValidItems(items, q, shell) && stack != ""
    ensures Split(PrintItems(items) + rest, State(stack, InQuote(q, shell)), current, done)
            == Later(|PrintItems(items)|, Split(rest, State(stack, InQuote(q, shell)), current + PrintItems(items), done))
    decreases |items|
  {
    hide Split, Later;
    var st := State(stack, InQuote(q, shell));
    if items == [] {
      assert PrintItems(items) + rest == rest && current + PrintItems(items) == current;
      LaterZero(Split(rest, st, current, done));
    } else {
      var head, tail := PrintItem(items[0]), PrintItems(items[1..]);
      SplitItem(items[0], q, shell, tail + rest, stack, current, done);
      SplitItems(items[1..], q, shell, rest, stack, current + head, done);
      Regroup(head, tail, rest);
      Regroup(current, head, tail);
      LaterTwice(|head|, |tail|, Split(rest, st, current + head + tail, done));
    }
  }

  lemma SplitItem(item: QuoteItem, q: char, shell: bool, rest: string, stack: string, current: string, done: seq<string>)
    requires IsQuote(q) && ValidItem(item, q, shell) && stack != ""
    ensures Split(PrintItem(item) + rest, State(stack, InQuote(q, shell)), current, done)
            == Later(|PrintItem(item)|, Split(rest, State(stack, InQuote(q, shell)), current + PrintItem(item), done))
  {
    hide Split;
    var st := State(stack, InQuote(q, shell));
    assert item.Escaped? ==> (PrintItem(item) + rest)[1] == item.c;
    SplitMove(PrintItem(item), rest, st, st, current, done);
  }

  /** A quote: opening mark, items, closing mark. */
  lemma PassesQuote(mark: string, items: seq<QuoteItem>, q: char, shell: bool, least: nat)
    requires IsQuote(q) && ValidItems(items, q, shell) && mark == if shell then ['\\', q] else [q]
    ensures Passes(mark + PrintItems(items) + mark, least, false)
  {
    hide Split, Later, ValidItems, PrintItems;
    var body := PrintItems(items);
    forall rest: string, stack: string, current: string, done: seq<string> | |stack| >= least && stack != ""
      ensures Split(mark + body + mark + rest, State(stack, Code), current, done)
              == Later(|mark + body + mark|, Split(rest, State(stack, Code), current + (mark + body + mark), done))
    {
      var code, quoted := State(stack, Code), State(stack, InQuote(q, shell));
      assert mark + body + mark + rest == mark + (body + (mark + rest));
      assert shell ==> (mark + (body + (mark + rest)))[1] == q && (mark + rest)[1] == q;
      SplitMove(mark, body + (mark + rest), code, quoted, current, done);
      SplitItems(items, q, shell, mark + rest, stack, current + mark, done);
      SplitMove(mark, rest, quoted, code, current + mark + body, done);
      assert current + mark + body + mark == current + (mark + body + mark);
      LaterTwice(|body|, |mark|, Split(rest, code, current + mark + body + mark, done));
      LaterTwice(|mark|, |body| + |mark|, Split(rest, code, current + mark + body + mark, done));
    }
  }

  lemma {:induction false} SplitCommentText(text: string, rest: string, stack: string, current: string, done: seq<string>)
    requires '\n' !in text && stack != ""
    ensures Split(text + rest, State(stack, InComment), current, done)
            == Later(|text|, Split(rest, State(stack, InComment), current + text, done))
    decreases |text|
  {
    hide Split, Later;
    var st := State(stack, InComment);
    if text == "" {
      assert text + rest == rest && current + text == current;
      LaterZero(Split(rest, st, current, done));
    } else {
      var head, tail := [text[0]], text[1..];
      assert text == head + tail;
      SplitMove(head, tail + rest, st, st, current, done);
      SplitCommentText(tail, rest, stack, current + head, done);
      Regroup(head, tail, rest);
      Regroup(current, head, tail);
      LaterTwice(1, |tail|, Split(rest, st, current + head + tail, done));
    }
  }

  lemma PassesComment(text: string, least: nat)
    requires '\n' !in text
    ensures Passes("#" + text + "\n", least, false)
  {
    hide Split, Later;
    forall rest: string, stack: string, current: string, done: seq<string> | |stack| >= least && stack != ""
      ensures Split("#" + text + "\n" + rest, State(stack, Code), current, done)
              == Later(|"#" + text + "\n"|, Split(rest, State(stack, Code), current + ("#" + text + "\n"), done))
    {
      var code, comment := State(stack, Code), State(stack, InComment);
      assert "#" + text + "\n" + rest == "#" + (text + ("\n" + rest));
      SplitMove("#", text + ("\n" + rest), code, comment, current, done);
      SplitCommentText(text, "\n" + rest, stack, current + "#", done);
      SplitMove("\n", rest, comment, code, current + "#" + text, done);
      assert current + "#" + text + "\n" == current + ("#" + text + "\n");
      LaterTwice(|text|, 1, Split(rest, code, current + "#" + text + "\n", done));
      LaterTwice(1, |text| + 1, Split(rest, code, current + "#" + text + "\n", done));
    }
  }

  /** A character without meaning, or a comma inside a group. */
  lemma PassesOne(c: char, least: nat)
    requires IsPlain(c) || (c == ',' && least >= 2)
    ensures Passes([c], least, false)
  {
    hide Split, Later;
    forall rest: string, stack: string, current: string, done: seq<string> | |stack| >= least && stack != ""
      ensures Split([c] + rest, State(stack, Code), current, done)
              == Later(1, Split(rest, State(stack, Code), current + [c], done))
    {
      SplitMove([c], rest, State(stack, Code), State(stack, Code), current, done);
    }
  }

  lemma PassesBackslash(least: nat)
    ensures Passes("\\", least, true)
  {
    hide Split, Later;
    forall rest: string, stack: string, current: string, done: seq<string>
      | |stack| >= least && stack != "" && !QuoteFirst(rest)
      ensures Split("\\" + rest, State(stack, Code), current, done)
              == Later(1, Split(rest, State(stack, Code), current + "\\", done))
    {
      assert rest != "" ==> ("\\" + rest)[1] == rest[0];
      SplitMove("\\", rest, State(stack, Code), State(stack, Code), current, done);
    }
  }

  lemma PassesGroup(opener: char, inside: string, least: nat)
    requires IsOpener(opener) && Passes(inside, 2, true)
    ensures Passes([opener] + inside + [CloserOf(opener)], least, false)
  {
    hide Split, Later;
    var closer := CloserOf(opener);
    forall rest: string, stack: string, current: string, done: seq<string> | |stack| >= least && stack != ""
      ensures Split([opener] + inside + [closer] + rest, State(stack, Code), current, done)
              == Later(|[opener] + inside + [closer]|,
                       Split(rest, State(stack, Code), current + ([opener] + inside + [closer]), done))
    {
      var outer, inner := State(stack, Code), State(stack + [closer], Code);
      assert [opener] + inside + [closer] + rest == [opener] + (inside + ([closer] + rest));
      SplitMove([opener], inside + ([closer] + rest), outer, inner, current, done);
      assert Split(inside + ([closer] + rest), inner, current + [opener], done)
             == Later(|inside|, Split([closer] + rest, inner, current + [opener] + inside, done));
      assert (stack + [closer])[..|stack|] == stack;
      SplitMove([closer], rest, inner, outer, current + [opener] + inside, done);
      assert current + [opener] + inside + [closer] == current + ([opener] + inside + [closer]);
      LaterTwice(|inside|, 1, Split(rest, outer, current + [opener] + inside + [closer], done));
      LaterTwice(1, |inside| + 1, Split(rest, outer, current + [opener] + inside + [closer], done));
    }
  }

  lemma {:induction false} PassesPiece(p: Piece, nested: bool)
    requires ValidPiece(p, nested)
    ensures Passes(PrintPiece(p), if nested then 2 else 1, p.Backslash?)
    decreases p, 1
  {
    hide Passes, ValidItems, PrintItems, ValidPieces, PrintPieces;
    var least := if nested then 2 else 1;
    match p
    case Plain(c) => PassesOne(c, least);
    case Backslash => PassesBackslash(least);
    case Quoted(q, items) => PassesQuote([q], items, q, false, least);
    case ShellQuoted(q, items) => PassesQuote(['\\', q], items, q, true, least);
    case Comment(text) => PassesComment(text, least);
    case Comma => PassesOne(',', least);
    case Group(opener, inner, closer) =>
      PassesPieces(inner, true);
      PassesGroup(opener, PrintPieces(inner), least);
  }

  lemma {:induction false} PassesPieces(ps: seq<Piece>, nested: bool)
    requires ValidPieces(ps, nested)
    ensures Passes(PrintPieces(ps), if nested then 2 else 1, true)
    decreases ps, 0
  {
    hide Passes, PrintPiece, ValidPiece;
    var least := if nested then 2 else 1;
    if ps == [] {
      PassesNothing(least);
    } else {
      PassesPiece(ps[0], nested);
      PassesPieces(ps[1..], nested);
      PassesBoth(PrintPiece(ps[0]), PrintPieces(ps[1..]), least, ps[0].Backslash?);
    }
  }

  // ----- splitting inverts printing -----

  lemma PassedText(t: string, rest: string, current: string, done: seq<string>)
    requires Passes(t, 1, true) && !QuoteFirst(rest)
    ensures Split(t + rest, Start, current, done) == Later(|t|, Split(rest, Start, current + t, done))
  {
  }

  lemma SplitAtEnd(rest: string, current: string, done: seq<string>)
    ensures Split(")" + rest, Start, current, done) == Some(Parsed(WithArgument(done, current), 1))
  {
    hide Trim;
    assert (")" + rest)[0] == ')';
  }

  lemma SplitAtComma(rest: string, current: string, done: seq<string>)
    ensures Split("," + rest, Start, current, done) == Later(1, Split(rest, Start, "", WithArgument(done, current)))
  {
    hide Trim;
    assert ("," + rest)[0] == ',' && ("," + rest)[1..] == rest;
  }

  lemma BlankArgument(done: seq<string>)
    ensures WithArgument(done, "") == done
  {
  }

  lemma NoTexts()
    ensures Texts([]) == []
  {
  }

  lemma TextsFirst(args: seq<seq<Piece>>)
    requires args != []
    ensures Texts(args) == WithArgument([], PrintPieces(args[0])) + Texts(args[1..])
  {
    hide PrintPieces, Trim;
  }

  lemma WithArgumentAppends(done: seq<string>, current: string)
    ensures WithArgument(done, current) == done + WithArgument([], current)
  {
  }

  lemma {:induction false} SplitArguments(args: seq<seq<Piece>>, rest: string, done: seq<string>)
    requires ValidArguments(args)
    ensures Split(PrintArguments(args) + ")" + rest, Start, "", done)
            == Some(Parsed(done + Texts(args), |PrintArguments(args)| + 1))
    decreases |args|
  {
    hide Split, Passes, Trim, PrintPieces, ValidPieces, WithArgument, Texts;
    if args == [] {
      NoTexts();
      assert PrintArguments(args) + ")" + rest == ")" + rest;
      SplitAtEnd(rest, "", done);
      BlankArgument(done);
      assert done + Texts(args) == done;
    } else {
      var first := PrintPieces(args[0]);
      assert ValidPieces(args[0], false);
      PassesPieces(args[0], false);
      assert "" + first == first;
      WithArgumentAppends(done, first);
      TextsFirst(args);
      if |args| == 1 {
        assert first + ")" + rest == first + (")" + rest);
        PassedText(first, ")" + rest, "", done);
        SplitAtEnd(rest, first, done);
        assert PrintArguments(args) == first;
        NoTexts();
        assert args[1..] == [];
        assert Texts(args) == WithArgument([], first) + [];
        assert done + Texts(args) == WithArgument(done, first);
      } else {
        var more := PrintArguments(args[1..]);
        assert first + "," + more + ")" + rest == first + ("," + (more + ")" + rest));
        PassedText(first, "," + (more + ")" + rest), "", done);
        SplitAtComma(more + ")" + rest, first, done);
        SplitArguments(args[1..], rest, WithArgument(done, first));
        assert done + WithArgument([], first) + Texts(args[1..]) == done + (WithArgument([], first) + Texts(args[1..]));
        assert PrintArguments(args) + ")" + rest == first + ("," + (more + ")" + rest));
      }
    }
  }

  /**
   * Splitting inverts printing: whatever surrounds the call, its printed
   * arguments come back trimmed, blank ones dropped, with the index after the
   * matching parenthesis.
   */
  lemma SplittingInvertsPrinting(pre: string, args: seq<seq<Piece>>, post: string)
    requires ValidArguments(args)
    ensures ParseCall(pre + "(" + PrintArguments(args) + ")" + post, |pre|)
            == Some((Texts(args), |pre| + 1 + |PrintArguments(args)| + 1))
  {
    hide Split, PrintArguments, Texts, ValidArguments;
    var source := pre + "(" + PrintArguments(args) + ")" + post;
    assert source[|pre| + 1..] == PrintArguments(args) + ")" + post;
    SplitArguments(args, post, []);
    assert [] + Texts(args) == Texts(args);
  }

  // ----- and only printed calls are split -----

  /** What an accepting run says about its first move. */
  lemma AcceptedMove(s: string, st: State, current: string, done: seq<string>)
    requires st.stack != "" && Split(s, st, current, done).Some?
    ensures s != ""
    ensures var move := MoveOn(s[0], NextOf(s), st);
            && !move.Mismatch?
            && (move.Cut? ==> Split(s[1..], st, "", WithArgument(done, current)).Some?)
            && (move.Go? ==> move.n <= |s| && Split(s[move.n..], move.state, current + s[..move.n], done).Some?)
  {
  }

  function Mark(q: char, shell: bool): string {
    if shell then ['\\', q] else [q]
  }

  /** From inside a quote an accepting run reads items and the closing mark. */
  lemma {:induction false} ReadsQuote(s: string, q: char, shell: bool, stack: string, current: string, done: seq<string>)
      returns (items: seq<QuoteItem>, rest: string)
    requires IsQuote(q) && stack != "" && Split(s, State(stack, InQuote(q, shell)), current, done).Some?
    ensures ValidItems(items, q, shell) && s == PrintItems(items) + (Mark(q, shell) + rest)
    decreases |s|
  {
    hide Split, WithArgument;
    AcceptedMove(s, State(stack, InQuote(q, shell)), current, done);
    if Mark(q, shell) <= s {
      items, rest := [], s[|Mark(q, shell)|..];
      assert s == "" + (Mark(q, shell) + rest);
    } else {
      var n := if s[0] == '\\' then 2 else 1;
      items, rest := ReadsQuote(s[n..], q, shell, stack, current + s[..n], done);
      var item := if n == 2 then Escaped(s[1]) else Same(s[0]);
      var head, tail := PrintItem(item), PrintItems(items);
      assert s == head + s[n..];
      assert ([item] + items)[1..] == items;
      Regroup(head, tail, Mark(q, shell) + rest);
      items := [item] + items;
    }
  }

  /** From inside a comment it reads to the end of the line. */
  lemma {:induction false} ReadsComment(s: string, stack: string, current: string, done: seq<string>)
      returns (text: string, rest: string)
    requires stack != "" && Split(s, State(stack, InComment), current, done).Some?
    ensures '\n' !in text && s == text + "\n" + rest
    decreases |s|
  {
    hide Split;
    AcceptedMove(s, State(stack, InComment), current, done);
    if s[0] == '\n' {
      text, rest := "", s[1..];
    } else {
      text, rest := ReadsComment(s[1..], stack, current + s[..1], done);
      assert s == [s[0]] + s[1..];
      assert [s[0]] + (text + "\n" + rest) == [s[0]] + text + "\n" + rest;
      text := [s[0]] + text;
    }
  }

  /** The run stays accepting behind a piece. */
  lemma AcceptedBehind(p: Piece, more: string, stack: string, current: string, done: seq<string>)
    requires stack != "" && ValidPiece(p, |stack| > 1) && (p.Backslash? ==> !QuoteFirst(more))
    requires Split(PrintPiece(p) + more, State(stack, Code), current, done).Some?
    ensures Split(more, State(stack, Code), current + PrintPiece(p), done).Some?
  {
    hide Split, PrintPiece, ValidPiece;
    PassesPiece(p, |stack| > 1);
  }

  lemma QuoteText(mark: string, body: string, rest: string)
    ensures mark + body + mark + rest == mark + (body + (mark + rest))
  {
  }

  /** Where an argument or the contents of a group end. */
  predicate EndsHere(s: string, stack: string)
    requires stack != ""
  {
    s != "" && (s[0] == stack[|stack| - 1] || (|stack| == 1 && s[0] == ','))
  }

  /** In code, unless the argument or the group ends, an accepting run reads one piece. */
  lemma {:induction false} ReadsPiece(s: string, stack: string, current: string, done: seq<string>)
      returns (p: Piece, more: string)
    requires stack != "" && IsCloser(stack[|stack| - 1]) && Split(s, State(stack, Code), current, done).Some?
    requires !EndsHere(s, stack)
    ensures ValidPiece(p, |stack| > 1) && s == PrintPiece(p) + more && PrintPiece(p) != ""
    ensures p.Backslash? ==> !QuoteFirst(more)
    decreases |s|, 0
  {
    hide Split, WithArgument, PrintItems, ValidItems, PrintPieces, ValidPieces;
    AcceptedMove(s, State(stack, Code), current, done);
    var c := s[0];
    assert s == [c] + s[1..];
    if c == '\\' && |s| > 1 && IsQuote(s[1]) {
      var items, rest := ReadsQuote(s[2..], s[1], true, stack, current + s[..2], done);
      p, more := ShellQuoted(s[1], items), rest;
      QuoteText(Mark(s[1], true), PrintItems(items), rest);
      assert s == Mark(s[1], true) + s[2..];
    } else if IsQuote(c) {
      var items, rest := ReadsQuote(s[1..], c, false, stack, current + s[..1], done);
      p, more := Quoted(c, items), rest;
      QuoteText(Mark(c, false), PrintItems(items), rest);
    } else if c == '#' {
      var text, rest := ReadsComment(s[1..], stack, current + s[..1], done);
      p, more := Comment(text), rest;
    } else if IsOpener(c) {
      var inner, rest := ReadsPieces(s[1..], stack + [CloserOf(c)], current + s[..1], done);
      p, more := Group(c, inner, CloserOf(c)), rest[1..];
      assert rest == [CloserOf(c)] + rest[1..];
    } else {
      p, more := (if c == '\\' then Backslash else if c == ',' then Comma else Plain(c)), s[1..];
    }
  }

  /** In code an accepting run reads pieces up to a comma or the closer it waits for. */
  lemma {:induction false} ReadsPieces(s: string, stack: string, current: string, done: seq<string>)
      returns (ps: seq<Piece>, rest: string)
    requires stack != "" && IsCloser(stack[|stack| - 1]) && Split(s, State(stack, Code), current, done).Some?
    ensures ValidPieces(ps, |stack| > 1) && s == PrintPieces(ps) + rest && EndsHere(rest, stack)
    decreases |s|, 1
  {
    hide Split, PrintPiece, ValidPiece;
    if EndsHere(s, stack) {
      ps, rest := [], s;
      assert s == PrintPieces(ps) + rest;
    } else {
      var p, more := ReadsPiece(s, stack, current, done);
      AcceptedBehind(p, more, stack, current, done);
      ps, rest := ReadsPieces(more, stack, current + PrintPiece(p), done);
      assert ([p] + ps)[1..] == ps;
      Regroup(PrintPiece(p), PrintPieces(ps), rest);
      assert QuoteFirst(PrintPieces(ps)) ==> QuoteFirst(more);
      ps := [p] + ps;
    }
  }

  /** An accepted text starts with printed arguments and the closing parenthesis. */
  lemma {:induction false} ReadsArguments(s: string, done: seq<string>)
      returns (args: seq<seq<Piece>>, rest: string)
    requires Split(s, Start, "", done).Some?
    ensures ValidArguments(args) && args != [] && s == PrintArguments(args) + ")" + rest
    decreases |s|
  {
    hide Split, PrintPieces, ValidPieces;
    var ps, more := ReadsPieces(s, ")", "", done);
    var text := PrintPieces(ps);
    PassesPieces(ps, false);
    PassedText(text, more, "", done);
    AcceptedLater(|text|, Split(more, Start, "" + text, done));
    if more[0] == ')' {
      args, rest := [ps], more[1..];
      assert s == text + ")" + rest;
    } else {
      assert MoveOn(more[0], NextOf(more), Start) == Cut;
      AcceptedMove(more, Start, "" + text, done);
      args, rest := ReadsArguments(more[1..], WithArgument(done, "" + text));
      assert more == "," + more[1..];
      assert ([ps] + args)[1..] == args;
      assert text + ("," + (PrintArguments(args) + ")" + rest)) == text + "," + PrintArguments(args) + ")" + rest;
      args := [ps] + args;
    }
  }

  lemma AcceptedLater(n: nat, r: Option<Parsed>)
    ensures Later(n, r).Some? <==> r.Some?
  {
  }

  /** `source` holds, from behind `openParen` on, the printed arguments `args` and a closing parenthesis. */
  ghost predicate CallText(source: string, openParen: nat, args: seq<seq<Piece>>)
    requires openParen < |source|
  {
    ValidArguments(args) && PrintArguments(args) + ")" <= source[openParen + 1..]
  }

  /**
   * The splitter accepts exactly the printed calls, and its answer is what was
   * printed: the trimmed arguments and the index behind the parenthesis.
   */
  lemma SplitsExactlyCalls(source: string, openParen: nat, arguments: seq<string>, end: nat)
    requires openParen < |source|
    ensures ParseCall(source, openParen) == Some((arguments, end))
            <==> exists args :: CallText(source, openParen, args) && arguments == Texts(args)
                   && end == openParen + 1 + |PrintArguments(args)| + 1
  {
    hide Split, PrintArguments, Texts, ValidArguments;
    var s := source[openParen + 1..];
    if ParseCall(source, openParen).Some? {
      var args, rest := ReadsArguments(s, []);
      SplitArguments(args, rest, []);
      assert [] + Texts(args) == Texts(args);
      assert PrintArguments(args) + ")" <= s;
      assert CallText(source, openParen, args);
    }
    forall args | CallText(source, openParen, args)
      ensures ParseCall(source, openParen) == Some((Texts(args), openParen + 1 + |PrintArguments(args)| + 1))
    {
      var text := PrintArguments(args) + ")";
      assert s == text + s[|text|..];
      SplitArguments(args, s[|text|..], []);
      assert [] + Texts(args) == Texts(args);
    }
  }
}
