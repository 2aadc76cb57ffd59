/**
 * The text of a workspace path and the components it stands for, on a system
 * whose separator is `/`.
 */
module WorkspacePaths {
  import opened Options
  import opened Text

  type Path = seq<string>

  /** Components as a path has them: not empty, and without a separator. */
  predicate ProperParts(p: Path) {
    forall i :: 0 <= i < |p| ==> p[i] != "" && '/' !in p[i]
  }

  /** A path below the root, not the root itself. */
  predicate NormalPath(p: Path) {
    p != [] && ProperParts(p)
  }

  function Render(p: Path): string {
    if p == [] then "" else if |p| == 1 then p[0] else p[0] + "/" + Render(p[1..])
  }

  function UpToSeparator(s: string): string {
    if s == "" || s[0] == '/' then "" else [s[0]] + UpToSeparator(s[1..])
  }

  /** The first component can be read off a text. */
  lemma {:induction false} FirstComponent(a: string, rest: string)
    requires '/' !in a && (rest == "" || rest[0] == '/')
    ensures UpToSeparator(a + rest) == a
  {
    if a == "" {
      assert a + rest == rest;
    } else {
      assert (a + rest)[1..] == a[1..] + rest;
      assert a[0] in a;
      FirstComponent(a[1..], rest);
    }
  }

  function AfterFirst(p: Path): string
    requires p != []
  {
    if |p| == 1 then "" else "/" + Render(p[1..])
  }

  /** Different paths have different texts. */
  lemma {:induction false} RenderInjective(p: Path, q: Path)
    requires ProperParts(p) && ProperParts(q) && Render(p) == Render(q)
    ensures p == q
    decreases |p|
  {
    if p != [] && q != [] {
      var x, y := AfterFirst(p), AfterFirst(q);
      assert Render(p) == p[0] + x && Render(q) == q[0] + y;
      FirstComponent(p[0], x);
      FirstComponent(q[0], y);
      assert (p[0] + x)[|p[0]|..] == x && (q[0] + y)[|p[0]|..] == y;
      if |p| > 1 && |q| > 1 {
        assert x[1..] == Render(p[1..]) && y[1..] == Render(q[1..]);
        RenderInjective(p[1..], q[1..]);
      }
      assert p == [p[0]] + p[1..] && q == [q[0]] + q[1..];
    }
  }

  // ----- normalisation -----

  /** The components between separators; repeated separators count as one. */
  function Parts(text: string): Path
    decreases |text|
  {
    if text == "" then []
    else if text[0] == '/' then Parts(text[1..])
    else
      var first := UpToSeparator(text);
      UpToIsHead(text);
      [first] + Parts(text[|first|..])
  }

  lemma {:induction false} UpToIsHead(s: string)
    ensures UpToSeparator(s) <= s && '/' !in UpToSeparator(s)
    ensures s != "" && s[0] != '/' ==> UpToSeparator(s) != ""
  {
    if s != "" && s[0] != '/' {
      UpToIsHead(s[1..]);
      assert s == [s[0]] + s[1..];
    }
  }

  function WithoutDots(p: Path): Path {
    if p == [] then [] else (if p[0] == "." then [] else [p[0]]) + WithoutDots(p[1..])
  }

  /** A relative path without `..` and without a leading `.`; other `.` components vanish. */
  function NormalizeRelative(text: string): Option<Path> {
    if text == "" || text[0] == '/' then None
    else
      var parts := Parts(text);
      if parts[0] == "." || ".." in parts then None else Some(WithoutDots(parts))
  }

  predicate IsWildcard(c: char) {
    c == '*' || c == '?' || c == '[' || c == ']' || c == '{' || c == '}'
  }

  /** A declared path names one file: no wildcard, no trailing separator. */
  predicate ExactText(text: string) {
    && (forall i :: 0 <= i < |text| ==> !IsWildcard(text[i]))
    && (text != "" ==> text[|text| - 1] != '/' && text[|text| - 1] != '\\')
  }

  function NormalizeDeclared(text: string, resolve: Path -> Option<Path>): Option<Path> {
    if !ExactText(text) then None
    else
      var relative := NormalizeRelative(text);
      if relative.None? then None else resolve(relative.value)
  }

  /** A path whose components are all names. */
  predicate OnlyNames(p: Path) {
    NormalPath(p) && "." !in p && ".." !in p
  }

  lemma {:induction false} PartsOfRendered(p: Path)
    requires ProperParts(p)
    ensures Parts(Render(p)) == p
  {
    if p != [] {
      var rest := AfterFirst(p);
      assert Render(p) == p[0] + rest;
      FirstComponent(p[0], rest);
      assert (p[0] + rest)[0] == p[0][0] && p[0][0] in p[0];
      assert (p[0] + rest)[|p[0]|..] == rest;
      PartsOfRendered(p[1..]);
      if |p| > 1 {
        assert rest[1..] == Render(p[1..]);
      }
      assert Parts(rest) == p[1..];
    }
  }

  lemma {:induction false} NoDotsToDrop(p: Path)
    requires "." !in p
    ensures WithoutDots(p) == p
  {
    if p != [] {
      NoDotsToDrop(p[1..]);
    }
  }

  lemma {:induction false} PartsAreProper(text: string)
    ensures ProperParts(Parts(text))
    ensures text != "" && text[0] != '/' ==> Parts(text) != []
    decreases |text|
  {
    if text != "" {
      if text[0] == '/' {
        PartsAreProper(text[1..]);
      } else {
        UpToIsHead(text);
        PartsAreProper(text[|UpToSeparator(text)|..]);
      }
    }
  }

  lemma {:induction false} DotsDropped(p: Path)
    requires ProperParts(p) && ".." !in p
    ensures ProperParts(WithoutDots(p)) && "." !in WithoutDots(p) && ".." !in WithoutDots(p)
    ensures p != [] && p[0] != "." ==> WithoutDots(p) != []
  {
    if p != [] {
      DotsDropped(p[1..]);
    }
  }

  /** What normalisation accepts is a path of names, and its text normalises to itself. */
  lemma NormalizedIsNormal(text: string)
    requires NormalizeRelative(text).Some?
    ensures OnlyNames(NormalizeRelative(text).value)
    ensures NormalizeRelative(Render(NormalizeRelative(text).value)) == NormalizeRelative(text)
  {
    PartsAreProper(text);
    DotsDropped(Parts(text));
    RenderedNormalizes(NormalizeRelative(text).value);
  }

  /** Every path of names comes back from its text. */
  lemma RenderedNormalizes(p: Path)
    requires OnlyNames(p)
    ensures NormalizeRelative(Render(p)) == Some(p)
  {
    hide WithoutDots, Parts;
    PartsOfRendered(p);
    NoDotsToDrop(p);
    assert Render(p) == p[0] + AfterFirst(p) && p[0][0] in p[0];
  }

  // ----- what is refused, and what does not matter -----

  lemma {:induction false} DotVanishes(p: Path, q: Path)
    ensures WithoutDots(p + ["."] + q) == WithoutDots(p + q)
  {
    if p == [] {
      assert p + ["."] + q == ["."] + q && p + q == q;
    } else {
      assert (p + ["."] + q)[1..] == p[1..] + ["."] + q && (p + q)[1..] == p[1..] + q;
      DotVanishes(p[1..], q);
    }
  }

  /** A `.` behind the first component changes nothing; in front, and `..` anywhere, the text is refused. */
  lemma DotsMatter(p: Path, q: Path)
    requires p != [] && ProperParts(p) && ProperParts(q)
    ensures NormalizeRelative(Render(p + ["."] + q)) == NormalizeRelative(Render(p + q))
    ensures NormalizeRelative(Render(["."] + q)).None?
    ensures NormalizeRelative(Render(p + [".."] + q)).None? && NormalizeRelative(Render([".."] + q)).None?
  {
    hide WithoutDots, Parts;
    RenderedParts(p + ["."] + q);
    RenderedParts(p + q);
    RenderedParts(["."] + q);
    RenderedParts(p + [".."] + q);
    RenderedParts([".."] + q);
    DotVanishes(p, q);
    assert ".." in p + ["."] + q <==> ".." in p + q;
    assert ".." in [".."] + q && ".." in p + [".."] + q;
  }

  lemma RenderedParts(p: Path)
    requires p != [] && ProperParts(p)
    ensures Parts(Render(p)) == p && Render(p) != "" && Render(p)[0] != '/'
  {
    hide Parts;
    PartsOfRendered(p);
    assert Render(p) == p[0] + AfterFirst(p) && p[0][0] in p[0];
  }

  /** Repeated separators count as one; the empty text and absolute paths are refused. */
  lemma SeparatorsMatter(p: Path, text: string)
    requires p != [] && ProperParts(p)
    ensures NormalizeRelative(Render(p) + "//" + text) == NormalizeRelative(Render(p) + "/" + text)
    ensures NormalizeRelative("").None? && NormalizeRelative("/" + text).None?
  {
    hide WithoutDots, Parts;
    RenderedParts(p);
    PartsBehind(p, "/" + text);
    PartsBehind(p, "//" + text);
    SlashSkipped(text);
    SlashSkipped("/" + text);
    assert "/" + ("/" + text) == "//" + text;
    assert Render(p) + "//" + text == Render(p) + ("//" + text) && Render(p) + "/" + text == Render(p) + ("/" + text);
  }

  lemma SlashSkipped(text: string)
    ensures Parts("/" + text) == Parts(text)
  {
    assert ("/" + text)[1..] == text;
  }

  lemma {:induction false} PartsBehind(p: Path, rest: string)
    requires ProperParts(p) && rest != "" && rest[0] == '/'
    ensures Parts(Render(p) + rest) == p + Parts(rest)
  {
    hide Parts, Render;
    if p == [] {
      NothingRendered(rest);
    } else if |p| == 1 {
      RenderedOne(p[0]);
      assert p == [p[0]];
      PartsFirst(p[0], rest);
    } else {
      var more := Render(p[1..]) + rest;
      PartsBehind(p[1..], rest);
      RenderedMore(p, rest);
      PartsFirst(p[0], "/" + more);
      SlashSkipped(more);
      assert p == [p[0]] + p[1..];
      assert [p[0]] + (p[1..] + Parts(rest)) == [p[0]] + p[1..] + Parts(rest);
    }
  }

  lemma NothingRendered(rest: string)
    ensures Render([]) + rest == rest
  {
  }

  lemma RenderedOne(a: string)
    ensures Render([a]) == a
  {
  }

  lemma RenderedMore(p: Path, rest: string)
    requires |p| > 1
    ensures Render(p) + rest == p[0] + ("/" + (Render(p[1..]) + rest))
  {
    var more := Render(p[1..]);
    assert Render(p) == p[0] + "/" + more;
    hide Render;
    Regroup(p[0] + "/", more, rest);
    Regroup(p[0], "/", more + rest);
  }

  lemma PartsFirst(a: string, tail: string)
    requires a != "" && '/' !in a && (tail == "" || tail[0] == '/')
    ensures Parts(a + tail) == [a] + Parts(tail)
  {
    FirstComponent(a, tail);
    assert (a + tail)[0] == a[0] && a[0] in a;
    assert (a + tail)[|a|..] == tail;
  }

  /** A declared text is taken exactly when it has no wildcard and no separator at its end, and then as a relative path. */
  lemma DeclaredExactlyWhen(text: string, resolve: Path -> Option<Path>)
    ensures NormalizeDeclared(text, resolve)
            == if (exists i :: 0 <= i < |text| && text[i] in {'*', '?', '[', ']', '{', '}'})
                  || (text != "" && text[|text| - 1] in {'/', '\\'}) || NormalizeRelative(text).None?
               then None else resolve(NormalizeRelative(text).value)
  {
    hide NormalizeRelative;
  }
}
