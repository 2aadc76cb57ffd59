/** The few string operations of the standard library that the scanners use. */
module Text {
  import opened Options

  /** Unicode White_Space. */
  predicate IsSpace(c: char) {
    var n := c as int;
    || 9 <= n <= 13 || n == 0x20 || n == 0x85 || n == 0xA0 || n == 0x1680 || 0x2000 <= n <= 0x200A
    || n == 0x2028 || n == 0x2029 || n == 0x202F || n == 0x205F || n == 0x3000
  }

  predicate AllSpace(s: string) {
    forall i :: 0 <= i < |s| ==> IsSpace(s[i])
  }

  function TrimStart(s: string): string {
    if s != "" && IsSpace(s[0]) then TrimStart(s[1..]) else s
  }

  function TrimEnd(s: string): string {
    if s != "" && IsSpace(s[|s| - 1]) then TrimEnd(s[..|s| - 1]) else s
  }

  function Trim(s: string): string {
    TrimEnd(TrimStart(s))
  }

  predicate StartsWith(s: string, c: char) {
    s != "" && s[0] == c
  }

  predicate Tight(s: string) {
    s == "" || (!IsSpace(s[0]) && !IsSpace(s[|s| - 1]))
  }

  lemma TightTail(s: string, k: nat)
    requires Tight(s) && k <= |s|
    ensures AllSpace(s[k..]) ==> k == |s|
  {
    assert k < |s| ==> s[k..][|s| - 1 - k] == s[|s| - 1];
  }

  lemma {:induction false} TrimStartSpaces(before: string, s: string)
    requires AllSpace(before) && (s == "" || !IsSpace(s[0]))
    ensures TrimStart(before + s) == s
  {
    if before == "" {
      assert before + s == s;
    } else {
      assert (before + s)[1..] == before[1..] + s;
      TrimStartSpaces(before[1..], s);
    }
  }

  lemma {:induction false} TrimEndSpaces(s: string, after: string)
    requires AllSpace(after) && (s == "" || !IsSpace(s[|s| - 1]))
    ensures TrimEnd(s + after) == s
  {
    if after == "" {
      assert s + after == s;
    } else {
      assert (s + after)[..|s + after| - 1] == s + after[..|after| - 1];
      TrimEndSpaces(s, after[..|after| - 1]);
    }
  }

  /** Trimming removes exactly the surrounding white space. */
  lemma TrimPadded(before: string, s: string, after: string)
    requires AllSpace(before) && AllSpace(after) && Tight(s)
    ensures Trim(before + s + after) == s
  {
    hide TrimStart, TrimEnd;
    if s == "" {
      assert before + s + after == (before + after) + "";
      TrimStartSpaces(before + after, "");
      TrimEndSpaces("", "");
      assert "" + "" == "";
    } else {
      assert before + s + after == before + (s + after);
      TrimStartSpaces(before, s + after);
      TrimEndSpaces(s, after);
    }
  }

  /** `p` occurs in `s` at `i`. */
  predicate OccursAt(s: string, p: string, i: nat) {
    i + |p| <= |s| && s[i..i + |p|] == p
  }

  lemma OccursOne(s: string, c: char, i: nat)
    ensures OccursAt(s, [c], i) <==> i < |s| && s[i] == c
  {
    if i < |s| {
      assert s[i..i + 1] == [s[i]];
    }
  }

  lemma OccursHead(s: string, p: string, i: nat)
    requires p != ""
    ensures OccursAt(s, p, i) ==> i < |s| && s[i] == p[0]
  {
    if OccursAt(s, p, i) {
      assert s[i..i + |p|][0] == s[i];
    }
  }

  /** The first occurrence of `p` at or after `from`. */
  function Find(s: string, p: string, from: nat): (r: Option<nat>)
    ensures r.Some? ==> from <= r.value && OccursAt(s, p, r.value)
    ensures forall j: nat :: from <= j && (r.Some? ==> j < r.value) ==> !OccursAt(s, p, j)
    decreases |s| - from
  {
    if from + |p| > |s| then None
    else if OccursAt(s, p, from) then Some(from)
    else Find(s, p, from + 1)
  }

  lemma FindIs(s: string, p: string, from: nat, at: nat)
    requires from <= at && OccursAt(s, p, at)
    requires forall j: nat :: from <= j < at ==> !OccursAt(s, p, j)
    ensures Find(s, p, from) == Some(at)
  {
  }

  lemma Regroup(t: string, u: string, v: string)
    ensures t + u + v == t + (u + v)
  {
  }

  /** The characters that trimming removes. */
  lemma SpacesAre(c: char)
    ensures IsSpace(c)
            <==> c as int in {0x9, 0xA, 0xB, 0xC, 0xD, 0x20, 0x85, 0xA0, 0x1680, 0x2000, 0x2001, 0x2002, 0x2003, 0x2004,
                              0x2005, 0x2006, 0x2007, 0x2008, 0x2009, 0x200A, 0x2028, 0x2029, 0x202F, 0x205F, 0x3000}
  {
  }
}
