/**
 * Workspace leases: which paths a child agent may write, when two leases are
 * in conflict, and what that guarantees about the files. Paths are
 * sequences of components below the lease root.
 */
module Leases {
  import opened Options
  import opened Text
  import opened WorkspacePaths
  import Sorting

  type Content = string

  datatype Access = Read | Write | Exclusive

  datatype LeasePath = LeasePath(path: Path, access: Access)

  datatype Lease = Lease(schemaVersion: nat, id: string, root: string, paths: seq<LeasePath>)

  const LEASE_SCHEMA_VERSION: nat := 1

  // ----- order of paths: by their text, as the lease sorts them -----

  predicate TextLe(a: string, b: string) {
    a == "" || (b != "" && (a[0] < b[0] || (a[0] == b[0] && TextLe(a[1..], b[1..]))))
  }

  predicate PathLe(x: LeasePath, y: LeasePath) {
    TextLe(Render(x.path), Render(y.path))
  }

  lemma {:induction false} TextLeTotal(a: string, b: string)
    ensures TextLe(a, b) || TextLe(b, a)
    ensures TextLe(a, b) && TextLe(b, a) ==> a == b
  {
    if a != "" && b != "" && a[0] == b[0] {
      TextLeTotal(a[1..], b[1..]);
      assert a == [a[0]] + a[1..] && b == [b[0]] + b[1..];
    }
  }

  lemma {:induction false} TextLeTransitive(a: string, b: string, c: string)
    requires TextLe(a, b) && TextLe(b, c)
    ensures TextLe(a, c)
  {
    if a != "" && a[0] == b[0] == c[0] {
      TextLeTransitive(a[1..], b[1..], c[1..]);
    }
  }

  /** A prefix comes first; else the first different character decides. */
  predicate ComesFirst(a: string, b: string) {
    a <= b || exists k :: 0 <= k < |a| && DecidesAt(a, b, k)
  }

  predicate DecidesAt(a: string, b: string, k: nat) {
    k < |a| && k < |b| && a[..k] == b[..k] && a[k] < b[k]
  }

  lemma DecidesBehind(c: char, a: string, b: string, k: nat)
    ensures DecidesAt([c] + a, [c] + b, k + 1) <==> DecidesAt(a, b, k)
    ensures !DecidesAt([c] + a, [c] + b, 0)
    ensures [c] + a <= [c] + b <==> a <= b
  {
    if k < |a| && k < |b| {
      assert ([c] + a)[..k + 1] == [c] + a[..k] && ([c] + b)[..k + 1] == [c] + b[..k];
      assert ([c] + a[..k])[1..] == a[..k] && ([c] + b[..k])[1..] == b[..k];
    }
    if [c] + a <= [c] + b {
      assert forall i :: 0 <= i < |a| ==> a[i] == ([c] + a)[i + 1] == ([c] + b)[i + 1] == b[i];
    }
  }

  lemma SameHeadComesFirst(c: char, a: string, b: string)
    ensures ComesFirst([c] + a, [c] + b) <==> ComesFirst(a, b)
  {
    hide DecidesAt;
    forall k: nat
      ensures DecidesAt([c] + a, [c] + b, k + 1) <==> DecidesAt(a, b, k)
    {
      DecidesBehind(c, a, b, k);
    }
    DecidesBehind(c, a, b, 0);
    if k :| 0 <= k < |a| && DecidesAt(a, b, k) {
      assert 0 <= k + 1 < |[c] + a| && DecidesAt([c] + a, [c] + b, k + 1);
    }
    if k :| 0 <= k < |[c] + a| && DecidesAt([c] + a, [c] + b, k) {
      var m: nat := k - 1;
      DecidesBehind(c, a, b, m);
      assert 0 <= m < |a| && DecidesAt(a, b, m);
    }
  }

  lemma OtherHeadDecides(a: string, b: string)
    requires a != "" && b != "" && a[0] != b[0]
    ensures ComesFirst(a, b) <==> a[0] < b[0]
  {
    assert DecidesAt(a, b, 0) <==> a[0] < b[0];
    forall k | 0 < k < |a|
      ensures !DecidesAt(a, b, k)
    {
      assert k < |b| ==> a[..k][0] == a[0] && b[..k][0] == b[0];
    }
  }

  /** The order of texts is the lexicographic one. */
  lemma {:induction false} TextLeExactlyWhen(a: string, b: string)
    ensures TextLe(a, b) <==> ComesFirst(a, b)
  {
    hide ComesFirst;
    if a == "" || b == "" {
      EmptyComesFirst(a, b);
    } else if a[0] == b[0] {
      TextLeExactlyWhen(a[1..], b[1..]);
      SameHeadComesFirst(a[0], a[1..], b[1..]);
      assert a == [a[0]] + a[1..] && b == [a[0]] + b[1..];
    } else {
      OtherHeadDecides(a, b);
    }
  }

  lemma EmptyComesFirst(a: string, b: string)
    requires a == "" || b == ""
    ensures ComesFirst(a, b) <==> a == ""
  {
  }

  lemma PathOrder()
    ensures Sorting.TotalPreorder(PathLe)
  {
    hide TextLe;
    forall x, y
      ensures PathLe(x, y) || PathLe(y, x)
    {
      TextLeTotal(Render(x.path), Render(y.path));
    }
    forall x, y, z | PathLe(x, y) && PathLe(y, z)
      ensures PathLe(x, z)
    {
      TextLeTransitive(Render(x.path), Render(y.path), Render(z.path));
    }
  }

  // ----- creating a lease -----

  function Strongest(x: Access, y: Access): Access {
    if x == Exclusive || y == Exclusive then Exclusive
    else if x == Write || y == Write then Write
    else Read
  }

  function Extend(m: map<Path, Access>, path: Path, access: Access): map<Path, Access> {
    m[path := if path in m then Strongest(m[path], access) else access]
  }

  /** The strongest access declared for each path. */
  function Declared(paths: seq<(Path, Access)>): map<Path, Access> {
    if paths == [] then map[]
    else
      Extend(Declared(paths[..|paths| - 1]), paths[|paths| - 1].0, paths[|paths| - 1].1)
  }

  ghost predicate DistinctPaths(ps: seq<LeasePath>) {
    forall i, j :: 0 <= i < j < |ps| ==> ps[i].path != ps[j].path
  }

  /** `ps` lists exactly the entries of `m`. */
  ghost predicate Lists(ps: seq<LeasePath>, m: map<Path, Access>) {
    && DistinctPaths(ps)
    && (forall i :: 0 <= i < |ps| ==> ps[i].path in m && m[ps[i].path] == ps[i].access)
    && (forall p :: p in m ==> exists i :: 0 <= i < |ps| && ps[i].path == p)
  }

  /** A lease holds every declared path once, with its strongest access, sorted by text. */
  ghost predicate Canonical(ps: seq<LeasePath>, declared: seq<(Path, Access)>) {
    Sorting.SortedBy(ps, PathLe) && Lists(ps, Declared(declared))
  }

  /** Every declared text as the path it stands for; `resolve` follows links below the root. */
  function Resolved(paths: seq<(string, Access)>, resolve: Path -> Option<Path>): seq<(Path, Access)>
    requires AllExact(paths, resolve)
  {
    seq(|paths|, i requires 0 <= i < |paths| => (NormalizeDeclared(paths[i].0, resolve).value, paths[i].1))
  }

  predicate AllExact(paths: seq<(string, Access)>, resolve: Path -> Option<Path>) {
    forall i :: 0 <= i < |paths| ==> NormalizeDeclared(paths[i].0, resolve).Some?
  }

  /** `root` is none when the given root is no directory that can be found. */
  method NewLease(id: string, root: Option<string>, paths: seq<(string, Access)>, resolve: Path -> Option<Path>)
      returns (r: Result<Lease>)
    ensures r.Ok? <==> Trim(id) != "" && root.Some? && paths != [] && AllExact(paths, resolve)
    ensures r.Ok? ==>
      && r.value.schemaVersion == 1 && r.value.id == id && r.value.root == root.value
      && Canonical(r.value.paths, Resolved(paths, resolve))
  {
    hide NormalizeDeclared;
    if Trim(id) == "" {
      return Err("workspace lease id must not be empty");
    }
    if root.None? {
      return Err("workspace lease root is not a directory");
    }
    if paths == [] {
      return Err("workspace lease must contain at least one exact path");
    }
    var normalized: seq<LeasePath> := [];
    assert Resolved([], resolve) == [];
    for i := 0 to |paths|
      invariant AllExact(paths[..i], resolve)
      invariant Lists(normalized, Declared(Resolved(paths[..i], resolve)))
    {
      var path := NormalizeDeclared(paths[i].0, resolve);
      if path.None? {
        return Err("workspace lease path is not an exact path below its root");
      }
      assert paths[..i + 1] == paths[..i] + [paths[i]];
      assert Resolved(paths[..i + 1], resolve) == Resolved(paths[..i], resolve) + [(path.value, paths[i].1)];
      DeclaredLast(Resolved(paths[..i], resolve), (path.value, paths[i].1));
      normalized := MergePath(normalized, path.value, paths[i].1, Declared(Resolved(paths[..i], resolve)));
    }
    assert paths[..|paths|] == paths;
    SortKeepsListing(normalized, Declared(Resolved(paths, resolve)));
    r := Ok(Lease(LEASE_SCHEMA_VERSION, id, root.value, Sorting.Sort(normalized, PathLe)));
  }

  /** Strengthens the entry of a path, or appends one. */
  method MergePath(entries: seq<LeasePath>, path: Path, access: Access, ghost m: map<Path, Access>)
      returns (r: seq<LeasePath>)
    requires Lists(entries, m)
    ensures Lists(r, Extend(m, path, access))
  {
    hide Lists;
    var k := 0;
    while k < |entries| && entries[k].path != path
      invariant 0 <= k <= |entries|
      invariant forall i :: 0 <= i < k ==> entries[i].path != path
    {
      k := k + 1;
    }
    if k < |entries| {
      r := entries[k := LeasePath(path, Strongest(entries[k].access, access))];
      StrengthenListed(entries, m, k, access);
    } else {
      r := entries + [LeasePath(path, access)];
      AppendListed(entries, m, path, access);
    }
  }

  lemma StrengthenListed(entries: seq<LeasePath>, m: map<Path, Access>, k: nat, access: Access)
    requires k < |entries| && Lists(entries, m)
    ensures var path := entries[k].path;
            Lists(entries[k := LeasePath(path, Strongest(entries[k].access, access))], Extend(m, path, access))
  {
    hide Strongest;
    var r := entries[k := LeasePath(entries[k].path, Strongest(entries[k].access, access))];
    forall p | p in m
      ensures exists i :: 0 <= i < |r| && r[i].path == p
    {
      var i :| 0 <= i < |entries| && entries[i].path == p;
      assert r[i].path == p;
    }
  }

  lemma AppendListed(entries: seq<LeasePath>, m: map<Path, Access>, path: Path, access: Access)
    requires Lists(entries, m) && forall i :: 0 <= i < |entries| ==> entries[i].path != path
    ensures Lists(entries + [LeasePath(path, access)], Extend(m, path, access))
  {
    hide Strongest;
    var r := entries + [LeasePath(path, access)];
    assert r[|entries|].path == path;
    assert path !in m;
    forall p | p in m
      ensures exists i :: 0 <= i < |r| && r[i].path == p
    {
      var i :| 0 <= i < |entries| && entries[i].path == p;
      assert r[i].path == p;
    }
  }

  function PathOf(e: LeasePath): Path {
    e.path
  }

  lemma SortKeepsListing(ps: seq<LeasePath>, m: map<Path, Access>)
    requires Lists(ps, m)
    ensures Lists(Sorting.Sort(ps, PathLe), m) && Sorting.SortedBy(Sorting.Sort(ps, PathLe), PathLe)
  {
    hide PathLe, Sorting.Sort;
    var sorted := Sorting.Sort(ps, PathLe);
    PathOrder();
    Sorting.SortIsSorted(ps, PathLe);
    Sorting.SameElements(ps, sorted);
    Sorting.DistinctRearranged(ps, sorted, PathOf);
    assert forall i, j :: 0 <= i < j < |sorted| ==> PathOf(sorted[i]) != PathOf(sorted[j]);
    forall i | 0 <= i < |sorted|
      ensures sorted[i].path in m && m[sorted[i].path] == sorted[i].access
    {
      assert sorted[i] in sorted;
      var k :| 0 <= k < |ps| && ps[k] == sorted[i];
    }
    forall p | p in m
      ensures exists i :: 0 <= i < |sorted| && sorted[i].path == p
    {
      var k :| 0 <= k < |ps| && ps[k].path == p;
      assert ps[k] in sorted;
      var i :| 0 <= i < |sorted| && sorted[i] == ps[k];
    }
  }

  /** The paths of a lease come in the order of their texts. */
  lemma CanonicalIsSorted(ps: seq<LeasePath>, declared: seq<(Path, Access)>, i: nat, j: nat)
    requires Canonical(ps, declared) && i < j < |ps|
    ensures ComesFirst(Render(ps[i].path), Render(ps[j].path))
  {
    hide ComesFirst, TextLe;
    assert PathLe(ps[i], ps[j]);
    TextLeExactlyWhen(Render(ps[i].path), Render(ps[j].path));
  }

  // ----- the order of declaration does not matter -----

  lemma ExtendSwaps(m: map<Path, Access>, x: (Path, Access), y: (Path, Access))
    ensures Extend(Extend(m, x.0, x.1), y.0, y.1) == Extend(Extend(m, y.0, y.1), x.0, x.1)
  {
  }

  lemma DeclaredLast(paths: seq<(Path, Access)>, last: (Path, Access))
    ensures Declared(paths + [last]) == Extend(Declared(paths), last.0, last.1)
  {
    assert (paths + [last])[..|paths|] == paths;
  }

  /** Any declaration may be taken last. */
  lemma {:induction false} DeclaredTake(paths: seq<(Path, Access)>, k: nat)
    requires k < |paths|
    ensures Declared(paths) == Extend(Declared(paths[..k] + paths[k + 1..]), paths[k].0, paths[k].1)
    decreases |paths|
  {
    hide Extend, Declared;
    var n := |paths| - 1;
    var init, last := paths[..n], paths[n];
    assert paths == init + [last];
    DeclaredLast(init, last);
    if k == n {
      assert paths[..k] + paths[k + 1..] == init;
    } else {
      DeclaredTake(init, k);
      var rest := init[..k] + init[k + 1..];
      assert paths[..k] == init[..k] && paths[k + 1..] == init[k + 1..] + [last];
      assert paths[..k] + paths[k + 1..] == rest + [last];
      DeclaredLast(rest, last);
      ExtendSwaps(Declared(rest), paths[k], last);
    }
  }

  lemma {:induction false} DeclaredRearranged(x: seq<(Path, Access)>, y: seq<(Path, Access)>)
    requires multiset(x) == multiset(y)
    ensures Declared(x) == Declared(y)
    decreases |x|
  {
    if x != [] {
      hide Extend, Declared;
      var init, last := x[..|x| - 1], x[|x| - 1];
      assert x == init + [last];
      var k := Sorting.TakeOut(init, last, y);
      DeclaredTake(y, k);
      DeclaredLast(init, last);
      DeclaredRearranged(init, y[..k] + y[k + 1..]);
    } else {
      assert |multiset(y)| == |y|;
    }
  }

  /** Two canonical listings of the same entries are the same list. */
  lemma {:induction false} CanonicalUnique(x: seq<LeasePath>, y: seq<LeasePath>, m: map<Path, Access>)
    requires Lists(x, m) && Lists(y, m) && forall p :: p in m ==> ProperParts(p)
    requires Sorting.SortedBy(x, PathLe) && Sorting.SortedBy(y, PathLe)
    ensures x == y
    decreases |x|
  {
    hide PathLe, ProperParts, Lists, Sorting.SortedBy;
    if x != [] && y != [] {
      var k := FindListed(x, y, m);
      var j := FindListed(y, x, m);
      SmallestFirst(x, j);
      SmallestFirst(y, k);
      FirstListed(x, m);
      FirstListed(y, m);
      SameText(x[0], y[0], x[j], y[k]);
      DropFirst(x, m);
      DropFirst(y, m);
      CanonicalUnique(x[1..], y[1..], m - {x[0].path});
      assert x == [x[0]] + x[1..] && y == [y[0]] + y[1..];
    } else {
      SameSize(x, y, m);
    }
  }

  lemma FirstListed(x: seq<LeasePath>, m: map<Path, Access>)
    requires x != [] && Lists(x, m)
    ensures x[0].path in m && x[0] == LeasePath(x[0].path, m[x[0].path])
  {
  }

  /** Where `y` has the first path of `x`. */
  lemma FindListed(x: seq<LeasePath>, y: seq<LeasePath>, m: map<Path, Access>) returns (k: nat)
    requires x != [] && Lists(x, m) && Lists(y, m)
    ensures k < |y| && y[k].path == x[0].path
  {
    assert x[0].path in m;
    k :| 0 <= k < |y| && y[k].path == x[0].path;
  }

  lemma SameSize(x: seq<LeasePath>, y: seq<LeasePath>, m: map<Path, Access>)
    requires Lists(x, m) && Lists(y, m)
    ensures x == [] <==> y == []
  {
    assert x != [] ==> x[0].path in m;
    assert y != [] ==> y[0].path in m;
  }

  lemma SmallestFirst(x: seq<LeasePath>, k: nat)
    requires k < |x| && Sorting.SortedBy(x, PathLe)
    ensures PathLe(x[0], x[k])
  {
    if k == 0 {
      TextLeTotal(Render(x[0].path), Render(x[0].path));
    }
  }

  /** Entries that are below each other's paths have the same path. */
  lemma SameText(x: LeasePath, y: LeasePath, likeY: LeasePath, likeX: LeasePath)
    requires PathLe(x, likeY) && PathLe(y, likeX)
    requires likeX.path == x.path && likeY.path == y.path && ProperParts(x.path) && ProperParts(y.path)
    ensures x.path == y.path
  {
    TextLeTotal(Render(x.path), Render(y.path));
    RenderInjective(x.path, y.path);
  }

  lemma DropFirst(x: seq<LeasePath>, m: map<Path, Access>)
    requires x != [] && Lists(x, m) && Sorting.SortedBy(x, PathLe)
    ensures Lists(x[1..], m - {x[0].path}) && Sorting.SortedBy(x[1..], PathLe)
  {
    hide PathLe;
    var rest := x[1..];
    assert forall i :: 0 <= i < |rest| ==> rest[i] == x[i + 1];
    forall p | p in m - {x[0].path}
      ensures exists i :: 0 <= i < |rest| && rest[i].path == p
    {
      var i :| 0 <= i < |x| && x[i].path == p;
      assert rest[i - 1].path == p;
    }
  }

  lemma {:induction false} DeclaredKeys(paths: seq<(Path, Access)>)
    requires forall i :: 0 <= i < |paths| ==> ProperParts(paths[i].0)
    ensures forall p :: p in Declared(paths) ==> ProperParts(p)
  {
    if paths != [] {
      DeclaredKeys(paths[..|paths| - 1]);
    }
  }

  lemma {:induction false} ResolvedRearranged(x: seq<(string, Access)>, y: seq<(string, Access)>,
                                             resolve: Path -> Option<Path>)
    requires multiset(x) == multiset(y) && AllExact(x, resolve)
    ensures AllExact(y, resolve) && multiset(Resolved(x, resolve)) == multiset(Resolved(y, resolve))
    decreases |x|
  {
    hide NormalizeDeclared;
    if x != [] {
      var init, last := x[..|x| - 1], x[|x| - 1];
      assert x == init + [last];
      var k := Sorting.TakeOut(init, last, y);
      var others := y[..k] + y[k + 1..];
      ResolvedRearranged(init, others, resolve);
      TakenIsExact(y, k, resolve);
      ResolvedTake(x, |x| - 1, resolve);
      assert x[..|x| - 1] + x[|x| - 1 + 1..] == init;
      ResolvedTake(y, k, resolve);
    } else {
      assert |multiset(y)| == |y|;
    }
  }

  lemma TakenIsExact(y: seq<(string, Access)>, k: nat, resolve: Path -> Option<Path>)
    requires k < |y| && AllExact(y[..k] + y[k + 1..], resolve) && NormalizeDeclared(y[k].0, resolve).Some?
    ensures AllExact(y, resolve)
  {
    hide NormalizeDeclared;
    var others := y[..k] + y[k + 1..];
    forall i | 0 <= i < |y|
      ensures NormalizeDeclared(y[i].0, resolve).Some?
    {
      if i < k {
        assert others[i] == y[i];
      } else if i > k {
        assert others[i - 1] == y[i];
      }
    }
  }

  lemma ResolvedTake(y: seq<(string, Access)>, k: nat, resolve: Path -> Option<Path>)
    requires k < |y| && AllExact(y, resolve) && AllExact(y[..k] + y[k + 1..], resolve)
    ensures multiset(Resolved(y, resolve))
            == multiset(Resolved(y[..k] + y[k + 1..], resolve)) + multiset{Resolved(y, resolve)[k]}
    ensures Resolved(y, resolve)[k] == (NormalizeDeclared(y[k].0, resolve).value, y[k].1)
  {
    hide NormalizeDeclared;
    var all, others := Resolved(y, resolve), Resolved(y[..k] + y[k + 1..], resolve);
    assert others == all[..k] + all[k + 1..];
    hide Resolved, AllExact;
    assert all == all[..k] + [all[k]] + all[k + 1..];
  }

  /** A lease does not depend on the order in which its paths were declared. */
  lemma DeclarationOrderIrrelevant(x: seq<(string, Access)>, y: seq<(string, Access)>, resolve: Path -> Option<Path>,
                                   xs: seq<LeasePath>, ys: seq<LeasePath>)
    requires multiset(x) == multiset(y) && AllExact(x, resolve) && AllExact(y, resolve)
    requires Canonical(xs, Resolved(x, resolve)) && Canonical(ys, Resolved(y, resolve))
    requires forall p :: resolve(p).Some? ==> ProperParts(resolve(p).value)
    ensures xs == ys
  {
    hide NormalizeRelative;
    ResolvedRearranged(x, y, resolve);
    DeclaredKeys(Resolved(x, resolve));
    DeclaredRearranged(Resolved(x, resolve), Resolved(y, resolve));
    CanonicalUnique(xs, ys, Declared(Resolved(x, resolve)));
  }

  // ----- authorisation and conflict -----

  predicate Writable(access: Access) {
    access == Write || access == Exclusive
  }

  /** Component-wise prefix, in either direction. */
  predicate Overlap(x: Path, y: Path) {
    x <= y || y <= x
  }

  predicate ConflictsWith(a: Lease, b: Lease) {
    a.root != b.root
    || exists i, j :: 0 <= i < |a.paths| && 0 <= j < |b.paths|
         && Overlap(a.paths[i].path, b.paths[j].path)
         && (a.paths[i].access != Read || b.paths[j].access != Read)
  }

  predicate MayWrite(lease: Lease, path: Path) {
    exists i :: 0 <= i < |lease.paths| && lease.paths[i].path == path && Writable(lease.paths[i].access)
  }

  predicate Complete(lease: Lease) {
    && lease.schemaVersion == LEASE_SCHEMA_VERSION && Trim(lease.id) != "" && lease.paths != []
    && forall i :: 0 <= i < |lease.paths| ==> NormalPath(lease.paths[i].path)
  }

  /** The target of a file tool under a lease; other tools are not the lease's business. */
  function ResolveAuthorized(lease: Lease, toolName: string, requested: Option<Path>): Result<Option<Path>> {
    if toolName != "file_write" && toolName != "file_edit" then Ok(None)
    else if !Complete(lease) then Err("workspace lease is incomplete")
    else if requested.None? then Err("a path is required for workspace lease validation")
    else if MayWrite(lease, requested.value) then Ok(requested)
    else Err("workspace lease does not authorize this exact path")
  }

  /** The file tools are refused under a lease that is not complete; all other tools pass untouched. */
  lemma AuthorizationLimits(lease: Lease, toolName: string, requested: Option<Path>)
    ensures toolName !in {"file_write", "file_edit"} ==> ResolveAuthorized(lease, toolName, requested) == Ok(None)
    ensures toolName in {"file_write", "file_edit"} && requested.None? ==>
      ResolveAuthorized(lease, toolName, requested).Err?
    ensures toolName in {"file_write", "file_edit"}
            && (lease.schemaVersion != 1 || Trim(lease.id) == "" || lease.paths == []
                || exists i :: 0 <= i < |lease.paths| && !NormalPath(lease.paths[i].path)) ==>
      ResolveAuthorized(lease, toolName, requested).Err?
    ensures Complete(lease)
            <==> lease.schemaVersion == 1 && Trim(lease.id) != "" && lease.paths != []
                 && forall i :: 0 <= i < |lease.paths| ==> NormalPath(lease.paths[i].path)
  {
  }

  lemma ConflictIsSymmetric(a: Lease, b: Lease)
    ensures ConflictsWith(a, b) <==> ConflictsWith(b, a)
  {
  }

  // ----- what the file tools do -----

  /** The files and the directories below the root. */
  datatype Workspace = Workspace(files: map<Path, Content>, dirs: set<Path>)

  /**
   * A file tool call. `update` gives the new content from the present one, or
   * refuses; an edit needs the file to exist, a write creates the directories.
   */
  datatype FileOp =
    | FileWrite(path: Path, update: Option<Content> -> Option<Content>)
    | FileEdit(path: Path, update: Option<Content> -> Option<Content>)

  function ToolName(op: FileOp): string {
    if op.FileWrite? then "file_write" else "file_edit"
  }

  predicate Authorizes(lease: Lease, op: FileOp) {
    ResolveAuthorized(lease, ToolName(op), Some(op.path)) == Ok(Some(op.path))
  }

  function ContentOf(ws: Workspace, path: Path): Option<Content> {
    if path in ws.files then Some(ws.files[path]) else None
  }

  /** Some proper ancestor of the path is a file. */
  predicate Blocked(ws: Workspace, path: Path) {
    exists k :: 0 < k < |path| && path[..k] in ws.files
  }

  /** The ancestors that can be created: those above the first one that is a file. */
  function Ancestors(ws: Workspace, path: Path): set<Path> {
    set k | 0 < k < |path| && (forall j :: 0 < j <= k ==> path[..j] !in ws.files) :: path[..k]
  }

  /** The workspace with these directories, and with this content at the path if there is any. */
  function Amended(ws: Workspace, path: Path, content: Option<Content>, dirs: set<Path>): Workspace {
    Workspace(if content.None? then ws.files else ws.files[path := content.value], ws.dirs + dirs)
  }

  /** Whether the call succeeds, and with what content. */
  function Outcome(ws: Workspace, op: FileOp): Option<Content> {
    if op.FileWrite? && (Blocked(ws, op.path) || op.path in ws.dirs) then None
    else if op.FileEdit? && op.path !in ws.files then None
    else op.update(ContentOf(ws, op.path))
  }

  /** Writing creates the missing directories even when it then fails; editing creates none. */
  function Apply(ws: Workspace, op: FileOp): Workspace {
    Amended(ws, op.path, Outcome(ws, op), if op.FileWrite? then Ancestors(ws, op.path) else {})
  }

  function Run(ws: Workspace, ops: seq<FileOp>): Workspace {
    if ops == [] then ws else Apply(Run(ws, ops[..|ops| - 1]), ops[|ops| - 1])
  }

  function Outcomes(ws: Workspace, ops: seq<FileOp>): seq<Option<Content>> {
    if ops == [] then []
    else Outcomes(ws, ops[..|ops| - 1]) + [Outcome(Run(ws, ops[..|ops| - 1]), ops[|ops| - 1])]
  }

  // ----- writes under leases that do not conflict commute -----

  /** What an operation reads is untouched by one on a path that does not overlap. */
  lemma ReadsUntouched(ws: Workspace, op: FileOp, other: FileOp)
    requires !Overlap(op.path, other.path)
    ensures var after := Apply(ws, other);
            && ContentOf(after, op.path) == ContentOf(ws, op.path)
            && Blocked(after, op.path) == Blocked(ws, op.path)
            && Ancestors(after, op.path) == Ancestors(ws, op.path)
            && (op.path in after.dirs <==> op.path in ws.dirs)
            && Outcome(after, op) == Outcome(ws, op)
  {
    var after := Apply(ws, other);
    forall k | 0 < k <= |op.path|
      ensures op.path[..k] in after.files <==> op.path[..k] in ws.files
    {
      assert op.path[..k] != other.path by {
        assert op.path[..k] <= op.path;
      }
    }
    assert op.path[..|op.path|] == op.path;
    forall k | 0 < k < |other.path|
      ensures other.path[..k] != op.path
    {
      assert other.path[..k] <= other.path;
    }
  }

  // ----- what a conflict is -----

  /** The lease names the path, with whatever access. */
  predicate Declares(lease: Lease, path: Path) {
    exists i :: 0 <= i < |lease.paths| && lease.paths[i].path == path
  }

  /** What can be seen of a path: its content, whether a file stands in its way, and whether it is a directory. */
  datatype View = View(content: Option<Content>, blocked: bool, directory: bool)

  function ViewOf(ws: Workspace, path: Path): View {
    View(ContentOf(ws, path), Blocked(ws, path), path in ws.dirs)
  }

  lemma ViewUntouched(ws: Workspace, path: Path, other: FileOp)
    requires !Overlap(path, other.path)
    ensures ViewOf(Apply(ws, other), path) == ViewOf(ws, path)
  {
    hide Apply, Blocked, ContentOf;
    ReadsUntouched(ws, FileEdit(path, content => content), other);
  }

  lemma {:induction false} RunUntouched(ws: Workspace, path: Path, ops: seq<FileOp>)
    requires forall op :: op in ops ==> !Overlap(path, op.path)
    ensures ViewOf(Run(ws, ops), path) == ViewOf(ws, path)
  {
    hide Apply, ViewOf, Overlap;
    if ops != [] {
      var init := ops[..|ops| - 1];
      RunUntouched(ws, path, init);
      ViewUntouched(Run(ws, init), path, ops[|ops| - 1]);
    }
  }

  /** Without a conflict, nothing one lease authorises is seen at any path the other declares, read ones included. */
  lemma NoConflictHidesWrites(a: Lease, b: Lease, ws: Workspace, ops: seq<FileOp>, path: Path)
    requires !ConflictsWith(a, b) && Declares(a, path)
    requires forall op :: op in ops ==> Authorizes(b, op)
    ensures ViewOf(Run(ws, ops), path) == ViewOf(ws, path)
  {
    hide ViewOf, Run;
    forall op | op in ops
      ensures !Overlap(path, op.path)
    {
      assert MayWrite(b, op.path);
    }
    RunUntouched(ws, path, ops);
  }

  /** Something the writer is authorised to do can be seen at a path the other lease declares. */
  ghost predicate Disturbs(writer: Lease, other: Lease) {
    exists ws, op, path ::
      Authorizes(writer, op) && Declares(other, path) && ViewOf(Apply(ws, op), path) != ViewOf(ws, path)
  }

  lemma DisturbingConflicts(writer: Lease, other: Lease)
    requires Disturbs(writer, other)
    ensures ConflictsWith(writer, other)
  {
    hide Apply, ViewOf, Overlap;
    var ws, op, path :|
      Authorizes(writer, op) && Declares(other, path) && ViewOf(Apply(ws, op), path) != ViewOf(ws, path);
    if !Overlap(path, op.path) {
      ViewUntouched(ws, path, op);
    }
    OverlapSymmetric(path, op.path);
    assert MayWrite(writer, op.path);
  }

  /** Writing a file in an empty workspace is seen at the path, below it and above it. */
  lemma WriteIsSeen(x: Path, path: Path)
    requires Overlap(x, path) && x != [] && path != []
    ensures var empty := Workspace(map[], {});
            ViewOf(Apply(empty, Put(x, "x")), path) != ViewOf(empty, path)
  {
    var empty := Workspace(map[], {});
    var after := Apply(empty, Put(x, "x"));
    assert !Blocked(empty, x) && !Blocked(empty, path);
    assert after.files == map[x := "x"];
    if x <= path {
      assert path[..|x|] == x;
      assert x != path ==> Blocked(after, path);
    } else {
      assert x[..|path|] == path;
      assert path in Ancestors(empty, x);
    }
  }

  lemma WritableOverlapDisturbs(writer: Lease, other: Lease, x: Path, path: Path)
    requires Complete(writer) && Complete(other) && MayWrite(writer, x) && Declares(other, path) && Overlap(x, path)
    ensures Disturbs(writer, other)
  {
    hide Apply, ViewOf, MayWrite, Authorizes;
    WritableIsAuthorized(writer, x, "x");
    WriteIsSeen(x, path);
  }

  /**
   * Two complete leases conflict exactly when they are for different roots or
   * something one of them authorises can be seen at a path the other declares.
   */
  lemma ConflictExactlyWhen(a: Lease, b: Lease)
    requires Complete(a) && Complete(b)
    ensures ConflictsWith(a, b) <==> a.root != b.root || Disturbs(a, b) || Disturbs(b, a)
  {
    hide Disturbs, Complete, Overlap;
    if Disturbs(a, b) {
      DisturbingConflicts(a, b);
    }
    if Disturbs(b, a) {
      DisturbingConflicts(b, a);
      ConflictIsSymmetric(a, b);
    }
    if ConflictsWith(a, b) && a.root == b.root {
      var i, j :| 0 <= i < |a.paths| && 0 <= j < |b.paths|
        && Overlap(a.paths[i].path, b.paths[j].path)
        && (a.paths[i].access != Read || b.paths[j].access != Read);
      OverlapSymmetric(a.paths[i].path, b.paths[j].path);
      if a.paths[i].access != Read {
        WritableOverlapDisturbs(a, b, a.paths[i].path, b.paths[j].path);
      } else {
        WritableOverlapDisturbs(b, a, b.paths[j].path, a.paths[i].path);
      }
    }
  }

  // ----- what a lease grants -----

  lemma {:induction false} DeclaredAccess(paths: seq<(Path, Access)>, p: Path)
    ensures p in Declared(paths) <==> exists k :: 0 <= k < |paths| && paths[k].0 == p
    ensures p in Declared(paths) ==>
      && (Declared(paths)[p] == Read <==> forall k :: 0 <= k < |paths| && paths[k].0 == p ==> paths[k].1 == Read)
      && (Declared(paths)[p] == Exclusive <==> (p, Exclusive) in paths)
  {
    if paths != [] {
      var init, last := paths[..|paths| - 1], paths[|paths| - 1];
      DeclaredAccess(init, p);
      assert paths == init + [last] && last == (last.0, last.1);
      assert forall k :: 0 <= k < |init| ==> paths[k] == init[k];
      if last.0 == p {
        assert paths[|paths| - 1].0 == p;
      }
    }
  }

  /** A new lease authorises the file tools on exactly the paths that some declaration asks to write or to hold alone. */
  lemma GrantsExactlyDeclared(lease: Lease, paths: seq<(Path, Access)>, op: FileOp)
    requires Complete(lease) && Canonical(lease.paths, paths)
    ensures Authorizes(lease, op) <==> exists k :: 0 <= k < |paths| && paths[k].0 == op.path && paths[k].1 != Read
  {
    hide Complete;
    DeclaredAccess(paths, op.path);
    if MayWrite(lease, op.path) {
      assert op.path in Declared(paths);
    }
    if k :| 0 <= k < |paths| && paths[k].0 == op.path && paths[k].1 != Read {
      var i :| 0 <= i < |lease.paths| && lease.paths[i].path == op.path;
    }
  }

  lemma OperationsCommute(ws: Workspace, x: FileOp, y: FileOp)
    requires !Overlap(x.path, y.path)
    ensures Apply(Apply(ws, x), y) == Apply(Apply(ws, y), x)
  {
    hide Blocked, Outcome, Ancestors, Overlap, Amended;
    ReadsUntouched(ws, x, y);
    OverlapSymmetric(x.path, y.path);
    ReadsUntouched(ws, y, x);
    assert x.path != y.path by {
      OverlapReflexive(x.path);
    }
    AmendmentsCommute(ws, x.path, Outcome(ws, x), if x.FileWrite? then Ancestors(ws, x.path) else {},
                      y.path, Outcome(ws, y), if y.FileWrite? then Ancestors(ws, y.path) else {});
  }

  lemma AmendmentsCommute(ws: Workspace, p: Path, c: Option<Content>, ps: set<Path>,
                          q: Path, d: Option<Content>, qs: set<Path>)
    requires p != q
    ensures Amended(Amended(ws, p, c, ps), q, d, qs) == Amended(Amended(ws, q, d, qs), p, c, ps)
  {
  }

  lemma OverlapSymmetric(x: Path, y: Path)
    ensures Overlap(x, y) <==> Overlap(y, x)
  {
  }

  lemma OverlapReflexive(x: Path)
    ensures Overlap(x, x)
  {
  }

  /** An operation may be moved in front of any number of operations that do not overlap it. */
  lemma {:induction false} MovesToFront(ws: Workspace, op: FileOp, others: seq<FileOp>)
    requires forall i :: 0 <= i < |others| ==> !Overlap(op.path, others[i].path)
    ensures Apply(Run(ws, others), op) == Run(Apply(ws, op), others)
    ensures Outcome(Run(ws, others), op) == Outcome(ws, op)
    ensures Outcomes(Apply(ws, op), others) == Outcomes(ws, others)
    decreases |others|
  {
    if others != [] {
      hide Apply, Outcome, Overlap;
      var init, last := others[..|others| - 1], others[|others| - 1];
      MovesToFront(ws, op, init);
      OperationsCommute(Run(ws, init), last, op) by {
        OverlapSymmetric(op.path, last.path);
      }
      ReadsUntouched(Run(ws, init), op, last);
      OverlapSymmetric(op.path, last.path);
      ReadsUntouched(Run(ws, init), last, op);
    }
  }

  /** One step of an interleaving: which lease's agent makes the call. */
  datatype Step = Step(left: bool, op: FileOp)

  function OpsOf(steps: seq<Step>, left: bool): seq<FileOp> {
    if steps == [] then []
    else
      var earlier, last := OpsOf(steps[..|steps| - 1], left), steps[|steps| - 1];
      if last.left == left then earlier + [last.op] else earlier
  }

  function AllOps(steps: seq<Step>): seq<FileOp> {
    if steps == [] then [] else AllOps(steps[..|steps| - 1]) + [steps[|steps| - 1].op]
  }

  /** The outcomes that one side sees in an interleaving. */
  function OutcomesOf(ws: Workspace, steps: seq<Step>, left: bool): seq<Option<Content>> {
    if steps == [] then []
    else
      var init, last := steps[..|steps| - 1], steps[|steps| - 1];
      var earlier := OutcomesOf(ws, init, left);
      if last.left == left then earlier + [Outcome(Run(ws, AllOps(init)), last.op)] else earlier
  }

  lemma RunLast(ws: Workspace, ops: seq<FileOp>, op: FileOp)
    ensures Run(ws, ops + [op]) == Apply(Run(ws, ops), op)
    ensures Outcomes(ws, ops + [op]) == Outcomes(ws, ops) + [Outcome(Run(ws, ops), op)]
  {
    assert (ops + [op])[..|ops|] == ops;
  }

  ghost predicate Apart(xs: seq<FileOp>, ys: seq<FileOp>) {
    forall x, y :: x in xs && y in ys ==> !Overlap(x.path, y.path)
  }

  /** Every interleaving leaves what one side after the other leaves, with the same outcomes. */
  lemma {:induction false} InterleavingIsSequential(ws: Workspace, steps: seq<Step>)
    requires Apart(OpsOf(steps, true), OpsOf(steps, false))
    ensures Run(ws, AllOps(steps)) == Run(Run(ws, OpsOf(steps, true)), OpsOf(steps, false))
    ensures OutcomesOf(ws, steps, true) == Outcomes(ws, OpsOf(steps, true))
    ensures OutcomesOf(ws, steps, false) == Outcomes(Run(ws, OpsOf(steps, true)), OpsOf(steps, false))
    decreases |steps|
  {
    if steps != [] {
      hide Apply, Outcome, Overlap;
      var init, last := steps[..|steps| - 1], steps[|steps| - 1];
      var lefts, rights := OpsOf(init, true), OpsOf(init, false);
      InterleavingIsSequential(ws, init);
      RunLast(ws, AllOps(init), last.op);
      if last.left {
        assert forall i :: 0 <= i < |rights| ==> rights[i] in OpsOf(steps, false);
        assert last.op in OpsOf(steps, true);
        MovesToFront(Run(ws, lefts), last.op, rights);
        RunLast(ws, lefts, last.op);
      } else {
        RunLast(Run(ws, lefts), rights, last.op);
      }
    }
  }

  /** Operations authorised by leases that do not conflict touch paths that do not overlap. */
  lemma NoConflictKeepsApart(a: Lease, b: Lease, xs: seq<FileOp>, ys: seq<FileOp>)
    requires !ConflictsWith(a, b)
    requires forall x :: x in xs ==> Authorizes(a, x)
    requires forall y :: y in ys ==> Authorizes(b, y)
    ensures Apart(xs, ys)
  {
    forall x, y | x in xs && y in ys
      ensures !Overlap(x.path, y.path)
    {
      assert MayWrite(a, x.path) && MayWrite(b, y.path);
    }
  }

  /**
   * If two leases do not conflict, every interleaving of operations they
   * authorise leaves the workspace, and gives every call the outcome, of
   * running one lease's operations and then the other's.
   */
  lemma NoConflictMeansIsolation(a: Lease, b: Lease, ws: Workspace, steps: seq<Step>)
    requires !ConflictsWith(a, b)
    requires forall x :: x in OpsOf(steps, true) ==> Authorizes(a, x)
    requires forall y :: y in OpsOf(steps, false) ==> Authorizes(b, y)
    ensures Run(ws, AllOps(steps)) == Run(Run(ws, OpsOf(steps, true)), OpsOf(steps, false))
    ensures OutcomesOf(ws, steps, true) == Outcomes(ws, OpsOf(steps, true))
    ensures OutcomesOf(ws, steps, false) == Outcomes(Run(ws, OpsOf(steps, true)), OpsOf(steps, false))
  {
    NoConflictKeepsApart(a, b, OpsOf(steps, true), OpsOf(steps, false));
    InterleavingIsSequential(ws, steps);
  }

  // ----- and only those -----

  function Put(path: Path, content: Content): FileOp {
    FileWrite(path, (previous: Option<Content>) => Some(content))
  }

  /** Writes to overlapping paths depend on their order, even for a path inside the other. */
  lemma OverlappingWritesClash(x: Path, y: Path)
    requires x <= y && x != []
    ensures var empty := Workspace(map[], {});
            Apply(Apply(empty, Put(x, "x")), Put(y, "y")) != Apply(Apply(empty, Put(y, "y")), Put(x, "x"))
  {
    var empty := Workspace(map[], {});
    var wx, wy := Put(x, "x"), Put(y, "y");
    var first, second := Apply(empty, wx), Apply(empty, wy);
    assert !Blocked(empty, x) && !Blocked(empty, y);
    assert first.files == map[x := "x"] && second.files == map[y := "y"];
    if x == y {
      assert "x" != "y";
      assert x !in first.dirs && x !in second.dirs by {
        assert forall k :: 0 < k < |x| ==> |x[..k]| < |x|;
      }
      assert !Blocked(first, x) && !Blocked(second, x) by {
        assert forall k :: 0 < k < |x| ==> |x[..k]| < |x|;
      }
      assert Apply(first, wy).files[x] == "y" && Apply(second, wx).files[x] == "x";
    } else {
      assert y[..|x|] == x;
      assert Blocked(first, y);
      assert x in Ancestors(empty, y);
      assert x in second.dirs;
      assert Apply(first, wy).files == first.files && Apply(second, wx).files == second.files;
      assert x in first.files && x !in second.files;
    }
  }

  /** Writable paths of the two leases that overlap. */
  ghost predicate WritesOverlap(a: Lease, b: Lease) {
    exists x: Path, y: Path :: MayWrite(a, x) && MayWrite(b, y) && Overlap(x, y)
  }

  /** All pairs of authorised operations commute in all workspaces. */
  ghost predicate WritesCommute(a: Lease, b: Lease) {
    forall ws: Workspace, x: FileOp, y: FileOp :: Authorizes(a, x) && Authorizes(b, y) ==>
      Apply(Apply(ws, x), y) == Apply(Apply(ws, y), x)
  }

  lemma WritableIsAuthorized(lease: Lease, path: Path, content: Content)
    requires Complete(lease) && MayWrite(lease, path)
    ensures Authorizes(lease, Put(path, content)) && path != []
  {
  }

  lemma OverlapBreaksCommuting(a: Lease, b: Lease)
    requires Complete(a) && Complete(b) && WritesOverlap(a, b)
    ensures !WritesCommute(a, b)
  {
    hide Apply, Complete, MayWrite, Authorizes;
    var x: Path, y: Path :| MayWrite(a, x) && MayWrite(b, y) && Overlap(x, y);
    var fx, fy := if x <= y then "x" else "y", if x <= y then "y" else "x";
    WritableIsAuthorized(a, x, fx);
    WritableIsAuthorized(b, y, fy);
    if x <= y {
      OverlappingWritesClash(x, y);
    } else {
      OverlappingWritesClash(y, x);
    }
  }

  /** For complete leases on one root: authorised writes commute exactly when no writable paths overlap. */
  lemma CommuteExactlyWhenApart(a: Lease, b: Lease)
    requires Complete(a) && Complete(b) && a.root == b.root
    ensures WritesCommute(a, b) <==> !WritesOverlap(a, b)
    ensures !ConflictsWith(a, b) ==> WritesCommute(a, b)
  {
    hide Apply, Complete;
    if WritesOverlap(a, b) {
      OverlapBreaksCommuting(a, b);
    } else {
      forall ws, x, y | Authorizes(a, x) && Authorizes(b, y)
        ensures Apply(Apply(ws, x), y) == Apply(Apply(ws, y), x)
      {
        OperationsCommute(ws, x, y);
      }
    }
  }
}
