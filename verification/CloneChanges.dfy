/** The changes of a cloned working tree against its base, from the manifest of
    the base's paths and a walk over the clone. */
module CloneChanges {
  import opened Requests

  type Path = seq<string>

  /** A file system tree; a whiteout is a character device with number 0:0. */
  datatype Tree = File(content: string) | Dir(entries: Entries) | Whiteout
  datatype Entries = Nil | Cons(name: string, node: Tree, rest: Entries)

  datatype Kind = Added | Modified | Deleted
  datatype Change = Change(path: Path, kind: Kind)

  // ---- Paths in a tree --------------------------------------------------------------

  function Lookup(t: Tree, p: Path): Option<Tree> {
    if p == [] then Some(t)
    else if t.Dir? then Find(t.entries, p) else None
  }

  function Find(es: Entries, p: Path): Option<Tree>
    requires p != []
  {
    match es
    case Nil => None
    case Cons(name, node, rest) => if name == p[0] then Lookup(node, p[1..]) else Find(rest, p)
  }

  predicate Exists(t: Tree, p: Path) {
    Lookup(t, p).Some?
  }

  predicate HasName(es: Entries, name: string) {
    es.Cons? && (es.name == name || HasName(es.rest, name))
  }

  predicate IsWhiteoutName(name: string) {
    |name| >= 4 && name[..4] == ".wh."
  }

  /** A tree with distinct names in each directory and no whiteouts of either kind. */
  predicate Plain(t: Tree) {
    match t
    case File(_) => true
    case Whiteout => false
    case Dir(es) => PlainEntries(es)
  }

  predicate PlainEntries(es: Entries) {
    es.Cons? ==>
      !HasName(es.rest, es.name) && !IsWhiteoutName(es.name) && Plain(es.node) && PlainEntries(es.rest)
  }

  lemma {:induction false} ParentsExist(t: Tree, p: Path, k: nat)
    requires Exists(t, p) && k <= |p|
    ensures Exists(t, p[..k])
    decreases t
  {
    if 0 < k { ParentsExistIn(t.entries, p, k); }
  }

  lemma {:induction false} ParentsExistIn(es: Entries, p: Path, k: nat)
    requires 0 < k <= |p| && Find(es, p).Some?
    ensures Find(es, p[..k]).Some?
    decreases es
  {
    if es.name == p[0] {
      ParentsExist(es.node, p[1..], k - 1);
      assert p[1..][..k - 1] == p[..k][1..];
    } else {
      ParentsExistIn(es.rest, p, k);
    }
  }

  // ---- The walk -------------------------------------------------------------------------

  predicate Differ(u: Tree, b: Tree) {
    if u.File? && b.File? then u.content != b.content else u.Dir? != b.Dir?
  }

  /** What the walk says about a path with node `u` in the clone and `b` in the
      base. */
  function KindOf(u: Tree, b: Option<Tree>): Option<Kind> {
    if b.None? then Some(Added)
    else if !u.Dir? && Differ(u, b.value) then Some(Modified) else None
  }

  function Report(p: Path, kind: Option<Kind>): seq<Change> {
    if kind.Some? then [Change(p, kind.value)] else []
  }

  function Scan(es: Entries, base: Tree, rel: Path): seq<Change>
    decreases es, 1
  {
    match es
    case Nil => []
    case Cons(_, _, rest) => ScanOne(es, base, rel) + Scan(rest, base, rel)
  }

  /** What the first entry contributes. */
  function ScanOne(es: Entries, base: Tree, rel: Path): seq<Change>
    requires es.Cons?
    decreases es, 0
  {
    var p := rel + [es.name];
    if IsWhiteoutName(es.name) then [Change(rel + [es.name[4..]], Deleted)]
    else if es.node.Whiteout? then [Change(p, Deleted)]
    else
      Report(p, KindOf(es.node, Lookup(base, p)))
      + if es.node.Dir? then Scan(es.node.entries, base, p) else []
  }

  // ---- Deletions ------------------------------------------------------------------------

  ghost predicate HasAncestorIn(p: Path, deleted: set<Path>) {
    exists k | 0 < k < |p| :: p[..k] in deleted
  }

  /** The deletions reported for the first `n` paths of the manifest. */
  ghost function Deletions(manifest: seq<Path>, n: nat, upper: Tree): seq<Path>
    requires n <= |manifest|
  {
    if n == 0 then []
    else
      var before := Deletions(manifest, n - 1, upper);
      var p := manifest[n - 1];
      if HasAncestorIn(p, ToSet(before)) || Exists(upper, p) then before else before + [p]
  }

  ghost function ToSet(s: seq<Path>): set<Path> {
    set p | p in s
  }

  ghost function AsDeleted(ds: seq<Path>): seq<Change> {
    if ds == [] then [] else AsDeleted(ds[..|ds| - 1]) + [Change(ds[|ds| - 1], Deleted)]
  }

  /** The list and the set that the functions of the original share. */
  class ChangeLog {
    var changes: seq<Change>
    var deletedAncestors: set<Path>

    constructor ()
      ensures changes == [] && deletedAncestors == {}
    {
      changes, deletedAncestors := [], {};
    }

    method HasDeletedAncestor(p: Path) returns (yes: bool)
      ensures yes <==> HasAncestorIn(p, deletedAncestors)
    {
      var k: int := |p| - 1;
      while k > 0
        invariant -1 <= k < |p|
        invariant forall j | k < j < |p| :: p[..j] !in deletedAncestors
      {
        if p[..k] in deletedAncestors { return true; }
        k := k - 1;
      }
      return false;
    }

    method RecordDeletions(manifest: seq<Path>, upper: Tree)
      requires changes == [] && deletedAncestors == {}
      modifies this
      ensures changes == AsDeleted(Deletions(manifest, |manifest|, upper))
    {
      for i := 0 to |manifest|
        invariant changes == AsDeleted(Deletions(manifest, i, upper))
        invariant deletedAncestors == ToSet(Deletions(manifest, i, upper))
      {
        var p := manifest[i];
        ghost var before := Deletions(manifest, i, upper);
        var covered := HasDeletedAncestor(p);
        if covered { continue; }
        if Exists(upper, p) { continue; }
        assert (before + [p])[..|before|] == before;
        deletedAncestors := deletedAncestors + {p};
        changes := changes + [Change(p, Deleted)];
      }
    }

    method ScanDirectory(es: Entries, base: Tree, rel: Path)
      modifies this
      ensures changes == old(changes) + Scan(es, base, rel)
      decreases es, 1
    {
      var rest := es;
      ghost var total := changes + Scan(es, base, rel);
      while rest.Cons?
        invariant rest == es || rest < es
        invariant changes + Scan(rest, base, rel) == total
        decreases rest
      {
        Assoc(changes, ScanOne(rest, base, rel), Scan(rest.rest, base, rel));
        ScanEntry(rest, base, rel);
        rest := rest.rest;
      }
    }

    /** One round of that loop. */
    method ScanEntry(es: Entries, base: Tree, rel: Path)
      requires es.Cons?
      modifies this
      ensures changes == old(changes) + ScanOne(es, base, rel)
      decreases es, 0
    {
      var name, node := es.name, es.node;
      var p := rel + [name];
      if IsWhiteoutName(name) {
        changes := changes + [Change(rel + [name[4..]], Deleted)];
      } else if node.Whiteout? {
        changes := changes + [Change(p, Deleted)];
      } else if node.Dir? {
        if Lookup(base, p).None? { changes := changes + [Change(p, Added)]; }
        ScanDirectory(node.entries, base, p);
      } else if Lookup(base, p).None? {
        changes := changes + [Change(p, Added)];
      } else if Differ(node, Lookup(base, p).value) {
        changes := changes + [Change(p, Modified)];
      }
    }
  }

  /** The changes before they are sorted by path. */
  ghost function Reported(manifest: seq<Path>, upper: Tree, base: Tree): seq<Change> {
    AsDeleted(Deletions(manifest, |manifest|, upper))
    + if upper.Dir? then Scan(upper.entries, base, []) else []
  }

  method CloneSnapshotChanges(upper: Tree, base: Tree, manifest: seq<Path>) returns (changes: seq<Change>)
    ensures changes == Reported(manifest, upper, base)
  {
    var log := new ChangeLog();
    log.RecordDeletions(manifest, upper);
    if upper.Dir? { log.ScanDirectory(upper.entries, base, []); }
    changes := log.changes;
  }

  // ---- What the walk reports -----------------------------------------------------------

  predicate Below(rel: Path, p: Path) {
    |p| > |rel| && p[..|rel|] == rel
  }

  lemma BelowChild(rel: Path, name: string, p: Path)
    ensures Below(rel + [name], p) ==> Below(rel, p) && p[|rel|] == name && p[|rel|..][1..] == p[|rel| + 1..]
    ensures Below(rel, p) && p[|rel|] == name ==> p == rel + [name] || Below(rel + [name], p)
    ensures Below(rel, p) && p[|rel|] == name && |p| == |rel| + 1 ==> p == rel + [name]
  {
    var c := rel + [name];
    if Below(c, p) {
      assert p[|rel|] == p[..|c|][|rel|] && p[..|rel|] == p[..|c|][..|rel|];
    }
    if Below(rel, p) && p[|rel|] == name {
      assert p[..|rel| + 1] == p[..|rel|] + [p[|rel|]];
      if |p| == |rel| + 1 { assert p[..|rel| + 1] == p; }
    }
  }

  /** Exactly the paths below `rel` whose node in the clone differs from the base
      are reported, each with its kind. */
  lemma {:induction false} ScanReports(es: Entries, base: Tree, rel: Path, p: Path, kind: Kind)
    requires PlainEntries(es)
    ensures Change(p, kind) in Scan(es, base, rel) <==>
              && Below(rel, p) && Find(es, p[|rel|..]).Some?
              && KindOf(Find(es, p[|rel|..]).value, Lookup(base, p)) == Some(kind)
    decreases es
  {
    if es.Cons? {
      var c := rel + [es.name];
      BelowChild(rel, es.name, p);
      ScanReports(es.rest, base, rel, p, kind);
      if es.node.Dir? { ScanReports(es.node.entries, base, c, p, kind); }
      if Below(rel, p) && p[|rel|] == es.name { NameIsUnique(es.rest, p[|rel|..]); }
    }
  }

  predicate HasEntry(es: Entries, name: string, node: Tree) {
    es.Cons? && ((es.name == name && es.node == node) || HasEntry(es.rest, name, node))
  }

  /** Each entry of a directory, whiteouts included: a name that starts with .wh. deletes
      what it names, a whiteout device deletes its own name, and a directory is walked. */
  lemma {:induction false} EntryIsWalked(es: Entries, base: Tree, rel: Path, name: string, node: Tree)
    requires HasEntry(es, name, node)
    ensures IsWhiteoutName(name) ==> Change(rel + [name[4..]], Deleted) in Scan(es, base, rel)
    ensures !IsWhiteoutName(name) && node.Whiteout? ==> Change(rel + [name], Deleted) in Scan(es, base, rel)
    ensures !IsWhiteoutName(name) && node.Dir? ==>
              forall c | c in Scan(node.entries, base, rel + [name]) :: c in Scan(es, base, rel)
  {
    if es.name != name || es.node != node { EntryIsWalked(es.rest, base, rel, name, node); }
  }

  lemma {:induction false} NameIsUnique(es: Entries, q: Path)
    requires q != [] && !HasName(es, q[0])
    ensures Find(es, q).None?
    decreases es
  {
    if es.Cons? { NameIsUnique(es.rest, q); }
  }

  // ---- What the manifest loop reports -------------------------------------------------------

  ghost predicate Distinct(ps: seq<Path>) {
    forall i, j | 0 <= i < j < |ps| :: ps[i] != ps[j]
  }

  /** The manifest lists every path of the base once, parents first. */
  ghost predicate ManifestOf(m: seq<Path>, base: Tree) {
    && (forall i | 0 <= i < |m| :: m[i] != [])
    && Distinct(m)
    && (forall p: Path | p != [] :: p in m <==> Exists(base, p))
    && (forall i, k | 0 <= i < |m| && 0 < k < |m[i]| :: m[i][..k] in m[..i])
  }

  /** Missing from the clone, but with every parent still there. */
  ghost predicate TopMissing(p: Path, upper: Tree) {
    !Exists(upper, p) && forall k | 0 < k < |p| :: Exists(upper, p[..k])
  }

  lemma {:induction false} FirstMissing(p: Path, upper: Tree) returns (k: nat)
    requires p != [] && !Exists(upper, p)
    ensures 0 < k <= |p| && TopMissing(p[..k], upper)
    decreases |p|
  {
    if TopMissing(p, upper) {
      assert p[..|p|] == p;
      return |p|;
    }
    var j :| 0 < j < |p| && !Exists(upper, p[..j]);
    k := FirstMissing(p[..j], upper);
    assert p[..j][..k] == p[..k];
  }

  /** The deletions are exactly the topmost missing paths. */
  lemma {:induction false} DeletedIffTopMissing(m: seq<Path>, n: nat, base: Tree, upper: Tree, p: Path)
    requires ManifestOf(m, base) && n <= |m|
    ensures p in Deletions(m, n, upper) <==> p in m[..n] && TopMissing(p, upper)
    decreases n
  {
    if n > 0 {
      var q := m[n - 1];
      assert m[..n] == m[..n - 1] + [q];
      DeletedIffTopMissing(m, n - 1, base, upper, p);
      if p == q { LastPath(m, n, base, upper); }
    }
  }

  lemma LastPath(m: seq<Path>, n: nat, base: Tree, upper: Tree)
    requires ManifestOf(m, base) && 0 < n <= |m|
    ensures var q := m[n - 1];
            HasAncestorIn(q, ToSet(Deletions(m, n - 1, upper))) || Exists(upper, q) <==> !TopMissing(q, upper)
    decreases n, 0
  {
    var q := m[n - 1];
    var before := Deletions(m, n - 1, upper);
    forall k | 0 < k < |q| ensures q[..k] in before <==> TopMissing(q[..k], upper) {
      DeletedIffTopMissing(m, n - 1, base, upper, q[..k]);
    }
    if !Exists(upper, q) && !TopMissing(q, upper) {
      var j := FirstMissing(q, upper);
      assert q[..|q|] == q;
      assert q[..j] in ToSet(before);
    }
  }

  lemma {:induction false} DeletedOnce(m: seq<Path>, n: nat, base: Tree, upper: Tree)
    requires ManifestOf(m, base) && n <= |m|
    ensures Distinct(Deletions(m, n, upper))
    decreases n
  {
    if n > 0 {
      DeletedOnce(m, n - 1, base, upper);
      DeletedIffTopMissing(m, n - 1, base, upper, m[n - 1]);
    }
  }

  /** No deletion lies below another. */
  lemma DeletionsAreTopmost(m: seq<Path>, base: Tree, upper: Tree, d: Path, e: Path)
    requires ManifestOf(m, base)
    requires d in Deletions(m, |m|, upper) && e in Deletions(m, |m|, upper)
    ensures !Below(d, e)
  {
    assert m[..|m|] == m;
    DeletedIffTopMissing(m, |m|, base, upper, d);
    DeletedIffTopMissing(m, |m|, base, upper, e);
  }

  /** `p` is a reported deletion or lies below one. */
  ghost predicate Covered(p: Path, deleted: seq<Path>) {
    exists k | 0 < k <= |p| :: p[..k] in deleted
  }

  /** The deletions cover exactly the base paths that the clone lacks. */
  lemma DeletionsCoverWhatIsMissing(m: seq<Path>, base: Tree, upper: Tree, p: Path)
    requires ManifestOf(m, base) && p != [] && Exists(base, p)
    ensures Covered(p, Deletions(m, |m|, upper)) <==> !Exists(upper, p)
  {
    var ds := Deletions(m, |m|, upper);
    assert m[..|m|] == m;
    if !Exists(upper, p) {
      var k := FirstMissing(p, upper);
      ParentsExist(base, p, k);
      DeletedIffTopMissing(m, |m|, base, upper, p[..k]);
      assert p[..k] in ds;
    }
    if Covered(p, ds) {
      var k :| 0 < k <= |p| && p[..k] in ds;
      DeletedIffTopMissing(m, |m|, base, upper, p[..k]);
      if Exists(upper, p) { ParentsExist(upper, p, k); }
    }
  }

  // ---- The whole report -----------------------------------------------------------------------

  ghost predicate Says(m: seq<Path>, upper: Tree, base: Tree, p: Path, kind: Kind) {
    Change(p, kind) in Reported(m, upper, base)
  }

  lemma {:induction false} DeletedMembers(ds: seq<Path>, c: Change)
    ensures c in AsDeleted(ds) <==> c.kind == Deleted && c.path in ds
  {
    if ds != [] {
      DeletedMembers(ds[..|ds| - 1], c);
      assert ds == ds[..|ds| - 1] + [ds[|ds| - 1]];
    }
  }

  lemma ReportedWhat(m: seq<Path>, upper: Tree, base: Tree, p: Path, kind: Kind)
    requires upper.Dir? && Plain(upper)
    ensures kind == Deleted ==> (Says(m, upper, base, p, kind) <==> p in Deletions(m, |m|, upper))
    ensures kind != Deleted && p != [] ==>
              (Says(m, upper, base, p, kind) <==>
                 Exists(upper, p) && KindOf(Lookup(upper, p).value, Lookup(base, p)) == Some(kind))
    ensures p == [] && kind != Deleted ==> !Says(m, upper, base, p, kind)
  {
    DeletedMembers(Deletions(m, |m|, upper), Change(p, kind));
    ScanReports(upper.entries, base, [], p, kind);
    assert p[0..] == p;
  }

  /** The clone's paths are the base's, less the deleted subtrees, plus the
      additions; an addition is never a path of the base. */
  lemma PathsRebuild(m: seq<Path>, upper: Tree, base: Tree, p: Path)
    requires upper.Dir? && Plain(upper) && ManifestOf(m, base) && p != []
    ensures Exists(upper, p) <==>
              || (Exists(base, p) && !Covered(p, Deletions(m, |m|, upper)))
              || Says(m, upper, base, p, Added)
    ensures Says(m, upper, base, p, Added) ==> !Exists(base, p)
  {
    ReportedWhat(m, upper, base, p, Added);
    if Exists(base, p) { DeletionsCoverWhatIsMissing(m, base, upper, p); }
  }

  /** A modification is a file that is in both trees and not the same there. */
  lemma ModifiedIff(m: seq<Path>, upper: Tree, base: Tree, p: Path)
    requires upper.Dir? && Plain(upper) && p != []
    ensures Says(m, upper, base, p, Modified) <==>
              && Exists(upper, p) && Exists(base, p) && !Lookup(base, p).value.Whiteout?
              && Lookup(upper, p).value.File? && Lookup(upper, p) != Lookup(base, p)
  {
    ReportedWhat(m, upper, base, p, Modified);
    if Exists(upper, p) { PlainBelow(upper, p); }
  }

  lemma {:induction false} PlainBelow(t: Tree, p: Path)
    requires Plain(t) && Exists(t, p)
    ensures Plain(Lookup(t, p).value)
    decreases t
  {
    if p != [] { PlainBelowIn(t.entries, p); }
  }

  lemma {:induction false} PlainBelowIn(es: Entries, p: Path)
    requires p != [] && PlainEntries(es) && Find(es, p).Some?
    ensures Plain(Find(es, p).value)
    decreases es
  {
    if es.name == p[0] { PlainBelow(es.node, p[1..]); } else { PlainBelowIn(es.rest, p); }
  }

  predicate SameNode(a: Tree, b: Tree) {
    if a.File? && b.File? then a.content == b.content else a.Dir? && b.Dir?
  }

  /** A surviving path that is not reported is the same in both trees, except
      exactly where a file of the base has become a directory. */
  lemma UnreportedIsSameIff(m: seq<Path>, upper: Tree, base: Tree, p: Path)
    requires upper.Dir? && Plain(upper) && Plain(base) && p != [] && Exists(upper, p)
    requires forall kind :: !Says(m, upper, base, p, kind)
    ensures Exists(base, p)
    ensures SameNode(Lookup(upper, p).value, Lookup(base, p).value)
            <==> !(Lookup(upper, p).value.Dir? && Lookup(base, p).value.File?)
  {
    ReportedWhat(m, upper, base, p, Added);
    ReportedWhat(m, upper, base, p, Modified);
    PlainBelow(upper, p);
    assert !Says(m, upper, base, p, Added) && !Says(m, upper, base, p, Modified);
    PlainBelow(base, p);
  }

  lemma OnlyPath(f: Tree, name: string, p: Path)
    requires f.File? && p != []
    ensures Exists(Dir(Cons(name, f, Nil)), p) <==> p == [name]
  {
    var es := Cons(name, f, Nil);
    assert Find(es, p) == if name == p[0] then Lookup(f, p[1..]) else Find(Nil, p);
    assert p == [name] <==> p[0] == name && p[1..] == [];
  }

  /** Such a change goes unreported altogether when the directory is empty. */
  lemma FileToDirectoryIsSilent()
    ensures var base := Dir(Cons("a", File("x"), Nil));
            var upper := Dir(Cons("a", Dir(Nil), Nil));
            ManifestOf([["a"]], base) && Reported([["a"]], upper, base) == []
  {
    var base := Dir(Cons("a", File("x"), Nil));
    var upper := Dir(Cons("a", Dir(Nil), Nil));
    var m: seq<Path> := [["a"]];
    forall p: Path | p != [] ensures p in m <==> Exists(base, p) {
      OnlyPath(File("x"), "a", p);
    }
    assert Exists(upper, ["a"]);
    assert Deletions(m, 0, upper) == [] && Deletions(m, 1, upper) == [];
    assert [] + ["a"] == ["a"];
  }

  // ---- Nothing is reported twice -----------------------------------------------------------------

  ghost predicate PathsDiffer(cs: seq<Change>) {
    forall i, j | 0 <= i < j < |cs| :: cs[i].path != cs[j].path
  }

  ghost predicate NoCommonPath(a: seq<Change>, b: seq<Change>) {
    forall c, d | c in a && d in b :: c.path != d.path
  }

  lemma DifferentParts(a: seq<Change>, b: seq<Change>)
    requires PathsDiffer(a) && PathsDiffer(b) && NoCommonPath(a, b)
    ensures PathsDiffer(a + b)
  {
    var s := a + b;
    forall i, j | 0 <= i < j < |s| ensures s[i].path != s[j].path {
      if i < |a| <= j { assert a[i] in a && b[j - |a|] in b; }
    }
  }

  lemma {:induction false} ScanBelow(es: Entries, base: Tree, rel: Path)
    requires PlainEntries(es)
    ensures forall c | c in Scan(es, base, rel) ::
              && c.kind != Deleted && Below(rel, c.path)
              && Find(es, c.path[|rel|..]).Some? && Exists(Dir(es), c.path[|rel|..])
  {
    forall c | c in Scan(es, base, rel)
      ensures c.kind != Deleted && Below(rel, c.path) && Find(es, c.path[|rel|..]).Some?
    {
      ScanReports(es, base, rel, c.path, c.kind);
    }
  }

  lemma {:induction false} ScannedOnce(es: Entries, base: Tree, rel: Path)
    requires PlainEntries(es)
    ensures PathsDiffer(Scan(es, base, rel))
    decreases es
  {
    if es.Cons? {
      EntryOnce(es, base, rel);
      ScannedOnce(es.rest, base, rel);
      EntriesApart(es, base, rel);
      DifferentParts(ScanOne(es, base, rel), Scan(es.rest, base, rel));
    }
  }

  lemma EntryOnce(es: Entries, base: Tree, rel: Path)
    requires PlainEntries(es) && es.Cons?
    ensures PathsDiffer(ScanOne(es, base, rel))
    decreases es, 0
  {
    var c := rel + [es.name];
    if es.node.Dir? {
      ScannedOnce(es.node.entries, base, c);
      ScanBelow(es.node.entries, base, c);
      var head := Report(c, KindOf(es.node, Lookup(base, c)));
      DifferentParts(head, Scan(es.node.entries, base, c));
    }
  }

  lemma EntriesApart(es: Entries, base: Tree, rel: Path)
    requires PlainEntries(es) && es.Cons?
    ensures NoCommonPath(ScanOne(es, base, rel), Scan(es.rest, base, rel))
  {
    forall c, d | c in ScanOne(es, base, rel) && d in Scan(es.rest, base, rel) ensures c.path != d.path {
      ScanReports(es.rest, base, rel, d.path, d.kind);
      if es.node.Dir? { ScanBelow(es.node.entries, base, rel + [es.name]); }
      BelowChild(rel, es.name, c.path);
      if d.path[|rel|] == es.name { NameIsUnique(es.rest, d.path[|rel|..]); }
    }
  }

  lemma {:induction false} DeletedPathsDiffer(ds: seq<Path>)
    requires Distinct(ds)
    ensures |AsDeleted(ds)| == |ds| && forall i | 0 <= i < |ds| :: AsDeleted(ds)[i] == Change(ds[i], Deleted)
  {
    if ds != [] { DeletedPathsDiffer(ds[..|ds| - 1]); }
  }

  /** No path is reported twice, under any kind. */
  lemma ReportedOnce(m: seq<Path>, upper: Tree, base: Tree)
    requires upper.Dir? && Plain(upper) && ManifestOf(m, base)
    ensures PathsDiffer(Reported(m, upper, base))
  {
    var ds := Deletions(m, |m|, upper);
    var gone, found := AsDeleted(ds), Scan(upper.entries, base, []);
    DeletedOnce(m, |m|, base, upper);
    DeletedPathsDiffer(ds);
    ScannedOnce(upper.entries, base, []);
    forall c, d | c in gone && d in found ensures c.path != d.path {
      DeletedMembers(ds, c);
      DeletedIffTopMissing(m, |m|, base, upper, c.path);
      ScanReports(upper.entries, base, [], d.path, d.kind);
      assert d.path[0..] == d.path;
    }
    DifferentParts(gone, found);
  }
}
