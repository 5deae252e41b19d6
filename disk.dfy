/** An abstract directory tree, enough to follow the directory swap of
    `_update_download` (mod_update/updatelib.py): `shutil.rmtree`,
    `ZipFile.extractall`, `Path.rename` and `Path.rmdir`.  A tree maps paths
    (sequences of names) to nodes; a directory that holds something exists
    implicitly, as `extractall` creates missing parents. */
module Disk {
  import opened Wrappers

  type Path = seq<string>

  /** What a file holds: raw bytes, or the decoded check-state JSON record
      with its two optional keys. */
  datatype Content = Blob(bytes: seq<bv8>) | CheckRecord(updateAvailable: Option<bool>, lastCheck: Option<int>)

  datatype Node = Dir | File(content: Content)

  type Tree = map<Path, Node>

  /** One entry of a zip archive, in archive order. */
  datatype Member = Member(path: Path, node: Node)

  /** p is root or lies inside it. */
  predicate Within(root: Path, p: Path) {
    |root| <= |p| && p[..|root|] == root
  }

  /** Something exists at p (p.exists()). */
  predicate Exists(t: Tree, p: Path) {
    exists q :: q in t && Within(p, q)
  }

  /** Something lies strictly inside p: `p.rmdir()` fails. */
  predicate HasInside(t: Tree, p: Path) {
    exists q :: q in t && Within(p, q) && |q| > |p|
  }

  /** The relative paths of what lies inside root. */
  function InsideKeys(t: Tree, root: Path): set<Path> {
    set q | q in t && Within(root, q) :: q[|root|..]
  }

  lemma InsideKeysAt(t: Tree, root: Path)
    ensures forall p :: p in InsideKeys(t, root) <==> root + p in t
  {
    forall p ensures p in InsideKeys(t, root) <==> root + p in t {
      if root + p in t {
        assert (root + p)[|root|..] == p;
      }
      if p in InsideKeys(t, root) {
        var q :| q in t && Within(root, q) && q[|root|..] == p;
        assert q == root + p;
      }
    }
  }

  /** The part of t inside root, with paths relative to root. */
  function Relative(t: Tree, root: Path): (r: Tree)
    ensures forall p :: p in r <==> root + p in t
    ensures forall p :: p in r ==> r[p] == t[root + p]
  {
    InsideKeysAt(t, root);
    map p | p in InsideKeys(t, root) :: t[root + p]
  }

  /** The paths of r placed below dst. */
  function PlacedKeys(r: Tree, dst: Path): set<Path> {
    set p | p in r :: dst + p
  }

  lemma PlacedKeysAt(r: Tree, dst: Path)
    ensures forall k :: k in PlacedKeys(r, dst) ==> Within(dst, k) && k[|dst|..] in r
    ensures forall p :: p in r ==> dst + p in PlacedKeys(r, dst)
  {
    forall k | k in PlacedKeys(r, dst) ensures Within(dst, k) && k[|dst|..] in r {
      var p :| p in r && k == dst + p;
      assert k[|dst|..] == p;
    }
  }

  /** The tree r placed below dst. */
  function Place(r: Tree, dst: Path): (k: Tree)
    ensures forall q :: q in k ==> Within(dst, q) && q[|dst|..] in r && k[q] == r[q[|dst|..]]
    ensures forall p :: p in r ==> dst + p in k
  {
    PlacedKeysAt(r, dst);
    map q | q in PlacedKeys(r, dst) :: r[q[|dst|..]]
  }

  /** The part of t outside both a and e, unchanged paths. */
  function Outside(t: Tree, a: Path, e: Path): Tree {
    map q | q in t && !Within(a, q) && !Within(e, q) :: t[q]
  }

  /** `shutil.rmtree(p)`: p and everything inside it disappear. */
  function RemoveTree(t: Tree, p: Path): Tree {
    map q | q in t && !Within(p, q) :: t[q]
  }

  /** `ZipFile.extractall(dir)`: every member is written below dir in
      archive order, a later member with the same name replacing an earlier one. */
  function Extract(t: Tree, dir: Path, ms: seq<Member>): Tree
    decreases |ms|
  {
    if ms == [] then t else Extract(t[dir + ms[0].path := ms[0].node], dir, ms[1..])
  }

  /** The archive's own tree: its members as written into an empty directory. */
  function ArchiveTree(ms: seq<Member>): Tree {
    Extract(map[], [], ms)
  }

  /** `src.rename(dst)`: everything inside src moves to the same place inside dst. */
  function Rename(t: Tree, src: Path, dst: Path): Tree {
    RemoveTree(t, src) + Place(Relative(t, src), dst)
  }

  /** `p.rmdir()` of an empty directory. */
  function Rmdir(t: Tree, p: Path): Tree {
    map q | q in t && q != p :: t[q]
  }

  /** After rmtree nothing is left inside the removed directory. */
  lemma RemovedIsEmpty(t: Tree, p: Path)
    ensures Relative(RemoveTree(t, p), p) == map[]
    ensures !Exists(RemoveTree(t, p), p)
  {
    var r := Relative(RemoveTree(t, p), p);
    forall x ensures x !in r {
      assert Within(p, p + x);
    }
  }

  lemma RelativeUpdate(t: Tree, d: Path, p: Path, n: Node)
    ensures Relative(t[d + p := n], d) == Relative(t, d)[p := n]
  {
    var l, r := Relative(t[d + p := n], d), Relative(t, d)[p := n];
    forall x ensures x in l <==> x in r {
      assert (d + x)[|d|..] == x;
    }
    forall x | x in l ensures l[x] == r[x] {
      assert (d + x)[|d|..] == x;
      assert (d + p)[|d|..] == p;
    }
  }

  /** Extracting below d, seen from d, is extracting into what d held. */
  lemma {:induction false} ExtractRelative(t: Tree, d: Path, ms: seq<Member>)
    ensures Relative(Extract(t, d, ms), d) == Extract(Relative(t, d), [], ms)
    decreases |ms|
  {
    if ms != [] {
      RelativeUpdate(t, d, ms[0].path, ms[0].node);
      assert [] + ms[0].path == ms[0].path;
      ExtractRelative(t[d + ms[0].path := ms[0].node], d, ms[1..]);
    }
  }

  /** Looking inside d + [x] is looking inside [x] of what d holds. */
  lemma RelativeNested(t: Tree, d: Path, x: string)
    ensures Relative(t, d + [x]) == Relative(Relative(t, d), [x])
  {
    var inner := Relative(t, d);
    var l, r := Relative(t, d + [x]), Relative(inner, [x]);
    forall p ensures p in l <==> p in r {
      NestedPath(d, x, p);
    }
    forall p | p in l ensures l[p] == r[p] {
      NestedPath(d, x, p);
    }
  }

  lemma NestedPath(d: Path, x: string, p: Path)
    ensures d + [x] + p == d + ([x] + p)
  {
  }

  /** After the rename, dst holds exactly what src held, provided nothing
      existed at dst. */
  lemma RenameRelative(t: Tree, src: Path, dst: Path)
    requires !Exists(t, dst)
    ensures Relative(Rename(t, src, dst), dst) == Relative(t, src)
  {
    var kept, moved := RemoveTree(t, src), Place(Relative(t, src), dst);
    var l, r := Relative(Rename(t, src, dst), dst), Relative(t, src);
    forall p | p in l ensures p in r && l[p] == r[p] {
      var k := dst + p;
      assert Within(dst, k);
      assert k !in kept;
      assert k[|dst|..] == p;
    }
    forall p | p in r ensures p in l {
      assert dst + p in moved;
    }
  }

  /** Removing p changes nothing inside root when p is not inside root. */
  lemma RmdirRelative(t: Tree, p: Path, root: Path)
    requires !Within(root, p)
    ensures Relative(Rmdir(t, p), root) == Relative(t, root)
  {
    var l, r := Relative(Rmdir(t, p), root), Relative(t, root);
    forall x | x in r ensures x in l {
      assert Within(root, root + x);
    }
  }

  lemma OutsideRemoveTree(t: Tree, a: Path, e: Path)
    ensures Outside(RemoveTree(t, a), a, e) == Outside(t, a, e)
  {
  }

  lemma {:induction false} OutsideExtract(t: Tree, a: Path, e: Path, d: Path, ms: seq<Member>)
    requires Within(e, d)
    ensures Outside(Extract(t, d, ms), a, e) == Outside(t, a, e)
    decreases |ms|
  {
    if ms != [] {
      var k := d + ms[0].path;
      assert k[..|e|] == d[..|e|];
      assert Within(e, k);
      OutsideExtract(t[k := ms[0].node], a, e, d, ms[1..]);
      assert Outside(t[k := ms[0].node], a, e) == Outside(t, a, e);
    }
  }

  lemma OutsideRename(t: Tree, a: Path, e: Path, src: Path, dst: Path)
    requires Within(e, src) && Within(a, dst)
    ensures Outside(Rename(t, src, dst), a, e) == Outside(t, a, e)
  {
    var moved := Place(Relative(t, src), dst);
    forall k | k in moved ensures Within(a, k) {
      assert k[..|a|] == dst[..|a|];
    }
    forall q | Within(src, q) ensures Within(e, q) {
      assert q[..|e|] == q[..|src|][..|e|];
    }
  }

  lemma OutsideRmdir(t: Tree, a: Path, e: Path, p: Path)
    requires Within(e, p)
    ensures Outside(Rmdir(t, p), a, e) == Outside(t, a, e)
  {
  }

  /** Extracting below d puts nothing inside a when d, at least as long as a,
      does not lie inside a. */
  lemma {:induction false} ExtractNotInside(t: Tree, a: Path, d: Path, ms: seq<Member>)
    requires !Exists(t, a) && |a| <= |d| && !Within(a, d)
    ensures !Exists(Extract(t, d, ms), a)
    decreases |ms|
  {
    if ms != [] {
      var k := d + ms[0].path;
      assert k[..|a|] == d[..|a|];
      ExtractNotInside(t[k := ms[0].node], a, d, ms[1..]);
    }
  }

  /** Removing a changes nothing inside e when e, at least as long as a, does
      not lie inside a. */
  lemma RelativeRemoveTree(t: Tree, a: Path, e: Path)
    requires |a| <= |e| && !Within(a, e)
    ensures Relative(RemoveTree(t, a), e) == Relative(t, e)
  {
    var l, r := Relative(RemoveTree(t, a), e), Relative(t, e);
    forall p ensures p in l <==> p in r {
      assert (e + p)[..|a|] == e[..|a|];
    }
  }

  /** With nothing at p, the view from p is empty. */
  lemma AbsentRelative(t: Tree, p: Path)
    requires !Exists(t, p)
    ensures Relative(t, p) == map[]
  {
    forall x ensures x !in Relative(t, p) {
      assert Within(p, p + x);
    }
  }

  /** Removing an empty directory leaves nothing at its path. */
  lemma RmdirEmpties(t: Tree, p: Path)
    requires !HasInside(t, p)
    ensures !Exists(Rmdir(t, p), p)
  {
    forall q | q in t && Within(p, q) ensures q == p {
      assert |q| <= |p|;
      assert q == q[..|p|];
    }
  }
}
