/**
 A directory tree held in memory: every entry below the root, keyed by its
 path relative to the root. This stands in for the filesystem that the
 synchronizer reads with os.walk and changes with os.makedirs, shutil.copy2,
 os.remove and shutil.rmtree.
 */
module FileTree {

  datatype Option<T> = None | Some(value: T)

  type Name = string

  /** A path relative to a tree's root, one name per component; the root itself is []. */
  type Path = seq<Name>

  /** A directory entry: a directory, or a file with its bytes and its last-modification time. */
  datatype Node = Dir | File(content: seq<bv8>, mtime: int)

  /** A tree: the entries strictly below its root. */
  type Tree = map<Path, Node>

  function Parent(p: Path): (q: Path)
    requires p != []
    ensures q < p && |q| == |p| - 1
  {
    p[..|p| - 1]
  }

  /** What every real directory tree satisfies: each entry below the root hangs from a directory. */
  predicate WellFormed(t: Tree)
  {
    && (forall p :: p in t ==> p != [])
    && (forall p {:trigger Parent(p)} :: p in t && |p| > 1 ==> Parent(p) in t && t[Parent(p)].Dir?)
  }

  /** Every non-empty ancestor of an entry is in the tree, and is a directory. */
  lemma {:induction false} AncestorPresent(t: Tree, p: Path, a: Path)
    requires WellFormed(t) && p in t
    requires a != [] && a <= p
    ensures a in t
    ensures a != p ==> t[a].Dir?
    decreases |p| - |a|
  {
    if a != p {
      var b := p[..|a| + 1];
      assert a == Parent(b);
      AncestorPresent(t, p, b);
    }
  }

  /** A set of paths that holds the parent of each of its members. */
  predicate ParentClosed(s: set<Path>)
  {
    forall q {:trigger Parent(q)} :: q in s && |q| > 1 ==> Parent(q) in s
  }

  /** A parent-closed set holds every non-empty prefix of each of its members. */
  lemma {:induction false} PrefixIn(s: set<Path>, p: Path, k: nat)
    requires ParentClosed(s) && p in s && 0 < k <= |p|
    ensures p[..k] in s
    decreases |p| - k
  {
    if k < |p| {
      PrefixIn(s, p, k + 1);
      var b := p[..k + 1];
      assert |b| > 1 && Parent(b) == p[..k];
    } else {
      assert p[..k] == p;
    }
  }

  /** `p` is a top-most member of `s`: no parent of it is still in `s`. */
  predicate TopMost(p: Path, s: set<Path>)
  {
    p != [] && (|p| == 1 || Parent(p) !in s)
  }

  /** A top-down walk can always go on: a set of entries holds a top-most one. */
  lemma {:induction false} TopMostExists(s: set<Path>, q: Path)
    requires q in s && forall p :: p in s ==> p != []
    ensures exists p :: p in s && TopMost(p, s)
    decreases |q|
  {
    if !TopMost(q, s) {
      TopMostExists(s, Parent(q));
    }
  }

  /**
   os.makedirs: creates `p` together with every missing ancestor, all as
   directories; ancestors already present are left as they are. The
   synchronizer calls it only when `p` is missing (os.makedirs would raise
   on an existing `p`), and the model is reached only then.
   */
  function MakeDirs(t: Tree, p: Path): (r: Tree)
    ensures forall q :: q in t ==> q in r && r[q] == t[q]
    ensures forall q :: q in r && q !in t ==> q != [] && q <= p && r[q] == Dir
    ensures p != [] ==> p in r
    ensures WellFormed(t) && (forall k :: 0 < k < |p| && p[..k] in t ==> t[p[..k]].Dir?)
            ==> WellFormed(r)
  {
    var r := t + map k | 0 < k <= |p| && p[..k] !in t :: p[..k] := Dir;
    assert p != [] ==> p[..|p|] == p;
    assert WellFormed(t) && (forall k :: 0 < k < |p| && p[..k] in t ==> t[p[..k]].Dir?)
           ==> WellFormed(r) by {
      if WellFormed(t) && (forall k :: 0 < k < |p| && p[..k] in t ==> t[p[..k]].Dir?) {
        forall q | q in r && |q| > 1 ensures Parent(q) in r && r[Parent(q)].Dir? {
          if q !in t {
            var k :| 0 < k <= |p| && p[..k] !in t && q == p[..k];
            assert Parent(q) == p[..k - 1];
          }
        }
      }
    }
    r
  }

  /** When every ancestor of `p` is already a directory, os.makedirs adds `p` alone. */
  lemma MakeDirsOnlyLeaf(t: Tree, p: Path)
    requires p != [] && p !in t
    requires forall k :: 0 < k < |p| ==> p[..k] in t
    ensures MakeDirs(t, p) == t[p := Dir]
  {
    var r := MakeDirs(t, p);
    forall q | q in r ensures q in t || q == p {
      if q !in t {
        assert q <= p && q != [];
        assert q == p[..|q|];
      }
    }
  }

  /** shutil.rmtree: removes the entry `p` and everything beneath it, and nothing else. */
  function RmTree(t: Tree, p: Path): (r: Tree)
    ensures forall q :: q in r <==> q in t && !(p <= q)
    ensures forall q :: q in r ==> r[q] == t[q]
    ensures WellFormed(t) ==> WellFormed(r)
  {
    map q | q in t && !(p <= q) :: t[q]
  }
}
