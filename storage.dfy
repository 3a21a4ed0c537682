/**
 * The storage world the synchronizer talks to through rclone: every root is a
 * tree of files keyed by relative path, and the external tool offers three
 * operations on it (check, lsjson, copy). The tool itself is an oracle here:
 * its methods return a status chosen freely, and their contracts state only
 * what a zero status guarantees.
 */
module Storage {

  type Path = string
  type Root = string
  type Hash = string

  /** The files of one root: relative path to content hash. */
  type Tree = map<Path, Hash>

  /** Every root the tool can reach. */
  type Trees = map<Root, Tree>

  /** One record of an `lsjson --hash` listing (only the fields the sync reads). */
  datatype FileEntry = FileEntry(path: Path, hash: Hash)

  /** One copy request: copy `path` of `fromRoot` into `toRoot`. */
  datatype Copy = Copy(path: Path, fromRoot: Root, toRoot: Root)

  /** One invocation of the external tool, with the status it exited with. */
  datatype Call =
    | CheckCall(left: Root, right: Root, status: int)
    | ListCall(root: Root, status: int, records: seq<FileEntry>)
    | CopyCall(copy: Copy, status: int)

  function PathsOf(records: seq<FileEntry>): set<Path>
  {
    set r | r in records :: r.path
  }

  /** The records report exactly the files of `tree`, with their hashes. */
  ghost predicate Reports(records: seq<FileEntry>, tree: Tree)
  {
    && PathsOf(records) == tree.Keys
    && forall r :: r in records ==> r.path in tree && r.hash == tree[r.path]
  }

  /** A copy can succeed only when both roots exist and the source holds the path. */
  predicate CanCopy(t: Trees, c: Copy)
  {
    c.fromRoot in t && c.toRoot in t && c.path in t[c.fromRoot]
  }

  /** The effect of one successful copy: the target root gains the source's file. */
  function Step(t: Trees, c: Copy): (u: Trees)
    ensures u.Keys == t.Keys
  {
    if CanCopy(t, c) then t[c.toRoot := t[c.toRoot][c.path := t[c.fromRoot][c.path]]] else t
  }

  /** A copy removes nothing and changes no root but its target. */
  lemma StepFrame(t: Trees, c: Copy)
    ensures forall r :: r in t ==> t[r].Keys <= Step(t, c)[r].Keys
    ensures forall r :: r in t && (r != c.toRoot || !CanCopy(t, c)) ==> Step(t, c)[r] == t[r]
  {
  }

  /** The effect of a sequence of successful copies, applied in order. */
  function Apply(t: Trees, cs: seq<Copy>): Trees
    decreases |cs|
  {
    if cs == [] then t else Step(Apply(t, cs[..|cs| - 1]), cs[|cs| - 1])
  }

  /** The paths that copies in `cs` write into root `r`. */
  ghost function Targets(cs: seq<Copy>, r: Root): set<Path>
  {
    set c | c in cs && c.toRoot == r :: c.path
  }

  /** Every copy's source path exists in the initial state. */
  ghost predicate Sourced(t: Trees, cs: seq<Copy>)
  {
    forall c :: c in cs ==> CanCopy(t, c)
  }

  lemma {:induction false} ApplyConcat(t: Trees, a: seq<Copy>, b: seq<Copy>)
    ensures Apply(t, a + b) == Apply(Apply(t, a), b)
    decreases |b|
  {
    if b == [] {
      assert a + b == a;
    } else {
      var b' := b[..|b| - 1];
      assert (a + b)[..|a + b| - 1] == a + b';
      assert (a + b)[|a + b| - 1] == b[|b| - 1];
      ApplyConcat(t, a, b');
    }
  }

  /** Copies only add: no root appears or disappears and no path is removed. */
  lemma {:induction false} ApplyNeverRemoves(t: Trees, cs: seq<Copy>)
    ensures Apply(t, cs).Keys == t.Keys
    ensures forall r :: r in t ==> t[r].Keys <= Apply(t, cs)[r].Keys
    decreases |cs|
  {
    if cs != [] {
      ApplyNeverRemoves(t, cs[..|cs| - 1]);
      StepFrame(Apply(t, cs[..|cs| - 1]), cs[|cs| - 1]);
    }
  }

  /**
   * When every source path exists at the start, each root ends up holding
   * exactly its own paths plus the paths copied into it.
   */
  lemma {:induction false} ApplyKeys(t: Trees, cs: seq<Copy>)
    requires Sourced(t, cs)
    ensures Apply(t, cs).Keys == t.Keys
    ensures forall r :: r in t ==> Apply(t, cs)[r].Keys == t[r].Keys + Targets(cs, r)
    decreases |cs|
  {
    if cs != [] {
      var cs', c := cs[..|cs| - 1], cs[|cs| - 1];
      assert cs == cs' + [c];
      assert Sourced(t, cs') by {
        forall d | d in cs' ensures CanCopy(t, d) {
          assert d in cs;
        }
      }
      ApplyKeys(t, cs');
      var u := Apply(t, cs');
      assert CanCopy(t, c) by {
        assert c in cs;
      }
      assert CanCopy(u, c) by {
        assert c.path in u[c.fromRoot].Keys;
      }
      assert Apply(t, cs) == Step(u, c);
      forall r | r in t
        ensures Apply(t, cs)[r].Keys == t[r].Keys + Targets(cs, r)
      {
        TargetsSnoc(cs', c, r);
        StepKeys(u, c, r);
      }
    }
  }

  lemma StepKeys(t: Trees, c: Copy, r: Root)
    requires CanCopy(t, c) && r in t
    ensures Step(t, c)[r].Keys == t[r].Keys + (if c.toRoot == r then {c.path} else {})
  {
  }

  lemma TargetsSnoc(cs: seq<Copy>, c: Copy, r: Root)
    ensures Targets(cs + [c], r) == Targets(cs, r) + (if c.toRoot == r then {c.path} else {})
  {
    assert forall d :: d in cs + [c] <==> d in cs || d == c;
  }

  /** A file that no copy writes to keeps its content. */
  lemma {:induction false} ApplyUntargeted(t: Trees, cs: seq<Copy>, r: Root, p: Path)
    requires r in t && p in t[r]
    requires forall c :: c in cs ==> c.toRoot != r || c.path != p
    ensures r in Apply(t, cs) && p in Apply(t, cs)[r]
    ensures Apply(t, cs)[r][p] == t[r][p]
    decreases |cs|
  {
    if cs != [] {
      var cs' := cs[..|cs| - 1];
      assert forall d :: d in cs' ==> d in cs;
      ApplyUntargeted(t, cs', r, p);
    }
  }

  /** A root that no copy writes to is left exactly as it was. */
  lemma {:induction false} ApplyUntouchedRoot(t: Trees, cs: seq<Copy>, r: Root)
    requires r in t
    requires forall c :: c in cs ==> c.toRoot != r
    ensures r in Apply(t, cs) && Apply(t, cs)[r] == t[r]
    decreases |cs|
  {
    if cs != [] {
      var cs' := cs[..|cs| - 1];
      assert forall d :: d in cs' ==> d in cs;
      ApplyUntouchedRoot(t, cs', r);
      ApplyNeverRemoves(t, cs');
      StepFrame(Apply(t, cs'), cs[|cs| - 1]);
    }
  }

  /**
   * The external rclone tool and the roots it reaches. Each method stands for
   * one process invocation: it records itself in the ghost `calls` log and
   * exits with a status the model does not determine.
   */
  class Rclone {
    var trees: Trees
    ghost var calls: seq<Call>

    constructor (trees: Trees)
      ensures this.trees == trees && calls == []
    {
      this.trees := trees;
      calls := [];
    }

    /** `rclone check left right`: exit 0 only when both roots hold the same files and hashes. */
    method Check(left: Root, right: Root) returns (status: int)
      modifies this
      ensures trees == old(trees)
      ensures calls == old(calls) + [CheckCall(left, right, status)]
      ensures status == 0 ==> left in trees && right in trees && trees[left] == trees[right]
    {
      status :| true;
      if status == 0 && !(left in trees && right in trees && trees[left] == trees[right]) {
        status := 1;
      }
      calls := calls + [CheckCall(left, right, status)];
    }

    /** `rclone lsjson --hash root`: on exit 0, records reporting every file of the root. */
    method ListJson(root: Root) returns (status: int, records: seq<FileEntry>)
      modifies this
      ensures trees == old(trees)
      ensures calls == old(calls) + [ListCall(root, status, records)]
      ensures status == 0 ==> root in trees && Reports(records, trees[root])
      ensures status != 0 ==> records == []
    {
      status :| true;
      records := [];
      if status == 0 && root in trees {
        var tree := trees[root];
        var rest := tree.Keys;
        while rest != {}
          invariant rest <= tree.Keys
          invariant PathsOf(records) == tree.Keys - rest
          invariant forall r :: r in records ==> r.path in tree && r.hash == tree[r.path]
          decreases |rest|
        {
          var p :| p in rest;
          assert PathsOf(records + [FileEntry(p, tree[p])]) == PathsOf(records) + {p};
          records := records + [FileEntry(p, tree[p])];
          rest := rest - {p};
        }
      } else if status == 0 {
        status := 1;
      }
      calls := calls + [ListCall(root, status, records)];
    }

    /** `rclone copy fromRoot/path toRoot`: on exit 0 the target root holds the file. */
    method CopyFile(c: Copy) returns (status: int)
      modifies this
      ensures calls == old(calls) + [CopyCall(c, status)]
      ensures status == 0 ==> CanCopy(old(trees), c) && trees == Step(old(trees), c)
      ensures status != 0 ==> trees == old(trees)
    {
      status :| true;
      if status == 0 && !CanCopy(trees, c) {
        status := 1;
      }
      if status == 0 {
        trees := Step(trees, c);
      }
      calls := calls + [CopyCall(c, status)];
    }
  }
}
