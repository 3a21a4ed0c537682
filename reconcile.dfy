/**
 * What one `synchronize` run decides to copy, given the two listings it
 * fetched first, and what those copies do to the roots. Presence is decided
 * by path alone: hashes and other metadata are never consulted.
 */
module Reconcile {
  import opened Storage
  import opened Listings

  /** The keys of `order` that `other` lacks, in the order `order` lists them. */
  function Missing(order: seq<Path>, other: Listing): (ps: seq<Path>)
    ensures |ps| <= |order|
    decreases |order|
  {
    if order == [] then []
    else
      var rest, p := order[..|order| - 1], order[|order| - 1];
      Missing(rest, other) + (if p in other.entries then [] else [p])
  }

  /** A path is missing exactly when the source listing has it and the other lacks it. */
  lemma {:induction false} MissingExactly(order: seq<Path>, other: Listing)
    ensures forall p :: p in Missing(order, other) <==> p in order && p !in other.entries
    decreases |order|
  {
    if order != [] {
      var rest, p := order[..|order| - 1], order[|order| - 1];
      assert order == rest + [p];
      MissingExactly(rest, other);
    }
  }

  /** One copy per path, all in the same direction. */
  function Batch(ps: seq<Path>, fromRoot: Root, toRoot: Root): seq<Copy>
  {
    seq(|ps|, i requires 0 <= i < |ps| => Copy(ps[i], fromRoot, toRoot))
  }

  /** The batch holds a copy of exactly the given paths, all in its one direction. */
  lemma BatchMembers(ps: seq<Path>, fromRoot: Root, toRoot: Root)
    ensures forall c :: c in Batch(ps, fromRoot, toRoot) <==> c.path in ps && c.fromRoot == fromRoot && c.toRoot == toRoot
  {
    var cs := Batch(ps, fromRoot, toRoot);
    forall c: Copy | c.path in ps && c.fromRoot == fromRoot && c.toRoot == toRoot
      ensures c in cs
    {
      var i :| 0 <= i < |ps| && ps[i] == c.path;
      assert cs[i] == c;
    }
  }

  /** Every copy `synchronize` issues when no copy fails: root1 to root2 first, then back. */
  function Plan(list1: Listing, list2: Listing, root1: Root, root2: Root): seq<Copy>
  {
    Batch(Missing(list1.order, list2), root1, root2) + Batch(Missing(list2.order, list1), root2, root1)
  }

  /** The copies of one direction follow the iteration order of the source listing. */
  lemma {:induction false} MissingKeepsOrder(order: seq<Path>, other: Listing, a: nat, b: nat)
    requires a < b < |Missing(order, other)|
    ensures exists i, j :: 0 <= i < j < |order|
                           && order[i] == Missing(order, other)[a] && order[j] == Missing(order, other)[b]
    decreases |order|
  {
    var rest, p := order[..|order| - 1], order[|order| - 1];
    var m, m' := Missing(order, other), Missing(rest, other);
    assert m == m' + (if p in other.entries then [] else [p]);
    MissingExactly(rest, other);
    if b < |m'| {
      MissingKeepsOrder(rest, other, a, b);
      var i, j :| 0 <= i < j < |rest| && rest[i] == m'[a] && rest[j] == m'[b];
      assert order[i] == m[a] && order[j] == m[b];
    } else {
      assert m[a] in m';
      var i :| 0 <= i < |rest| && rest[i] == m[a];
      assert order[i] == m[a] && order[|order| - 1] == m[b];
    }
  }

  /** A listing whose keys are distinct yields each missing path once. */
  lemma {:induction false} MissingDistinct(order: seq<Path>, other: Listing)
    requires Distinct(order)
    ensures Distinct(Missing(order, other))
    decreases |order|
  {
    if order != [] {
      var rest, p := order[..|order| - 1], order[|order| - 1];
      assert Distinct(rest);
      MissingDistinct(rest, other);
      MissingExactly(rest, other);
      assert p !in rest;
    }
  }

  /** Presence alone decides: listings with the same keys in the same order give the same copies. */
  lemma {:induction false} MissingIgnoresEntries(order: seq<Path>, other: Listing, other': Listing)
    requires other.entries.Keys == other'.entries.Keys
    ensures Missing(order, other) == Missing(order, other')
    decreases |order|
  {
    if order != [] {
      MissingIgnoresEntries(order[..|order| - 1], other, other');
    }
  }

  lemma PlanIgnoresEntries(list1: Listing, list2: Listing, list1': Listing, list2': Listing, root1: Root, root2: Root)
    requires list1.order == list1'.order && list1.entries.Keys == list1'.entries.Keys
    requires list2.order == list2'.order && list2.entries.Keys == list2'.entries.Keys
    ensures Plan(list1, list2, root1, root2) == Plan(list1', list2', root1, root2)
  {
    MissingIgnoresEntries(list1.order, list2, list2');
    MissingIgnoresEntries(list2.order, list1, list1');
  }

  /** Every copy moves a path one listing holds and the other lacks, towards the one lacking it. */
  lemma PlanCopiesOnlyDifferences(list1: Listing, list2: Listing, root1: Root, root2: Root)
    requires WellFormed(list1) && WellFormed(list2)
    ensures forall c :: c in Plan(list1, list2, root1, root2) ==>
              || (c == Copy(c.path, root1, root2) && c.path in list1.entries && c.path !in list2.entries)
              || (c == Copy(c.path, root2, root1) && c.path in list2.entries && c.path !in list1.entries)
  {
    MissingExactly(list1.order, list2);
    MissingExactly(list2.order, list1);
    BatchMembers(Missing(list1.order, list2), root1, root2);
    BatchMembers(Missing(list2.order, list1), root2, root1);
  }

  /** Every path one listing holds and the other lacks is copied towards the one lacking it. */
  lemma PlanCopiesEveryDifference(list1: Listing, list2: Listing, root1: Root, root2: Root)
    requires WellFormed(list1) && WellFormed(list2)
    ensures forall p :: p in list1.entries && p !in list2.entries ==> Copy(p, root1, root2) in Plan(list1, list2, root1, root2)
    ensures forall p :: p in list2.entries && p !in list1.entries ==> Copy(p, root2, root1) in Plan(list1, list2, root1, root2)
  {
    MissingExactly(list1.order, list2);
    MissingExactly(list2.order, list1);
    BatchMembers(Missing(list1.order, list2), root1, root2);
    BatchMembers(Missing(list2.order, list1), root2, root1);
  }

  /**
   * No path is copied twice, so in particular the two batches are disjoint and
   * no path travels in both directions.
   */
  lemma PlanCopiesEachPathOnce(list1: Listing, list2: Listing, root1: Root, root2: Root)
    requires WellFormed(list1) && WellFormed(list2)
    ensures var plan := Plan(list1, list2, root1, root2);
            forall i, j :: 0 <= i < j < |plan| ==> plan[i].path != plan[j].path
  {
    var m1, m2 := Missing(list1.order, list2), Missing(list2.order, list1);
    var b1, b2 := Batch(m1, root1, root2), Batch(m2, root2, root1);
    var plan := b1 + b2;
    MissingDistinct(list1.order, list2);
    MissingDistinct(list2.order, list1);
    MissingExactly(list1.order, list2);
    MissingExactly(list2.order, list1);
    forall i, j | 0 <= i < j < |plan|
      ensures plan[i].path != plan[j].path
    {
      if j < |b1| {
        assert plan[i] == b1[i] && plan[j] == b1[j];
      } else if i >= |b1| {
        assert plan[i] == b2[i - |b1|] && plan[j] == b2[j - |b1|];
      } else {
        assert plan[i] == b1[i] && plan[j] == b2[j - |b1|];
        assert m1[i] in m1 && m2[j - |b1|] in m2;
      }
    }
  }

  /**
   * Every root1-to-root2 copy is issued before any root2-to-root1 copy: the
   * first copies, one per root1 path missing from root2, all go to root2, and
   * the rest all go to root1.
   */
  lemma PlanDirectionsInSequence(list1: Listing, list2: Listing, root1: Root, root2: Root)
    ensures var plan, n := Plan(list1, list2, root1, root2), |Missing(list1.order, list2)|;
            && n <= |plan|
            && (forall i :: 0 <= i < n ==> plan[i].fromRoot == root1 && plan[i].toRoot == root2)
            && (forall i :: n <= i < |plan| ==> plan[i].fromRoot == root2 && plan[i].toRoot == root1)
  {
    var b1 := Batch(Missing(list1.order, list2), root1, root2);
    var b2 := Batch(Missing(list2.order, list1), root2, root1);
    var plan := Plan(list1, list2, root1, root2);
    forall i | 0 <= i < |b1|
      ensures plan[i].fromRoot == root1 && plan[i].toRoot == root2
    {
      assert plan[i] == b1[i];
    }
    forall i | |b1| <= i < |plan|
      ensures plan[i].fromRoot == root2 && plan[i].toRoot == root1
    {
      assert plan[i] == b2[i - |b1|];
    }
  }

  /** A path both listings hold is never copied, whatever the two entries say. */
  lemma CommonPathsNeverCopied(list1: Listing, list2: Listing, root1: Root, root2: Root, p: Path)
    requires WellFormed(list1) && WellFormed(list2)
    requires p in list1.entries && p in list2.entries
    ensures forall c :: c in Plan(list1, list2, root1, root2) ==> c.path != p
  {
    PlanCopiesOnlyDifferences(list1, list2, root1, root2);
  }

  /** A listing whose every key the other holds has nothing missing. */
  lemma {:induction false} NothingMissingFrom(order: seq<Path>, other: Listing)
    requires forall p :: p in order ==> p in other.entries
    ensures Missing(order, other) == []
    decreases |order|
  {
    if order != [] {
      var rest := order[..|order| - 1];
      assert forall p :: p in rest ==> p in order;
      NothingMissingFrom(rest, other);
    }
  }

  /** When the two listings hold the same paths, there is nothing to copy. */
  lemma NothingMissing(list1: Listing, list2: Listing, root1: Root, root2: Root)
    requires WellFormed(list1) && WellFormed(list2)
    requires list1.entries.Keys == list2.entries.Keys
    ensures Plan(list1, list2, root1, root2) == []
  {
    NothingMissingFrom(list1.order, list2);
    NothingMissingFrom(list2.order, list1);
  }

  /** Copying a batch in one direction leaves each copied file with the source's content. */
  lemma {:induction false} BatchCopiesContent(t: Trees, ps: seq<Path>, fromRoot: Root, toRoot: Root, p: Path)
    requires fromRoot != toRoot && fromRoot in t && toRoot in t
    requires forall q :: q in ps ==> q in t[fromRoot]
    requires p in ps
    ensures toRoot in Apply(t, Batch(ps, fromRoot, toRoot))
    ensures p in Apply(t, Batch(ps, fromRoot, toRoot))[toRoot]
    ensures Apply(t, Batch(ps, fromRoot, toRoot))[toRoot][p] == t[fromRoot][p]
    decreases |ps|
  {
    var ps', last := ps[..|ps| - 1], ps[|ps| - 1];
    var cs := Batch(ps, fromRoot, toRoot);
    var cs' := Batch(ps', fromRoot, toRoot);
    assert cs[..|cs| - 1] == cs';
    assert cs[|cs| - 1] == Copy(last, fromRoot, toRoot);
    var u := Apply(t, cs');
    ApplyUntouchedRoot(t, cs', fromRoot);
    ApplyNeverRemoves(t, cs');
    assert Apply(t, cs) == Step(u, Copy(last, fromRoot, toRoot));
    if p != last {
      assert p in ps';
      BatchCopiesContent(t, ps', fromRoot, toRoot, p);
    }
  }

  /**
   * What the plan of a run does, in terms of the roots its listings describe:
   * every copy reads an existing file and writes it into the root lacking it.
   */
  lemma PlanMovesDifferences(t: Trees, list1: Listing, list2: Listing, root1: Root, root2: Root)
    requires root1 in t && root2 in t
    requires Describes(list1, t[root1]) && Describes(list2, t[root2])
    ensures var plan := Plan(list1, list2, root1, root2);
            && Sourced(t, plan)
            && (forall c :: c in plan ==> c.toRoot == root1 || c.toRoot == root2)
            && (forall c :: c in plan && c.toRoot == root2 ==> c.path !in t[root2])
            && (forall c :: c in plan && c.toRoot == root1 ==> c.path !in t[root1])
            && (root1 == root2 ==> plan == [])
            && (root1 != root2 ==> Targets(plan, root2) == t[root1].Keys - t[root2].Keys)
            && (root1 != root2 ==> Targets(plan, root1) == t[root2].Keys - t[root1].Keys)
  {
    var plan := Plan(list1, list2, root1, root2);
    PlanCopiesOnlyDifferences(list1, list2, root1, root2);
    PlanCopiesEveryDifference(list1, list2, root1, root2);
    if root1 == root2 {
      NothingMissing(list1, list2, root1, root2);
    } else {
      assert Targets(plan, root2) == t[root1].Keys - t[root2].Keys by {
        forall p | p in t[root1].Keys - t[root2].Keys
          ensures p in Targets(plan, root2)
        {
          assert Copy(p, root1, root2) in plan;
        }
      }
      assert Targets(plan, root1) == t[root2].Keys - t[root1].Keys by {
        forall p | p in t[root2].Keys - t[root1].Keys
          ensures p in Targets(plan, root1)
        {
          assert Copy(p, root2, root1) in plan;
        }
      }
    }
  }

  /** The union theorem for any batch of copies shaped like a run's plan. */
  lemma UnionAfter(t: Trees, plan: seq<Copy>, root1: Root, root2: Root)
    requires root1 in t && root2 in t
    requires Sourced(t, plan)
    requires forall c :: c in plan ==> c.toRoot == root1 || c.toRoot == root2
    requires root1 == root2 ==> plan == []
    requires root1 != root2 ==> Targets(plan, root2) == t[root1].Keys - t[root2].Keys
    requires root1 != root2 ==> Targets(plan, root1) == t[root2].Keys - t[root1].Keys
    ensures var u := Apply(t, plan);
            && u.Keys == t.Keys
            && u[root1].Keys == t[root1].Keys + t[root2].Keys
            && u[root2].Keys == t[root1].Keys + t[root2].Keys
            && forall r :: r in t && r != root1 && r != root2 ==> u[r] == t[r]
  {
    ApplyKeys(t, plan);
    forall r | r in t && r != root1 && r != root2
      ensures Apply(t, plan)[r] == t[r]
    {
      ApplyUntouchedRoot(t, plan, r);
    }
  }

  /**
   * After every copy of a run succeeds, both roots hold the union of the two
   * original path sets, and every other root is left alone.
   */
  lemma SyncUnion(t: Trees, list1: Listing, list2: Listing, root1: Root, root2: Root)
    requires root1 in t && root2 in t
    requires Describes(list1, t[root1]) && Describes(list2, t[root2])
    ensures var u := Apply(t, Plan(list1, list2, root1, root2));
            && u.Keys == t.Keys
            && u[root1].Keys == t[root1].Keys + t[root2].Keys
            && u[root2].Keys == t[root1].Keys + t[root2].Keys
            && forall r :: r in t && r != root1 && r != root2 ==> u[r] == t[r]
  {
    PlanMovesDifferences(t, list1, list2, root1, root2);
    UnionAfter(t, Plan(list1, list2, root1, root2), root1, root2);
  }

  /** Copies that only write paths a root lacks leave that root's files as they were. */
  lemma KeptAfter(t: Trees, plan: seq<Copy>, r: Root)
    requires r in t
    requires forall c :: c in plan && c.toRoot == r ==> c.path !in t[r]
    ensures r in Apply(t, plan)
    ensures forall p :: p in t[r] ==> p in Apply(t, plan)[r] && Apply(t, plan)[r][p] == t[r][p]
  {
    ApplyNeverRemoves(t, plan);
    forall p | p in t[r]
      ensures p in Apply(t, plan)[r] && Apply(t, plan)[r][p] == t[r][p]
    {
      ApplyUntargeted(t, plan, r, p);
    }
  }

  /**
   * Files a root already held keep their content, in particular the ones
   * both roots hold, even when the two contents differ.
   */
  lemma SyncKeepsExistingFiles(t: Trees, list1: Listing, list2: Listing, root1: Root, root2: Root)
    requires root1 in t && root2 in t
    requires Describes(list1, t[root1]) && Describes(list2, t[root2])
    ensures var u := Apply(t, Plan(list1, list2, root1, root2));
            && root1 in u && root2 in u
            && (forall p :: p in t[root1] ==> p in u[root1] && u[root1][p] == t[root1][p])
            && (forall p :: p in t[root2] ==> p in u[root2] && u[root2][p] == t[root2][p])
  {
    PlanMovesDifferences(t, list1, list2, root1, root2);
    KeptAfter(t, Plan(list1, list2, root1, root2), root1);
    KeptAfter(t, Plan(list1, list2, root1, root2), root2);
  }

  /** The first of two opposite batches delivers its files with their source content. */
  lemma FirstBatchDelivered(t: Trees, m1: seq<Path>, m2: seq<Path>, root1: Root, root2: Root)
    requires root1 in t && root2 in t && root1 != root2
    requires forall p :: p in m1 <==> p in t[root1] && p !in t[root2]
    ensures var u := Apply(t, Batch(m1, root1, root2) + Batch(m2, root2, root1));
            && root2 in u
            && forall p :: p in m1 ==> p in u[root2] && u[root2][p] == t[root1][p]
  {
    var b1, b2 := Batch(m1, root1, root2), Batch(m2, root2, root1);
    ApplyConcat(t, b1, b2);
    var v := Apply(t, b1);
    ApplyNeverRemoves(t, b1);
    BatchMembers(m2, root2, root1);
    ApplyUntouchedRoot(v, b2, root2);
    forall p | p in m1
      ensures p in v[root2] && v[root2][p] == t[root1][p]
    {
      BatchCopiesContent(t, m1, root1, root2, p);
    }
  }

  /** The second of two opposite batches delivers its files with their original content. */
  lemma SecondBatchDelivered(t: Trees, m1: seq<Path>, m2: seq<Path>, root1: Root, root2: Root)
    requires root1 in t && root2 in t && root1 != root2
    requires forall p :: p in m1 ==> p !in t[root2]
    requires forall p :: p in m2 ==> p in t[root2]
    ensures var u := Apply(t, Batch(m1, root1, root2) + Batch(m2, root2, root1));
            && root1 in u
            && forall p :: p in m2 ==> p in u[root1] && u[root1][p] == t[root2][p]
  {
    var b1, b2 := Batch(m1, root1, root2), Batch(m2, root2, root1);
    ApplyConcat(t, b1, b2);
    var v := Apply(t, b1);
    ApplyNeverRemoves(t, b1);
    ApplyNeverRemoves(v, b2);
    BatchMembers(m1, root1, root2);
    assert forall q :: q in m2 ==> q in v[root2];
    forall p | p in m2
      ensures root1 in Apply(v, b2) && p in Apply(v, b2)[root1] && Apply(v, b2)[root1][p] == t[root2][p]
    {
      ApplyUntargeted(t, b1, root2, p);
      BatchCopiesContent(v, m2, root2, root1, p);
    }
  }

  /** Each copied file arrives with the content it has in the root it came from. */
  lemma SyncCopiesContent(t: Trees, list1: Listing, list2: Listing, root1: Root, root2: Root)
    requires root1 in t && root2 in t && root1 != root2
    requires Describes(list1, t[root1]) && Describes(list2, t[root2])
    ensures var u := Apply(t, Plan(list1, list2, root1, root2));
            && root1 in u && root2 in u
            && (forall p :: p in t[root1] && p !in t[root2] ==> p in u[root2] && u[root2][p] == t[root1][p])
            && (forall p :: p in t[root2] && p !in t[root1] ==> p in u[root1] && u[root1][p] == t[root2][p])
  {
    var m1, m2 := Missing(list1.order, list2), Missing(list2.order, list1);
    MissingExactly(list1.order, list2);
    MissingExactly(list2.order, list1);
    FirstBatchDelivered(t, m1, m2, root1, root2);
    SecondBatchDelivered(t, m1, m2, root1, root2);
  }

  /** A run that follows a fully successful one finds nothing to copy. */
  lemma SecondRunCopiesNothing(t: Trees, list1: Listing, list2: Listing, root1: Root, root2: Root,
                               next1: Listing, next2: Listing)
    requires root1 in t && root2 in t
    requires Describes(list1, t[root1]) && Describes(list2, t[root2])
    requires var u := Apply(t, Plan(list1, list2, root1, root2));
             root1 in u && root2 in u && Describes(next1, u[root1]) && Describes(next2, u[root2])
    ensures Plan(next1, next2, root1, root2) == []
  {
    SyncUnion(t, list1, list2, root1, root2);
    NothingMissing(next1, next2, root1, root2);
  }
}
