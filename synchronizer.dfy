/**
 * The `Synchronizer` class: two root addresses fixed at construction and the
 * rclone tool it drives. `Synchronize` lists both roots, then copies what
 * root1 has and root2 lacks, then what root2 has and root1 lacks; the first
 * failing tool call raises and ends the run.
 */
module Synchronizers {
  import opened Storage
  import opened Listings
  import opened Reconcile

  /** The two exceptions the source raises. */
  datatype SyncError =
    | ListingError          // `lsjson` exited non-zero
    | CopyError(failed: Copy) // `copy` exited non-zero; names the path and both roots

  datatype Result<T> = Success(value: T) | Failure(error: SyncError)

  /** How a call that returns nothing ends: normally or by raising. */
  datatype Outcome = Completed | Raised(error: SyncError)

  function Last(calls: seq<Call>): Call
    requires calls != []
  {
    calls[|calls| - 1]
  }

  /** The log entries of copies that all exited 0, in order. */
  function Succeeded(cs: seq<Copy>): (calls: seq<Call>)
    ensures |calls| == |cs|
    decreases |cs|
  {
    if cs == [] then [] else Succeeded(cs[..|cs| - 1]) + [CopyCall(cs[|cs| - 1], 0)]
  }

  lemma {:induction false} SucceededConcat(a: seq<Copy>, b: seq<Copy>)
    ensures Succeeded(a + b) == Succeeded(a) + Succeeded(b)
    decreases |b|
  {
    if b == [] {
      assert a + b == a;
    } else {
      var b' := b[..|b| - 1];
      assert (a + b)[..|a + b| - 1] == a + b';
      SucceededConcat(a, b');
    }
  }

  /** The copies of one direction issued before position `i` of the source listing are a prefix of all of them. */
  lemma {:induction false} MissingPrefix(order: seq<Path>, other: Listing, i: nat)
    requires i <= |order|
    ensures Missing(order[..i], other) <= Missing(order, other)
    decreases |order|
  {
    if i < |order| {
      var rest := order[..|order| - 1];
      assert order[..i] == rest[..i];
      MissingPrefix(rest, other, i);
    } else {
      assert order[..i] == order;
    }
  }

  /**
   * Visiting one more key of the source listing adds one missing path when the
   * other listing lacks that key, and the whole diff has it in that position.
   */
  lemma MissingStep(order: seq<Path>, other: Listing, i: nat)
    requires i < |order|
    ensures |Missing(order[..i + 1], other)| == |Missing(order[..i], other)| + (if order[i] in other.entries then 0 else 1)
    ensures order[i] !in other.entries ==>
              && |Missing(order[..i], other)| < |Missing(order, other)|
              && Missing(order, other)[|Missing(order[..i], other)|] == order[i]
  {
    var next := order[..i + 1];
    assert next[..|next| - 1] == order[..i] && next[|next| - 1] == order[i];
    var m := Missing(order[..i], other);
    assert Missing(next, other) == m + (if order[i] in other.entries then [] else [order[i]]);
    MissingPrefix(order, other, i + 1);
    if order[i] !in other.entries {
      assert Missing(next, other)[|m|] == order[i];
    }
  }

  lemma AppendTwo(calls: seq<Call>, x: Call, y: Call)
    ensures calls + [x] + [y] == calls + [x, y]
  {
  }

  /** One more successful copy extends the trace and the state by the next copy of the batch. */
  lemma PrefixStep(t0: Trees, calls0: seq<Call>, cs: seq<Copy>, k: nat,
                   t: Trees, calls: seq<Call>, t': Trees, calls': seq<Call>)
    requires k < |cs|
    requires calls == calls0 + Succeeded(cs[..k]) && t == Apply(t0, cs[..k])
    requires t' == Step(t, cs[k]) && calls' == calls + [CopyCall(cs[k], 0)]
    ensures calls' == calls0 + Succeeded(cs[..k + 1]) && t' == Apply(t0, cs[..k + 1])
  {
    assert cs[..k + 1][..k] == cs[..k];
  }

  /** The copies done so far, once the first batch is complete, split into the two batches. */
  lemma ConcatPrefix(t: Trees, b1: seq<Copy>, b2: seq<Copy>, k: nat)
    requires k <= |b2|
    ensures (b1 + b2)[..|b1| + k] == b1 + b2[..k]
    ensures Apply(t, (b1 + b2)[..|b1| + k]) == Apply(Apply(t, b1), b2[..k])
    ensures Succeeded((b1 + b2)[..|b1| + k]) == Succeeded(b1) + Succeeded(b2[..k])
  {
    assert (b1 + b2)[..|b1| + k] == b1 + b2[..k];
    ApplyConcat(t, b1, b2[..k]);
    SucceededConcat(b1, b2[..k]);
  }

  /**
   * The outcome of issuing the copies of `batch` in order from state `t0` with
   * log `calls0`: the first `done` copies succeeded; on `Completed` that was
   * all of them, on `Raised` copy number `done` then failed, raised a copy
   * error naming it and changed nothing.
   */
  ghost predicate Progress(t0: Trees, calls0: seq<Call>, batch: seq<Copy>, res: Outcome, done: nat,
                           t: Trees, calls: seq<Call>)
  {
    && done <= |batch|
    && t == Apply(t0, batch[..done])
    && (res.Completed? ==> done == |batch| && calls == calls0 + Succeeded(batch))
    && (res.Raised? ==>
          && done < |batch|
          && res.error == CopyError(batch[done])
          && calls != []
          && Last(calls).status != 0
          && calls == calls0 + Succeeded(batch[..done]) + [CopyCall(batch[done], Last(calls).status)])
  }

  /** The copy after the first `done` fails: the batch raises there. */
  lemma ProgressFails(t0: Trees, calls0: seq<Call>, batch: seq<Copy>, res: Outcome, done: nat,
                      t: Trees, calls: seq<Call>, status: int)
    requires done < |batch| && status != 0 && res == Raised(CopyError(batch[done]))
    requires t == Apply(t0, batch[..done])
    requires calls == calls0 + Succeeded(batch[..done]) + [CopyCall(batch[done], status)]
    ensures Progress(t0, calls0, batch, res, done, t, calls)
  {
  }

  /** Every copy of the batch succeeded. */
  lemma ProgressCompletes(t0: Trees, calls0: seq<Call>, batch: seq<Copy>, res: Outcome, done: nat,
                          t: Trees, calls: seq<Call>)
    requires res == Completed && done == |batch|
    requires t == Apply(t0, batch[..done])
    requires calls == calls0 + Succeeded(batch[..done])
    ensures Progress(t0, calls0, batch, res, done, t, calls)
  {
    assert batch[..|batch|] == batch;
  }

  /** A batch that raised leaves every later batch unattempted. */
  lemma ProgressStops(t0: Trees, calls0: seq<Call>, plan: seq<Copy>, b1: seq<Copy>, b2: seq<Copy>, res: Outcome,
                      done: nat, t: Trees, calls: seq<Call>)
    requires plan == b1 + b2 && res.Raised?
    requires Progress(t0, calls0, b1, res, done, t, calls)
    ensures Progress(t0, calls0, plan, res, done, t, calls)
  {
    assert plan[..done] == b1[..done];
    assert plan[done] == b1[done];
  }

  /** A completed batch followed by a second one is the progress of the two together. */
  lemma ProgressThen(t0: Trees, calls0: seq<Call>, plan: seq<Copy>, b1: seq<Copy>, b2: seq<Copy>, done1: nat,
                     t1: Trees, calls1: seq<Call>, res: Outcome, done2: nat, done: nat, t2: Trees, calls2: seq<Call>)
    requires plan == b1 + b2
    requires Progress(t0, calls0, b1, Completed, done1, t1, calls1)
    requires Progress(t1, calls1, b2, res, done2, t2, calls2)
    requires done == |b1| + done2
    ensures Progress(t0, calls0, plan, res, done, t2, calls2)
  {
    assert b1[..done1] == b1;
    ConcatPrefix(t0, b1, b2, done2);
    if res.Raised? {
      assert (b1 + b2)[|b1| + done2] == b2[done2];
      assert calls1 + Succeeded(b2[..done2]) == calls0 + (Succeeded(b1) + Succeeded(b2[..done2]));
    } else {
      assert b2[..done2] == b2;
      assert (b1 + b2)[..|b1| + done2] == b1 + b2;
    }
  }

  /**
   * Whatever its outcome, a run removes nothing: every root is still there
   * and still holds every path it held before the first copy.
   */
  lemma ProgressNeverRemoves(t0: Trees, calls0: seq<Call>, batch: seq<Copy>, res: Outcome, done: nat,
                             t: Trees, calls: seq<Call>)
    requires Progress(t0, calls0, batch, res, done, t, calls)
    ensures t.Keys == t0.Keys
    ensures forall r :: r in t0 ==> t0[r].Keys <= t[r].Keys
  {
    ApplyNeverRemoves(t0, batch[..done]);
  }

  /**
   * A run whose two listings reported the roots and whose every copy
   * succeeded: all of the plan was copied and logged, both roots hold the
   * union of their original paths, every file they already had keeps its
   * content, each one-sided file arrives with its original content, and
   * other roots are left alone.
   */
  lemma CompletedRunSyncs(t0: Trees, calls0: seq<Call>, records1: seq<FileEntry>, records2: seq<FileEntry>,
                          root1: Root, root2: Root, done: nat, t: Trees, calls: seq<Call>)
    requires root1 in t0 && root2 in t0
    requires Reports(records1, t0[root1]) && Reports(records2, t0[root2])
    requires Progress(t0, calls0, Plan(Index(records1), Index(records2), root1, root2), Completed, done, t, calls)
    ensures t == Apply(t0, Plan(Index(records1), Index(records2), root1, root2))
    ensures calls == calls0 + Succeeded(Plan(Index(records1), Index(records2), root1, root2))
    ensures t.Keys == t0.Keys && root1 in t && root2 in t
    ensures t[root1].Keys == t0[root1].Keys + t0[root2].Keys
    ensures t[root2].Keys == t0[root1].Keys + t0[root2].Keys
    ensures forall r :: r in t0 && r != root1 && r != root2 ==> t[r] == t0[r]
    ensures forall p :: p in t0[root1] ==> t[root1][p] == t0[root1][p]
    ensures forall p :: p in t0[root2] ==> t[root2][p] == t0[root2][p]
    ensures root1 != root2 ==> forall p :: p in t0[root1] && p !in t0[root2] ==> t[root2][p] == t0[root1][p]
    ensures root1 != root2 ==> forall p :: p in t0[root2] && p !in t0[root1] ==> t[root1][p] == t0[root2][p]
  {
    var plan := Plan(Index(records1), Index(records2), root1, root2);
    assert plan[..done] == plan;
    IndexDescribes(records1, t0[root1]);
    IndexDescribes(records2, t0[root2]);
    SyncUnion(t0, Index(records1), Index(records2), root1, root2);
    SyncKeepsExistingFiles(t0, Index(records1), Index(records2), root1, root2);
    if root1 != root2 {
      SyncCopiesContent(t0, Index(records1), Index(records2), root1, root2);
    }
  }

  /**
   * After a run whose every copy succeeded, listing the roots again yields
   * an empty plan: a second run issues no copy.
   */
  lemma CompletedRunIsFixedPoint(t0: Trees, calls0: seq<Call>, records1: seq<FileEntry>, records2: seq<FileEntry>,
                                 root1: Root, root2: Root, done: nat, t: Trees, calls: seq<Call>,
                                 next1: seq<FileEntry>, next2: seq<FileEntry>)
    requires root1 in t0 && root2 in t0
    requires Reports(records1, t0[root1]) && Reports(records2, t0[root2])
    requires Progress(t0, calls0, Plan(Index(records1), Index(records2), root1, root2), Completed, done, t, calls)
    requires root1 in t && root2 in t && Reports(next1, t[root1]) && Reports(next2, t[root2])
    ensures Plan(Index(next1), Index(next2), root1, root2) == []
  {
    var plan := Plan(Index(records1), Index(records2), root1, root2);
    assert plan[..done] == plan;
    IndexDescribes(records1, t0[root1]);
    IndexDescribes(records2, t0[root2]);
    IndexDescribes(next1, t[root1]);
    IndexDescribes(next2, t[root2]);
    SecondRunCopiesNothing(t0, Index(records1), Index(records2), root1, root2, Index(next1), Index(next2));
  }

  class Synchronizer {
    const root1: Root
    const root2: Root
    const rclone: Rclone

    constructor (root1: Root, root2: Root, rclone: Rclone)
      ensures this.root1 == root1 && this.root2 == root2 && this.rclone == rclone
    {
      this.root1 := root1;
      this.root2 := root2;
      this.rclone := rclone;
    }

    /** True exactly when `rclone check root1 root2` exits 0, which it does only for equal roots. */
    method IsSynced() returns (synced: bool)
      modifies rclone
      ensures rclone.trees == old(rclone.trees)
      ensures |rclone.calls| == |old(rclone.calls)| + 1
      ensures rclone.calls == old(rclone.calls) + [CheckCall(root1, root2, Last(rclone.calls).status)]
      ensures synced <==> Last(rclone.calls).status == 0
      ensures synced ==> root1 in rclone.trees && root2 in rclone.trees && rclone.trees[root1] == rclone.trees[root2]
    {
      var status := rclone.Check(root1, root2);
      synced := status == 0;
    }

    /**
     * Lists `root` and indexes the records by path; a failing listing raises.
     * `status` and `records` are what the tool returned.
     */
    method GetFileList(root: Root) returns (res: Result<Listing>, ghost status: int, ghost records: seq<FileEntry>)
      modifies rclone
      ensures rclone.trees == old(rclone.trees)
      ensures rclone.calls == old(rclone.calls) + [ListCall(root, status, records)]
      ensures res.Success? <==> status == 0
      ensures res.Success? ==> res.value == Index(records)
      ensures res.Success? ==> root in rclone.trees && Reports(records, rclone.trees[root])
      ensures res.Success? ==> Describes(res.value, rclone.trees[root])
      ensures res.Failure? ==> res.error == ListingError && records == []
    {
      var exit, listed := rclone.ListJson(root);
      status, records := exit, listed;
      if exit != 0 {
        return Failure(ListingError), status, records;
      }
      var listing := IndexByPath(listed);
      IndexDescribes(listed, rclone.trees[root]);
      return Success(listing), status, records;
    }

    /** One `rclone copy`; a non-zero exit raises a copy error naming the path and both roots. */
    method CopyFile(path: Path, fromRoot: Root, toRoot: Root) returns (res: Outcome, ghost status: int)
      modifies rclone
      ensures rclone.calls == old(rclone.calls) + [CopyCall(Copy(path, fromRoot, toRoot), status)]
      ensures res == if status == 0 then Completed else Raised(CopyError(Copy(path, fromRoot, toRoot)))
      ensures res.Completed? ==> CanCopy(old(rclone.trees), Copy(path, fromRoot, toRoot))
      ensures res.Completed? ==> rclone.trees == Step(old(rclone.trees), Copy(path, fromRoot, toRoot))
      ensures res.Raised? ==> rclone.trees == old(rclone.trees)
    {
      var exit := rclone.CopyFile(Copy(path, fromRoot, toRoot));
      status := exit;
      if exit != 0 {
        return Raised(CopyError(Copy(path, fromRoot, toRoot))), status;
      }
      return Completed, status;
    }

    /**
     * Copies, in `list1`'s order, every key of `list1` that `list2` lacks, from
     * `fromRoot` to `toRoot`. The first failing copy raises; the copies before
     * it stay done and no later copy is attempted. `done` counts the copies
     * that succeeded.
     */
    method CopyMissingFiles(list1: Listing, list2: Listing, fromRoot: Root, toRoot: Root)
      returns (res: Outcome, ghost done: nat)
      modifies rclone
      ensures Progress(old(rclone.trees), old(rclone.calls), Batch(Missing(list1.order, list2), fromRoot, toRoot),
                       res, done, rclone.trees, rclone.calls)
    {
      ghost var order := list1.order;
      ghost var all := Missing(order, list2);
      ghost var batch := Batch(all, fromRoot, toRoot);
      ghost var trees0, calls0 := rclone.trees, rclone.calls;
      res, done := Completed, 0;
      var i := 0;
      while i < |list1.order|
        invariant i <= |order|
        invariant res == Completed
        invariant done <= |all| && done == |Missing(order[..i], list2)|
        invariant rclone.calls == calls0 + Succeeded(batch[..done])
        invariant rclone.trees == Apply(trees0, batch[..done])
      {
        var path := list1.order[i];
        MissingStep(order, list2, i);
        if path !in list2.entries {
          ghost var trees1, calls1 := rclone.trees, rclone.calls;
          ghost var status;
          res, status := CopyFile(path, fromRoot, toRoot);
          if res.Raised? {
            assert batch[done] == Copy(path, fromRoot, toRoot);
            ProgressFails(old(rclone.trees), old(rclone.calls), Batch(Missing(list1.order, list2), fromRoot, toRoot),
                          res, done, rclone.trees, rclone.calls, status);
            return;
          }
          PrefixStep(trees0, calls0, batch, done, trees1, calls1, rclone.trees, rclone.calls);
          done := done + 1;
        }
        assert done == |Missing(order[..i + 1], list2)|;
        i := i + 1;
      }
      assert order[..i] == order;
      ProgressCompletes(old(rclone.trees), old(rclone.calls), Batch(Missing(list1.order, list2), fromRoot, toRoot),
                        res, done, rclone.trees, rclone.calls);
    }

    /**
     * Lists root1, then root2, then copies root1's missing paths to root2 and
     * root2's missing paths to root1, both decided from the two listings taken
     * before any copy. `records1` and `records2` are what the two listings
     * returned; `done` counts the copies that succeeded.
     */
    method Synchronize() returns (res: Outcome, ghost records1: seq<FileEntry>, ghost records2: seq<FileEntry>,
                                  ghost done: nat)
      modifies rclone
      ensures res == Raised(ListingError) ==>
                && rclone.trees == old(rclone.trees)
                && rclone.calls != []
                && Last(rclone.calls).status != 0
                && (|| rclone.calls == old(rclone.calls) + [ListCall(root1, Last(rclone.calls).status, [])]
                    || rclone.calls == old(rclone.calls) + [ListCall(root1, 0, records1),
                                                            ListCall(root2, Last(rclone.calls).status, [])])
      ensures res != Raised(ListingError) ==>
                && root1 in old(rclone.trees) && root2 in old(rclone.trees)
                && Reports(records1, old(rclone.trees)[root1])
                && Reports(records2, old(rclone.trees)[root2])
                && Progress(old(rclone.trees),
                            old(rclone.calls) + [ListCall(root1, 0, records1), ListCall(root2, 0, records2)],
                            Plan(Index(records1), Index(records2), root1, root2),
                            res, done, rclone.trees, rclone.calls)
    {
      records1, records2, done := [], [], 0;
      ghost var status1, status2;
      var res1;
      res1, status1, records1 := GetFileList(root1);
      ghost var calls1 := rclone.calls;
      if res1.Failure? {
        return Raised(ListingError), records1, records2, done;
      }
      var res2;
      res2, status2, records2 := GetFileList(root2);
      if res2.Failure? {
        return Raised(ListingError), records1, records2, done;
      }
      var list1, list2 := res1.value, res2.value;
      ghost var listed := old(rclone.calls) + [ListCall(root1, 0, records1), ListCall(root2, 0, records2)];
      ghost var plan := Plan(Index(records1), Index(records2), root1, root2);
      ghost var b1 := Batch(Missing(list1.order, list2), root1, root2);
      ghost var b2 := Batch(Missing(list2.order, list1), root2, root1);
      AppendTwo(old(rclone.calls), ListCall(root1, 0, records1), ListCall(root2, 0, records2));
      assert rclone.calls == calls1 + [ListCall(root2, 0, records2)];
      assert rclone.calls == listed && rclone.trees == old(rclone.trees);
      assert plan == b1 + b2;

      var out1, done1 := CopyMissingFiles(list1, list2, root1, root2);
      if out1.Raised? {
        res, done := out1, done1;
        ProgressStops(old(rclone.trees), old(rclone.calls) + [ListCall(root1, 0, records1), ListCall(root2, 0, records2)],
                      Plan(Index(records1), Index(records2), root1, root2), b1, b2, res, done, rclone.trees, rclone.calls);
        return;
      }
      ghost var mid, midCalls := rclone.trees, rclone.calls;
      var out2, done2 := CopyMissingFiles(list2, list1, root2, root1);
      res, done := out2, |b1| + done2;
      ProgressThen(old(rclone.trees), old(rclone.calls) + [ListCall(root1, 0, records1), ListCall(root2, 0, records2)],
                   Plan(Index(records1), Index(records2), root1, root2), b1, b2, done1, mid, midCalls, res, done2, done,
                   rclone.trees, rclone.calls);
    }
  }
}
