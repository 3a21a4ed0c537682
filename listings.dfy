/**
 * The listing of one root as the synchronizer holds it: the `lsjson` records
 * folded into a dictionary keyed by path. A Python dictionary remembers the
 * order in which keys were first inserted, and assigning to a present key
 * replaces its value without moving it; `Listing` keeps both halves.
 */
module Listings {
  import opened Storage

  /** A path-keyed dictionary: its keys in iteration order, and its entries. */
  datatype Listing = Listing(order: seq<Path>, entries: map<Path, FileEntry>)

  ghost predicate Distinct(s: seq<Path>)
  {
    forall i, j :: 0 <= i < j < |s| ==> s[i] != s[j]
  }

  /** The iteration order lists every key exactly once. */
  ghost predicate WellFormed(l: Listing)
  {
    && Distinct(l.order)
    && (forall p :: p in l.order <==> p in l.entries)
  }

  /** The listing holds exactly the files of `tree`, each under its own path and hash. */
  ghost predicate Describes(l: Listing, tree: Tree)
  {
    && WellFormed(l)
    && l.entries.Keys == tree.Keys
    && forall p :: p in l.entries ==> l.entries[p].path == p && l.entries[p].hash == tree[p]
  }

  /** `dict[e.path] = e`: a new key goes last, a present key keeps its place. */
  function Put(l: Listing, e: FileEntry): (r: Listing)
    ensures r.entries.Keys == l.entries.Keys + {e.path} && r.entries[e.path] == e
    ensures forall p :: p in l.entries && p != e.path ==> r.entries[p] == l.entries[p]
    ensures e.path in l.entries ==> r.order == l.order
    ensures e.path !in l.entries ==> r.order == l.order + [e.path]
    ensures WellFormed(l) ==> WellFormed(r)
  {
    if e.path in l.entries then Listing(l.order, l.entries[e.path := e])
    else Listing(l.order + [e.path], l.entries[e.path := e])
  }

  /** The dictionary obtained by assigning every record under its path, in order. */
  function Index(records: seq<FileEntry>): Listing
    decreases |records|
  {
    if records == [] then Listing([], map[])
    else Put(Index(records[..|records| - 1]), records[|records| - 1])
  }

  /** The loop of `_getFileList` that builds the dictionary from the parsed records. */
  method IndexByPath(records: seq<FileEntry>) returns (listing: Listing)
    ensures listing == Index(records)
  {
    listing := Listing([], map[]);
    for i := 0 to |records|
      invariant listing == Index(records[..i])
    {
      assert records[..i + 1][..i] == records[..i];
      listing := Put(listing, records[i]);
    }
    assert records[..|records|] == records;
  }

  /** One key per distinct path, every key listed once, every entry under its own path. */
  lemma {:induction false} IndexWellFormed(records: seq<FileEntry>)
    ensures WellFormed(Index(records))
    ensures Index(records).entries.Keys == PathsOf(records)
    ensures forall p :: p in Index(records).entries ==> Index(records).entries[p].path == p
    decreases |records|
  {
    if records != [] {
      var rs, e := records[..|records| - 1], records[|records| - 1];
      assert records == rs + [e];
      IndexWellFormed(rs);
      assert PathsOf(records) == PathsOf(rs) + {e.path};
    }
  }

  /** The last record carrying a path is the one the dictionary keeps for it. */
  lemma {:induction false} IndexLastWins(records: seq<FileEntry>, i: nat)
    requires i < |records|
    requires forall j :: i < j < |records| ==> records[j].path != records[i].path
    ensures records[i].path in Index(records).entries
    ensures Index(records).entries[records[i].path] == records[i]
    decreases |records|
  {
    var rs := records[..|records| - 1];
    if i < |records| - 1 {
      assert rs[i] == records[i];
      IndexLastWins(rs, i);
    }
  }

  /** Folding records that report a tree yields a listing that describes it. */
  lemma IndexDescribes(records: seq<FileEntry>, tree: Tree)
    requires Reports(records, tree)
    ensures Describes(Index(records), tree)
  {
    var l := Index(records);
    IndexWellFormed(records);
    forall p | p in l.entries
      ensures l.entries[p].hash == tree[p]
    {
      assert p in PathsOf(records);
      var i := LastWith(records, p);
      IndexLastWins(records, i);
    }
  }

  /** The index of the last record carrying path `p`. */
  function LastWith(records: seq<FileEntry>, p: Path): (i: nat)
    requires p in PathsOf(records)
    ensures i < |records| && records[i].path == p
    ensures forall j :: i < j < |records| ==> records[j].path != p
    decreases |records|
  {
    var last := records[|records| - 1];
    if last.path == p then |records| - 1
    else
      var rs := records[..|records| - 1];
      assert p in PathsOf(rs) by {
        var r :| r in records && r.path == p;
        assert r in rs;
      }
      LastWith(rs, p)
  }
}
