/** `prep` from src/App.tsx: turns the flat, recursive git-tree listing into
    the parent-linked node list of the tree widget, plus the root id. */
module Normalizer {
  import opened Model
  import opened Paths
  import opened LengthSort

  /** The entries the loop does not skip: those with a non-empty path. */
  function Kept(s: seq<Entry>): (r: seq<Entry>)
    ensures |r| <= |s|
    ensures forall i :: 0 <= i < |r| ==> r[i].path != ""
    decreases |s|
  {
    if s == [] then []
    else Kept(s[..|s| - 1]) + (if s[|s| - 1].path == "" then [] else [s[|s| - 1]])
  }

  /** An entry that the loop records as the directory `d`. */
  predicate RecordsFolder(e: Entry, d: string) {
    IsTree(e) && e.path != "" && e.path == d
  }

  /** The `folderToId` dictionary after the loop has processed `s`. */
  function FolderIndex(s: seq<Entry>): (m: map<string, string>)
    ensures "" !in m
    ensures |m| <= |s|
    decreases |s|
  {
    if s == [] then map[]
    else
      var e := s[|s| - 1];
      var m := FolderIndex(s[..|s| - 1]);
      if e.path != "" && IsTree(e) then m[e.path := e.sha] else m
  }

  /** `folderToId[key]`: the recorded sha, or `undefined` (None) when the
      key was never recorded. */
  function Lookup(m: map<string, string>, key: string): (r: Option<string>)
    ensures r.None? <==> key !in m
    ensures r.Some? ==> r.value == m[key]
  {
    if key in m then Some(m[key]) else None
  }

  /** The sha of the last directory entry of `s` whose path is `d`. */
  function LastFolderSha(s: seq<Entry>, d: string): Option<string>
    decreases |s|
  {
    if s == [] then None
    else if RecordsFolder(s[|s| - 1], d) then Some(s[|s| - 1].sha)
    else LastFolderSha(s[..|s| - 1], d)
  }

  /** The dictionary holds, for each directory path, the sha of the last
      directory entry with that path processed so far. */
  lemma {:induction false} FolderIndexAgrees(s: seq<Entry>, d: string)
    ensures Lookup(FolderIndex(s), d) == LastFolderSha(s, d)
    decreases |s|
  {
    if s != [] {
      FolderIndexAgrees(s[..|s| - 1], d);
    }
  }

  /** LastFolderSha is None exactly when no directory entry has path `d`,
      and otherwise the sha of the last one that has. */
  lemma {:induction false} LastFolderShaSpec(s: seq<Entry>, d: string)
    ensures LastFolderSha(s, d).None? <==> forall i :: 0 <= i < |s| ==> !RecordsFolder(s[i], d)
    ensures LastFolderSha(s, d).Some? ==>
      exists i :: 0 <= i < |s| && RecordsFolder(s[i], d) && s[i].sha == LastFolderSha(s, d).value &&
        forall k :: i < k < |s| ==> !RecordsFolder(s[k], d)
    decreases |s|
  {
    if s != [] {
      var init := s[..|s| - 1];
      LastFolderShaSpec(init, d);
      if !RecordsFolder(s[|s| - 1], d) {
        if LastFolderSha(init, d).Some? {
          var i :| 0 <= i < |init| && RecordsFolder(init[i], d) && init[i].sha == LastFolderSha(init, d).value &&
            forall k :: i < k < |init| ==> !RecordsFolder(init[k], d);
          assert s[i] == init[i];
        }
        assert forall i :: 0 <= i < |init| ==> s[i] == init[i];
      }
    }
  }

  /** The node of one entry, once its parent is resolved. */
  function NodeOf(e: Entry, parent: Option<string>): (n: Node)
    ensures n.id == e.sha && n.parent == parent && n.droppable == (e.kind == "tree")
    ensures '/' !in n.text
    ensures '/' in e.path ==> e.path == DirName(e.path) + "/" + n.text
    ensures '/' !in e.path ==> n.text == e.path
  {
    Node(e.sha, parent, IsTree(e), BaseName(e.path))
  }

  /** What the loop emits for `s`, taken in the order given: the node of the
      last entry resolves its parent in the dictionary of everything up to
      and including that entry. */
  function Emit(root: string, s: seq<Entry>): (nodes: seq<Node>)
    ensures |nodes| == |Kept(s)|
    decreases |s|
  {
    if s == [] then []
    else
      var e := s[|s| - 1];
      Emit(root, s[..|s| - 1]) +
        (if e.path == "" then []
         else [NodeOf(e, if '/' in e.path then Lookup(FolderIndex(s), DirName(e.path)) else Some(root))])
  }

  /** The node the normalizer should produce for `e`, whatever the order:
      top-level entries hang under the root, nested ones under the last
      directory entry of the listing with their parent path. */
  function Expected(root: string, listing: seq<Entry>, e: Entry): Node {
    NodeOf(e, if '/' in e.path then LastFolderSha(listing, DirName(e.path)) else Some(root))
  }

  /** Entries with an empty path are dropped, the others all kept. */
  lemma {:induction false} KeptCount(s: seq<Entry>, x: Entry)
    ensures multiset(Kept(s))[x] == if x.path == "" then 0 else multiset(s)[x]
    decreases |s|
  {
    if s != [] {
      KeptCount(s[..|s| - 1], x);
      assert s == s[..|s| - 1] + [s[|s| - 1]];
    }
  }

  /** Every kept entry comes from the listing. */
  lemma KeptFrom(s: seq<Entry>, j: nat) returns (i: nat)
    requires j < |Kept(s)|
    ensures i < |s| && s[i] == Kept(s)[j]
  {
    KeptCount(s, Kept(s)[j]);
    assert Kept(s)[j] in multiset(Kept(s));
    assert Kept(s)[j] in s;
    i :| i < |s| && s[i] == Kept(s)[j];
  }

  /** Dropping entries keeps a length-sorted listing sorted. */
  lemma {:induction false} KeptSorted(s: seq<Entry>)
    requires SortedByLength(s)
    ensures SortedByLength(Kept(s))
    decreases |s|
  {
    if s != [] {
      var init := s[..|s| - 1];
      assert SortedByLength(init);
      KeptSorted(init);
      forall j | 0 <= j < |Kept(init)|
        ensures PathLength(Kept(init)[j]) <= PathLength(s[|s| - 1])
      {
        var i := KeptFrom(init, j);
        assert s[i] == init[i];
      }
    }
  }

  /** In a length-sorted listing, a proper ancestor directory comes first. */
  lemma AncestorProcessedFirst(s: seq<Entry>, i: nat, j: nat)
    requires SortedByLength(s) && i < |s| && j < |s|
    requires IsAncestor(s[j].path, s[i].path)
    ensures j < i
  {
    AncestorShorter(s[j].path, s[i].path);
  }

  /** The claim the length sort exists for: on a listing sorted by path
      length, every lookup the loop makes sees the same directory as a
      lookup in the whole listing would, since the parent directory is a
      proper ancestor and so precedes the entry. */
  lemma {:induction false} EmitResolvesParents(root: string, s: seq<Entry>)
    requires SortedByLength(s)
    ensures forall j :: 0 <= j < |Emit(root, s)| ==> Emit(root, s)[j] == Expected(root, s, Kept(s)[j])
    decreases |s|
  {
    if s != [] {
      var init, e := s[..|s| - 1], s[|s| - 1];
      assert SortedByLength(init);
      EmitResolvesParents(root, init);
      var n := |Kept(init)|;
      forall j | 0 <= j < |Emit(root, s)|
        ensures Emit(root, s)[j] == Expected(root, s, Kept(s)[j])
      {
        if j < n {
          var x := Kept(init)[j];
          assert Kept(s)[j] == x;
          assert Emit(root, s)[j] == Emit(root, init)[j];
          if '/' in x.path {
            var i := KeptFrom(init, j);
            assert s[i] == x;
            DirNameIsAncestor(x.path);
            assert !RecordsFolder(e, DirName(x.path));
          }
        } else {
          assert Kept(s)[j] == e;
          if '/' in e.path {
            FolderIndexAgrees(s, DirName(e.path));
          }
        }
      }
    }
  }

  /** Only the entries as long as `d` can record the directory `d`. */
  lemma {:induction false} LastFolderShaWithLength(s: seq<Entry>, d: string)
    ensures LastFolderSha(s, d) == LastFolderSha(WithLength(s, Utf16Length(d)), d)
    decreases |s|
  {
    if s != [] {
      var init, e := s[..|s| - 1], s[|s| - 1];
      LastFolderShaWithLength(init, d);
      var n := Utf16Length(d);
      var w := WithLength(init, n);
      assert WithLength(s, n) == w + (if PathLength(e) == n then [e] else []);
      if RecordsFolder(e, d) {
        assert WithLength(s, n) == w + [e];
      } else if PathLength(e) == n {
        assert WithLength(s, n) == w + [e];
        assert (w + [e])[..|w|] == w;
        assert LastFolderSha(w + [e], d) == LastFolderSha(w, d);
        assert LastFolderSha(s, d) == LastFolderSha(init, d);
      } else {
        assert WithLength(s, n) == w;
        assert LastFolderSha(s, d) == LastFolderSha(init, d);
      }
    }
  }

  /** Sorting does not change which directory entry is the last with a
      given path: entries with equal paths have equal lengths, and the sort
      is stable. */
  lemma SortKeepsLastFolder(listing: seq<Entry>, d: string)
    ensures LastFolderSha(SortByLength(listing), d) == LastFolderSha(listing, d)
  {
    LastFolderShaWithLength(SortByLength(listing), d);
    SortByLengthStable(listing, Utf16Length(d));
    LastFolderShaWithLength(listing, d);
  }

  /** The result of `prep`, node by node, stated against the listing as it
      was handed in: one node per kept entry, whose id is the entry's sha,
      droppable iff a directory, text the last path segment, and parent the
      root for a top-level entry or else the last directory entry of the
      listing whose path is the entry's parent path (None if there is none). */
  lemma PrepNodes(root: string, listing: seq<Entry>)
    ensures |Emit(root, SortByLength(listing))| == |Kept(SortByLength(listing))|
    ensures forall j :: 0 <= j < |Kept(SortByLength(listing))| ==>
      Emit(root, SortByLength(listing))[j] == Expected(root, listing, Kept(SortByLength(listing))[j])
  {
    var sorted := SortByLength(listing);
    SortByLengthSorted(listing);
    EmitResolvesParents(root, sorted);
    forall j | 0 <= j < |Kept(sorted)|
      ensures Emit(root, sorted)[j] == Expected(root, listing, Kept(sorted)[j])
    {
      var p := Kept(sorted)[j].path;
      if '/' in p {
        SortKeepsLastFolder(listing, DirName(p));
      }
    }
  }

  /** The nodes come in ascending order of path length, and they are those
      of exactly the listing's entries with a non-empty path. */
  lemma PrepOrder(listing: seq<Entry>)
    ensures SortedByLength(Kept(SortByLength(listing)))
    ensures multiset(Kept(SortByLength(listing))) == multiset(Kept(listing))
  {
    SortByLengthSorted(listing);
    KeptSorted(SortByLength(listing));
    SortByLengthPermutes(listing);
    forall x
      ensures multiset(Kept(SortByLength(listing)))[x] == multiset(Kept(listing))[x]
    {
      KeptCount(SortByLength(listing), x);
      KeptCount(listing, x);
    }
  }

  /** A nested node's parent is undefined exactly when the listing holds no
      directory entry for its parent path. */
  lemma ParentUndefinedIff(root: string, listing: seq<Entry>, j: nat)
    requires j < |Kept(SortByLength(listing))|
    requires '/' in Kept(SortByLength(listing))[j].path
    ensures Emit(root, SortByLength(listing))[j].parent.None? <==>
      forall i :: 0 <= i < |listing| ==>
        !RecordsFolder(listing[i], DirName(Kept(SortByLength(listing))[j].path))
  {
    var kept := Kept(SortByLength(listing));
    var d := DirName(kept[j].path);
    PrepNodes(root, listing);
    assert Emit(root, SortByLength(listing))[j].parent == LastFolderSha(listing, d);
    LastFolderShaSpec(listing, d);
  }

  /** A resolved parent of a nested node is another emitted node: a
      droppable one whose path is a proper ancestor of the child's. */
  lemma ParentIsEmittedFolder(root: string, listing: seq<Entry>, j: nat)
    requires j < |Kept(SortByLength(listing))|
    requires '/' in Kept(SortByLength(listing))[j].path
    requires Emit(root, SortByLength(listing))[j].parent.Some?
    ensures exists k :: (0 <= k < |Kept(SortByLength(listing))| &&
      Emit(root, SortByLength(listing))[k].id == Emit(root, SortByLength(listing))[j].parent.value &&
      Emit(root, SortByLength(listing))[k].droppable &&
      IsAncestor(Kept(SortByLength(listing))[k].path, Kept(SortByLength(listing))[j].path))
  {
    var kept := Kept(SortByLength(listing));
    var nodes := Emit(root, SortByLength(listing));
    var p := kept[j].path;
    var d := DirName(p);
    PrepNodes(root, listing);
    LastFolderShaSpec(listing, d);
    var i :| 0 <= i < |listing| && RecordsFolder(listing[i], d) && listing[i].sha == nodes[j].parent.value;
    PrepOrder(listing);
    KeptCount(listing, listing[i]);
    assert listing[i] in multiset(listing);
    assert listing[i] in multiset(kept);
    var k :| 0 <= k < |kept| && kept[k] == listing[i];
    DirNameIsAncestor(p);
    assert nodes[k] == Expected(root, listing, kept[k]);
  }

  /** Running `prep` on its own sorted output changes nothing. */
  lemma PrepIdempotent(root: string, listing: seq<Entry>)
    ensures Emit(root, SortByLength(SortByLength(listing))) == Emit(root, SortByLength(listing))
  {
    SortByLengthIdempotent(listing);
  }

  /** `prep`: sorts the listing's array in place, then emits one node per
      entry with a non-empty path; returns the nodes and the listing's sha. */
  method Prep(sha: string, tree: array<Entry>) returns (nodes: seq<Node>, root: string)
    modifies tree
    ensures tree[..] == SortByLength(old(tree[..]))
    ensures root == sha
    ensures nodes == Emit(sha, tree[..])
    ensures |nodes| == |Kept(tree[..])|
    ensures forall j :: 0 <= j < |nodes| ==> nodes[j] == Expected(sha, old(tree[..]), Kept(tree[..])[j])
  {
    var folderToId: map<string, string> := map[];
    var rootId := sha;
    var prepped: seq<Node> := [];
    SortByPathLength(tree);
    ghost var sorted := tree[..];
    var i := 0;
    while i < tree.Length
      invariant 0 <= i <= tree.Length
      invariant tree[..] == sorted
      invariant folderToId == FolderIndex(tree[..i])
      invariant prepped == Emit(rootId, tree[..i])
    {
      var entry := tree[i];
      assert tree[..i + 1][..i] == tree[..i];
      if entry.path == "" {
        i := i + 1;
        continue;
      }
      if entry.kind == "tree" {
        folderToId := folderToId[entry.path := entry.sha];
      }
      var folders := Split(entry.path);
      var file := folders[|folders| - 1];
      folders := folders[..|folders| - 1];
      SplitSingle(entry.path);
      var parentId := if |folders| == 0 then Some(rootId) else Lookup(folderToId, Join(folders));
      prepped := prepped + [Node(entry.sha, parentId, entry.kind == "tree", file)];
      i := i + 1;
    }
    assert tree[..tree.Length] == tree[..];
    PrepNodes(sha, old(tree[..]));
    return prepped, rootId;
  }
}
