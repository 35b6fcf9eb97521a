/** Counting who refers to an inode: directory entries, and subdirectories of a directory. */
module References {
  import opened NameSpace

  /** The directory entries (directory, name) that point to inode `i`. */
  ghost function Refs(nodes: seq<Node>, i: nat): set<(nat, string)> {
    set d: nat, n: string | 0 <= d < |nodes| && n in nodes[d].children && nodes[d].children[n] == i :: (d, n)
  }

  /** The names of the entries of `d` that point to directories. */
  ghost function Subdirs(nodes: seq<Node>, d: nat): set<string>
    requires d < |nodes|
  {
    set n: string | n in nodes[d].children && IsDirectory(nodes, nodes[d].children[n]) :: n
  }

  /** Whether a name of a directory belongs to a subdirectory. */
  predicate NamesDirectory(nodes: seq<Node>, d: nat, name: string)
    requires d < |nodes|
  {
    name in nodes[d].children && IsDirectory(nodes, nodes[d].children[name])
  }

  /** Whether a name of a directory belongs to anything else. */
  predicate NamesFile(nodes: seq<Node>, d: nat, name: string)
    requires d < |nodes|
  {
    name in nodes[d].children && !IsDirectory(nodes, nodes[d].children[name])
  }

  /** Tables with the same kinds and entries have the same references. */
  ghost predicate SameEntries(a: seq<Node>, b: seq<Node>) {
    && |a| == |b|
    && forall d :: 0 <= d < |a| ==> a[d].children == b[d].children && a[d].kind == b[d].kind
  }

  lemma SameEntriesRefs(a: seq<Node>, b: seq<Node>, i: nat)
    requires SameEntries(a, b)
    ensures Refs(a, i) == Refs(b, i)
    ensures i < |a| ==> Subdirs(a, i) == Subdirs(b, i)
  {
  }

  function PutEntry(nodes: seq<Node>, d: nat, name: string, child: nat): seq<Node>
    requires d < |nodes|
  {
    nodes[d := nodes[d].UpdateChild(name, child)]
  }

  function DropEntry(nodes: seq<Node>, d: nat, name: string): seq<Node>
    requires d < |nodes|
  {
    nodes[d := nodes[d].DeleteChild(name)]
  }

  lemma PutEntryRefs(nodes: seq<Node>, d: nat, name: string, child: nat, i: nat)
    requires d < |nodes|
    ensures Refs(PutEntry(nodes, d, name, child), i)
            == (Refs(nodes, i) - {(d, name)}) + (if i == child then {(d, name)} else {})
  {
    var after := PutEntry(nodes, d, name, child);
    forall e: nat, n: string
      ensures (e, n) in Refs(after, i) <==>
              (e, n) in (Refs(nodes, i) - {(d, name)}) + (if i == child then {(d, name)} else {})
    {
    }
  }

  lemma PutEntrySubdirs(nodes: seq<Node>, d: nat, name: string, child: nat, i: nat)
    requires d < |nodes| && i < |nodes|
    ensures Subdirs(PutEntry(nodes, d, name, child), i)
            == if i != d then Subdirs(nodes, i)
               else (Subdirs(nodes, d) - {name}) + (if IsDirectory(nodes, child) then {name} else {})
  {
    var after := PutEntry(nodes, d, name, child);
    var expected := if i != d then Subdirs(nodes, i)
                    else (Subdirs(nodes, d) - {name}) + (if IsDirectory(nodes, child) then {name} else {});
    forall k: nat ensures IsDirectory(after, k) <==> IsDirectory(nodes, k) {
    }
    forall n: string ensures n in Subdirs(after, i) <==> n in expected {
      assert n in after[i].children && n in nodes[i].children && (i != d || n != name)
        ==> after[i].children[n] == nodes[i].children[n];
    }
  }

  lemma DropEntryRefs(nodes: seq<Node>, d: nat, name: string, i: nat)
    requires d < |nodes|
    ensures Refs(DropEntry(nodes, d, name), i) == Refs(nodes, i) - {(d, name)}
  {
    var after := DropEntry(nodes, d, name);
    forall e: nat, n: string
      ensures (e, n) in Refs(after, i) <==> (e, n) in Refs(nodes, i) - {(d, name)}
    {
    }
  }

  lemma DropEntrySubdirs(nodes: seq<Node>, d: nat, name: string, i: nat)
    requires d < |nodes| && i < |nodes|
    ensures Subdirs(DropEntry(nodes, d, name), i)
            == if i != d then Subdirs(nodes, i) else Subdirs(nodes, d) - {name}
  {
    var after := DropEntry(nodes, d, name);
    var expected := if i != d then Subdirs(nodes, i) else Subdirs(nodes, d) - {name};
    forall k: nat ensures IsDirectory(after, k) <==> IsDirectory(nodes, k) {
    }
    forall n: string ensures n in Subdirs(after, i) <==> n in expected {
      assert n in after[i].children && n in nodes[i].children && (i != d || n != name)
        ==> after[i].children[n] == nodes[i].children[n];
    }
  }

  /** Every entry stays inside the table. */
  ghost predicate EntriesInRange(nodes: seq<Node>) {
    forall d, n :: 0 <= d < |nodes| && n in nodes[d].children ==> nodes[d].children[n] < |nodes|
  }

  /** A new last inode is not referred to, and changes nobody else's references. */
  lemma AppendRefs(nodes: seq<Node>, node: Node, i: nat)
    requires EntriesInRange(nodes) && node.children == map[]
    ensures Refs(nodes + [node], i) == Refs(nodes, i)
    ensures i >= |nodes| ==> Refs(nodes, i) == {}
    ensures i < |nodes| ==> Subdirs(nodes + [node], i) == Subdirs(nodes, i)
    ensures i == |nodes| ==> Subdirs(nodes + [node], i) == {}
  {
    var after := nodes + [node];
    forall e: nat, n: string ensures (e, n) in Refs(after, i) <==> (e, n) in Refs(nodes, i) {
    }
  }

  /** Replacing an inode that has no entries and is not referred to changes no references. */
  lemma ReplaceRefs(nodes: seq<Node>, q: nat, node: Node, i: nat)
    requires q < |nodes| && nodes[q].children == map[] == node.children
    requires Refs(nodes, q) == {}
    ensures Refs(nodes[q := node], i) == Refs(nodes, i)
    ensures i < |nodes| ==> Subdirs(nodes[q := node], i) == Subdirs(nodes, i)
  {
    var after := nodes[q := node];
    forall e: nat, n: string ensures (e, n) in Refs(after, i) <==> (e, n) in Refs(nodes, i) {
    }
    if i < |nodes| {
      forall n: string ensures n in Subdirs(after, i) <==> n in Subdirs(nodes, i) {
        assert n in nodes[i].children ==> (nodes[i].children[n] == q <==> (i, n) in Refs(nodes, q));
      }
    }
  }

  lemma SubsetSize<T>(a: set<T>, b: set<T>)
    requires a <= b
    ensures |a| <= |b|
    ensures |a| == |b| ==> a == b
  {
    assert b == a + (b - a);
  }
  ghost function Flag(b: bool): nat { if b then 1 else 0 }

  lemma DropSize<T>(t: set<T>, name: T)
    ensures |t - {name}| == |t| - Flag(name in t)
  {
    if name !in t { assert t - {name} == t; }
  }

  lemma PutSize<T>(t: set<T>, newname: T, put: bool)
    ensures |(t - {newname}) + (if put then {newname} else {})| == |t| - Flag(newname in t) + Flag(put)
  {
    DropSize(t, newname);
    if !put { assert (t - {newname}) + {} == t - {newname}; }
  }
}
