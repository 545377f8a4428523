/**
 * The n-ary trie `case_forperm` uses to skip already-run define tuples
 * (`bench_seen_t`, `struct bench_seen_branch` and `bench_seen_insert` in
 * runners/bench_runner.c).
 *
 * Each node holds a list of branches, one per value seen at that depth,
 * searched linearly. The nodes live in an arena here: node 0 is the root,
 * and a branch names its child by index. Ghost fields record, for each node,
 * the sequence of keys on the path from the root (its prefix) and where it
 * hangs from its parent.
 */
module SeenTrie {

  /** `struct bench_seen_branch`: a key and the subtree below it. */
  datatype Branch = Branch(key: int, child: nat)

  /**
   * The arena invariant: node 0 is the root with the empty path, every branch
   * names an existing child whose path extends its parent's by the branch
   * key, distinct nodes have distinct paths, and every node but the root
   * hangs from the branch its parent and slot name.
   */
  ghost predicate WellFormed(nodes: seq<seq<Branch>>, prefix: seq<seq<int>>, parent: seq<nat>, slot: seq<nat>)
  {
    && |nodes| >= 1 && |prefix| == |nodes| && |parent| == |nodes| && |slot| == |nodes|
    && prefix[0] == []
    && (forall i, b :: 0 <= i < |nodes| && 0 <= b < |nodes[i]| ==>
          nodes[i][b].child < |nodes| && prefix[nodes[i][b].child] == prefix[i] + [nodes[i][b].key])
    && (forall i, j :: 0 <= i < j < |nodes| ==> prefix[i] != prefix[j])
    && (forall c :: 1 <= c < |nodes| ==>
          parent[c] < |nodes| && slot[c] < |nodes[parent[c]]| && nodes[parent[c]][slot[c]].child == c)
  }

  /** The paths of the nodes below n. */
  ghost function PathsOf(prefix: seq<seq<int>>, n: nat): set<seq<int>>
    requires n <= |prefix|
  {
    set i | 0 <= i < n :: prefix[i]
  }

  /**
   * Appending a branch with a new key to node `cur`, and a fresh empty node
   * below it, keeps the arena well formed and adds exactly the extended path.
   */
  lemma AddBranch(nodes: seq<seq<Branch>>, prefix: seq<seq<int>>, parent: seq<nat>, slot: seq<nat>, cur: nat, key: int)
    requires WellFormed(nodes, prefix, parent, slot) && cur < |nodes|
    requires prefix[cur] + [key] !in PathsOf(prefix, |prefix|)
    ensures var next := |nodes|;
      var nodes' := nodes[cur := nodes[cur] + [Branch(key, next)]] + [[]];
      var prefix' := prefix + [prefix[cur] + [key]];
      && WellFormed(nodes', prefix', parent + [cur], slot + [|nodes[cur]|])
      && PathsOf(prefix', |prefix'|) == PathsOf(prefix, |prefix|) + {prefix[cur] + [key]}
  {
    AddBranchEdges(nodes, prefix, parent, slot, cur, key);
    AddBranchParents(nodes, prefix, parent, slot, cur, key);
    AddBranchPaths(nodes, prefix, parent, slot, cur, key);
  }

  /** After the append every branch still leads to a child spelling its parent's path plus its key. */
  lemma AddBranchEdges(nodes: seq<seq<Branch>>, prefix: seq<seq<int>>, parent: seq<nat>, slot: seq<nat>, cur: nat, key: int)
    requires WellFormed(nodes, prefix, parent, slot) && cur < |nodes|
    ensures var nodes' := nodes[cur := nodes[cur] + [Branch(key, |nodes|)]] + [[]];
      var prefix' := prefix + [prefix[cur] + [key]];
      forall i, b :: 0 <= i < |nodes'| && 0 <= b < |nodes'[i]| ==>
        nodes'[i][b].child < |nodes'| && prefix'[nodes'[i][b].child] == prefix'[i] + [nodes'[i][b].key]
  {
    var nodes': seq<seq<Branch>> := nodes[cur := nodes[cur] + [Branch(key, |nodes|)]] + [[]];
    var prefix': seq<seq<int>> := prefix + [prefix[cur] + [key]];
    forall i, b | 0 <= i < |nodes'| && 0 <= b < |nodes'[i]|
      ensures nodes'[i][b].child < |nodes'| && prefix'[nodes'[i][b].child] == prefix'[i] + [nodes'[i][b].key]
    {
      if i == cur && b == |nodes[cur]| {
      } else {
        assert nodes'[i][b] == nodes[i][b];
      }
    }
  }

  /** After the append every node but the root still hangs from the branch its parent and slot name. */
  lemma AddBranchParents(nodes: seq<seq<Branch>>, prefix: seq<seq<int>>, parent: seq<nat>, slot: seq<nat>, cur: nat, key: int)
    requires WellFormed(nodes, prefix, parent, slot) && cur < |nodes|
    ensures var nodes' := nodes[cur := nodes[cur] + [Branch(key, |nodes|)]] + [[]];
      var parent', slot' := parent + [cur], slot + [|nodes[cur]|];
      forall c :: 1 <= c < |nodes'| ==>
        parent'[c] < |nodes'| && slot'[c] < |nodes'[parent'[c]]| && nodes'[parent'[c]][slot'[c]].child == c
  {
    var nodes': seq<seq<Branch>> := nodes[cur := nodes[cur] + [Branch(key, |nodes|)]] + [[]];
    var parent': seq<nat>, slot': seq<nat> := parent + [cur], slot + [|nodes[cur]|];
    forall c | 1 <= c < |nodes'|
      ensures parent'[c] < |nodes'| && slot'[c] < |nodes'[parent'[c]]| && nodes'[parent'[c]][slot'[c]].child == c
    {
      if c < |nodes| {
        assert nodes'[parent[c]][slot[c]] == nodes[parent[c]][slot[c]];
      }
    }
  }

  /** A new path keeps the node paths distinct, and the path set grows by exactly it. */
  lemma AddBranchPaths(nodes: seq<seq<Branch>>, prefix: seq<seq<int>>, parent: seq<nat>, slot: seq<nat>, cur: nat, key: int)
    requires WellFormed(nodes, prefix, parent, slot) && cur < |nodes|
    requires prefix[cur] + [key] !in PathsOf(prefix, |prefix|)
    ensures var prefix' := prefix + [prefix[cur] + [key]];
      && (forall i, j :: 0 <= i < j < |prefix'| ==> prefix'[i] != prefix'[j])
      && PathsOf(prefix', |prefix'|) == PathsOf(prefix, |prefix|) + {prefix[cur] + [key]}
  {
    var next := |nodes|;
    var added := prefix[cur] + [key];
    var prefix': seq<seq<int>> := prefix + [added];
    assert forall i :: 0 <= i < next ==> prefix[i] in PathsOf(prefix, |prefix|);
    assert PathsOf(prefix', |prefix'|) == PathsOf(prefix, |prefix|) + {added} by {
      forall t | t in PathsOf(prefix, |prefix|)
        ensures t in PathsOf(prefix', |prefix'|)
      {
        var i :| 0 <= i < next && prefix[i] == t;
        assert prefix'[i] == t;
      }
      assert prefix'[next] == added;
    }
  }

  /** The key sequences spelled by the prefixes of k, k included. */
  ghost function Prefixes(k: seq<int>): set<seq<int>>
  {
    set j | 0 <= j <= |k| :: k[..j]
  }

  /** A set of key sequences closed under dropping the last key. */
  ghost predicate PrefixClosed(p: set<seq<int>>)
  {
    forall s, v :: s + [v] in p ==> s in p
  }

  lemma PrefixesEmpty()
    ensures Prefixes([]) == {[]}
  {
    var e: seq<int> := [];
    assert e[..0] == e;
  }

  lemma PrefixesSnoc(k: seq<int>, v: int)
    ensures Prefixes(k + [v]) == Prefixes(k) + {k + [v]}
  {
    var k' := k + [v];
    forall s | s in Prefixes(k')
      ensures s in Prefixes(k) + {k'}
    {
      var j :| 0 <= j <= |k'| && s == k'[..j];
      if j <= |k| {
        assert k'[..j] == k[..j];
      } else {
        assert k'[..j] == k';
      }
    }
    forall s | s in Prefixes(k)
      ensures s in Prefixes(k')
    {
      var j :| 0 <= j <= |k| && s == k[..j];
      assert k'[..j] == k[..j];
    }
    assert k'[..|k'|] == k';
  }

  /**
   * One level of the trie walk: the longer path was there before the walk
   * exactly when it is in the original paths, and the walk has then added
   * all prefixes of the longer path.
   */
  lemma PathStep(p0: set<seq<int>>, k: seq<int>, key: int)
    requires PrefixClosed(p0)
    ensures k + [key] in p0 + Prefixes(k) <==> k + [key] in p0
    ensures k + [key] in p0 ==> k in p0
    ensures p0 + Prefixes(k) + {k + [key]} == p0 + Prefixes(k + [key])
  {
    PrefixesSnoc(k, key);
    assert k + [key] !in Prefixes(k);
  }

  /**
   * A walk down the trie in progress: the trie had paths p0, the walk is at
   * node `cur` after keys k, and has added every prefix of k.
   */
  ghost predicate Walking(seen: Seen, cur: nat, k: seq<int>, p0: set<seq<int>>)
    reads seen
  {
    && seen.Valid() && PrefixClosed(p0)
    && cur < |seen.nodes| && seen.prefix[cur] == k
    && seen.Paths() == p0 + Prefixes(k)
  }

  class Seen {
    var nodes: seq<seq<Branch>>
    ghost var prefix: seq<seq<int>>
    ghost var parent: seq<nat>
    ghost var slot: seq<nat>

    ghost predicate Valid()
      reads this
    {
      WellFormed(nodes, prefix, parent, slot)
    }

    /** The key sequences spelled by the paths from the root. */
    ghost function Paths(): set<seq<int>>
      reads this
      requires Valid()
    {
      PathsOf(prefix, |prefix|)
    }

    /** An empty trie: `bench_seen_t seen = {NULL, 0, 0}`. */
    constructor ()
      ensures Valid() && Paths() == {[]}
    {
      nodes := [[]];
      prefix := [[]];
      parent := [0];
      slot := [0];
      new;
      assert prefix[0] == [];
    }

    /** Every path ending in a key ends in a branch with that key from the node of the shorter path. */
    lemma PathHasBranch(cur: nat, key: int)
      requires Valid() && cur < |nodes|
      requires prefix[cur] + [key] in Paths()
      ensures exists b :: 0 <= b < |nodes[cur]| && nodes[cur][b].key == key
    {
      var c :| 0 <= c < |nodes| && prefix[c] == prefix[cur] + [key];
      assert c != 0 by {
        assert |prefix[c]| == |prefix[cur]| + 1;
      }
      var p, b := parent[c], slot[c];
      assert prefix[c] == prefix[p] + [nodes[p][b].key];
      assert prefix[p] == prefix[c][..|prefix[c]| - 1] == prefix[cur];
      PrefixInjective(p, cur);
    }

    /** Distinct nodes spell distinct paths. */
    lemma PrefixInjective(i: nat, j: nat)
      requires Valid() && i < |nodes| && j < |nodes| && prefix[i] == prefix[j]
      ensures i == j
    {
    }

    /** The paths are closed under taking prefixes. */
    lemma PathsPrefixClosed(s: seq<int>, key: int)
      requires Valid() && s + [key] in Paths()
      ensures s in Paths()
    {
      var c :| 0 <= c < |nodes| && prefix[c] == s + [key];
      assert c != 0 by {
        assert |prefix[c]| == |s| + 1;
      }
      var p, b := parent[c], slot[c];
      assert prefix[c] == prefix[p] + [nodes[p][b].key];
      assert prefix[p] == prefix[c][..|prefix[c]| - 1] == s;
    }

    /** The root path is there, and the paths are closed under dropping the last key. */
    lemma PathsClosed()
      requires Valid()
      ensures [] in Paths()
      ensures forall s, v :: s + [v] in Paths() ==> s in Paths()
    {
      assert prefix[0] == [];
      forall s, v | s + [v] in Paths()
        ensures s in Paths()
      {
        PathsPrefixClosed(s, v);
      }
    }

    /**
     * One level of a walk: afterwards the walk is one key further, and the
     * branch existed when the longer key sequence was already a path before
     * the walk began.
     */
    method Walk(cur: nat, key: int, ghost k: seq<int>, ghost p0: set<seq<int>>) returns (next: nat, found: bool)
      requires Walking(this, cur, k, p0)
      modifies this
      ensures Walking(this, next, k + [key], p0)
      ensures found <==> k + [key] in p0
      ensures found ==> k in p0
    {
      next, found := Step(cur, key);
      PathStep(p0, k, key);
    }

    /**
     * One level of `bench_seen_insert`: search the branches of node `cur`
     * for `key`, appending a branch to a new empty node when there is none,
     * and move to the branch's child. `found` says whether the branch existed.
     */
    method Step(cur: nat, key: int) returns (next: nat, found: bool)
      requires Valid() && cur < |nodes|
      modifies this
      ensures Valid()
      ensures next < |nodes| && prefix[next] == old(prefix[cur]) + [key]
      ensures found <==> old(prefix[cur]) + [key] in old(Paths())
      ensures Paths() == old(Paths()) + {old(prefix[cur]) + [key]}
      ensures |prefix| >= old(|prefix|) && prefix[..old(|prefix|)] == old(prefix)
    {
      var branches := nodes[cur];
      var i := 0;
      while i < |branches|
        invariant 0 <= i <= |branches|
        invariant forall b :: 0 <= b < i ==> branches[b].key != key
      {
        if branches[i].key == key {
          next := branches[i].child;
          found := true;
          assert prefix[next] in Paths();
          assert prefix[..|prefix|] == prefix;
          return;
        }
        i := i + 1;
      }
      found := false;
      if prefix[cur] + [key] in Paths() {
        PathHasBranch(cur, key);
        assert false;
      }
      AddBranch(nodes, prefix, parent, slot, cur, key);
      next := |nodes|;
      nodes := nodes[cur := branches + [Branch(key, next)]] + [[]];
      prefix := prefix + [prefix[cur] + [key]];
      parent := parent + [cur];
      slot := slot + [|branches|];
    }
  }
}
