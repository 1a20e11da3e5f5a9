/** What a search of the hash index finds, and how long it takes. */
module IndexSearch {
  import opened Balance
  import opened Chains
  import opened HashIndex
  import opened IndexTree

  ghost predicate Hashed(hash: seq<nat>, h: nat, i: nat) {
    i < |hash| && hash[i] == h
  }

  /** `s` is spelt by the links `cnext`. */
  ghost predicate Threaded(cnext: seq<nat>, s: seq<nat>) {
    && (forall k :: 0 <= k < |s| ==> 0 < s[k] < |cnext|)
    && (forall k {:trigger cnext[s[k]]} :: 0 <= k < |s| ==> cnext[s[k]] == if k + 1 < |s| then s[k + 1] else 0)
  }

  /** What a chain of the index lists: all entries with its hash. */
  lemma ChainHashed(index: Index, h: nat, head: nat)
    requires index.Valid() && head in Ids(index.tree) && head < |index.hash| && index.hash[head] == h
    ensures h in index.chains && index.chains[h] != [] && index.chains[h][0] == head
    ensures forall i :: i in index.Indexed() && Hashed(index.hash, h, i) <==> i in index.chains[h]
    ensures Threaded(index.cnext, index.chains[h])
  {
    var s := index.chains[h];
    forall k | 0 <= k < |s|
      ensures 0 < s[k] < |index.cnext| && index.hash[s[k]] == h
      ensures index.cnext[s[k]] == if k + 1 < |s| then s[k + 1] else 0
    {
      ChainEntry(index.hash, index.cnext, index.cprev, h, s, k);
    }
  }

  lemma InUse(index: Index, h: nat)
    requires index.Valid()
    ensures h in index.chains <==> exists i :: i in index.Indexed() && Hashed(index.hash, h, i)
  {
    if h in index.chains {
      ChainEntry(index.hash, index.cnext, index.cprev, h, index.chains[h], 0);
      assert index.chains[h][0] in index.Indexed();
    }
  }

  lemma ChainListed(index: Index, h: nat)
    requires index.Valid()
    ensures forall i :: i in index.Chain(h) ==> i in index.Indexed()
  {
    forall k | 0 <= k < |index.Chain(h)|
      ensures index.Chain(h)[k] in index.Indexed()
    {
      ChainEntry(index.hash, index.cnext, index.cprev, h, index.chains[h], k);
    }
  }

  /** Every indexed entry shares its hash with a tree node. */
  lemma NodeHashed(index: Index, i: nat)
    requires index.Valid() && i in index.Indexed()
    ensures i < |index.hash| && exists n :: n in Ids(index.tree) && n < |index.hash| && index.hash[n] == index.hash[i]
  {
    ChainEntry(index.hash, index.cnext, index.cprev, index.hash[i], index.chains[index.hash[i]], 0);
    assert index.chains[index.hash[i]][0] in Ids(index.tree);
  }

  lemma NoneHashed(index: Index, h: nat)
    requires index.Valid() && forall i :: i in Ids(index.tree) ==> i < |index.hash| && index.hash[i] != h
    ensures forall i :: i in index.Indexed() ==> !Hashed(index.hash, h, i)
    ensures index.Chain(h) == []
  {
    forall i | i in index.Indexed()
      ensures !Hashed(index.hash, h, i)
    {
      NodeHashed(index, i);
    }
  }

  lemma NodesIndexed(index: Index)
    requires index.Valid()
    ensures Ids(index.tree) <= index.Indexed()
    ensures Distinct(index.tree) && RedBlackRoot(index.tree)
  {
    forall i | i in Ids(index.tree)
      ensures i in index.Indexed()
    {
      assert index.chains[index.hash[i]][0] == i;
    }
  }

  /** The way down the tree is logarithmic in the number of indexed entries. */
  lemma Shallow(index: Index, steps: nat)
    requires index.Valid() && steps <= Height(index.tree)
    ensures Pow2((steps + 1) / 2) <= |index.Indexed()| + 1
  {
    NodesIndexed(index);
    ShallowTree(index.tree, index.Indexed(), steps);
  }

  lemma ShallowTree(t: Tree, ids: set<nat>, steps: nat)
    requires RedBlackRoot(t) && Distinct(t) && Ids(t) <= ids && steps <= Height(t)
    ensures Pow2((steps + 1) / 2) <= |ids| + 1
  {
    Logarithmic(t);
    PowMonotone((steps + 1) / 2, (Height(t) + 1) / 2);
    FewerIds(Ids(t), ids);
  }

  lemma FewerIds(a: set<nat>, b: set<nat>)
    requires a <= b
    ensures |a| <= |b|
  {
    assert b == a + (b - a);
  }
}
