/** Indexing an entry that still carries the chain links of its last time in the index. */
module StaleLinks {
  import opened Chains
  import opened IndexTree
  import opened Removal

  /** Whatever is listed with hash `h` beside `id` was so before. */
  lemma ListedBefore(hash: seq<nat>, node: seq<Link>, cnext: seq<nat>, cprev: seq<nat>, ids: set<nat>, chains: map<nat, seq<nat>>,
                     before: map<nat, seq<nat>>, id: nat, k: nat)
    requires Chained(hash, node, cnext, cprev, ids, chains) && id < |hash| && hash[id] in chains && k < |chains[hash[id]]|
    requires Members(hash, chains) == Members(hash, before) + {id}
    ensures
      var i := chains[hash[id]][k];
      && i < |hash| && hash[i] == hash[id] && 0 < i
      && (i != id ==> hash[id] in before && i in before[hash[id]])
  {
    ChainEntry(hash, cnext, cprev, hash[id], chains[hash[id]], k);
    var i := chains[hash[id]][k];
    assert Listed(hash, chains, i);
    assert i in Members(hash, chains);
  }

  /** `id` was linked behind the last entry of the chain `s`, but has itself a next: whatever the tree
      links, no entry could be the last of the chain. */
  lemma NoLast(hash: seq<nat>, node: seq<Link>, cnext: seq<nat>, cprev: seq<nat>, ids: set<nat>, before: map<nat, seq<nat>>,
               id: nat, node': seq<Link>, cprev': seq<nat>, root': nat)
    requires Chained(hash, node, cnext, cprev, ids, before) && id < |hash| && hash[id] in before
    requires !Listed(hash, before, id) && cnext[id] != 0
    ensures
      var s := before[hash[id]];
      var last := s[|s| - 1];
      last < |hash| && !Indexes(hash, node', cnext[last := id], cprev', root', Members(hash, before) + {id})
  {
    var h, s := hash[id], before[hash[id]];
    var last := s[|s| - 1];
    ChainEntry(hash, cnext, cprev, h, s, |s| - 1);
    var cnext' := cnext[last := id];
    forall tree: Tree, chains: map<nat, seq<nat>>
      | Chained(hash, node', cnext', cprev', Ids(tree), chains)
      ensures Members(hash, chains) != Members(hash, before) + {id}
    {
      if Members(hash, chains) == Members(hash, before) + {id} {
        assert id in Members(hash, chains);
        LastOf(hash, node, cnext, cprev, ids, before, id, node', cprev', Ids(tree), chains);
      }
    }
  }

  lemma LastOf(hash: seq<nat>, node: seq<Link>, cnext: seq<nat>, cprev: seq<nat>, ids: set<nat>, before: map<nat, seq<nat>>,
               id: nat, node': seq<Link>, cprev': seq<nat>, ids': set<nat>, chains: map<nat, seq<nat>>)
    requires Chained(hash, node, cnext, cprev, ids, before) && id < |hash| && hash[id] in before && id !in before[hash[id]]
    requires var s := before[hash[id]]; s[|s| - 1] < |hash| && Chained(hash, node', cnext[s[|s| - 1] := id], cprev', ids', chains)
    requires hash[id] in chains && Members(hash, chains) == Members(hash, before) + {id}
    requires 0 < id
    ensures cnext[id] == 0
  {
    var h, s := hash[id], before[hash[id]];
    var last := s[|s| - 1];
    var cnext', s' := cnext[last := id], chains[h];
    ListedBefore(hash, node', cnext', cprev', ids', chains, before, id, |s'| - 1);
    ChainEntry(hash, cnext', cprev', h, s', |s'| - 1);
    var z := s'[|s'| - 1];
    assert cnext'[z] == 0;
    if z != id {
      var k :| 0 <= k < |s| && s[k] == z;
      ChainEntry(hash, cnext, cprev, h, s, k);
    }
  }

  /** `id` is the only entry with its hash, but carries a chain link: whatever the tree links, it is
      not the whole of a chain. */
  lemma NotAlone(hash: seq<nat>, before: map<nat, seq<nat>>, id: nat, node': seq<Link>, cnext: seq<nat>, cprev: seq<nat>, root': nat)
    requires |hash| == |cnext| == |cprev| && id < |hash| && hash[id] !in before && (cnext[id] != 0 || cprev[id] != 0)
    ensures !Indexes(hash, node', cnext, cprev, root', Members(hash, before) + {id})
  {
    forall tree: Tree, chains: map<nat, seq<nat>>
      | Chained(hash, node', cnext, cprev, Ids(tree), chains)
      ensures Members(hash, chains) != Members(hash, before) + {id}
    {
      if Members(hash, chains) == Members(hash, before) + {id} {
        assert id in Members(hash, chains);
        var s := chains[hash[id]];
        ListedBefore(hash, node', cnext, cprev, Ids(tree), chains, before, id, 0);
        ListedBefore(hash, node', cnext, cprev, Ids(tree), chains, before, id, |s| - 1);
      }
    }
  }

  /** `id` has been linked behind the last entry of the chain of its hash. */
  lemma FollowerIndexed(hash: seq<nat>, node: seq<Link>, node': seq<Link>, cnext: seq<nat>, cprev: seq<nat>, root: nat,
                        ids: set<nat>, chains: map<nat, seq<nat>>, id: nat)
    requires Chained(hash, node, cnext, cprev, ids, chains) && 0 < id < |hash| && hash[id] in chains
    requires !Listed(hash, chains, id) && SameOutside(node, node', {id}) && node'[id] == Link(0, 0, 0, Black)
    ensures
      var s := chains[hash[id]]; var last := s[|s| - 1];
      && last < |hash|
      && (if cnext[id] == 0 then Chained(hash, node', cnext[last := id], cprev[id := last], ids, Added(hash, chains, id))
          else !Indexes(hash, node', cnext[last := id], cprev[id := last], root, Members(hash, chains) + {id}))
      && OthersUntouched(hash, chains, id, node, node', cnext, cnext[last := id], cprev, cprev[id := last])
  {
    var s := chains[hash[id]];
    FollowerTouches(hash, node, node', cnext, cprev, ids, chains, id);
    if cnext[id] == 0 {
      FollowerChained(hash, node, node', cnext, cprev, ids, chains, id);
    } else {
      NoLast(hash, node, cnext, cprev, ids, chains, id, node', cprev[id := s[|s| - 1]], root);
    }
  }

  /** `id` has become a tree node. */
  lemma HeadIndexed(hash: seq<nat>, node: seq<Link>, node': seq<Link>, cnext: seq<nat>, cprev: seq<nat>, root: nat,
                    ids: set<nat>, chains: map<nat, seq<nat>>, id: nat)
    requires Chained(hash, node, cnext, cprev, ids, chains) && 0 < id < |hash| && hash[id] !in chains
    requires SameOutside(node, node', ids + {id})
    ensures
      if cnext[id] == 0 == cprev[id] then Chained(hash, node', cnext, cprev, ids + {id}, Added(hash, chains, id))
      else !Indexes(hash, node', cnext, cprev, root, Members(hash, chains) + {id})
    ensures OthersUntouched(hash, chains, id, node, node', cnext, cnext, cprev, cprev)
  {
    if cnext[id] == 0 == cprev[id] {
      HeadAdded(hash, node, node', cnext, cprev, ids, chains, id);
    } else {
      NotAlone(hash, chains, id, node', cnext, cprev, root);
    }
  }
}
