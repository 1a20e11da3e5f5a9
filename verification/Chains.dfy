/** The chains of entries whose path hashes collide. */
module Chains {
  import opened IndexTree
  import opened Sequences

  /** `s` lists, in chain order, the entries with hash `h`. */
  ghost predicate ChainLinks(hash: seq<nat>, cnext: seq<nat>, cprev: seq<nat>, h: nat, s: seq<nat>)
    requires |hash| == |cnext| == |cprev|
  {
    && |s| > 0 && NoDup(s)
    && (forall k :: 0 <= k < |s| ==> 0 < s[k] < |hash| && hash[s[k]] == h)
    && (forall k {:trigger cnext[s[k]]} :: 0 <= k < |s| ==> cnext[s[k]] == if k + 1 < |s| then s[k + 1] else 0)
    && (forall k {:trigger cprev[s[k]]} :: 0 <= k < |s| ==> cprev[s[k]] == if k > 0 then s[k - 1] else 0)
  }

  /** All entries of a chain but the first stay out of the tree. */
  ghost predicate FollowersLoose(node: seq<Link>, s: seq<nat>) {
    forall k :: 0 < k < |s| ==> s[k] < |node| && node[s[k]] == Link(0, 0, 0, Black)
  }

  /** Every indexed entry is listed in exactly one chain, the one of its hash; the first of a
      chain is a tree node (`ids`), the others are loose. */
  ghost predicate Chained(hash: seq<nat>, node: seq<Link>, cnext: seq<nat>, cprev: seq<nat>,
                          ids: set<nat>, chains: map<nat, seq<nat>>) {
    && |hash| == |node| == |cnext| == |cprev|
    && (forall h :: h in chains ==> ChainLinks(hash, cnext, cprev, h, chains[h]))
    && (forall h :: h in chains ==> FollowersLoose(node, chains[h]) && chains[h][0] in ids)
    && (forall i :: i in ids ==> i < |hash| && hash[i] in chains && chains[hash[i]][0] == i)
  }

  lemma Lengths(hash: seq<nat>, node: seq<Link>, cnext: seq<nat>, cprev: seq<nat>, ids: set<nat>, chains: map<nat, seq<nat>>)
    requires Chained(hash, node, cnext, cprev, ids, chains)
    ensures |hash| == |node| == |cnext| == |cprev|
  {
  }

  lemma ChainEntry(hash: seq<nat>, cnext: seq<nat>, cprev: seq<nat>, h: nat, s: seq<nat>, k: nat)
    requires |hash| == |cnext| == |cprev| && ChainLinks(hash, cnext, cprev, h, s) && k < |s|
    ensures 0 < s[k] < |hash| && hash[s[k]] == h
    ensures cnext[s[k]] == if k + 1 < |s| then s[k + 1] else 0
    ensures cnext[s[k]] == 0 <==> k == |s| - 1
  {
  }

  /** `id` is indexed: it is listed under its own hash. */
  ghost predicate Listed(hash: seq<nat>, chains: map<nat, seq<nat>>, id: nat) {
    id < |hash| && hash[id] in chains && id in chains[hash[id]]
  }

  /** The entries listed in the chains. */
  ghost function Members(hash: seq<nat>, chains: map<nat, seq<nat>>): set<nat> {
    set i | 0 <= i < |hash| && Listed(hash, chains, i)
  }

  ghost function Added(hash: seq<nat>, chains: map<nat, seq<nat>>, id: nat): map<nat, seq<nat>>
    requires id < |hash|
  {
    if hash[id] in chains then chains[hash[id] := chains[hash[id]] + [id]] else chains[hash[id] := [id]]
  }

  /** No entry outside the index, `id` excepted, has its index links changed. */
  ghost predicate OthersUntouched(hash: seq<nat>, chains: map<nat, seq<nat>>, id: nat,
                                  node: seq<Link>, node': seq<Link>, cnext: seq<nat>, cnext': seq<nat>,
                                  cprev: seq<nat>, cprev': seq<nat>) {
    && |hash| == |node| == |node'| == |cnext| == |cnext'| == |cprev| == |cprev'|
    && forall i :: 0 < i < |hash| && i != id && !Listed(hash, chains, i) ==>
         node'[i] == node[i] && cnext'[i] == cnext[i] && cprev'[i] == cprev[i]
  }

  /** `id` becomes the only entry with its hash. */
  lemma HeadAdded(hash: seq<nat>, node: seq<Link>, node': seq<Link>, cnext: seq<nat>, cprev: seq<nat>,
                  ids: set<nat>, chains: map<nat, seq<nat>>, id: nat)
    requires Chained(hash, node, cnext, cprev, ids, chains)
    requires 0 < id < |hash| && hash[id] !in chains && cnext[id] == 0 && cprev[id] == 0
    requires SameOutside(node, node', ids + {id})
    ensures Chained(hash, node', cnext, cprev, ids + {id}, Added(hash, chains, id))
    ensures OthersUntouched(hash, chains, id, node, node', cnext, cnext, cprev, cprev)
  {
  }

  lemma ChainKept(hash: seq<nat>, cnext: seq<nat>, cprev: seq<nat>, cnext': seq<nat>, cprev': seq<nat>,
                  h: nat, s: seq<nat>)
    requires |hash| == |cnext| == |cprev| == |cnext'| == |cprev'| && ChainLinks(hash, cnext, cprev, h, s)
    requires forall i :: 0 < i < |hash| && hash[i] == h ==> cnext'[i] == cnext[i] && cprev'[i] == cprev[i]
    ensures ChainLinks(hash, cnext', cprev', h, s)
  {
  }

  lemma ChainExtended(hash: seq<nat>, cnext: seq<nat>, cprev: seq<nat>, h: nat, s: seq<nat>, id: nat)
    requires |hash| == |cnext| == |cprev| && ChainLinks(hash, cnext, cprev, h, s)
    requires 0 < id < |hash| && hash[id] == h && id !in s && cnext[id] == 0
    ensures var last := s[|s| - 1];
      0 < last < |hash| && hash[last] == h && ChainLinks(hash, cnext[last := id], cprev[id := last], h, s + [id])
  {
    var s', last := s + [id], s[|s| - 1];
    var cnext', cprev' := cnext[last := id], cprev[id := last];
    forall k | 0 <= k < |s'|
      ensures cnext'[s'[k]] == if k + 1 < |s'| then s'[k + 1] else 0
      ensures cprev'[s'[k]] == if k > 0 then s'[k - 1] else 0
    {
      if k < |s| { assert s'[k] == s[k] && s[k] != id; }
    }
  }

  lemma FollowerChained(hash: seq<nat>, node: seq<Link>, node': seq<Link>, cnext: seq<nat>, cprev: seq<nat>,
                      ids: set<nat>, chains: map<nat, seq<nat>>, id: nat)
    requires Chained(hash, node, cnext, cprev, ids, chains)
    requires 0 < id < |hash| && hash[id] in chains && id !in chains[hash[id]] && cnext[id] == 0
    requires SameOutside(node, node', {id}) && node'[id] == Link(0, 0, 0, Black)
    ensures
      var s := chains[hash[id]]; var last := s[|s| - 1];
      && last < |hash|
      && Chained(hash, node', cnext[last := id], cprev[id := last], ids, Added(hash, chains, id))
  {
    var h, s := hash[id], chains[hash[id]];
    var last := s[|s| - 1];
    var cnext', cprev' := cnext[last := id], cprev[id := last];
    ChainExtended(hash, cnext, cprev, h, s, id);
    ChainEntry(hash, cnext, cprev, h, s, |s| - 1);
    LooseMore(hash, cnext, cprev, node, node', h, s, id);
    hide ChainLinks, FollowersLoose;
    forall h' | h' in chains && h' != h
      ensures ChainLinks(hash, cnext', cprev', h', chains[h']) && FollowersLoose(node', chains[h'])
    {
      ChainKept(hash, cnext, cprev, cnext', cprev', h', chains[h']);
      LooseKept(hash, cnext, cprev, node, node', h', chains[h'], id);
    }
  }

  lemma LooseMore(hash: seq<nat>, cnext: seq<nat>, cprev: seq<nat>, node: seq<Link>, node': seq<Link>, h: nat, s: seq<nat>, id: nat)
    requires |hash| == |cnext| == |cprev| && ChainLinks(hash, cnext, cprev, h, s) && FollowersLoose(node, s)
    requires id !in s && SameOutside(node, node', {id}) && id < |node'| && node'[id] == Link(0, 0, 0, Black)
    ensures FollowersLoose(node', s + [id])
  {
  }

  lemma LooseKept(hash: seq<nat>, cnext: seq<nat>, cprev: seq<nat>, node: seq<Link>, node': seq<Link>, h: nat, s: seq<nat>, id: nat)
    requires |hash| == |cnext| == |cprev| && ChainLinks(hash, cnext, cprev, h, s) && FollowersLoose(node, s)
    requires SameOutside(node, node', {id}) && id < |hash| && hash[id] != h
    ensures FollowersLoose(node', s)
  {
  }

  lemma FollowerTouches(hash: seq<nat>, node: seq<Link>, node': seq<Link>, cnext: seq<nat>, cprev: seq<nat>,
                        ids: set<nat>, chains: map<nat, seq<nat>>, id: nat)
    requires Chained(hash, node, cnext, cprev, ids, chains)
    requires 0 < id < |hash| && hash[id] in chains && SameOutside(node, node', {id})
    ensures
      var s := chains[hash[id]]; var last := s[|s| - 1];
      && last < |hash|
      && OthersUntouched(hash, chains, id, node, node', cnext, cnext[last := id], cprev, cprev[id := last])
  {
    var s := chains[hash[id]];
    ChainEntry(hash, cnext, cprev, hash[id], s, |s| - 1);
    assert Listed(hash, chains, s[|s| - 1]);
  }

  /** The chains once position `k` of the chain of hash `h` is gone. */
  ghost function Dropped(chains: map<nat, seq<nat>>, h: nat, k: nat): map<nat, seq<nat>>
    requires h in chains && k < |chains[h]|
  {
    if |chains[h]| == 1 then chains - {h} else chains[h := chains[h][..k] + chains[h][k + 1..]]
  }

  lemma DroppedListed(hash: seq<nat>, node: seq<Link>, cnext: seq<nat>, cprev: seq<nat>, ids: set<nat>,
                      chains: map<nat, seq<nat>>, h: nat, k: nat)
    requires Chained(hash, node, cnext, cprev, ids, chains) && h in chains && k < |chains[h]|
    ensures forall i :: Listed(hash, Dropped(chains, h, k), i) <==> Listed(hash, chains, i) && i != chains[h][k]
  {
    var s := chains[h];
    var s' := s[..k] + s[k + 1..];
    assert ChainLinks(hash, cnext, cprev, h, s);
    assert forall i :: i in s' <==> i in s && i != s[k] by {
      forall i | i in s && i != s[k] ensures i in s' {
        var j :| 0 <= j < |s| && s[j] == i;
        assert i == s'[if j < k then j else j - 1];
      }
      forall i | i in s' ensures i in s && i != s[k] {
        var j :| 0 <= j < |s'| && s'[j] == i;
        assert i == s[if j < k then j else j + 1];
      }
    }
  }

  /** A tree node that is alone in its chain is gone. */
  lemma HeadDropped(hash: seq<nat>, node: seq<Link>, node': seq<Link>, cnext: seq<nat>, cprev: seq<nat>,
                    ids: set<nat>, chains: map<nat, seq<nat>>, id: nat)
    requires Chained(hash, node, cnext, cprev, ids, chains)
    requires id in ids && chains[hash[id]] == [id] && SameOutside(node, node', ids)
    ensures Chained(hash, node', cnext, cprev, ids - {id}, Dropped(chains, hash[id], 0))
    ensures OthersUntouched(hash, chains, id, node, node', cnext, cnext, cprev, cprev)
  {
  }

  /** Position `k` of a chain is unlinked. */
  lemma ChainShortened(hash: seq<nat>, cnext: seq<nat>, cprev: seq<nat>, cnext': seq<nat>, cprev': seq<nat>,
                       h: nat, s: seq<nat>, k: nat)
    requires |hash| == |cnext| == |cprev| == |cnext'| == |cprev'| && ChainLinks(hash, cnext, cprev, h, s)
    requires k < |s| && |s| > 1
    requires forall i :: 0 < i < |hash| ==> cnext'[i] == if i == cprev[s[k]] then cnext[s[k]] else cnext[i]
    requires forall i :: 0 < i < |hash| ==> cprev'[i] == if i == cnext[s[k]] then cprev[s[k]] else cprev[i]
    ensures ChainLinks(hash, cnext', cprev', h, s[..k] + s[k + 1..])
  {
    hide NoDup;
    var s' := s[..k] + s[k + 1..];
    NoDupWithout(s, k);
    forall j | 0 <= j < |s'|
      ensures 0 < s'[j] < |hash| && hash[s'[j]] == h
      ensures cnext'[s'[j]] == if j + 1 < |s'| then s'[j + 1] else 0
      ensures cprev'[s'[j]] == if j > 0 then s'[j - 1] else 0
    {
      ShortenedAt(hash, cnext, cprev, cnext', cprev', h, s, k, if j < k then j else j + 1);
    }
    ChainSpelt(hash, cnext', cprev', h, s');
  }

  lemma ChainSpelt(hash: seq<nat>, cnext: seq<nat>, cprev: seq<nat>, h: nat, s: seq<nat>)
    requires |hash| == |cnext| == |cprev| && |s| > 0 && NoDup(s)
    requires forall j :: 0 <= j < |s| ==> 0 < s[j] < |hash| && hash[s[j]] == h
    requires forall j {:trigger cnext[s[j]]} :: 0 <= j < |s| ==> cnext[s[j]] == if j + 1 < |s| then s[j + 1] else 0
    requires forall j {:trigger cprev[s[j]]} :: 0 <= j < |s| ==> cprev[s[j]] == if j > 0 then s[j - 1] else 0
    ensures ChainLinks(hash, cnext, cprev, h, s)
  {
  }

  /** The links of an entry that stays in its chain when the one at `k` goes. */
  lemma ShortenedAt(hash: seq<nat>, cnext: seq<nat>, cprev: seq<nat>, cnext': seq<nat>, cprev': seq<nat>,
                    h: nat, s: seq<nat>, k: nat, j: nat)
    requires |hash| == |cnext| == |cprev| == |cnext'| == |cprev'| && ChainLinks(hash, cnext, cprev, h, s)
    requires k < |s| && j < |s| && j != k
    requires forall i :: 0 < i < |hash| ==> cnext'[i] == if i == cprev[s[k]] then cnext[s[k]] else cnext[i]
    requires forall i :: 0 < i < |hash| ==> cprev'[i] == if i == cnext[s[k]] then cprev[s[k]] else cprev[i]
    ensures cnext'[s[j]] == (if j + 1 == k then if k + 1 < |s| then s[k + 1] else 0 else if j + 1 < |s| then s[j + 1] else 0)
    ensures cprev'[s[j]] == (if j == k + 1 then if k > 0 then s[k - 1] else 0 else if j > 0 then s[j - 1] else 0)
  {
    ChainEntry(hash, cnext, cprev, h, s, k);
    ChainEntry(hash, cnext, cprev, h, s, j);
    assert cprev[s[k]] == if k > 0 then s[k - 1] else 0;
  }

  lemma FollowerNeighbours(hash: seq<nat>, node: seq<Link>, cnext: seq<nat>, cprev: seq<nat>,
                           ids: set<nat>, chains: map<nat, seq<nat>>, h: nat, k: nat)
    requires Chained(hash, node, cnext, cprev, ids, chains) && h in chains && 0 < k < |chains[h]|
    ensures
      var id := chains[h][k];
      && id < |hash| && 0 < cprev[id] < |hash| && cnext[id] < |hash| && cprev[id] != id && cnext[id] != id
      && Listed(hash, chains, cprev[id]) && (cnext[id] != 0 ==> Listed(hash, chains, cnext[id]))
  {
    ChainEntry(hash, cnext, cprev, h, chains[h], k);
    ChainEntry(hash, cnext, cprev, h, chains[h], k - 1);
    if k + 1 < |chains[h]| { ChainEntry(hash, cnext, cprev, h, chains[h], k + 1); }
  }

  lemma NextListed(hash: seq<nat>, node: seq<Link>, cnext: seq<nat>, cprev: seq<nat>, ids: set<nat>,
                   chains: map<nat, seq<nat>>, h: nat, k: nat)
    requires Chained(hash, node, cnext, cprev, ids, chains) && h in chains && k < |chains[h]|
    ensures
      var id := chains[h][k];
      id < |hash| && (cnext[id] != 0 ==> cnext[id] != id && Listed(hash, chains, cnext[id]))
  {
    ChainEntry(hash, cnext, cprev, h, chains[h], k);
    if k + 1 < |chains[h]| { ChainEntry(hash, cnext, cprev, h, chains[h], k + 1); }
  }

  /** A chain entry that is not the first one is gone. */
  lemma FollowerDropped(hash: seq<nat>, node: seq<Link>, cnext: seq<nat>, cprev: seq<nat>,
                        cnext': seq<nat>, cprev': seq<nat>, ids: set<nat>, chains: map<nat, seq<nat>>, h: nat, k: nat)
    requires Chained(hash, node, cnext, cprev, ids, chains) && |hash| == |cnext'| == |cprev'|
    requires h in chains && 0 < k < |chains[h]|
    requires forall i :: 0 < i < |hash| ==> cnext'[i] == if i == cprev[chains[h][k]] then cnext[chains[h][k]] else cnext[i]
    requires forall i :: 0 < i < |hash| ==> cprev'[i] == if i == cnext[chains[h][k]] then cprev[chains[h][k]] else cprev[i]
    ensures Chained(hash, node, cnext', cprev', ids, Dropped(chains, h, k))
    ensures OthersUntouched(hash, chains, chains[h][k], node, node, cnext, cnext', cprev, cprev')
  {
    var s := chains[h];
    FollowerNeighbours(hash, node, cnext, cprev, ids, chains, h, k);
    ChainShortened(hash, cnext, cprev, cnext', cprev', h, s, k);
    ChainEntry(hash, cnext, cprev, h, s, k);
    forall h' | h' in chains && h' != h
      ensures ChainLinks(hash, cnext', cprev', h', chains[h'])
    {
      ChainKept(hash, cnext, cprev, cnext', cprev', h', chains[h']);
    }
    var s' := s[..k] + s[k + 1..];
    assert forall j :: 0 <= j < |s'| ==> s'[j] == s[if j < k then j else j + 1];
  }

  /** The second entry of a chain has taken the tree place of the first: the links of all chains. */
  lemma HeadUnchained(hash: seq<nat>, node: seq<Link>, cnext: seq<nat>, cprev: seq<nat>,
                      ids: set<nat>, chains: map<nat, seq<nat>>, h: nat)
    requires Chained(hash, node, cnext, cprev, ids, chains) && h in chains && |chains[h]| > 1
    ensures
      var next := chains[h][1];
      var chains' := Dropped(chains, h, 0);
      && next < |cprev| && hash[next] == h && next != chains[h][0]
      && forall h' :: h' in chains' ==> ChainLinks(hash, cnext, cprev[next := 0], h', chains'[h'])
  {
    var s, next := chains[h], chains[h][1];
    var cprev' := cprev[next := 0];
    ChainEntry(hash, cnext, cprev, h, s, 0);
    ChainEntry(hash, cnext, cprev, h, s, 1);
    assert s[..0] + s[1..] == s[1..];
    ChainHeadless(hash, cnext, cprev, h, s);
    forall h' | h' in chains && h' != h
      ensures ChainLinks(hash, cnext, cprev', h', chains[h'])
    {
      ChainKept(hash, cnext, cprev, cnext, cprev', h', chains[h']);
    }
  }

  /** The second entry of a chain has taken the tree place of the first. */
  lemma HeadPromoted(hash: seq<nat>, node: seq<Link>, node': seq<Link>, cnext: seq<nat>, cprev: seq<nat>,
                     ids: set<nat>, chains: map<nat, seq<nat>>, h: nat)
    requires Chained(hash, node, cnext, cprev, ids, chains)
    requires h in chains && |chains[h]| > 1 && SameOutside(node, node', ids + {chains[h][1]})
    ensures
      var id, next := chains[h][0], chains[h][1];
      next < |cprev| && Chained(hash, node', cnext, cprev[next := 0], ids - {id} + {next}, Dropped(chains, h, 0))
  {
    hide FollowersLoose;
    var s, id, next := chains[h], chains[h][0], chains[h][1];
    HeadUnchained(hash, node, cnext, cprev, ids, chains, h);
    assert s[..0] + s[1..] == s[1..];
    FollowersStay(hash, node, node', cnext, cprev, ids, chains, h);
  }

  lemma FollowersStay(hash: seq<nat>, node: seq<Link>, node': seq<Link>, cnext: seq<nat>, cprev: seq<nat>,
                      ids: set<nat>, chains: map<nat, seq<nat>>, h: nat)
    requires Chained(hash, node, cnext, cprev, ids, chains)
    requires h in chains && |chains[h]| > 1 && SameOutside(node, node', ids + {chains[h][1]})
    ensures
      var chains' := Dropped(chains, h, 0);
      forall h' :: h' in chains' ==> FollowersLoose(node', chains'[h'])
  {
    var s := chains[h];
    assert s[..0] + s[1..] == s[1..];
    forall h', k | h' in chains && 0 < k < |chains[h']| && (h' == h ==> k > 1)
      ensures chains[h'][k] !in ids && chains[h'][k] != s[1] && 0 < chains[h'][k] < |hash|
    {
      ChainEntry(hash, cnext, cprev, h', chains[h'], k);
      ChainEntry(hash, cnext, cprev, h, s, 1);
    }
  }

  lemma ChainHeadless(hash: seq<nat>, cnext: seq<nat>, cprev: seq<nat>, h: nat, s: seq<nat>)
    requires |hash| == |cnext| == |cprev| && ChainLinks(hash, cnext, cprev, h, s) && |s| > 1
    ensures ChainLinks(hash, cnext, cprev[s[1] := 0], h, s[1..])
  {
    var s', cprev' := s[1..], cprev[s[1] := 0];
    forall j | 0 <= j < |s'|
      ensures cnext[s'[j]] == if j + 1 < |s'| then s'[j + 1] else 0
      ensures cprev'[s'[j]] == if j > 0 then s'[j - 1] else 0
    {
      ChainEntry(hash, cnext, cprev, h, s, j + 1);
    }
  }

  lemma DroppedMembers(hash: seq<nat>, node: seq<Link>, cnext: seq<nat>, cprev: seq<nat>, ids: set<nat>,
                       chains: map<nat, seq<nat>>, h: nat, k: nat)
    requires Chained(hash, node, cnext, cprev, ids, chains) && h in chains && k < |chains[h]|
    ensures Members(hash, Dropped(chains, h, k)) == Members(hash, chains) - {chains[h][k]}
    ensures
      var id := chains[h][k];
      id < |hash| && (cnext[id] != 0 ==> cnext[id] in Members(hash, chains) - {id})
  {
    DroppedListed(hash, node, cnext, cprev, ids, chains, h, k);
    NextListed(hash, node, cnext, cprev, ids, chains, h, k);
  }

  lemma AddedMembers(hash: seq<nat>, node: seq<Link>, cnext: seq<nat>, cprev: seq<nat>, ids: set<nat>,
                     chains: map<nat, seq<nat>>, id: nat)
    requires Chained(hash, node, cnext, cprev, ids, chains) && id < |hash|
    ensures Members(hash, Added(hash, chains, id)) == Members(hash, chains) + {id}
  {
    assert forall i :: Listed(hash, Added(hash, chains, id), i) <==> Listed(hash, chains, i) || i == id;
  }
}
