/** The directory structure of the metadata store: entries threaded by `father`, `child` and
    `next`, seen as a first-child / next-sibling forest. */
module DirForest {

  datatype Kind = Directory | Regular | Symlink | Special

  /** The `child` field: 0 before the directory was read, a reserved id once it was found empty. */
  datatype Child = NotFetched | Empty | First(id: nat)

  datatype Entry = Entry(name: string, father: nat, child: Child, next: nat, kind: Kind)

  datatype Forest = Nil | Cons(id: nat, kids: Forest, rest: Forest)

  /** A forest with one list of siblings cut off. */
  datatype Spot =
    | Whole
    | InKids(above: Spot, id: nat, rest: Forest)
    | InRest(above: Spot, id: nat, kids: Forest)

  ghost function FirstId(c: Child): nat {
    if c.First? then c.id else 0
  }

  ghost function All(f: Forest): set<nat> {
    match f
    case Nil => {}
    case Cons(id, k, r) => All(k) + {id} + All(r)
  }

  ghost predicate Disjoint(f: Forest) {
    match f
    case Nil => true
    case Cons(id, k, r) =>
      id !in All(k) && id !in All(r) && All(k) !! All(r) && Disjoint(k) && Disjoint(r)
  }

  ghost function Fill(c: Spot, f: Forest): Forest {
    match c
    case Whole => f
    case InKids(above, id, r) => Fill(above, Cons(id, f, r))
    case InRest(above, id, k) => Fill(above, Cons(id, k, f))
  }

  ghost function SpotIds(c: Spot): set<nat> {
    match c
    case Whole => {}
    case InKids(above, id, r) => SpotIds(above) + {id} + All(r)
    case InRest(above, id, k) => SpotIds(above) + {id} + All(k)
  }

  ghost predicate SpotDisjoint(c: Spot) {
    match c
    case Whole => true
    case InKids(above, id, r) =>
      && id !in SpotIds(above) && id !in All(r) && SpotIds(above) !! All(r)
      && SpotDisjoint(above) && Disjoint(r)
    case InRest(above, id, k) =>
      && id !in SpotIds(above) && id !in All(k) && SpotIds(above) !! All(k)
      && SpotDisjoint(above) && Disjoint(k)
  }

  /** The directory whose children are listed at the spot. */
  ghost function FatherAt(c: Spot): nat {
    match c
    case Whole => 0
    case InKids(_, id, _) => id
    case InRest(above, _, _) => FatherAt(above)
  }

  /** The entries spell out the siblings `f`, from `first` on, all children of `father`. */
  ghost predicate Lists(m: seq<Entry>, f: Forest, first: nat, father: nat) {
    match f
    case Nil => first == 0
    case Cons(i, k, r) =>
      && first == i && 0 < i < |m| && m[i].father == father
      && (m[i].child.First? <==> k.Cons?)
      && Lists(m, k, FirstId(m[i].child), i) && Lists(m, r, m[i].next, father)
  }

  ghost predicate SpotLists(m: seq<Entry>, c: Spot, first: nat) {
    match c
    case Whole => true
    case InKids(above, i, r) =>
      && 0 < i < |m| && m[i].father == FatherAt(above)
      && FirstId(m[i].child) == first && (m[i].child.First? <==> first != 0)
      && Lists(m, r, m[i].next, FatherAt(above)) && SpotLists(m, above, i)
    case InRest(above, i, k) =>
      && 0 < i < |m| && m[i].father == FatherAt(above)
      && (m[i].child.First? <==> k.Cons?)
      && Lists(m, k, FirstId(m[i].child), i) && m[i].next == first && SpotLists(m, above, i)
  }

  ghost predicate At(m: seq<Entry>, c: Spot, f: Forest, first: nat) {
    && SpotLists(m, c, first) && Lists(m, f, first, FatherAt(c))
    && SpotDisjoint(c) && Disjoint(f) && All(f) !! SpotIds(c)
  }

  lemma {:induction false} ListsFrame(m: seq<Entry>, m': seq<Entry>, f: Forest, first: nat, father: nat)
    requires Lists(m, f, first, father)
    requires |m| <= |m'| && forall i :: i in All(f) && 0 < i < |m| ==> m'[i] == m[i]
    ensures Lists(m', f, first, father)
  {
    match f
    case Nil =>
    case Cons(i, k, r) =>
      assert i in All(f);
      ListsFrame(m, m', k, FirstId(m[i].child), i);
      ListsFrame(m, m', r, m[i].next, father);
  }

  /** Whether a directory without children was read does not matter for its list. */
  lemma {:induction false} ListsRelabelled(m: seq<Entry>, m': seq<Entry>, f: Forest, first: nat, father: nat, id: nat)
    requires Lists(m, f, first, father) && id < |m| && !m[id].child.First?
    requires m' == m[id := m[id].(child := Empty)]
    ensures Lists(m', f, first, father)
  {
    match f
    case Nil =>
    case Cons(i, k, r) =>
      ListsRelabelled(m, m', k, FirstId(m[i].child), i, id);
      ListsRelabelled(m, m', r, m[i].next, father, id);
  }

  lemma {:induction false} SpotListsFrame(m: seq<Entry>, m': seq<Entry>, c: Spot, first: nat)
    requires SpotLists(m, c, first)
    requires |m| <= |m'| && forall i :: i in SpotIds(c) && 0 < i < |m| ==> m'[i] == m[i]
    ensures SpotLists(m', c, first)
  {
    match c
    case Whole =>
    case InKids(above, i, r) =>
      assert i in SpotIds(c);
      ListsFrame(m, m', r, m[i].next, FatherAt(above));
      SpotListsFrame(m, m', above, i);
    case InRest(above, i, k) =>
      assert i in SpotIds(c);
      ListsFrame(m, m', k, FirstId(m[i].child), i);
      SpotListsFrame(m, m', above, i);
  }

  lemma {:induction false} ListsIds(m: seq<Entry>, f: Forest, first: nat, father: nat)
    requires Lists(m, f, first, father)
    ensures forall i :: i in All(f) ==> 0 < i < |m|
    ensures f.Nil? <==> first == 0
  {
    match f
    case Nil =>
    case Cons(i, k, r) =>
      ListsIds(m, k, FirstId(m[i].child), i);
      ListsIds(m, r, m[i].next, father);
  }

  lemma {:induction false} FillIds(c: Spot, f: Forest)
    ensures All(Fill(c, f)) == SpotIds(c) + All(f)
  {
    match c
    case Whole =>
    case InKids(above, id, r) => FillIds(above, Cons(id, f, r));
    case InRest(above, id, k) => FillIds(above, Cons(id, k, f));
  }

  lemma {:induction false} AtWhole(m: seq<Entry>, c: Spot, f: Forest, first: nat, root: nat)
    requires At(m, c, f, first) && RootAt(c, first) == root
    ensures At(m, Whole, Fill(c, f), root)
  {
    match c
    case Whole =>
    case InKids(above, id, r) =>
      ListsIds(m, f, first, id);
      assert At(m, above, Cons(id, f, r), id);
      AtWhole(m, above, Cons(id, f, r), id, root);
    case InRest(above, id, k) =>
      assert At(m, above, Cons(id, k, f), id);
      AtWhole(m, above, Cons(id, k, f), id, root);
  }

  ghost function RootAt(c: Spot, first: nat): nat {
    if c.Whole? then first else RootAt(c.above, c.id)
  }

  /** From a list of siblings to the children of its first and to its rest. */
  lemma AtDown(m: seq<Entry>, c: Spot, f: Forest)
    requires f.Cons? && At(m, c, f, f.id)
    ensures 0 < f.id < |m| && m[f.id].father == FatherAt(c)
    ensures At(m, InKids(c, f.id, f.rest), f.kids, FirstId(m[f.id].child))
    ensures At(m, InRest(c, f.id, f.kids), f.rest, m[f.id].next)
    ensures (f.kids.Cons? <==> m[f.id].child.First?) && (f.rest.Cons? <==> m[f.id].next != 0)
    ensures f.kids.Cons? ==> m[f.id].child.id == f.kids.id
    ensures f.rest.Cons? ==> m[f.id].next == f.rest.id
  {
    ListsIds(m, f.kids, FirstId(m[f.id].child), f.id);
    ListsIds(m, f.rest, m[f.id].next, FatherAt(c));
  }

  /** Finds an entry in the forest. */
  lemma {:induction false} Locate(m: seq<Entry>, c0: Spot, f0: Forest, id: nat) returns (c: Spot, f: Forest)
    requires f0.Cons? && At(m, c0, f0, f0.id) && id in All(f0)
    ensures f.Cons? && f.id == id && At(m, c, f, id)
    ensures Fill(c, f) == Fill(c0, f0) && RootAt(c, id) == RootAt(c0, f0.id)
    decreases f0
  {
    if f0.id == id {
      c, f := c0, f0;
    } else {
      AtDown(m, c0, f0);
      if id in All(f0.kids) {
        c, f := Locate(m, InKids(c0, f0.id, f0.rest), f0.kids, id);
      } else {
        c, f := Locate(m, InRest(c0, f0.id, f0.kids), f0.rest, id);
      }
    }
  }

  /** The same spot with another list in it: only the link just before it is rewritten. */
  lemma Rehang(m: seq<Entry>, m': seq<Entry>, c: Spot, first: nat, first': nat)
    requires SpotLists(m, c, first) && SpotDisjoint(c) && !c.Whole?
    requires |m| <= |m'| && 0 < c.id < |m|
    requires forall i :: i in SpotIds(c) && 0 < i < |m| && i != c.id ==> m'[i] == m[i]
    requires c.InKids? ==> m'[c.id] == m[c.id].(child := m'[c.id].child)
    requires c.InKids? ==> FirstId(m'[c.id].child) == first' && (m'[c.id].child.First? <==> first' != 0)
    requires c.InRest? ==> m'[c.id] == m[c.id].(next := first')
    ensures SpotLists(m', c, first')
  {
    match c
    case InKids(above, i, r) =>
      ListsFrame(m, m', r, m[i].next, FatherAt(above));
      SpotListsFrame(m, m', above, i);
    case InRest(above, i, k) =>
      ListsFrame(m, m', k, FirstId(m[i].child), i);
      SpotListsFrame(m, m', above, i);
  }

  /** An entry has been taken out of its list of siblings. */
  lemma UnlinkedAt(m: seq<Entry>, m': seq<Entry>, c: Spot, f: Forest)
    requires f.Cons? && !c.Whole? && At(m, c, f, f.id) && 0 < c.id < |m| == |m'| && 0 < f.id < |m|
    requires forall i :: 0 < i < |m| && i != c.id ==> m'[i] == m[i]
    requires var next := m[f.id].next;
      m'[c.id] == if c.InRest? then m[c.id].(next := next)
                  else m[c.id].(child := if next != 0 then First(next) else Empty)
    ensures At(m', c, f.rest, m[f.id].next) && RootAt(c, m[f.id].next) == RootAt(c, f.id)
    ensures m'[f.id] == m[f.id] && Lists(m', f.kids, FirstId(m[f.id].child), f.id)
    ensures Disjoint(f.kids) && f.id !in All(f.kids)
    ensures (All(f.kids) + {f.id}) !! (SpotIds(c) + All(f.rest))
  {
    AtDown(m, c, f);
    ListsIds(m, f, f.id, FatherAt(c));
    Rehang(m, m', c, f.id, m[f.id].next);
    ListsFrame(m, m', f.rest, m[f.id].next, FatherAt(c));
    ListsFrame(m, m', f.kids, FirstId(m[f.id].child), f.id);
  }

  /** An entry, with what is below it, has become the first child of `father`. */
  lemma LinkedAt(m: seq<Entry>, m': seq<Entry>, c: Spot, father: nat, kids: Forest, rest: Forest, id: nat, below: Forest)
    requires 0 < father < |m| == |m'| && At(m, InKids(c, father, rest), kids, FirstId(m[father].child))
    requires 0 < id < |m| && Lists(m, below, FirstId(m[id].child), id) && Disjoint(below) && id !in All(below)
    requires m[id].child.First? <==> below.Cons?
    requires (All(below) + {id}) !! (SpotIds(InKids(c, father, rest)) + All(kids))
    requires forall i :: 0 < i < |m| && i != id && i != father ==> m'[i] == m[i]
    requires m'[id].father == father && m'[id].next == FirstId(m[father].child) && m'[id].child == m[id].child
    requires m'[father] == m[father].(child := First(id))
    ensures At(m', InKids(c, father, rest), Cons(id, below, kids), id)
    ensures RootAt(InKids(c, father, rest), id) == RootAt(c, father)
  {
    Rehang(m, m', InKids(c, father, rest), FirstId(m[father].child), id);
    ListsFrame(m, m', kids, FirstId(m[father].child), father);
    ListsFrame(m, m', below, FirstId(m[id].child), id);
  }

  // ---------------------------------------------------------------- fathers and children

  /** The entries of the list itself, without what is below them. */
  ghost function Siblings(f: Forest): set<nat> {
    match f
    case Nil => {}
    case Cons(id, _, r) => {id} + Siblings(r)
  }

  lemma {:induction false} SiblingsListed(f: Forest)
    ensures Siblings(f) <= All(f)
  {
    if f.Cons? {
      SiblingsListed(f.rest);
    }
  }

  /** In a forest whose lists hang below `father`, the entries that name it as their father are the
      ones in the list. */
  lemma {:induction false} FathersIn(m: seq<Entry>, f: Forest, first: nat, father: nat)
    requires Lists(m, f, first, father) && Disjoint(f) && father !in All(f)
    ensures forall i :: i in All(f) ==> 0 < i < |m| && m[i].father in All(f) + {father}
    ensures forall i :: i in All(f) && i < |m| ==> (m[i].father == father <==> i in Siblings(f))
  {
    match f
    case Nil =>
    case Cons(i, k, r) =>
      FathersIn(m, k, FirstId(m[i].child), i);
      FathersIn(m, r, m[i].next, father);
      SiblingsListed(r);
  }

  /** Around a spot, fathers are around the spot too; only the topmost entries have none. */
  lemma {:induction false} SpotFathers(m: seq<Entry>, c: Spot, first: nat)
    requires SpotLists(m, c, first) && SpotDisjoint(c) && 0 !in SpotIds(c)
    ensures FatherAt(c) in SpotIds(c) + {0}
    ensures forall i :: i in SpotIds(c) ==> 0 < i < |m| && m[i].father in SpotIds(c) + {0}
  {
    match c
    case Whole =>
    case InKids(above, i, r) =>
      SpotFathers(m, above, i);
      FathersIn(m, r, m[i].next, FatherAt(above));
    case InRest(above, i, k) =>
      SpotFathers(m, above, i);
      FathersIn(m, k, FirstId(m[i].child), i);
  }

  lemma {:induction false} SpotIdsPositive(m: seq<Entry>, c: Spot, first: nat)
    requires SpotLists(m, c, first)
    ensures 0 !in SpotIds(c)
  {
    match c
    case Whole =>
    case InKids(above, i, r) =>
      SpotIdsPositive(m, above, i);
      ListsIds(m, r, m[i].next, FatherAt(above));
    case InRest(above, i, k) =>
      SpotIdsPositive(m, above, i);
      ListsIds(m, k, FirstId(m[i].child), i);
  }

  /** The fathers of what is below an entry are below it or the entry itself; all others have
      their fathers elsewhere. */
  lemma FathersAt(m: seq<Entry>, c: Spot, f: Forest)
    requires f.Cons? && At(m, c, f, f.id)
    ensures forall i :: i in All(f.kids) ==> i < |m| && m[i].father in All(f.kids) + {f.id}
    ensures forall i :: i in SpotIds(c) + All(f.rest) + {f.id} ==>
              i < |m| && m[i].father !in All(f.kids) + {f.id}
    ensures forall i :: i in All(f.kids) && i < |m| ==> (m[i].father == f.id <==> i in Siblings(f.kids))
  {
    SpotIdsPositive(m, c, f.id);
    SpotFathers(m, c, f.id);
    ListsIds(m, f, f.id, FatherAt(c));
    FathersIn(m, f.kids, FirstId(m[f.id].child), f.id);
    FathersIn(m, f.rest, m[f.id].next, FatherAt(c));
  }

  /** The list of children of a directory holds exactly the entries that name it as their father. */
  lemma ChildrenExact(m: seq<Entry>, c: Spot, f: Forest, i: nat)
    requires f.Cons? && At(m, c, f, f.id) && i in All(Fill(c, f))
    ensures i < |m| && (m[i].father == f.id <==> i in Siblings(f.kids))
  {
    FillIds(c, f);
    FathersAt(m, c, f);
    SiblingsListed(f.kids);
  }

  /** The topmost list is not touched by a change further down. */
  lemma {:induction false} FillRoot(c: Spot, f: Forest, f': Forest)
    requires f.Cons? && !c.Whole? && Fill(c, f).Cons? && Fill(c, f).rest.Nil?
    ensures Fill(c, f').Cons? && Fill(c, f').rest.Nil?
  {
    match c
    case InKids(above, id, r) =>
      if !above.Whole? { FillRoot(above, Cons(id, f, r), Cons(id, f', r)); }
    case InRest(above, id, k) =>
      if !above.Whole? { FillRoot(above, Cons(id, k, f), Cons(id, k, f')); }
  }

  /** From an entry back to the first child of its father. */
  lemma {:induction false} FirstSibling(m: seq<Entry>, c: Spot, f: Forest) returns (c': Spot, f': Forest)
    requires f.Cons? && At(m, c, f, f.id) && FatherAt(c) != 0
    ensures c'.InKids? && c'.id == FatherAt(c) && f'.Cons? && At(m, c', f', f'.id) && Fill(c', f') == Fill(c, f)
    ensures RootAt(c', f'.id) == RootAt(c, f.id)
  {
    if c.InKids? {
      c', f' := c, f;
    } else {
      assert At(m, c.above, Cons(c.id, c.kids, f), c.id);
      c', f' := FirstSibling(m, c.above, Cons(c.id, c.kids, f));
    }
  }

  /** The first child of a directory, from which all others are reached by their links. */
  lemma ChildrenFrom(m: seq<Entry>, c: Spot, f: Forest) returns (c': Spot, f': Forest)
    requires f.Cons? && At(m, c, f, f.id) && FatherAt(c) != 0
    ensures c'.InKids? && c'.id == FatherAt(c) && f'.Cons? && At(m, c', f', f'.id) && Fill(c', f') == Fill(c, f)
    ensures RootAt(c', f'.id) == RootAt(c, f.id) && f.id in Siblings(f')
    ensures c'.id < |m| && m[c'.id].child == First(f'.id)
  {
    c', f' := FirstSibling(m, c, f);
    var d := Cons(c'.id, f', c'.rest);
    ListsIds(m, f', f'.id, c'.id);
    assert At(m, c'.above, d, d.id);
    FillIds(c, f);
    AtDown(m, c, f);
    ChildrenExact(m, c'.above, d, f.id);
  }
}
