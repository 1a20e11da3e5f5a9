/** The queue of files to be transferred: one linked list for all types of transfer. */
module TransferQueue {

  /** A file and the type of its transfer. */
  datatype Item = Item(mfile: nat, kind: nat)

  class Cell {
    const item: Item
    var next: Cell?

    constructor (item: Item)
      ensures this.item == item && next == null
    {
      this.item := item;
      next := null;
    }
  }

  predicate Holds(q: seq<Item>, mfile: nat) {
    exists i :: 0 <= i < |q| && q[i].mfile == mfile
  }

  /** Each file is in the queue at most once. */
  ghost predicate Distinct(q: seq<Item>) {
    forall i, j :: 0 <= i < j < |q| ==> q[i].mfile != q[j].mfile
  }

  /** The place of the first item of a type, the length of the queue if there is none. */
  ghost function FirstOf(q: seq<Item>, kind: nat): (k: nat)
    ensures k <= |q| && (k < |q| ==> q[k].kind == kind)
    ensures forall i :: 0 <= i < k ==> q[i].kind != kind
  {
    if q == [] then 0 else if q[0].kind == kind then 0 else 1 + FirstOf(q[1..], kind)
  }

  ghost function Without(q: seq<Item>, k: nat): (r: seq<Item>)
    requires k < |q|
    ensures |r| == |q| - 1 && (forall i :: 0 <= i < k ==> r[i] == q[i]) && forall i :: k <= i < |r| ==> r[i] == q[i + 1]
  {
    q[..k] + q[k + 1..]
  }

  /** The items of one type, in their order. */
  ghost function OfKind(q: seq<Item>, kind: nat): seq<nat> {
    if q == [] then [] else (if q[0].kind == kind then [q[0].mfile] else []) + OfKind(q[1..], kind)
  }

  lemma {:induction false} OfKindJoined(a: seq<Item>, b: seq<Item>, kind: nat)
    ensures OfKind(a + b, kind) == OfKind(a, kind) + OfKind(b, kind)
  {
    if a == [] {
      assert a + b == b;
    } else {
      assert (a + b)[1..] == a[1..] + b;
      OfKindJoined(a[1..], b, kind);
    }
  }

  lemma {:induction false} NoneOfKind(q: seq<Item>, kind: nat)
    requires forall i :: 0 <= i < |q| ==> q[i].kind != kind
    ensures OfKind(q, kind) == []
  {
    if q != [] {
      NoneOfKind(q[1..], kind);
    }
  }

  /** Each type is served in the order of asking, and no other type is touched by it. */
  lemma FirstInFirstOut(q: seq<Item>, kind: nat)
    requires FirstOf(q, kind) < |q|
    ensures OfKind(q, kind) == [q[FirstOf(q, kind)].mfile] + OfKind(Without(q, FirstOf(q, kind)), kind)
    ensures forall other :: other != kind ==> OfKind(Without(q, FirstOf(q, kind)), other) == OfKind(q, other)
  {
    var k := FirstOf(q, kind);
    assert q == q[..k] + ([q[k]] + q[k + 1..]);
    NoneOfKind(q[..k], kind);
    OfKindJoined(q[..k], [q[k]] + q[k + 1..], kind);
    OfKindJoined(q[..k], q[k + 1..], kind);
    forall other | other != kind
      ensures OfKind(Without(q, k), other) == OfKind(q, other)
    {
      OfKindJoined(q[..k], [q[k]] + q[k + 1..], other);
      OfKindJoined(q[..k], q[k + 1..], other);
      assert ([q[k]] + q[k + 1..])[1..] == q[k + 1..];
    }
    assert ([q[k]] + q[k + 1..])[1..] == q[k + 1..];
  }

  lemma {:induction false} FirstOfIs(q: seq<Item>, kind: nat, k: nat)
    requires k <= |q| && (k < |q| ==> q[k].kind == kind) && forall i :: 0 <= i < k ==> q[i].kind != kind
    ensures FirstOf(q, kind) == k
  {
    var f := FirstOf(q, kind);
    if f < |q| {
      assert q[f].kind == kind;
    }
  }

  lemma StillDistinct(q: seq<Item>, k: nat)
    requires Distinct(q) && k < |q|
    ensures Distinct(Without(q, k))
  {
  }

  class Queue {
    var head: Cell?
    var tail: Cell?
    ghost var cells: seq<Cell>

    ghost predicate Valid()
      reads this, cells
    {
      && (forall i, j :: 0 <= i < j < |cells| ==> cells[i] != cells[j])
      && head == (if cells == [] then null else cells[0])
      && tail == (if cells == [] then null else cells[|cells| - 1])
      && (forall i {:trigger cells[i].next} :: 0 <= i < |cells| ==> cells[i].next == if i + 1 < |cells| then cells[i + 1] else null)
      && Distinct(Contents())
    }

    ghost function Contents(): (q: seq<Item>)
      reads this
      ensures |q| == |cells| && forall i :: 0 <= i < |q| ==> q[i] == cells[i].item
    {
      seq(|cells|, i requires 0 <= i < |cells| reads this => cells[i].item)
    }

    constructor ()
      ensures Valid() && Contents() == []
    {
      head, tail, cells := null, null, [];
    }

    /** Queues a file, unless it is queued already. */
    method QueueFile(mfile: nat, kind: nat) returns (ok: bool)
      requires Valid()
      modifies this, cells
      ensures Valid() && (ok <==> forall i :: 0 <= i < |old(Contents())| ==> old(Contents())[i].mfile != mfile)
      ensures Contents() == if ok then old(Contents()) + [Item(mfile, kind)] else old(Contents())
      ensures fresh(set c | c in cells && c !in old(cells))
    {
      var transfer := head;
      ghost var k := 0;
      while transfer != null
        invariant 0 <= k <= |cells| && transfer == if k < |cells| then cells[k] else null
        invariant forall i :: 0 <= i < k ==> cells[i].item.mfile != mfile
        decreases |cells| - k
      {
        if transfer.item.mfile == mfile {
          assert Contents()[k].mfile == mfile;
          return false;
        }
        transfer := transfer.next;
        k := k + 1;
      }
      Append(Item(mfile, kind));
      ok := true;
    }

    method Append(item: Item)
      requires Valid() && !Holds(Contents(), item.mfile)
      modifies this, cells
      ensures Valid() && Contents() == old(Contents()) + [item]
      ensures fresh(set c | c in cells && c !in old(cells))
    {
      var transfer := new Cell(item);
      if tail != null {
        tail.next := transfer;
        tail := transfer;
      } else {
        head := transfer;
        tail := transfer;
      }
      cells := cells + [transfer];
      assert Contents() == old(Contents()) + [item];
    }

    /** Takes the first item of a type off the queue. `bug` is one of the four tests that make
        mcachefs abort: it is met exactly if there is no item of that type. */
    method GetNext(kind: nat) returns (bug: bool, mfile: nat)
      requires Valid()
      modifies this, cells
      ensures bug <==> forall i :: 0 <= i < |old(Contents())| ==> old(Contents())[i].kind != kind
      ensures !bug ==> Valid() && mfile == old(Contents())[FirstOf(old(Contents()), kind)].mfile
      ensures !bug ==> Contents() == Without(old(Contents()), FirstOf(old(Contents()), kind))
    {
      mfile := 0;
      if head == null { return true, mfile; }
      var transfer, last := head, null;
      ghost var k := 0;
      while transfer != null
        invariant 0 <= k <= |cells| && transfer == if k < |cells| then cells[k] else null
        invariant last == if k == 0 then null else cells[k - 1]
        invariant forall i :: 0 <= i < k ==> Contents()[i].kind != kind
        decreases |cells| - k
      {
        if transfer.item.kind == kind { break; }
        last := transfer;
        transfer := transfer.next;
        k := k + 1;
      }
      FirstOfIs(Contents(), kind, k);
      if transfer == null { return true, mfile; }
      mfile := transfer.item.mfile;
      bug := UnlinkAt(transfer, last, k);
    }

    method UnlinkAt(transfer: Cell, last: Cell?, ghost k: nat) returns (bug: bool)
      requires Valid() && k < |cells| && cells[k] == transfer && last == if k == 0 then null else cells[k - 1]
      modifies this, cells
      ensures !bug && Valid() && Contents() == Without(old(Contents()), k)
    {
      hide Distinct, Holds, FirstOf, OfKind;
      if last != null {
        last.next := transfer.next;
        if transfer.next == null {
          if tail != transfer { return true; }
          tail := last;
        }
      } else {
        head := transfer.next;
        if transfer.next == null {
          if tail != transfer { return true; }
          tail := null;
        }
      }
      ghost var rest := cells[..k] + cells[k + 1..];
      assert forall i :: 0 <= i < k ==> rest[i] == cells[i];
      assert forall i :: k <= i < |rest| ==> rest[i] == cells[i + 1];
      cells := rest;
      StillDistinct(old(Contents()), k);
      assert Contents() == Without(old(Contents()), k);
      bug := false;
    }
  }
}
