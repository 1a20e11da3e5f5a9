/** The list of cached files, sorted by age in place. */
module BackingSort {

  class BackingFile {
    const path: string
    const size: nat
    var age: int
    var previous: BackingFile?
    var next: BackingFile?

    constructor (path: string, size: nat)
      ensures this.path == path && this.size == size && age == 0 && previous == null && next == null
    {
      this.path, this.size := path, size;
      age, previous, next := 0, null, null;
    }
  }

  // ---------------------------------------------------------------- sorting by swaps of neighbours

  ghost predicate Ascending(s: seq<int>) {
    forall i, j :: 0 <= i < j < |s| ==> s[i] <= s[j]
  }

  ghost function Below(x: int, s: seq<int>): nat {
    if s == [] then 0 else (if s[0] < x then 1 else 0) + Below(x, s[1..])
  }

  /** The number of pairs that stand the wrong way round. */
  ghost function Inversions(s: seq<int>): nat {
    if s == [] then 0 else Below(s[0], s[1..]) + Inversions(s[1..])
  }

  lemma {:induction false} NoneBelow(x: int, s: seq<int>)
    ensures Below(x, s) == 0 <==> forall i :: 0 <= i < |s| ==> x <= s[i]
  {
    if s != [] {
      NoneBelow(x, s[1..]);
      assert forall i :: 0 < i < |s| ==> s[i] == s[1..][i - 1];
    }
  }

  /** None does exactly if the ages ascend. */
  lemma {:induction false} NoInversion(s: seq<int>)
    ensures Inversions(s) == 0 <==> Ascending(s)
  {
    if s != [] {
      var t := s[1..];
      NoInversion(t);
      NoneBelow(s[0], t);
      assert forall i :: 0 < i < |s| ==> s[i] == t[i - 1];
      if Ascending(s) {
        assert forall i :: 0 <= i < |t| ==> t[i] == s[i + 1];
      }
    }
  }

  ghost function Swapped<T>(s: seq<T>, k: nat): seq<T>
    requires k + 1 < |s|
  {
    s[k := s[k + 1]][k + 1 := s[k]]
  }

  lemma {:induction false} BelowSwapped(x: int, s: seq<int>, k: nat)
    requires k + 1 < |s|
    ensures Below(x, Swapped(s, k)) == Below(x, s)
  {
    var t := Swapped(s, k);
    if k == 0 {
      assert t[1..][1..] == s[1..][1..];
    } else {
      assert t[1..] == Swapped(s[1..], k - 1);
      BelowSwapped(x, s[1..], k - 1);
    }
  }

  /** Swapping two neighbours that stand the wrong way round leaves one such pair less. */
  lemma {:induction false} FewerInversions(s: seq<int>, k: nat)
    requires k + 1 < |s| && s[k + 1] < s[k]
    ensures Inversions(Swapped(s, k)) == Inversions(s) - 1
  {
    var t := Swapped(s, k);
    if k == 0 {
      assert t[1..][1..] == s[1..][1..];
      assert t[1..][0] == s[0] && s[1..][0] == s[1];
    } else {
      assert t[1..] == Swapped(s[1..], k - 1);
      BelowSwapped(s[0], s[1..], k - 1);
      FewerInversions(s[1..], k - 1);
    }
  }

  /** The elements at the places where `ages` is `a`, in their order. */
  ghost function OfAge<T>(s: seq<T>, ages: seq<int>, a: int): seq<T>
    requires |s| == |ages|
  {
    if s == [] then [] else (if ages[0] == a then [s[0]] else []) + OfAge(s[1..], ages[1..], a)
  }

  /** Elements of one age keep their order when two neighbours of different ages are swapped. */
  lemma {:induction false} OrderKept<T>(s: seq<T>, ages: seq<int>, k: nat, a: int)
    requires |s| == |ages| && k + 1 < |s| && ages[k] != ages[k + 1]
    ensures OfAge(Swapped(s, k), Swapped(ages, k), a) == OfAge(s, ages, a)
  {
    var t, b := Swapped(s, k), Swapped(ages, k);
    if k == 0 {
      assert t[1..][1..] == s[1..][1..] && b[1..][1..] == ages[1..][1..];
    } else {
      assert t[1..] == Swapped(s[1..], k - 1) && b[1..] == Swapped(ages[1..], k - 1);
      OrderKept(s[1..], ages[1..], k - 1, a);
    }
  }

  /** The two arrangements hold the same elements of each age in the same order. */
  ghost predicate SameByAge<T>(s: seq<T>, ages: seq<int>, t: seq<T>, bges: seq<int>)
    requires |s| == |ages| && |t| == |bges|
  {
    forall a :: OfAge(s, ages, a) == OfAge(t, bges, a)
  }

  lemma FirstOfAge<T>(s: seq<T>, ages: seq<int>)
    requires |s| == |ages| && s != []
    ensures OfAge(s, ages, ages[0]) == [s[0]] + OfAge(s[1..], ages[1..], ages[0])
    ensures forall a :: a != ages[0] ==> OfAge(s, ages, a) == OfAge(s[1..], ages[1..], a)
  {
  }

  lemma {:induction false} NoneOfAge<T>(s: seq<T>, ages: seq<int>, a: int)
    requires |s| == |ages| && forall i :: 0 <= i < |ages| ==> ages[i] != a
    ensures OfAge(s, ages, a) == []
  {
    if s != [] { NoneOfAge(s[1..], ages[1..], a); }
  }

  lemma NotYounger<T>(s: seq<T>, ages: seq<int>, t: seq<T>, bges: seq<int>)
    requires |s| == |ages| && |t| == |bges| && Ascending(ages) && Ascending(bges) && s != [] && t != []
    requires OfAge(s, ages, bges[0]) == OfAge(t, bges, bges[0])
    ensures ages[0] <= bges[0]
  {
    hide OfAge;
    if bges[0] < ages[0] {
      NoneOfAge(s, ages, bges[0]);
      FirstOfAge(t, bges);
    }
  }

  /** Two ascending arrangements that keep the order within each age are the same: the result of a
      stable sort is determined. */
  lemma {:induction false} StableUnique<T>(s: seq<T>, ages: seq<int>, t: seq<T>, bges: seq<int>)
    requires |s| == |ages| && |t| == |bges| && Ascending(ages) && Ascending(bges)
    requires SameByAge(s, ages, t, bges)
    ensures s == t && ages == bges
    decreases |s|
  {
    hide OfAge;
    if s != [] && t != [] {
      NotYounger(s, ages, t, bges);
      NotYounger(t, bges, s, ages);
      FirstOfAge(s, ages);
      FirstOfAge(t, bges);
      var a0 := ages[0];
      assert OfAge(s, ages, a0) == OfAge(t, bges, a0);
      assert s[0] == OfAge(s, ages, a0)[0] && t[0] == OfAge(t, bges, a0)[0];
      assert OfAge(s, ages, a0)[1..] == OfAge(s[1..], ages[1..], a0);
      assert OfAge(t, bges, a0)[1..] == OfAge(t[1..], bges[1..], a0);
      StableUnique(s[1..], ages[1..], t[1..], bges[1..]);
      assert s == [s[0]] + s[1..] && t == [t[0]] + t[1..];
      assert ages == [a0] + ages[1..] && bges == [a0] + bges[1..];
    } else if t != [] {
      FirstOfAge(t, bges);
      NoneOfAge(s, ages, bges[0]);
    } else if s != [] {
      FirstOfAge(s, ages);
      NoneOfAge(t, bges, ages[0]);
    }
  }

  // ---------------------------------------------------------------- the list

  ghost predicate Chain(head: BackingFile?, tail: BackingFile?, files: seq<BackingFile>)
    reads files
  {
    && head == (if files == [] then null else files[0])
    && tail == (if files == [] then null else files[|files| - 1])
    && (forall i, j :: 0 <= i < j < |files| ==> files[i] != files[j])
    && (forall i {:trigger files[i].next} :: 0 <= i < |files| ==> files[i].next == if i + 1 < |files| then files[i + 1] else null)
    && (forall i {:trigger files[i].previous} :: 0 <= i < |files| ==> files[i].previous == if i > 0 then files[i - 1] else null)
  }

  ghost function Ages(files: seq<BackingFile>): (s: seq<int>)
    reads files
    ensures |s| == |files| && forall i :: 0 <= i < |s| ==> s[i] == files[i].age
  {
    seq(|files|, i requires 0 <= i < |files| reads files => files[i].age)
  }

  class FileList {
    var head: BackingFile?
    var tail: BackingFile?
    ghost var files: seq<BackingFile>

    ghost predicate Valid()
      reads this, files
    {
      Chain(head, tail, files)
    }

    constructor ()
      ensures Valid() && files == []
    {
      head, tail, files := null, null, [];
    }

    /** Adds a file at the head of the list. */
    method AppendFile(path: string, size: nat) returns (file: BackingFile)
      requires Valid()
      modifies this, files
      ensures Valid() && files == [file] + old(files) && fresh(file) && file.path == path && file.size == size && file.age == 0
    {
      file := new BackingFile(path, size);
      if head != null {
        file.next := head;
        head.previous := file;
        head := file;
      } else {
        head := file;
        tail := file;
      }
      ghost var l := files;
      files := [file] + l;
      assert forall i :: 0 < i < |files| ==> files[i] == l[i - 1];
    }

    /** Exchanges a file with the next one. */
    method Flip(file: BackingFile, ghost k: nat)
      requires Valid() && k + 1 < |files| && files[k] == file
      modifies this, files
      ensures Valid() && files == Swapped(old(files), k)
      ensures forall f :: f in files ==> f.age == old(f.age)
    {
      hide Ages;
      ghost var l := files;
      assert file.next == l[k + 1];
      var file1 := file.next;
      var previous, next := file.previous, file.next.next;
      if previous != null {
        previous.next := file1;
      } else {
        head := file1;
      }
      file1.previous := previous;
      file1.next := file;
      file.previous := file1;
      file.next := next;
      if next != null {
        next.previous := file;
      } else {
        tail := file;
      }
      files := Swapped(l, k);
    }

    /** The same, seen on the ages. */
    method Exchange(file: BackingFile, ghost k: nat)
      requires Valid() && k + 1 < |files| && files[k] == file
      modifies this, files
      ensures Valid() && files == Swapped(old(files), k) && Ages(files) == Swapped(old(Ages(files)), k)
      ensures multiset(files) == multiset(old(files)) && forall f :: f in files <==> f in old(files)
      ensures forall f :: f in files ==> f.age == old(f.age)
    {
      hide Chain;
      SwapElements(files, k);
      assert forall i :: 0 <= i < |files| ==> files[i] in files;
      Flip(file, k);
    }

    /** Exchanges a file with the next one and steps back. */
    method FlipBack(file: BackingFile, ghost k: nat) returns (file': BackingFile, ghost k': nat)
      requires Valid() && k + 1 < |files| && files[k] == file
      modifies this, files
      ensures Valid() && files == Swapped(old(files), k) && Ages(files) == Swapped(old(Ages(files)), k)
      ensures multiset(files) == multiset(old(files)) && forall f :: f in files <==> f in old(files)
      ensures forall f :: f in files ==> f.age == old(f.age)
      ensures k' == (if k > 0 then k - 1 else 0) && k' < |files| && files[k'] == file'
    {
      hide Chain;
      Neighbours(head, tail, files, k);
      var previous := file.previous;
      Exchange(file, k);
      EndOf(head, tail, files);
      k' := if k > 0 then k - 1 else 0;
      file' := if previous != null then previous else head;
    }

    /** Sorts the list by age: goes on while the next file is not younger, else exchanges the two and
        steps back. Each exchange leaves one pair less the wrong way round, so there are as many as such
        pairs. */
    method Sort() returns (ghost exchanges: nat)
      requires Valid()
      modifies this, files
      ensures exchanges == Inversions(old(Ages(files)))
      ensures Valid() && |files| == |old(files)| && Ascending(Ages(files))
      ensures SameByAge(old(files), old(Ages(files)), files, Ages(files))
      ensures multiset(files) == multiset(old(files)) && forall f :: f in old(files) ==> f.age == old(f.age)
    {
      hide Chain, OfAge, Swapped, Inversions, Ascending, SameByAge, Ages;
      var file := head;
      EndOf(head, tail, files);
      SortedStart(files, Ages(files));
      exchanges := 0;
      if file == null {
        NoInversion(Ages(files));
        return;
      }
      ghost var k, ages := 0, Ages(files);
      while file.next != null
        invariant Valid() && 0 <= k < |files| == |old(files)| && files[k] == file && ages == Ages(files)
        invariant file.next == null <==> k == |files| - 1
        invariant Ascending(ages[..k + 1]) && SameByAge(old(files), old(Ages(files)), files, ages)
        invariant multiset(files) == multiset(old(files)) && forall f :: f in files <==> f in old(files)
        invariant forall f :: f in old(files) ==> f.age == old(f.age)
        invariant exchanges + Inversions(ages) == Inversions(old(Ages(files)))
        decreases Inversions(ages), |files| - k
      {
        Neighbours(head, tail, files, k);
        if file.next.age >= file.age {
          AscendingMore(ages, k);
          file := file.next;
          k := k + 1;
        } else {
          FewerInversions(ages, k);
          SwapKept(old(files), old(Ages(files)), files, ages, k);
          SwapPrefix(ages, k);
          assert forall i :: 0 <= i < |files| ==> files[i] in files && files[i] in old(files);
          ages, exchanges := Swapped(ages, k), exchanges + 1;
          file, k := FlipBack(file, k);
        }
        Neighbours(head, tail, files, k);
      }
      assert ages[..k + 1] == ages;
      NoInversion(ages);
    }
  }

  lemma SortedStart(files: seq<BackingFile>, ages: seq<int>)
    requires |files| == |ages|
    ensures SameByAge(files, ages, files, ages) && (|ages| > 0 ==> Ascending(ages[..1])) && (ages == [] ==> Ascending(ages))
  {
  }

  lemma EndOf(head: BackingFile?, tail: BackingFile?, files: seq<BackingFile>)
    requires Chain(head, tail, files)
    ensures head == if files == [] then null else files[0]
    ensures files != [] ==> (files[0].next == null <==> |files| == 1)
  {
  }

  lemma Neighbours(head: BackingFile?, tail: BackingFile?, files: seq<BackingFile>, k: nat)
    requires Chain(head, tail, files) && k < |files|
    ensures files[k].next == if k + 1 < |files| then files[k + 1] else null
    ensures files[k].previous == if k > 0 then files[k - 1] else null
  {
  }

  lemma AscendingMore(ages: seq<int>, k: nat)
    requires k + 1 < |ages| && Ascending(ages[..k + 1]) && ages[k] <= ages[k + 1]
    ensures Ascending(ages[..k + 2])
  {
    forall i, j | 0 <= i < j < k + 2
      ensures ages[i] <= ages[j]
    {
      if j == k + 1 && i < k { assert ages[..k + 1][i] <= ages[..k + 1][k]; }
      if j < k + 1 { assert ages[..k + 1][i] <= ages[..k + 1][j]; }
    }
  }

  lemma SwapPrefix(ages: seq<int>, k: nat)
    requires k + 1 < |ages| && Ascending(ages[..k + 1])
    ensures |Swapped(ages, k)| == |ages| && Ascending(Swapped(ages, k)[..if k > 0 then k else 1])
  {
    var n := if k > 0 then k else 1;
    var t := Swapped(ages, k);
    forall i, j | 0 <= i < j < n
      ensures t[..n][i] <= t[..n][j]
    {
      assert ages[..k + 1][i] <= ages[..k + 1][j];
    }
  }

  lemma SwapKept(s: seq<BackingFile>, ages0: seq<int>, files: seq<BackingFile>, ages: seq<int>, k: nat)
    requires |s| == |ages0| && |files| == |ages| && k + 1 < |files| && ages[k] != ages[k + 1]
    requires SameByAge(s, ages0, files, ages)
    ensures SameByAge(s, ages0, Swapped(files, k), Swapped(ages, k))
  {
    forall a
      ensures OfAge(s, ages0, a) == OfAge(Swapped(files, k), Swapped(ages, k), a)
    {
      OrderKept(files, ages, k, a);
    }
  }

  lemma SwapElements(files: seq<BackingFile>, k: nat)
    requires k + 1 < |files|
    ensures multiset(Swapped(files, k)) == multiset(files)
    ensures forall f :: f in Swapped(files, k) <==> f in files
  {
    var t := Swapped(files, k);
    assert files == files[..k] + ([files[k]] + [files[k + 1]] + files[k + 2..]);
    assert t == files[..k] + ([files[k + 1]] + [files[k]] + files[k + 2..]);
    Exchanged(files[..k], files[k], files[k + 1], files[k + 2..]);
    assert forall f :: f in files <==> f in multiset(files);
    assert forall f :: f in t <==> f in multiset(t);
  }

  lemma Exchanged(a: seq<BackingFile>, x: BackingFile, y: BackingFile, b: seq<BackingFile>)
    ensures multiset(a + ([x] + [y] + b)) == multiset(a + ([y] + [x] + b))
  {
    var p, q := [x] + [y] + b, [y] + [x] + b;
    assert multiset(p) == multiset(q) by {
      assert multiset([x] + [y]) == multiset([x]) + multiset([y]);
      assert multiset([y] + [x]) == multiset([y]) + multiset([x]);
    }
    assert multiset(a + p) == multiset(a) + multiset(p);
    assert multiset(a + q) == multiset(a) + multiset(q);
  }

}
