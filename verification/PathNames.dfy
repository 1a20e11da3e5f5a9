/** Full paths: how they are put together and split, and how the store compares them. */
module PathNames {

  ghost predicate ValidName(n: string) {
    n != "" && '/' !in n
  }

  /** What a directory contributes to the paths below it. */
  function Prefix(dir: string): string {
    if dir == "/" then "" else dir
  }

  function Join(dir: string, n: string): string {
    Prefix(dir) + "/" + n
  }

  /** What the kernel passes on: the root, or names, each after a slash. */
  ghost predicate Absolute(q: string) {
    q == "/" || (q != "" && q[0] == '/' && forall k :: 0 <= k < |q| && q[k] == '/' ==> k + 1 < |q| && q[k + 1] != '/')
  }

  ghost predicate IsJoin(q: string, d: string, n: string) {
    ValidName(n) && d != "" && d[0] == '/' && q == Join(d, n)
  }

  /** The path `p` lies below the directory `q`, which is not the root. */
  predicate IsBelow(q: string, p: string) {
    q + "/" <= p
  }

  /** The directory `q` is above the path `p`. */
  ghost predicate Above(q: string, p: string) {
    if q == "/" then p != "/" else IsBelow(q, p)
  }

  /** A name in the root directory. */
  ghost predicate TopLevel(q: string) {
    |q| > 1 && q[0] == '/' && '/' !in q[1..]
  }

  /** The position of the last slash. */
  ghost predicate LastSlash(p: string, k: nat) {
    k < |p| && p[k] == '/' && forall i :: k < i < |p| ==> p[i] != '/'
  }

  lemma JoinShape(dir: string, n: string)
    requires ValidName(n)
    ensures LastSlash(Join(dir, n), |Prefix(dir)|)
    ensures Join(dir, n)[..|Prefix(dir)|] == Prefix(dir) && Join(dir, n)[|Prefix(dir)| + 1..] == n
    ensures |Join(dir, n)| > 1 && |Join(dir, n)| > |Prefix(dir)| + 1
  {
    assert Join(dir, n)[|Prefix(dir)| + 1..] == n;
  }

  /** What a path lies below is its directory, or what this lies below. */
  lemma BelowJoin(q: string, d: string, n: string)
    requires ValidName(n) && IsBelow(q, Join(d, n))
    ensures q == Prefix(d) || IsBelow(q, Prefix(d))
  {
    var p, k := Prefix(d), |q|;
    var j := Join(d, n);
    JoinShape(d, n);
    assert j == p + "/" + n && j[..k] == q && j[k] == (q + "/")[k] == '/';
    if k == |p| {
      assert j[..k] == p;
    } else if k < |p| {
      assert j[..k + 1] == p[..k + 1] && j[..k + 1] == q + "/";
    }
  }

  lemma TopLevelJoin(q: string, d: string, n: string)
    requires IsJoin(q, d, n)
    ensures TopLevel(q) <==> d == "/"
  {
    JoinShape(d, n);
    if d == "/" {
      assert q[1..] == n;
    } else {
      assert q[1..][|d| - 1] == '/';
    }
  }

  lemma BelowTwice(q: string, d: string, p: string)
    ensures IsBelow(q, d) && IsBelow(d, p) ==> IsBelow(q, p)
  {
  }

  /** Different directories or different names give different paths. */
  lemma JoinInjective(dir: string, n: string, dir': string, n': string)
    requires ValidName(n) && ValidName(n') && dir != "" && dir' != ""
    requires Join(dir, n) == Join(dir', n')
    ensures dir == dir' && n == n'
  {
    JoinShape(dir, n);
    JoinShape(dir', n');
    assert |Prefix(dir)| == |Prefix(dir')|;
  }

  /** Every path but the root is a name in a directory. */
  lemma AbsoluteSplit(q: string) returns (d: string, n: string)
    requires Absolute(q) && q != "/"
    ensures IsJoin(q, d, n) && Absolute(d) && |d| < |q|
  {
    var k := |q| - 1;
    while q[k] != '/'
      invariant 0 <= k < |q| && forall i :: k < i < |q| ==> q[i] != '/'
      decreases k
    {
      k := k - 1;
    }
    n := q[k + 1..];
    d := if k == 0 then "/" else q[..k];
    assert q == q[..k] + "/" + n;
  }

  // ---------------------------------------------------------------- name by name

  /** The directory at path `d` is where the query `q` is cut at `size`. */
  ghost predicate SplitsAt(q: string, size: nat, d: string) {
    size < |q| && q[size] == '/' && Prefix(d) == q[..size]
  }

  /** The end of the name that begins at `start`. */
  method NameEnd(q: string, start: nat) returns (end: nat)
    requires start <= |q|
    ensures start <= end <= |q| && (end == |q| || q[end] == '/') && '/' !in q[start..end]
  {
    end := start;
    while end < |q| && q[end] != '/'
      invariant start <= end <= |q| && '/' !in q[start..end]
    {
      end := end + 1;
    }
  }

  lemma SlashNext(q: string, size: nat)
    requires Absolute(q) && q != "/" && size < |q| && q[size] == '/'
    ensures size + 1 < |q| && q[size + 1] != '/'
  {
  }

  /** One name further on. */
  lemma NextName(q: string, size: nat, d: string, end: nat)
    requires Absolute(q) && q != "/" && SplitsAt(q, size, d) && size < end <= |q|
    requires (end == |q| || q[end] == '/') && '/' !in q[size + 1..end]
    ensures ValidName(q[size + 1..end]) && Join(d, q[size + 1..end]) == q[..end] && q[..end][0] == '/'
    ensures end < |q| ==> SplitsAt(q, end, q[..end]) && IsBelow(q[..end], q)
    ensures d == "/" ==> TopLevel(q[..end])
  {
    assert q[size + 1] != '/';
    assert q[..end] == q[..size] + "/" + q[size + 1..end];
    if d == "/" {
      assert q[..end][1..] == q[1..end];
    }
  }

  lemma SplitsAbove(q: string, size: nat, d: string)
    requires SplitsAt(q, size, d) && q != "/" && d != ""
    ensures Above(d, q)
  {
  }

  /** What lies above the query lies above where it is cut, is there, or comes later. */
  lemma AboveSplit(q: string, size: nat, d: string, p: string)
    requires Absolute(q) && q != "/" && SplitsAt(q, size, d) && Above(p, q) && p != "" && d != ""
    ensures Above(p, d) || p == d || exists k :: size < k < |q| && q[k] == '/' && p == q[..k]
  {
    if p != "/" {
      var k := |p|;
      assert q[..k] == p && q[k] == (p + "/")[k] == '/';
      if k < size {
        assert q[..size][..k + 1] == q[..k + 1] == p + "/";
      }
    }
  }

  /** Splits a path at its last slash; what is left of the only slash of a path is "/". */
  method SplitPath(path: string) returns (dir: string, name: string)
    requires '/' in path
    ensures '/' !in name && dir != ""
    ensures forall d, n :: IsJoin(path, d, n) ==> dir == d && name == n
  {
    var lastSlash := 0;
    var start := 0;
    for i := 0 to |path|
      invariant lastSlash == start <= i
      invariant '/' in path[..i] ==> start < i && path[start] == '/'
      invariant forall j :: start < j < i ==> path[j] != '/'
    {
      if path[i] == '/' {
        lastSlash := i;
        start := i;
      }
    }
    assert path[..|path|] == path;
    if lastSlash == 0 {
      lastSlash := lastSlash + 1;
    }
    dir := path[..lastSlash];
    name := path[start + 1..];
    forall d, n | IsJoin(path, d, n)
      ensures dir == d && name == n
    {
      JoinShape(d, n);
      assert start == |Prefix(d)|;
    }
  }

  // ---------------------------------------------------------------- comparing

  datatype Match = Yes | No | Crash

  /** How the store compares the rest `p` of an entry's path with the rest `q` of a query, of
      which `size` characters count: where a component of `p` ends and `q` goes on otherwise, it
      aborts. */
  function Compare(p: string, q: string, size: int): Match
    decreases |q|
  {
    if q == "" then (if p == "" then Yes else No)
    else if size == 1 then Yes
    else if p == "" then Crash
    else if p[0] == '/' && q[0] != '/' then Crash
    else if p[0] != q[0] then No
    else Compare(p[1..], q[1..], size - 1)
  }

  /** A query compared in full matches the one path it spells. */
  lemma {:induction false} CompareFull(p: string, q: string, size: int)
    requires size > |q|
    ensures Compare(p, q, size).Yes? <==> p == q
    decreases |q|
  {
    if q != "" && p != "" && p[0] == q[0] {
      CompareFull(p[1..], q[1..], size - 1);
      assert p == [p[0]] + p[1..] && q == [q[0]] + q[1..];
    }
  }

  /** A query compared in part matches every path that begins with that part, even one in which
      the last name goes on. */
  lemma {:induction false} ComparePartial(p: string, q: string, size: int)
    requires 1 <= size <= |q|
    ensures Compare(p, q, size).Yes? <==> q[..size - 1] <= p
    decreases |q|
  {
    if size > 1 && p != "" && p[0] == q[0] {
      ComparePartial(p[1..], q[1..], size - 1);
      assert q[..size - 1] == [q[0]] + q[1..][..size - 2];
      assert p == [p[0]] + p[1..];
    }
  }

  /** A leading part of `p`, up to the end of a component, is a leading part of `q`, which then goes
      on with more than `p` allows. */
  ghost predicate OverrunsAt(p: string, q: string, k: nat) {
    k < |q| && k <= |p| && p[..k] == q[..k] && (k == |p| || (p[k] == '/' && q[k] != '/'))
  }

  /** When the comparison aborts. */
  lemma {:induction false} CompareCrash(p: string, q: string, size: int)
    requires size > |q|
    ensures Compare(p, q, size).Crash? <==> exists k: nat :: OverrunsAt(p, q, k)
    decreases |q|
  {
    if q != "" && p != "" && p[0] == q[0] {
      CompareCrash(p[1..], q[1..], size - 1);
      forall k: nat
        ensures OverrunsAt(p[1..], q[1..], k) <==> OverrunsAt(p, q, k + 1)
      {
        OverrunsLater(p, q, k);
      }
      if k: nat :| OverrunsAt(p, q, k) {
        assert OverrunsAt(p[1..], q[1..], k - 1);
      }
    } else if q != "" {
      assert OverrunsAt(p, q, 0) <==> p == "" || p[0] == '/';
      if k: nat :| OverrunsAt(p, q, k) {
        assert k > 0 ==> p[..k][0] == q[..k][0];
      }
    }
  }

  lemma OverrunsLater(p: string, q: string, k: nat)
    requires p != "" && q != "" && p[0] == q[0]
    ensures OverrunsAt(p[1..], q[1..], k) <==> OverrunsAt(p, q, k + 1)
  {
    if k < |p| && k < |q| {
      assert p[..k + 1] == [p[0]] + p[1..][..k] && q[..k + 1] == [q[0]] + q[1..][..k];
      assert p[..k + 1][1..] == p[1..][..k] && q[..k + 1][1..] == q[1..][..k];
    }
  }

  // ---------------------------------------------------------------- names on a stack

  function Slashes(p: string): nat {
    if p == "" then 0 else Slashes(p[1..]) + if p[0] == '/' then 1 else 0
  }

  /** The number of directories above the entry at path `p`, itself included. */
  function Levels(p: string): nat {
    Slashes(Prefix(p))
  }

  lemma {:induction false} SlashesJoin(p: string, q: string)
    ensures Slashes(p + q) == Slashes(p) + Slashes(q)
  {
    if p == "" {
      assert p + q == q;
    } else {
      assert (p + q)[1..] == p[1..] + q;
      SlashesJoin(p[1..], q);
    }
  }

  lemma {:induction false} NoSlashes(n: string)
    requires '/' !in n
    ensures Slashes(n) == 0
  {
    if n != "" {
      NoSlashes(n[1..]);
    }
  }

  /** The path spelt by names read from the leaf up. */
  function Spelt(names: seq<string>): string {
    if names == [] then "" else "/" + names[|names| - 1] + Spelt(names[..|names| - 1])
  }

  lemma JoinLevels(dir: string, n: string)
    requires ValidName(n)
    ensures Levels(Join(dir, n)) == Levels(dir) + 1 && Prefix(Join(dir, n)) == Join(dir, n)
  {
    JoinShape(dir, n);
    assert Join(dir, n) == Prefix(dir) + ("/" + n);
    SlashesJoin(Prefix(dir), "/" + n);
    assert ("/" + n)[1..] == n;
    NoSlashes(n);
  }

  /** One more name on the stack, one directory up. */
  lemma Climbed(p: string, dir: string, n: string, names: seq<string>)
    requires ValidName(n) && Prefix(p) == Prefix(Join(dir, n)) + Spelt(names)
    ensures Prefix(p) == Prefix(dir) + Spelt(names + [n])
  {
    JoinLevels(dir, n);
    assert (names + [n])[..|names|] == names;
    assert Prefix(dir) + ("/" + n + Spelt(names)) == Join(dir, n) + Spelt(names);
  }

  lemma CompareStep(p: string, q: string, i: nat, n: int)
    requires i < |q|
    ensures Compare(p, q[i..], n) ==
      if n == 1 then Yes
      else if p == "" || (p[0] == '/' && q[i] != '/') then Crash
      else if p[0] != q[i] then No
      else Compare(p[1..], q[i + 1..], n - 1)
  {
    assert q[i..][0] == q[i] && q[i..][1..] == q[i + 1..];
  }

  lemma SpeltTop(name: string, names: seq<string>, level: nat)
    requires level <= |names|
    ensures name != "" ==> (name + Spelt(names[..level]))[1..] == name[1..] + Spelt(names[..level])
    ensures name == "" && level > 0 ==>
      name + Spelt(names[..level]) == "/" + (names[level - 1] + Spelt(names[..level - 1]))
    ensures name == "" ==> (level == 0 <==> name + Spelt(names[..level]) == "")
  {
    if level > 0 {
      assert names[..level][..level - 1] == names[..level - 1];
    }
  }

  /** Compares a query with the names on the stack, the topmost directory first. */
  method CompareNames(names: seq<string>, q: string, size: int) returns (r: Match)
    requires names != [] && q != "" && forall n :: n in names ==> ValidName(n)
    ensures r == Compare(Spelt(names)[1..], q[1..], size)
  {
    var level, name := |names| - 1, names[|names| - 1];
    assert ValidName(name);
    SpeltTop("", names, |names|);
    assert names[..|names|] == names;
    assert Spelt(names) == "/" + (name + Spelt(names[..level]));
    for i := 1 to |q|
      invariant 0 <= level < |names| && '/' !in name
      invariant Compare(name + Spelt(names[..level]), q[i..], size - (i - 1)) == Compare(Spelt(names)[1..], q[1..], size)
    {
      CompareStep(name + Spelt(names[..level]), q, i, size - (i - 1));
      SpeltTop(name, names, level);
      if i == size { return Yes; }
      if name == "" {
        if q[i] != '/' { return Crash; }
        if level == 0 { return Crash; }
        level := level - 1;
        name := names[level];
        assert ValidName(name);
      } else {
        if q[i] != name[0] { return No; }
        name := name[1..];
      }
    }
    r := if level == 0 && name == "" then Yes else No;
  }
}
