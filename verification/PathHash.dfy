/** The 32.6.16 hash of path strings, computed in 32-bit unsigned arithmetic. */
module PathHash {

  const MODULUS: nat := 0x1_0000_0000
  const SEED: nat := 0x245

  /** An unsigned 32-bit result. */
  function Wrap(x: int): (r: nat)
    ensures r < MODULUS
  {
    x % MODULUS
  }

  /** One character: h = d + (h << 6) + (h << 16) - h, wrapping at every operation. */
  function Step(h: nat, c: char): (r: nat)
    ensures r < MODULUS
  {
    var d := (c as int) % 256;
    Wrap(Wrap(Wrap(d + Wrap(h * 64)) + Wrap(h * 65536)) - h)
  }

  function Hash(h: nat, s: string): (r: nat)
    ensures h < MODULUS ==> r < MODULUS
    decreases |s|
  {
    if s == [] then h else Hash(Step(h, s[0]), s[1..])
  }

  /** Hashes up to `sz` characters; a size that is never reached, such as -1, means all of them. */
  method ContinueHashPartial(h: nat, str: string, sz: int) returns (r: nat)
    ensures r == Hash(h, if 0 < sz <= |str| then str[..sz] else str)
  {
    ghost var target := if 0 < sz <= |str| then str[..sz] else str;
    var cur := 0;
    r := h;
    var i := 0;
    while i < |str|
      invariant 0 <= i == cur <= |target| && target <= str
      invariant 0 < sz <= |str| ==> i < sz
      invariant Hash(r, target[i..]) == Hash(h, target)
    {
      r := Step(r, str[i]);
      cur := cur + 1;
      i := i + 1;
      if cur == sz { break; }
    }
  }

  function DoHash(s: string): nat {
    Hash(SEED, s)
  }

  /** Hashing continues where it stopped. */
  lemma {:induction false} HashConcat(h: nat, a: string, b: string)
    ensures Hash(h, a + b) == Hash(Hash(h, a), b)
    decreases |a|
  {
    if a == [] {
      assert a + b == b;
    } else {
      HashConcat(Step(h, a[0]), a[1..], b);
      assert (a + b)[1..] == a[1..] + b;
    }
  }

  lemma StepLinear(h: nat, c: char)
    ensures Step(h, c) == ((c as int) % 256 + 65599 * h) % MODULUS
  {
    var d := (c as int) % 256;
    WrapAdd(d, h * 64);
    WrapAdd(d + h * 64, h * 65536);
    var minus: int := 0 - h;
    WrapAdd(minus, d + h * 64 + h * 65536);
  }

  lemma WrapAdd(a: int, b: int)
    ensures Wrap(a + Wrap(b)) == Wrap(a + b)
    ensures Wrap(Wrap(b) + a) == Wrap(a + b)
    ensures Wrap(Wrap(a) + Wrap(b)) == Wrap(a + b)
  {
  }

  lemma Residue(x: int, x': int)
    requires x % MODULUS == x' % MODULUS
    ensures x - x' == MODULUS * ((x - x') / MODULUS)
  {
    var q, q' := x / MODULUS, x' / MODULUS;
    assert x - x' == MODULUS * (q - q');
  }

  lemma MultipleBelow(x: int, k: int)
    requires x == 0x1_0000_0000 * k && -0x1_0000_0000 < x < 0x1_0000_0000
    ensures x == 0
  {
  }

  /** The step can be undone: 65599 is odd, hence invertible modulo 2^32. */
  lemma StepInjective(h: nat, h': nat, c: char)
    requires h < MODULUS && h' < MODULUS && Step(h, c) == Step(h', c)
    ensures h == h'
  {
    StepLinear(h, c);
    StepLinear(h', c);
    var d := (c as int) % 256;
    var x, x' := d + 65599 * h, d + 65599 * h';
    Residue(x, x');
    var q := (x - x') / MODULUS;
    // 2390421439 * 65599 == 36510 * MODULUS + 1
    MultipleBelow(h - h', 2390421439 * q - 36510 * (h - h'));
  }

  /** Two paths that end alike collide exactly if their beginnings do: below two directories
      equal relative names collide if and only if the directories do. */
  lemma {:induction false} SuffixCollision(a: string, a': string, s: string)
    ensures DoHash(a + s) == DoHash(a' + s) <==> DoHash(a) == DoHash(a')
  {
    HashConcat(SEED, a, s);
    HashConcat(SEED, a', s);
    HashInjective(Hash(SEED, a), Hash(SEED, a'), s);
  }

  lemma {:induction false} HashInjective(h: nat, h': nat, s: string)
    requires h < MODULUS && h' < MODULUS
    ensures Hash(h, s) == Hash(h', s) <==> h == h'
    decreases |s|
  {
    if s != [] {
      HashInjective(Step(h, s[0]), Step(h', s[0]), s[1..]);
      if Step(h, s[0]) == Step(h', s[0]) {
        StepInjective(h, h', s[0]);
      }
    }
  }
}
