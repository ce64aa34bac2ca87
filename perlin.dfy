/** Lattice noise tables of src/perlin.rs: the lookup and the table construction. */
module PerlinNoise {
  import opened Numerics
  import opened Vectors

  datatype Perlin = Perlin(ranfloat: seq<real>, permX: seq<nat>, permY: seq<nat>, permZ: seq<nat>)

  /** 0, 1, ..., n - 1: the vector `(0..n).collect()`. */
  function Iota(n: nat): (s: seq<nat>)
    ensures |s| == n && forall k :: 0 <= k < n ==> s[k] == k
  {
    seq(n, k => k)
  }

  /** `p` is a permutation of 0..255. */
  predicate IsPermutation256(p: seq<nat>) {
    |p| == 256 && multiset(p) == multiset(Iota(256))
  }

  /** The tables every Perlin value carries once constructed. */
  predicate Valid(pn: Perlin) {
    |pn.ranfloat| == 256 &&
    IsPermutation256(pn.permX) && IsPermutation256(pn.permY) && IsPermutation256(pn.permZ)
  }

  /** A permutation of 0..255 holds only entries below 256, so it can index the tables. */
  lemma PermutationEntriesBelow256(p: seq<nat>)
    requires IsPermutation256(p)
    ensures forall k :: 0 <= k < |p| ==> p[k] < 256
  {
    forall k | 0 <= k < |p|
      ensures p[k] < 256
    {
      assert p[k] in multiset(p);
      assert p[k] in multiset(Iota(256));
      assert p[k] in Iota(256);
    }
  }

  /** `(4.0 * c) as usize & 255`; masking a non-negative integer with 255 keeps
      its low eight bits, which is its remainder modulo 256. */
  function LatticeIndex(c: real): (i: nat)
    ensures i < 256
    ensures AsUsize(4.0 * c) < 256 ==> i == AsUsize(4.0 * c)
  {
    AsUsize(4.0 * c) % 256
  }

  /** Bitwise xor of three table entries. */
  function Xor3(a: nat, b: nat, c: nat): (r: nat)
    requires a < 256 && b < 256 && c < 256
    ensures r < 256
  {
    ((a as bv64) ^ (b as bv64) ^ (c as bv64)) as nat
  }

  /** `Perlin::noise`: the table entry at the xor of the three permuted lattice indices. */
  function Noise(pn: Perlin, p: Vec3): (r: real)
    requires Valid(pn)
    ensures r in pn.ranfloat
  {
    PermutationEntriesBelow256(pn.permX);
    PermutationEntriesBelow256(pn.permY);
    PermutationEntriesBelow256(pn.permZ);
    var i := LatticeIndex(p.x);
    var j := LatticeIndex(p.y);
    var k := LatticeIndex(p.z);
    pn.ranfloat[Xor3(pn.permX[i], pn.permY[j], pn.permZ[k])]
  }

  /** `perlin_generate`: 256 uniform draws, in order; `draw(n)` is the n-th. */
  function PerlinGenerate(draw: nat -> real): (s: seq<real>)
    ensures |s| == 256
    ensures forall n :: 0 <= n < 256 ==> s[n] == draw(n)
  {
    seq(256, (n: int) requires 0 <= n => draw(n))
  }

  /** `perlin_generate_perm`: 0..255 shuffled in place. The shuffle is the
      rand crate's, from the last position down: position i is swapped with a
      drawn position j <= i; `choose(i)` is the draw, reduced to 0..i. */
  method PerlinGeneratePerm(choose: nat -> nat) returns (p: seq<nat>)
    ensures IsPermutation256(p)
  {
    var a := new nat[256](k => k);
    assert a[..] == Iota(256);
    var i := 255;
    while i > 0
      invariant 0 <= i <= 255
      invariant multiset(a[..]) == multiset(Iota(256))
    {
      var j := choose(i) % (i + 1);
      a[i], a[j] := a[j], a[i];
      i := i - 1;
    }
    p := a[..];
  }

  /** `Perlin::new`: one value table and three independently shuffled permutations. */
  method NewPerlin(draw: nat -> real, chooseX: nat -> nat, chooseY: nat -> nat, chooseZ: nat -> nat)
    returns (pn: Perlin)
    ensures Valid(pn)
    ensures pn.ranfloat == PerlinGenerate(draw)
  {
    var permX := PerlinGeneratePerm(chooseX);
    var permY := PerlinGeneratePerm(chooseY);
    var permZ := PerlinGeneratePerm(chooseZ);
    pn := Perlin(PerlinGenerate(draw), permX, permY, permZ);
  }
}
