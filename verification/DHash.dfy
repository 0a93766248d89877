/** The combined horizontal and vertical difference hash and its Hamming distance. */
module DHash {
  import opened Photos

  datatype Hash = Hash(h: Word, v: Word)

  /** Bitwise exclusive or. */
  function Xor(a: seq<bool>, b: seq<bool>): (r: seq<bool>)
    requires |a| == |b|
  {
    seq(|a|, i requires 0 <= i < |a| => a[i] != b[i])
  }

  /** Number of one bits. */
  function OnesCount(x: seq<bool>): (c: nat)
    ensures c <= |x|
  {
    if x == [] then 0 else (if x[0] then 1 else 0) + OnesCount(x[1..])
  }

  function Distance(a: Hash, b: Hash): nat {
    OnesCount(Xor(a.h, b.h)) + OnesCount(Xor(a.v, b.v))
  }

  // ---------- The distance is a metric ----------

  lemma XorTail(a: seq<bool>, b: seq<bool>)
    requires |a| == |b| > 0
    ensures Xor(a, b)[1..] == Xor(a[1..], b[1..])
  {
  }

  lemma {:induction false} OnesCountZero(a: seq<bool>, b: seq<bool>)
    requires |a| == |b|
    ensures OnesCount(Xor(a, b)) == 0 <==> a == b
  {
    if a != [] {
      OnesCountZero(a[1..], b[1..]);
      XorTail(a, b);
      assert a == [a[0]] + a[1..] && b == [b[0]] + b[1..];
    }
  }

  lemma {:induction false} OnesCountTriangle(a: seq<bool>, b: seq<bool>, c: seq<bool>)
    requires |a| == |b| == |c|
    ensures OnesCount(Xor(a, c)) <= OnesCount(Xor(a, b)) + OnesCount(Xor(b, c))
  {
    if a != [] {
      OnesCountTriangle(a[1..], b[1..], c[1..]);
      XorTail(a, c);
      XorTail(a, b);
      XorTail(b, c);
    }
  }

  lemma XorCommutes(a: seq<bool>, b: seq<bool>)
    requires |a| == |b|
    ensures Xor(a, b) == Xor(b, a)
  {
  }

  /** `Distance` is a metric with values in 0..128. */
  lemma DistanceIsMetric(a: Hash, b: Hash, c: Hash)
    ensures 0 <= Distance(a, b) <= 128
    ensures Distance(a, b) == 0 <==> a == b
    ensures Distance(a, b) == Distance(b, a)
    ensures Distance(a, c) <= Distance(a, b) + Distance(b, c)
  {
    OnesCountZero(a.h, b.h);
    OnesCountZero(a.v, b.v);
    XorCommutes(a.h, b.h);
    XorCommutes(a.v, b.v);
    OnesCountTriangle(a.h, b.h, c.h);
    OnesCountTriangle(a.v, b.v, c.v);
  }

  // ---------- Packing the bits ----------

  /** A 9x9 grey image, row by row. */
  type Grid = g: seq<seq<nat>> | |g| == 9 && forall y :: 0 <= y < 9 ==> |g[y]| == 9
    witness seq(9, _ => seq(9, _ => 0))

  /** Bit k = 8y + x of the horizontal plane: pixel (x, y) is brighter than its right neighbour. */
  predicate FallsRight(g: Grid, k: nat)
    requires k < 64
  {
    g[k / 8][k % 8] > g[k / 8][k % 8 + 1]
  }

  /** Bit k = 8x + y of the vertical plane: pixel (x, y) is brighter than the one below it. */
  predicate FallsDown(g: Grid, k: nat)
    requires k < 64
  {
    g[k % 8][k / 8] > g[k % 8 + 1][k / 8]
  }

  /** Which bit is about which two pixels: the first plane compares pixels of a row and is packed row by
      row, the second compares pixels of a column and is packed column by column. */
  lemma BitsCompareNeighbours(g: Grid, x: nat, y: nat)
    requires x < 8 && y < 8
    ensures FallsRight(g, 8 * y + x) <==> g[y][x] > g[y][x + 1]
    ensures FallsDown(g, 8 * x + y) <==> g[y][x] > g[y + 1][x]
  {
    assert (8 * y + x) / 8 == y && (8 * y + x) % 8 == x;
    assert (8 * x + y) / 8 == x && (8 * x + y) % 8 == y;
  }

  /** Packs the two planes with a walking bit: rows for the first, columns for the second. */
  method Compute(g: Grid) returns (r: Hash)
    ensures forall k :: 0 <= k < 64 ==> (r.h[k] <==> FallsRight(g, k))
    ensures forall k :: 0 <= k < 64 ==> (r.v[k] <==> FallsDown(g, k))
  {
    var hh, hv: seq<bool> := ZeroWord(), ZeroWord();
    var bit := 0;
    for y := 0 to 8
      invariant |hh| == 64 && bit == 8 * y
      invariant forall k :: 0 <= k < 64 ==> (hh[k] <==> k < bit && FallsRight(g, k))
    {
      for x := 0 to 8
        invariant |hh| == 64 && bit == 8 * y + x
        invariant forall k :: 0 <= k < 64 ==> (hh[k] <==> k < bit && FallsRight(g, k))
      {
        assert bit / 8 == y && bit % 8 == x;
        if g[y][x] > g[y][x + 1] {
          hh := hh[bit := true];
        }
        bit := bit + 1;
      }
    }
    bit := 0;
    for x := 0 to 8
      invariant |hv| == 64 && bit == 8 * x
      invariant forall k :: 0 <= k < 64 ==> (hv[k] <==> k < bit && FallsDown(g, k))
    {
      for y := 0 to 8
        invariant |hv| == 64 && bit == 8 * x + y
        invariant forall k :: 0 <= k < 64 ==> (hv[k] <==> k < bit && FallsDown(g, k))
      {
        assert bit / 8 == x && bit % 8 == y;
        if g[y][x] > g[y + 1][x] {
          hv := hv[bit := true];
        }
        bit := bit + 1;
      }
    }
    r := Hash(hh, hv);
  }
}
