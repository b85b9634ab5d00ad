/** The path reduction an interior node of an entanglement path performs
    in `ResourceReservationProtocol.create_rules`
    (src/network_management/reservation.py) to find the two nodes it
    swaps entanglement between: while the node's index in the path is
    even, every odd-indexed node except the last is dropped.

    Besides following the loop, the model gives a closed form of the
    result: for a node at first index k, with 2^t the largest power of two
    dividing k, the partners are the nodes at k - 2^t and at
    min(k + 2^t, |path| - 1) of the original path. */
module PathReduction {
  import opened Common

  /** Whether index `i` of a path of length `n` survives one halving round:
      the even indices and the last one. */
  predicate Kept(n: nat, i: nat)
  {
    i % 2 == 0 || i == n - 1
  }

  /** The surviving nodes among the first `k` of `p`, in order. */
  function HalvedPrefix<T>(p: seq<T>, k: nat): (r: seq<T>)
    requires k <= |p|
  {
    if k == 0 then [] else HalvedPrefix(p, k - 1) + (if Kept(|p|, k - 1) then [p[k - 1]] else [])
  }

  /** One round of the reduction: the list `new_path` the inner loop builds. */
  function Halved<T>(p: seq<T>): (r: seq<T>)
  {
    HalvedPrefix(p, |p|)
  }

  /** Below the last index, exactly the even indices survive, in order. */
  lemma {:induction false} HalvedPrefixEvens<T>(p: seq<T>, k: nat)
    requires k < |p|
    ensures |HalvedPrefix(p, k)| == (k + 1) / 2
    ensures forall i :: 0 <= i < (k + 1) / 2 ==> HalvedPrefix(p, k)[i] == p[2 * i]
  {
    if k > 0 {
      HalvedPrefixEvens(p, k - 1);
    }
  }

  /** Each round keeps the first node, the last node and every
      even-indexed node (the one at 2i moving to i), and nothing else. */
  lemma HalvedShape<T>(p: seq<T>)
    requires |p| >= 1
    ensures |Halved(p)| == |p| / 2 + 1
    ensures Halved(p)[0] == p[0] && Halved(p)[|Halved(p)| - 1] == p[|p| - 1]
    ensures forall i :: 0 <= i < |p| / 2 ==> Halved(p)[i] == p[2 * i]
  {
    HalvedPrefixEvens(p, |p| - 1);
  }

  /** Power-of-two and division facts used below. */
  lemma DivMulLe(j: nat, a: nat, s: nat)
    requires s >= 1 && j <= a / s
    ensures j * s <= a
  {
    assert (a / s) * s <= a;
    MulMono(j, a / s, s);
  }

  lemma MulMono(x: nat, y: nat, s: nat)
    requires x <= y
    ensures x * s <= y * s
  {
  }

  lemma DivUnique(a: int, d: int, q: int, r: int)
    requires d > 0 && a == d * q + r && 0 <= r < d
    ensures a / d == q && a % d == r
  {
    var q0, r0 := a / d, a % d;
    assert a == d * q0 + r0 && 0 <= r0 < d;
    assert d * (q - q0) == r0 - r;
    if q > q0 {
      MulMono(1, q - q0, d);
    } else if q < q0 {
      MulMono(1, q0 - q, d);
    }
  }

  lemma DivDiv(a: nat, s: nat)
    requires s >= 1
    ensures (a / s) / 2 == a / (2 * s)
  {
    var q, r := a / s, a % s;
    var q2, r2 := q / 2, q % 2;
    assert a == s * (2 * q2 + r2) + r;
    assert a == (2 * s) * q2 + (s * r2 + r);
    assert 0 <= s * r2 + r < 2 * s by {
      if r2 == 0 { } else { assert s * r2 == s; }
    }
    DivUnique(a, 2 * s, q2, s * r2 + r);
  }

  /** The path after the rounds that halved it `s` times over: the nodes at
      multiples of `s` below the last index, then the last node. */
  function Sampled<T>(p: seq<T>, s: nat): (q: seq<T>)
    requires |p| >= 2 && s >= 1
    ensures |q| == (|p| - 2) / s + 2
    ensures q[|q| - 1] == p[|p| - 1]
  {
    var len := (|p| - 2) / s + 2;
    seq(len, j requires 0 <= j < len =>
          if j < len - 1 then DivMulLe(j, |p| - 2, s); p[j * s] else p[|p| - 1])
  }

  /** Below its last index, the sampled path holds the nodes at multiples
      of the stride. */
  lemma SampledAt<T>(p: seq<T>, s: nat, j: nat)
    requires |p| >= 2 && s >= 1 && j < |Sampled(p, s)| - 1
    ensures j * s <= |p| - 2 && Sampled(p, s)[j] == p[j * s]
  {
    DivMulLe(j, |p| - 2, s);
  }

  /** No halving yet: the path itself. */
  lemma SampledOne<T>(p: seq<T>)
    requires |p| >= 2
    ensures Sampled(p, 1) == p
  {
  }

  /** One halving round doubles the stride. */
  lemma {:induction false} HalvedSampled<T>(p: seq<T>, s: nat)
    requires |p| >= 2 && s >= 1
    ensures Halved(Sampled(p, s)) == Sampled(p, 2 * s)
  {
    var q := Sampled(p, s);
    var h := Halved(q);
    var t := Sampled(p, 2 * s);
    HalvedShape(q);
    DivDiv(|p| - 2, s);
    assert |h| == |t|;
    forall i | 0 <= i < |h|
      ensures h[i] == t[i]
    {
      if i < |h| - 1 {
        assert h[i] == q[2 * i];
        assert (2 * i) * s == i * (2 * s);
      }
    }
  }

  /** The node's first index in a sampled path, while its index `k` in the
      original path is the multiple `j * s` of the stride. */
  lemma {:induction false} SampledIndex<T>(p: seq<T>, s: nat, x: T, k: nat, j: nat)
    requires |p| >= 2 && s >= 1 && k < |p| - 1 && k == j * s
    requires IndexOf(p, x) == Some(k)
    ensures j < |Sampled(p, s)| - 1
    ensures IndexOf(Sampled(p, s), x) == Some(j)
  {
    var q := Sampled(p, s);
    ExactDiv(k, s, j);
    DivMono(k, |p| - 2, s);
    assert q[j] == p[k];
    forall i | 0 <= i < j
      ensures q[i] != x
    {
      MulLt(i, j, s);
      assert p[..k][i * s] == p[i * s];
    }
    FirstIndexAt(q, x, j);
  }

  lemma ExactDiv(k: nat, s: nat, j: nat)
    requires s >= 1 && k == j * s
    ensures k / s == j
  {
    DivUnique(k, s, j, 0);
  }

  /** Halving an even index while doubling the stride keeps their product
      and the power of two dividing it. */
  lemma HalfStride(k: nat, s: nat, j: nat)
    requires s >= 1 && j > 0 && j % 2 == 0 && k == j * s && LowBit(k) == s * LowBit(j)
    ensures k == (j / 2) * (2 * s) && j / 2 > 0
    ensures LowBit(k) == (2 * s) * LowBit(j / 2)
  {
    var h, b := j / 2, LowBit(j / 2);
    assert j == 2 * h;
    assert LowBit(j) == 2 * b;
    MulSwapTwo(h, s);
    MulSwapTwo(b, s);
  }

  lemma MulSwapTwo(h: nat, s: nat)
    ensures (2 * h) * s == h * (2 * s) && s * (2 * h) == (2 * s) * h
  {
  }

  lemma MulLt(i: nat, j: nat, s: nat)
    requires i < j && s >= 1
    ensures i * s < j * s
  {
    MulMono(i + 1, j, s);
    assert (i + 1) * s == i * s + s;
  }

  lemma DivMono(a: nat, b: nat, s: nat)
    requires s >= 1 && a <= b
    ensures a / s <= b / s
  {
    if a / s > b / s {
      MulMono(b / s + 1, a / s, s);
    }
  }

  /** At the end of the loop the neighbours of index `j` in the reduced
      path sit one stride away from `j * s` in the original path, the right
      one cut off at the last node. */
  lemma StrideEnd<T>(path: seq<T>, k: nat, j: nat, s: nat)
    requires |path| >= 2 && s >= 1 && 0 < j && k == j * s && s <= k < |path| - 1
    requires j + 1 < |Sampled(path, s)|
    ensures Sampled(path, s)[j - 1] == path[k - s]
    ensures Sampled(path, s)[j + 1] == path[Min(k + s, |path| - 1)]
  {
    var q := Sampled(path, s);
    MulNeighbours(j, s);
    SampledAt(path, s, j - 1);
    if j + 1 < |q| - 1 {
      SampledAt(path, s, j + 1);
    } else {
      StrideRightEnd(j, s, |path| - 2);
    }
  }

  lemma MulNeighbours(j: nat, s: nat)
    requires j > 0
    ensures (j - 1) * s == j * s - s && (j + 1) * s == j * s + s
  {
  }

  lemma StrideRightEnd(j: nat, s: nat, a: nat)
    requires s >= 1 && j >= a / s
    ensures j * s + s > a
  {
    MulMono(a / s, j, s);
  }

  lemma FirstIndexAt<T>(q: seq<T>, x: T, i: nat)
    requires i < |q| && q[i] == x && forall j :: 0 <= j < i ==> q[j] != x
    ensures IndexOf(q, x) == Some(i)
  {
    var r := IndexOf(q, x);
    assert r.value <= i;
  }

  /** The largest power of two dividing `k`. */
  function LowBit(k: nat): (b: nat)
    requires k > 0
    ensures 1 <= b <= k
    decreases k
  {
    if k % 2 == 1 then 1 else 2 * LowBit(k / 2)
  }

  /** `LowBit(k)` divides `k`, and the quotient is odd. */
  lemma {:induction false} LowBitDivides(k: nat)
    requires k > 0
    ensures k % LowBit(k) == 0 && (k / LowBit(k)) % 2 == 1
  {
    if k % 2 == 0 {
      LowBitDivides(k / 2);
      var b := LowBit(k / 2);
      var m := (k / 2) / b;
      assert k / 2 == b * m;
      assert k == (2 * b) * m;
      DivUnique(k, 2 * b, m, 0);
    }
  }

  /** The inner `for i, n in enumerate(_path)` loop: one halving round. */
  method HalvePath<T>(p: seq<T>) returns (newPath: seq<T>)
    ensures newPath == Halved(p)
  {
    newPath := [];
    var i := 0;
    while i < |p|
      invariant 0 <= i <= |p|
      invariant newPath == HalvedPrefix(p, i)
    {
      if i % 2 == 0 || i == |p| - 1 {
        newPath := newPath + [p[i]];
      }
      i := i + 1;
    }
  }

  /** The `else` branch of the swapping-rule block of `create_rules`: the
      node `own`, at neither end of `path`, finds its swap partners
      `left` and `right`. The loop ends with the node at an odd index
      strictly inside the reduced path, so both partners exist; they are
      the nodes one stride of LowBit(k) away in the original path, the
      right one cut off at the path's last node. */
  method SwapPartners(path: seq<string>, own: string) returns (left: string, right: string)
    requires IndexOf(path, own).Some?
    requires 0 < IndexOf(path, own).value < |path| - 1
    ensures PartnersAt(path, own, left, right)
  {
    ghost var s, j;
    var p;
    p, s, j := ReducePath(path, own);
    ghost var k := IndexOf(path, own).value;
    ReductionExit(path, own, k, s, j);
    var index := IndexOf(p, own).value;
    left, right := p[index - 1], p[index + 1];
  }

  /** The `while` loop of that block: halve until the node's index is odd.
      The ghost results are the stride reached and the node's index. */
  method ReducePath(path: seq<string>, own: string) returns (p: seq<string>, ghost s: nat, ghost j: nat)
    requires IndexOf(path, own).Some?
    requires 0 < IndexOf(path, own).value < |path| - 1
    ensures ReductionState(path, own, IndexOf(path, own).value, s, j) && j % 2 == 1
    ensures p == Sampled(path, s)
  {
    ghost var k := IndexOf(path, own).value;
    p := path;
    s, j := 1, k;
    SampledOne(path);
    while IndexOf(p, own).value % 2 == 0
      invariant ReductionState(path, own, k, s, j)
      invariant p == Sampled(path, s)
      decreases j
    {
      ReductionStep(path, own, k, s, j);
      p := HalvePath(p);
      s, j := 2 * s, j / 2;
    }
  }

  /** The loop invariant of `SwapPartners`: after the rounds so far the
      path is sampled with stride `s`, and the node sits at index `j`, with
      `j * s` its index `k` in the original path. */
  ghost predicate ReductionState(path: seq<string>, own: string, k: nat, s: nat, j: nat)
  {
    && |path| >= 2 && s >= 1 && j > 0 && k == j * s && k < |path| - 1
    && IndexOf(path, own) == Some(k)
    && IndexOf(Sampled(path, s), own) == Some(j)
    && LowBit(k) == s * LowBit(j)
  }

  lemma ReductionStep(path: seq<string>, own: string, k: nat, s: nat, j: nat)
    requires ReductionState(path, own, k, s, j) && j % 2 == 0
    ensures Halved(Sampled(path, s)) == Sampled(path, 2 * s)
    ensures ReductionState(path, own, k, 2 * s, j / 2) && j / 2 < j
  {
    HalvedSampled(path, s);
    HalfStride(k, s, j);
    SampledIndex(path, 2 * s, own, k, j / 2);
  }

  lemma ReductionExit(path: seq<string>, own: string, k: nat, s: nat, j: nat)
    requires ReductionState(path, own, k, s, j) && j % 2 == 1
    ensures LowBit(k) == s && k / s == j && 0 < j < |Sampled(path, s)| - 1
    ensures PartnersAt(path, own, Sampled(path, s)[j - 1], Sampled(path, s)[j + 1])
  {
    SampledIndex(path, s, own, k, j);
    ExactDiv(k, s, j);
    assert LowBit(j) == 1;
    StrideEnd(path, k, j, s);
  }

  /** What `SwapPartners` promises about its result. */
  ghost predicate PartnersAt(path: seq<string>, own: string, left: string, right: string)
    requires IndexOf(path, own).Some? && 0 < IndexOf(path, own).value < |path| - 1
  {
    var k := IndexOf(path, own).value;
    var q := Sampled(path, LowBit(k));
    && IndexOf(q, own) == Some(k / LowBit(k))
    && (k / LowBit(k)) % 2 == 1
    && 0 < k / LowBit(k) < |q| - 1
    && left == q[k / LowBit(k) - 1] && right == q[k / LowBit(k) + 1]
    && left == path[k - LowBit(k)] && right == path[Min(k + LowBit(k), |path| - 1)]
  }
}
