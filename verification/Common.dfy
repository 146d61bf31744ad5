/** What several modules share: optional results, the width of a C word, quotients, sequences put together. */
module Common {
  datatype Option<+T> = None | Some(value: T)

  const UINT64: nat := 0x1_0000_0000_0000_0000

  function Min(a: nat, b: nat): nat {
    if a <= b then a else b
  }

  lemma MulStep(m: nat, a: nat, b: nat)
    requires a < b
    ensures m * a + m <= m * b
  {
    var d: nat := b - a - 1;
    assert b == a + 1 + d;
    assert m * b == m * a + m + m * d;
  }

  lemma DivModUnique(x: nat, m: nat, q: nat, r: nat)
    requires x == m * q + r && r < m
    ensures x / m == q && x % m == r
  {
    var q', r' := x / m, x % m;
    assert x == m * q' + r' && 0 <= r' < m;
    if q < q' {
      MulStep(m, q, q');
    }
    if q' < q {
      MulStep(m, q', q);
    }
  }

  /** The sequences one behind the other. */
  function Flatten<T>(parts: seq<seq<T>>): seq<T> {
    if parts == [] then [] else parts[0] + Flatten(parts[1..])
  }

  lemma {:induction false} FlattenLength<T>(parts: seq<seq<T>>, d: nat)
    requires forall k :: 0 <= k < |parts| ==> |parts[k]| == d
    ensures |Flatten(parts)| == d * |parts|
  {
    if parts != [] {
      FlattenLength(parts[1..], d);
      assert d * |parts| == d + d * (|parts| - 1);
    }
  }

  lemma {:induction false} FlattenAt<T>(parts: seq<seq<T>>, d: nat, i: nat)
    requires d > 0 && (forall k :: 0 <= k < |parts| ==> |parts[k]| == d) && i < d * |parts|
    ensures |Flatten(parts)| == d * |parts| && i / d < |parts|
    ensures Flatten(parts)[i] == parts[i / d][i % d]
    decreases |parts|
  {
    FlattenLength(parts, d);
    if i < d {
      FirstPart(i, d);
    } else {
      NextPart(i, d, |parts|);
      FlattenLength(parts[1..], d);
      FlattenAt(parts[1..], d, i - d);
    }
  }

  lemma FirstPart(i: nat, d: nat)
    requires i < d
    ensures i / d == 0 && i % d == i
  {
  }

  lemma NextPart(i: nat, d: nat, n: nat)
    requires 0 < d <= i < d * n
    ensures i / d == (i - d) / d + 1 && i % d == (i - d) % d && i - d < d * (n - 1)
  {
    assert i - d == d * (i / d - 1) + i % d;
    DivModUnique(i - d, d, i / d - 1, i % d);
  }
}
