/** Byte strings and the byte-wise order in which items and file names are kept. */
module Bytes {
  type byte = x: int | 0 <= x < 256

  type Bytes = seq<byte>

  /** The library isspace, in the C locale. */
  predicate IsSpace(b: byte) { 9 <= b <= 13 || b == 32 }

  /** The strict dictionary order on byte strings: the reference for every sorted list of ids. */
  ghost predicate Precedes(a: Bytes, b: Bytes) {
    PrecedesFrom(a, b, 0)
  }

  ghost predicate PrecedesFrom(a: Bytes, b: Bytes, k: nat)
    decreases |a| - k
  {
    if k >= |a| then k < |b|
    else k < |b| && (a[k] < b[k] || (a[k] == b[k] && PrecedesFrom(a, b, k + 1)))
  }

  /** The library memcmp on the first n bytes: the sign of the first difference. */
  function MemCmp(a: Bytes, b: Bytes, n: nat, k: nat): int
    requires k <= n <= |a| && n <= |b|
    decreases n - k
  {
    if k == n then 0 else if a[k] != b[k] then a[k] - b[k] else MemCmp(a, b, n, k + 1)
  }

  /** Comparison of two ids: common length first, the shorter string first on a tie. */
  function CompareIds(left: Bytes, right: Bytes): int {
    var order := MemCmp(left, right, if |left| < |right| then |left| else |right|, 0);
    if order != 0 then order
    else if |left| < |right| then -1 else if |left| > |right| then 1 else 0
  }

  lemma {:induction false} MemCmpIsOrder(a: Bytes, b: Bytes, n: nat, k: nat)
    requires k <= n && n == if |a| < |b| then |a| else |b|
    ensures MemCmp(a, b, n, k) < 0 ==> PrecedesFrom(a, b, k) && !PrecedesFrom(b, a, k)
    ensures MemCmp(a, b, n, k) > 0 ==> PrecedesFrom(b, a, k) && !PrecedesFrom(a, b, k)
    ensures MemCmp(a, b, n, k) == 0 ==> a[k..n] == b[k..n]
    ensures MemCmp(a, b, n, k) == 0 ==> (PrecedesFrom(a, b, k) <==> |a| < |b|) && (PrecedesFrom(b, a, k) <==> |b| < |a|)
    ensures MemCmp(a, b, n, k) != 0 ==> a[k..n] != b[k..n]
    decreases n - k
  {
    if k < n {
      MemCmpIsOrder(a, b, n, k + 1);
      assert a[k..n] == [a[k]] + a[k + 1..n] && b[k..n] == [b[k]] + b[k + 1..n];
    }
  }

  /** The two-stage comparison decides exactly dictionary order and equality. */
  lemma {:induction false} CompareIdsIsOrder(a: Bytes, b: Bytes)
    ensures CompareIds(a, b) < 0 <==> Precedes(a, b)
    ensures CompareIds(a, b) == 0 <==> a == b
    ensures CompareIds(a, b) > 0 <==> Precedes(b, a)
  {
    var n := if |a| < |b| then |a| else |b|;
    MemCmpIsOrder(a, b, n, 0);
    if |a| == |b| {
      assert a == a[0..n] && b == b[0..n];
    }
  }

  lemma {:induction false} PrecedesFromTransitive(a: Bytes, b: Bytes, c: Bytes, k: nat)
    requires PrecedesFrom(a, b, k) && PrecedesFrom(b, c, k)
    ensures PrecedesFrom(a, c, k)
    decreases |a| - k
  {
    if k < |a| && a[k] == b[k] == c[k] {
      PrecedesFromTransitive(a, b, c, k + 1);
    }
  }

  lemma {:induction false} PrecedesTransitive(a: Bytes, b: Bytes, c: Bytes)
    requires Precedes(a, b) && Precedes(b, c)
    ensures Precedes(a, c)
  {
    PrecedesFromTransitive(a, b, c, 0);
  }

  lemma {:induction false} PrecedesTotal(a: Bytes, b: Bytes)
    ensures a == b || Precedes(a, b) || Precedes(b, a)
    ensures !(Precedes(a, b) && Precedes(b, a))
    ensures !Precedes(a, a)
  {
    CompareIdsIsOrder(a, b);
    CompareIdsIsOrder(a, a);
  }
}
