/** What simplify_trace and classify_counts of AFL/afl-fuzz.c keep of a trace and what they forget. */
module MapMeaning {
  import opened Bits
  import opened CoverageMap
  import opened MapRoutines

  ghost predicate SameHitBytes(t: Map, u: Map) {
    |t| == |u| && forall i | 0 <= i < |t| :: t[i] != 0 <==> u[i] != 0
  }

  /** A simplified byte is 128 where the trace hit and 1 elsewhere. */
  lemma SimplifiedByte(t: Map, i: nat)
    requires i < |t|
    ensures var r := MapBytes(SimplifyByte, t)[i]; if t[i] != 0 then r == 128 else r == 1
  {
    assert MapBytes(SimplifyByte, t)[i] == SimplifyByte(t[i]);
  }

  /** Simplifying keeps which bytes are hit, and nothing else. */
  lemma SimplifiedExactly(t: Map, u: Map)
    ensures MapBytes(SimplifyByte, t) == MapBytes(SimplifyByte, u) <==> SameHitBytes(t, u)
  {
    var a, b := MapBytes(SimplifyByte, t), MapBytes(SimplifyByte, u);
    if a == b {
      assert |t| == |a| == |b| == |u|;
      forall i | 0 <= i < |t|
        ensures t[i] != 0 <==> u[i] != 0
      {
        SimplifiedByte(t, i);
        SimplifiedByte(u, i);
      }
    }
    if SameHitBytes(t, u) {
      forall i | 0 <= i < |t|
        ensures a[i] == b[i]
      {
        SimplifiedByte(t, i);
        SimplifiedByte(u, i);
      }
    }
  }

  // ------------------------------------------------------------------- hit counts

  /** The bucket of a count: how many of the bounds 1, 2, 3, 4, 8, 16, 32 and 128 it reaches. */
  function Bucket(n: nat): (k: nat)
    ensures k <= 8
  {
    (if n >= 1 then 1 else 0) + (if n >= 2 then 1 else 0) + (if n >= 3 then 1 else 0) + (if n >= 4 then 1 else 0) +
    (if n >= 8 then 1 else 0) + (if n >= 16 then 1 else 0) + (if n >= 32 then 1 else 0) + (if n >= 128 then 1 else 0)
  }

  /** The class of a count has one bit, that of its bucket; a byte not hit has none. */
  lemma ClassHasBucketBit(b: bv8, k: nat)
    requires k < 8
    ensures BitOf(ClassByte(b), k) <==> Bucket(b as nat) == k + 1
  {
  }

  lemma ClassOfBucket(b: bv8)
    ensures ClassByte(b) == if Bucket(b as nat) == 0 then 0 else Mask(Bucket(b as nat) - 1)
  {
  }

  lemma MasksGrow(j: nat, k: nat)
    requires j < 8 && k < 8
    ensures Mask(j) <= Mask(k) <==> j <= k
  {
  }

  /** Classes are ordered as their buckets are, and differ exactly between buckets. */
  lemma ClassesGrow(a: bv8, b: bv8)
    ensures ClassByte(a) <= ClassByte(b) <==> Bucket(a as nat) <= Bucket(b as nat)
    ensures ClassByte(a) == ClassByte(b) <==> Bucket(a as nat) == Bucket(b as nat)
  {
    ClassOfBucket(a);
    ClassOfBucket(b);
    var j, k := Bucket(a as nat), Bucket(b as nat);
    if j > 0 && k > 0 {
      MasksGrow(j - 1, k - 1);
      MasksGrow(k - 1, j - 1);
    }
  }

  lemma BucketsGrow(m: nat, n: nat)
    requires m <= n
    ensures Bucket(m) <= Bucket(n)
  {
  }

  /** So a larger count never has a smaller class. */
  lemma CountsDecide(a: bv8, b: bv8, m: nat, n: nat)
    requires m == a as nat && n == b as nat && m <= n
    ensures ClassByte(a) <= ClassByte(b)
  {
    BucketsGrow(m, n);
    ClassesGrow(a, b);
  }

  /** Two traces are classified alike exactly if each byte's counts are in one bucket. */
  lemma ClassifiedExactly(t: Map, u: Map)
    ensures MapBytes(ClassByte, t) == MapBytes(ClassByte, u) <==>
            |t| == |u| && forall i | 0 <= i < |t| :: Bucket(t[i] as nat) == Bucket(u[i] as nat)
  {
    var a, b := MapBytes(ClassByte, t), MapBytes(ClassByte, u);
    if |t| == |u| {
      forall i | 0 <= i < |t|
        ensures a[i] == b[i] <==> Bucket(t[i] as nat) == Bucket(u[i] as nat)
      {
        ClassesGrow(t[i], u[i]);
      }
    } else {
      assert |a| != |b|;
    }
  }
}
