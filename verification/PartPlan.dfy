/** Part sizes and part plans shared by resumable copies and encrypted multipart uploads. */
module PartPlan {
  import opened Bytes

  const PART_NUMBER_UPPER_LIMIT := 10000
  const PART_SIZE_LOWER_LIMIT := 102400

  datatype Part = Part(number: nat, size: nat)

  /** The number of parts of an object cut into pieces of `ps` bytes. */
  function PartCount(size: nat, ps: nat): nat
    requires ps > 0
  {
    if size == 0 then 0 else (size - 1) / ps + 1
  }

  /** How many bytes the first `count` parts cover. */
  function PartsLength(size: nat, ps: nat, count: nat): nat
    requires ps > 0
  {
    Min(ps * count, size)
  }

  lemma PartCountBounds(size: nat, ps: nat)
    requires ps > 0 && size > 0
    ensures ps * (PartCount(size, ps) - 1) < size <= ps * PartCount(size, ps)
  {
    var q := (size - 1) / ps;
    assert size - 1 == ps * q + (size - 1) % ps;
    assert ps * (q + 1) == ps * q + ps;
  }

  /** The part count is the only number of pieces that covers the object without an empty one. */
  lemma PartCountUnique(size: nat, ps: nat, c: nat)
    requires ps > 0 && size > 0 && c > 0 && ps * (c - 1) < size <= ps * c
    ensures PartCount(size, ps) == c
  {
    PartCountBounds(size, ps);
    var d := PartCount(size, ps);
    if d < c {
      MulMonotone(ps, d, c - 1);
    } else if c < d {
      MulMonotone(ps, c, d - 1);
    }
  }

  /** Part n lies inside the object and is not empty; only the last part may be short. */
  lemma PartRange(size: nat, ps: nat, n: nat)
    requires ps > 0 && 1 <= n <= PartCount(size, ps)
    ensures 0 <= ps * (n - 1) < size
    ensures PartsLength(size, ps, n - 1) == ps * (n - 1) < PartsLength(size, ps, n) <= size
    ensures n < PartCount(size, ps) ==> PartsLength(size, ps, n) == ps * n == ps * (n - 1) + ps
    ensures n == PartCount(size, ps) ==> PartsLength(size, ps, n) == size <= ps * (n - 1) + ps
  {
    var c := PartCount(size, ps);
    PartCountBounds(size, ps);
    MulMonotone(ps, n - 1, c - 1);
    assert ps * n == ps * (n - 1) + ps;
    if n < c {
      MulMonotone(ps, n, c - 1);
    }
  }

  lemma MulMonotone(m: nat, a: nat, b: nat)
    requires a <= b
    ensures m * a <= m * b
  {
  }

  function PartBytes(whole: seq<byte>, ps: nat, n: nat): (r: seq<byte>)
    requires ps > 0 && 1 <= n <= PartCount(|whole|, ps)
  {
    PartRange(|whole|, ps, n);
    whole[PartsLength(|whole|, ps, n - 1)..PartsLength(|whole|, ps, n)]
  }

  // ---------------------------------------------------------------- choosing the part size

  /** Doubling the part size until the part count meets the limit. */
  function Determined(size: nat, ps: nat): (r: nat)
    requires ps > 0
    ensures r >= ps && PartCount(size, r) <= PART_NUMBER_UPPER_LIMIT
    decreases PartCount(size, ps)
  {
    if PartCount(size, ps) <= PART_NUMBER_UPPER_LIMIT then ps
    else
      DoublingShrinks(size, ps);
      Determined(size, 2 * ps)
  }

  lemma DoublingShrinks(size: nat, ps: nat)
    requires ps > 0 && PartCount(size, ps) >= 2
    ensures PartCount(size, 2 * ps) < PartCount(size, ps)
  {
    PartCountBounds(size, ps);
    PartCountBounds(size, 2 * ps);
    var c, d := PartCount(size, ps), PartCount(size, 2 * ps);
    if d >= c {
      MulMonotone(2 * ps, c - 1, d - 1);
      assert 2 * ps * (c - 1) == ps * (c - 1) + ps * (c - 1);
      MulMonotone(ps, 1, c - 1);
    }
  }

  /** The result is the given size times the least power of two that meets the limit. */
  lemma {:induction false} DeterminedIsLeast(size: nat, ps: nat) returns (k: nat)
    requires ps > 0
    ensures Determined(size, ps) == ps * Pow2(k) && PartCount(size, Determined(size, ps)) <= 10000
    ensures forall j | 0 <= j < k :: ps * Pow2(j) > 0 && PartCount(size, ps * Pow2(j)) > 10000
    decreases PartCount(size, ps)
  {
    if PartCount(size, ps) <= PART_NUMBER_UPPER_LIMIT {
      k := 0;
      assert ps * Pow2(0) == ps;
    } else {
      DoublingShrinks(size, ps);
      var k' := DeterminedIsLeast(size, 2 * ps);
      k := k' + 1;
      PowStep(ps, k');
      forall j | 0 <= j < k
        ensures ps * Pow2(j) > 0 && PartCount(size, ps * Pow2(j)) > PART_NUMBER_UPPER_LIMIT
      {
        if j > 0 {
          PowStep(ps, j - 1);
        }
      }
    }
  }

  lemma PowStep(ps: nat, k: nat)
    ensures ps * Pow2(k + 1) == 2 * ps * Pow2(k)
  {
  }

  /** While the limit is exceeded the part size is far below the object size, so doubling cannot wrap. */
  lemma DoublingFits(size: nat, ps: nat)
    requires ps > 0 && PartCount(size, ps) > PART_NUMBER_UPPER_LIMIT
    ensures PART_NUMBER_UPPER_LIMIT * ps < size
  {
    PartCountBounds(size, ps);
    MulMonotone(ps, PART_NUMBER_UPPER_LIMIT, PartCount(size, ps) - 1);
  }

  // ---------------------------------------------------------------- alignment of encrypted part sizes

  predicate CheckUserParameter(ps: int)
  {
    ps >= PART_SIZE_LOWER_LIMIT && ps % 16 == 0
  }

  /** Sixteen-byte alignment by two shifts. */
  function Align16(ps: nat): nat
  {
    ps / 16 * 16
  }

  lemma {:induction false} DeterminedKeepsParameter(size: nat, ps: nat)
    requires CheckUserParameter(ps)
    ensures CheckUserParameter(Determined(size, ps))
    decreases PartCount(size, ps)
  {
    if PartCount(size, ps) > PART_NUMBER_UPPER_LIMIT {
      hide PartCount;
      DoublingShrinks(size, ps);
      assert 2 * ps % 16 == 0;
      DeterminedKeepsParameter(size, 2 * ps);
    }
  }

  /** An encrypted upload always passes its own parameter check, whatever size the user asked for. */
  lemma AlignedPartSizePasses(size: nat, ps: nat)
    requires ps >= PART_SIZE_LOWER_LIMIT
    ensures Align16(ps) % 16 == 0 && ps - 16 < Align16(ps) <= ps && Align16(ps) > 0
    ensures CheckUserParameter(Determined(size, Align16(ps)))
    ensures Determined(size, Align16(ps)) >= 102400 && Determined(size, Align16(ps)) % 16 == 0
  {
    assert PART_SIZE_LOWER_LIMIT == 16 * 6400;
    assert ps / 16 >= 6400;
    DeterminedKeepsParameter(size, Align16(ps));
  }

  // ---------------------------------------------------------------- the plan

  /** Part n as the copier builds it. */
  function PlannedPart(size: nat, ps: nat, n: nat): (p: Part)
    requires ps > 0 && 1 <= n <= PartCount(size, ps)
  {
    PartRange(size, ps, n);
    Part(n, if n == PartCount(size, ps) then size - ps * (n - 1) else ps)
  }

  /** Sizes are between 1 and the part size, and equal the length of the slice. */
  lemma PlannedPartSize(size: nat, ps: nat, n: nat)
    requires ps > 0 && 1 <= n <= PartCount(size, ps)
    ensures PlannedPart(size, ps, n).number == n && 1 <= PlannedPart(size, ps, n).size <= ps
    ensures PlannedPart(size, ps, n).size == PartsLength(size, ps, n) - PartsLength(size, ps, n - 1)
  {
    PartRange(size, ps, n);
  }

  function Planned(size: nat, ps: nat, count: nat): (plan: seq<Part>)
    requires ps > 0 && count <= PartCount(size, ps)
    ensures |plan| == count
    ensures forall i | 0 <= i < count :: plan[i] == PlannedPart(size, ps, i + 1)
  {
    if count == 0 then [] else Planned(size, ps, count - 1) + [PlannedPart(size, ps, count)]
  }

  function Plan(size: nat, ps: nat): (plan: seq<Part>)
    requires ps > 0
    ensures |plan| == PartCount(size, ps)
  {
    Planned(size, ps, PartCount(size, ps))
  }

  /** Two part sizes give the same plan exactly when they are equal or each covers the object in one part. */
  lemma PlansAgree(size: nat, a: nat, b: nat)
    requires size > 0 && a > 0 && b > 0
    ensures Plan(size, a) == Plan(size, b) <==> a == b || (a >= size && b >= size)
  {
    FirstPart(size, a);
    FirstPart(size, b);
    hide PartCount;
    assert Plan(size, a)[0].size == Min(a, size) && Plan(size, b)[0].size == Min(b, size);
    if Plan(size, a) == Plan(size, b) && a < size {
      assert b == a;
    }
  }

  lemma FirstPart(size: nat, ps: nat)
    requires size > 0 && ps > 0
    ensures PartCount(size, ps) >= 1 && PlannedPart(size, ps, 1) == Part(1, Min(ps, size))
    ensures ps >= size ==> PartCount(size, ps) == 1
  {
    if ps >= size {
      PartCountUnique(size, ps, 1);
    }
    PlannedPartSize(size, ps, 1);
  }

  function Total(parts: seq<Part>): nat
  {
    if parts == [] then 0 else Total(parts[..|parts| - 1]) + parts[|parts| - 1].size
  }

  lemma {:induction false} TotalAppend(a: seq<Part>, b: seq<Part>)
    ensures Total(a + b) == Total(a) + Total(b)
  {
    if b == [] {
      assert a + b == a;
    } else {
      TotalAppend(a, b[..|b| - 1]);
      assert (a + b)[..|a + b| - 1] == a + b[..|b| - 1];
    }
  }

  lemma TotalOfNone()
    ensures Total([]) == 0
  {
  }

  function Without(b: seq<Part>, j: nat): (r: seq<Part>)
    requires j < |b|
    ensures |r| == |b| - 1
  {
    b[..j] + b[j + 1..]
  }

  lemma TotalOfOne(p: Part)
    ensures Total([p]) == p.size
  {
    assert [p][..0] == [];
  }

  lemma WithoutOne(b: seq<Part>, j: nat)
    requires j < |b|
    ensures multiset(Without(b, j)) == multiset(b) - multiset{b[j]}
    ensures Total(b) == Total(Without(b, j)) + b[j].size
  {
    hide Total;
    assert b == (b[..j] + [b[j]]) + b[j + 1..];
    assert multiset(b) == multiset(b[..j]) + multiset{b[j]} + multiset(b[j + 1..]);
    TotalAppend(b[..j] + [b[j]], b[j + 1..]);
    TotalAppend(b[..j], [b[j]]);
    TotalAppend(b[..j], b[j + 1..]);
    TotalOfOne(b[j]);
  }

  lemma {:induction false} TotalPermutation(a: seq<Part>, b: seq<Part>)
    requires multiset(a) == multiset(b)
    ensures Total(a) == Total(b)
    decreases |a|
  {
    hide Without;
    if a == [] {
      assert |multiset(b)| == |b|;
    } else {
      hide Total;
      assert a[0] in multiset(b);
      var j :| 0 <= j < |b| && b[j] == a[0];
      WithoutOne(a, 0);
      WithoutOne(b, j);
      TotalPermutation(Without(a, 0), Without(b, j));
    }
  }

  lemma {:induction false} PlannedTotal(size: nat, ps: nat, count: nat)
    requires ps > 0 && count <= PartCount(size, ps)
    ensures Total(Planned(size, ps, count)) == PartsLength(size, ps, count)
  {
    if count > 0 {
      PlannedTotal(size, ps, count - 1);
      PlannedPartSize(size, ps, count);
      var plan := Planned(size, ps, count);
      assert plan[..|plan| - 1] == Planned(size, ps, count - 1);
    }
  }

  lemma PlanTotal(size: nat, ps: nat)
    requires ps > 0
    ensures Total(Plan(size, ps)) == size
  {
    PlannedTotal(size, ps, PartCount(size, ps));
    if size > 0 {
      PartRange(size, ps, PartCount(size, ps));
    }
  }

  /** Contents stored for each part number, put together in the order of `parts`. */
  function Assemble(stored: map<nat, seq<byte>>, parts: seq<Part>): seq<byte>
    requires forall p <- parts :: p.number in stored
  {
    if parts == [] then []
    else
      assert forall p <- parts[..|parts| - 1] :: p in parts;
      Assemble(stored, parts[..|parts| - 1]) + stored[parts[|parts| - 1].number]
  }

  /** Every stored part holds the slice of `whole` its number stands for. */
  ghost predicate StoredRight(whole: seq<byte>, ps: nat, stored: map<nat, seq<byte>>)
    requires ps > 0
  {
    forall n <- stored :: 1 <= n <= PartCount(|whole|, ps) && stored[n] == PartBytes(whole, ps, n)
  }

  /** The planned ranges tile the object: assembling them in order is the object, without gap or overlap. */
  lemma {:induction false} PlannedAssembles(whole: seq<byte>, ps: nat, stored: map<nat, seq<byte>>, count: nat)
    requires ps > 0 && count <= PartCount(|whole|, ps) && StoredRight(whole, ps, stored)
    requires forall p <- Planned(|whole|, ps, count) :: p.number in stored
    ensures Assemble(stored, Planned(|whole|, ps, count)) == whole[..PartsLength(|whole|, ps, count)]
  {
    if count > 0 {
      hide PartBytes, PartCount, PartsLength;
      var plan, front := Planned(|whole|, ps, count), Planned(|whole|, ps, count - 1);
      assert plan[..|plan| - 1] == front;
      assert forall p <- front :: p in plan;
      assert plan[|plan| - 1] in plan;
      PlannedAssembles(whole, ps, stored, count - 1);
      PartRange(|whole|, ps, count);
      PartBytesJoin(whole, ps, count);
      assert Assemble(stored, plan) == Assemble(stored, front) + PartBytes(whole, ps, count);
    }
  }

  lemma PartBytesJoin(whole: seq<byte>, ps: nat, n: nat)
    requires ps > 0 && 1 <= n <= PartCount(|whole|, ps)
    ensures whole[..PartsLength(|whole|, ps, n - 1)] + PartBytes(whole, ps, n) == whole[..PartsLength(|whole|, ps, n)]
  {
    PartRange(|whole|, ps, n);
  }

  lemma PlanAssembles(whole: seq<byte>, ps: nat, stored: map<nat, seq<byte>>)
    requires ps > 0 && StoredRight(whole, ps, stored)
    requires forall p <- Plan(|whole|, ps) :: p.number in stored
    ensures Assemble(stored, Plan(|whole|, ps)) == whole
  {
    PlannedAssembles(whole, ps, stored, PartCount(|whole|, ps));
    if |whole| > 0 {
      PartRange(|whole|, ps, PartCount(|whole|, ps));
    }
    assert whole[..|whole|] == whole;
  }

  /** The check a part-copy or part-upload request makes of its own part number. */
  predicate PartNumberAccepted(n: int)
  {
    0 < n < PART_NUMBER_UPPER_LIMIT
  }

  /** Every planned part passes that check exactly when the plan stays below the limit it may reach. */
  lemma PlanAccepted(size: nat, ps: nat)
    requires ps > 0
    ensures (forall p <- Plan(size, ps) :: PartNumberAccepted(p.number)) <==> PartCount(size, ps) < 10000
    ensures forall n :: PartNumberAccepted(n) <==> 1 <= n <= 9999
  {
    var c := PartCount(size, ps);
    if c >= PART_NUMBER_UPPER_LIMIT {
      var p := Plan(size, ps)[c - 1];
      assert p in Plan(size, ps) && p.number == c;
    }
  }

  /** determinePartSize can choose a plan whose last part the request refuses. */
  lemma PlanCanReachTheLimit()
    ensures PartCount(1_024_000_000, Determined(1_024_000_000, 102_400)) == PART_NUMBER_UPPER_LIMIT
  {
    PartCountUnique(1_024_000_000, 102_400, PART_NUMBER_UPPER_LIMIT);
  }
}
