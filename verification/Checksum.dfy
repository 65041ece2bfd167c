/** Where a follower resumes: a bisection over block checksums, which finds the end of what its log shares with
    the leader's. Checksums of two blocks are taken to agree exactly when the blocks are equal. */
module Checksum {
  import opened Bytes
  import opened Powers

  const CHECKSUM_SZ: int := 512 * 1024

  /** The length of the common prefix of two logs. */
  function Common(a: Str, b: Str): (n: nat)
    ensures n <= |a| && n <= |b| && a[..n] == b[..n]
    ensures n < |a| && n < |b| ==> a[n] != b[n]
    decreases |a|
  {
    if a == [] || b == [] || a[0] != b[0] then 0
    else
      var n := 1 + Common(a[1..], b[1..]);
      assert a == [a[0]] + a[1..] && b == [b[0]] + b[1..];
      n
  }

  /** matchChecksums: both logs hold the block, and it is the same block. */
  predicate Same(leader: Str, log: Str, pos: nat) {
    && pos + CHECKSUM_SZ <= |log| && pos + CHECKSUM_SZ <= |leader|
    && log[pos..pos + CHECKSUM_SZ] == leader[pos..pos + CHECKSUM_SZ]
  }

  /** Logs that, once they differ, have no block in common at one position. */
  ghost predicate StayApart(leader: Str, log: Str) {
    forall pos: nat :: Same(leader, log, pos) ==> pos + CHECKSUM_SZ <= Common(leader, log)
  }

  lemma InsidePrefixIsSame(leader: Str, log: Str, pos: nat)
    requires pos + CHECKSUM_SZ <= Common(leader, log)
    ensures Same(leader, log, pos)
  {
    hide Common;
    var n := Common(leader, log);
    assert log[pos..pos + CHECKSUM_SZ] == log[..n][pos..pos + CHECKSUM_SZ];
    assert leader[pos..pos + CHECKSUM_SZ] == leader[..n][pos..pos + CHECKSUM_SZ];
  }

  /** The next probe: the middle of what is undecided. */
  function Middle(min: nat, limit: nat): int
    requires min <= limit
  {
    (limit - min) / 2 - CHECKSUM_SZ / 2 + min
  }

  lemma MiddleHalves(min: nat, limit: nat)
    requires min <= limit && Middle(min, limit) >= min && Middle(min, limit) + CHECKSUM_SZ <= limit
    ensures limit - min >= CHECKSUM_SZ
    ensures var max := Middle(min, limit);
            && 2 * (limit - (max + CHECKSUM_SZ) + CHECKSUM_SZ - 1) <= limit - min + CHECKSUM_SZ - 1
            && 2 * (max - min + CHECKSUM_SZ - 1) <= limit - min + CHECKSUM_SZ - 1
  {}

  lemma MiddleDone(min: nat, limit: nat)
    requires min <= limit && (Middle(min, limit) < min || Middle(min, limit) + CHECKSUM_SZ > limit)
    ensures limit - min < CHECKSUM_SZ
  {}

  /** k halvings leave at most a 2^k-th part of the start. */
  ghost predicate Within(k: nat, e: int, start: int) {
    Pow2(k) * e <= start
  }

  /** The number of blocks compared is logarithmic in the length of the log. */
  ghost predicate Few(checks: nat, n: nat) {
    checks >= 3 ==> Pow2(checks - 3) * (2 * CHECKSUM_SZ - 1) < n
  }

  lemma WithinStart(start: int)
    ensures Within(0, start, start)
  {}

  lemma WithinLess(k: nat, e: int, f: int, start: int)
    requires f <= e && Within(k, e, start)
    ensures Within(k, f, start)
  {
    hide Pow2;
    Scaled(Pow2(k), f, e);
  }

  lemma FewAtFirst(n: nat)
    ensures Few(0, n) && Few(1, n) && Few(2, n)
  {}

  lemma StillFew(k: nat, e: int, start: int)
    requires e >= 2 * CHECKSUM_SZ - 1 && Within(k, e, start) && start >= 0
    ensures Few(k + 3, start + 1)
  {
    hide Pow2;
    Scaled(Pow2(k), 2 * CHECKSUM_SZ - 1, e);
  }

  lemma Halved(k: nat, e: int, f: int, bound: int)
    requires 2 * f <= e && Within(k, e, bound)
    ensures Within(k + 1, f, bound)
  {
    hide Pow2;
    Doubles(k);
    assert Pow2(k + 1) * f == Pow2(k) * (2 * f);
    Scaled(Pow2(k), 2 * f, e);
  }

  lemma Scaled(p: nat, a: int, b: int)
    requires a <= b
    ensures p * a <= p * b
  {}

  /** followCheckSome up to the position it settles on. The last block before it was the same; the first block
      that is known to differ, if there is one, begins less than a block after it. Where logs that differ stay
      apart, the end of the common prefix lies within two blocks of it. */
  method CheckSome(leader: Str, log: Str) returns (pos: nat, checks: nat)
    ensures pos == 0 || (pos >= CHECKSUM_SZ && Same(leader, log, pos - CHECKSUM_SZ))
    ensures pos == 0 ==> !Same(leader, log, 0)
    ensures pos != 0 ==> pos <= |log| && (|log| < pos + CHECKSUM_SZ ||
                           exists d: nat :: pos <= d < pos + CHECKSUM_SZ && !Same(leader, log, d))
    ensures StayApart(leader, log) ==> pos <= Common(leader, log) < pos + 2 * CHECKSUM_SZ
    ensures Few(checks, |log|)
  {
    hide Common, Same, Pow2, Within, Few;
    FewAtFirst(|log|);
    pos, checks := 0, 0;
    if |log| < CHECKSUM_SZ {
      ShortLog(leader, log);
      return;
    }
    var min, max, limit := 0, |log| - CHECKSUM_SZ, |log|;
    checks := checks + 1;
    if !Same(leader, log, min) {
      if Common(leader, log) >= CHECKSUM_SZ { InsidePrefixIsSame(leader, log, 0); }
      return;
    }
    min := min + CHECKSUM_SZ;
    ghost var k, start := 0, |log| - 1;
    WithinStart(start);
    while !(max < min || max + CHECKSUM_SZ > limit)
      invariant CHECKSUM_SZ <= min <= limit <= |log| && Same(leader, log, min - CHECKSUM_SZ)
      invariant limit == |log| || !Same(leader, log, limit)
      invariant max == Middle(min, limit) || (checks == 1 && max == |log| - CHECKSUM_SZ && limit == |log|)
      invariant (checks == 1 && k == 0) || (checks == 2 + k && max == Middle(min, limit))
      invariant Within(k, limit - min + CHECKSUM_SZ - 1, start) && Few(checks, |log|)
      decreases limit - min
    {
      ghost var e := limit - min + CHECKSUM_SZ - 1;
      ghost var middle := checks > 1;
      if middle {
        MiddleHalves(min, limit);
        StillFew(k, e, start);
      }
      checks := checks + 1;
      if Same(leader, log, max) {
        min := max + CHECKSUM_SZ;
      } else {
        limit := max;
      }
      if middle {
        Halved(k, e, limit - min + CHECKSUM_SZ - 1, start);
        k := k + 1;
      } else {
        WithinLess(k, e, limit - min + CHECKSUM_SZ - 1, start);
      }
      max := (limit - min) / 2 - CHECKSUM_SZ / 2 + min;
    }
    pos := min;
    assert limit - min < CHECKSUM_SZ by {
      if max == Middle(min, limit) { MiddleDone(min, limit); }
    }
    if Common(leader, log) >= limit + CHECKSUM_SZ { InsidePrefixIsSame(leader, log, limit); }
  }

  lemma ShortLog(leader: Str, log: Str)
    requires |log| < CHECKSUM_SZ
    ensures !Same(leader, log, 0) && Common(leader, log) < CHECKSUM_SZ
  {}
}
