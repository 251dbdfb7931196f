/**
 * Rank and select over a bit sequence, the queries a `BitIndex` answers.
 * The block and superblock index that makes them fast is not part of this
 * model; only the value each query returns is.
 */
module BitIndex {
  import opened Outcome

  /** Number of entries of `t` equal to `b`. */
  function Occ(t: seq<bool>, b: bool): (r: nat)
    ensures r <= |t|
  {
    if t == [] then 0 else Occ(t[..|t| - 1], b) + (if t[|t| - 1] == b then 1 else 0)
  }

  lemma {:induction false} OccConcat(t: seq<bool>, u: seq<bool>, b: bool)
    ensures Occ(t + u, b) == Occ(t, b) + Occ(u, b)
    decreases |u|
  {
    if u == [] {
      assert t + u == t;
    } else {
      assert (t + u)[..|t + u| - 1] == t + u[..|u| - 1];
      OccConcat(t, u[..|u| - 1], b);
    }
  }

  /** `rank_b_from_range(start, end)`: how many entries of `s[start..end]` equal `b`. */
  function Rank(s: seq<bool>, b: bool, start: nat, end: nat): (r: nat)
    requires start <= end <= |s|
    ensures r <= end - start
    decreases end - start
  {
    if start == end then 0 else Rank(s, b, start, end - 1) + (if s[end - 1] == b then 1 else 0)
  }

  /** Rank counts the entries of the slice. */
  lemma {:induction false} RankOcc(s: seq<bool>, b: bool, start: nat, end: nat)
    requires start <= end <= |s|
    ensures Rank(s, b, start, end) == Occ(s[start..end], b)
    decreases end - start
  {
    if start < end {
      RankOcc(s, b, start, end - 1);
      assert s[start..end][..end - start - 1] == s[start..end - 1];
    }
  }

  /** Extending a range by one entry adds one to the rank exactly when that entry is `b`. */
  lemma RankStep(s: seq<bool>, b: bool, start: nat, end: nat)
    requires start <= end < |s|
    ensures Rank(s, b, start, end + 1) == Rank(s, b, start, end) + (if s[end] == b then 1 else 0)
  {
  }

  /** Rank is additive over adjacent ranges. */
  lemma {:induction false} RankSplit(s: seq<bool>, b: bool, start: nat, mid: nat, end: nat)
    requires start <= mid <= end <= |s|
    ensures Rank(s, b, start, end) == Rank(s, b, start, mid) + Rank(s, b, mid, end)
    decreases end - mid
  {
    if mid < end {
      RankSplit(s, b, start, mid, end - 1);
    }
  }

  /** Every entry of a range is counted by exactly one of rank0 and rank1. */
  lemma {:induction false} RankComplement(s: seq<bool>, b: bool, start: nat, end: nat)
    requires start <= end <= |s|
    ensures Rank(s, b, start, end) + Rank(s, !b, start, end) == end - start
    decreases end - start
  {
    if start < end {
      RankComplement(s, b, start, end - 1);
    }
  }

  /**
   * `select_b_from_range(k, start, end)`: the absolute position of the k-th
   * (counting from 1) entry equal to `b` in `s[start..end]`, if there is one.
   */
  function Select(s: seq<bool>, b: bool, k: nat, start: nat, end: nat): (r: Option<nat>)
    requires start <= end <= |s|
    ensures r.Some? ==> start <= r.value < end && s[r.value] == b
    decreases end - start
  {
    if k == 0 || start == end then None
    else if s[start] == b then (if k == 1 then Some(start) else Select(s, b, k - 1, start + 1, end))
    else Select(s, b, k, start + 1, end)
  }

  /** Select is the inverse of rank: it finds a position exactly when the range holds at least k entries `b`, and k - 1 of them lie before it. */
  lemma {:induction false} SelectRank(s: seq<bool>, b: bool, k: nat, start: nat, end: nat)
    requires start <= end <= |s|
    ensures Select(s, b, k, start, end).Some? <==> 1 <= k <= Rank(s, b, start, end)
    ensures Select(s, b, k, start, end).Some? ==> Rank(s, b, start, Select(s, b, k, start, end).value) == k - 1
    decreases end - start
  {
    if k != 0 && start != end {
      RankSplit(s, b, start, start + 1, end);
      assert Rank(s, b, start, start + 1) == (if s[start] == b then 1 else 0) by {
        RankStep(s, b, start, start);
      }
      var r := Select(s, b, k, start, end);
      if s[start] == b && k == 1 {
      } else {
        var k' := if s[start] == b then k - 1 else k;
        SelectRank(s, b, k', start + 1, end);
        if r.Some? {
          RankSplit(s, b, start, start + 1, r.value);
        }
      }
    }
  }

  lemma RankMonotone(s: seq<bool>, b: bool, start: nat, x: nat, y: nat)
    requires start <= x <= y <= |s|
    ensures Rank(s, b, start, x) <= Rank(s, b, start, y)
  {
    RankSplit(s, b, start, x, y);
  }

  /**
   * Counting up to and including an entry equal to `b` counts at least that
   * entry, and inside a range counts no more than the whole range holds.
   */
  lemma RankAt(s: seq<bool>, start: nat, pos: nat, end: nat)
    requires start <= pos < |s| && start <= end <= |s|
    ensures Rank(s, s[pos], start, pos + 1) >= 1
    ensures pos < end ==> Rank(s, s[pos], start, pos + 1) <= Rank(s, s[pos], start, end)
    ensures Rank(s, true, start, end) + Rank(s, false, start, end) == end - start
  {
    RankStep(s, s[pos], start, pos);
    if pos < end {
      RankMonotone(s, s[pos], start, pos + 1, end);
    }
    RankComplement(s, true, start, end);
  }

  /** The position found by select is the only one with its rank. */
  lemma SelectUnique(s: seq<bool>, b: bool, k: nat, start: nat, end: nat, p: nat)
    requires start <= p < end <= |s| && s[p] == b && 1 <= k && Rank(s, b, start, p) == k - 1
    ensures Select(s, b, k, start, end) == Some(p)
  {
    RankStep(s, b, start, p);
    RankMonotone(s, b, start, p + 1, end);
    SelectRank(s, b, k, start, end);
    var q := Select(s, b, k, start, end).value;
    if q < p {
      RankStep(s, b, start, q);
      RankMonotone(s, b, start, q + 1, p);
    } else if q > p {
      RankMonotone(s, b, start, p + 1, q);
    }
  }
}
