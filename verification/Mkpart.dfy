/** do_mkpart: splitting a requested size into a main partition and sub-partitions of power-of-two sizes. */
module Mkpart {

  const LARGEST := 8    // index of 2 GB, the largest size the loop tries

  function Power2(k: nat): (p: nat)
    ensures p >= 1
  {
    if k == 0 then 1 else 2 * Power2(k - 1)
  }

  /** sizesMB[k]: 8 MB, 16 MB, ... */
  function SizeMB(k: nat): nat { 8 * Power2(k) }

  function Sum(ks: seq<nat>): nat { if ks == [] then 0 else SizeMB(ks[0]) + Sum(ks[1..]) }

  lemma {:induction false} SumSnoc(ks: seq<nat>, k: nat)
    ensures Sum(ks + [k]) == Sum(ks) + SizeMB(k)
  {
    if ks == [] {
      assert [] + [k] == [k] && [k][1..] == [];
    } else {
      assert (ks + [k])[1..] == ks[1..] + [k];
      SumSnoc(ks[1..], k);
    }
  }

  /** Largest first, none above the size that was tried first. */
  ghost predicate Descending(ks: seq<nat>)
  {
    (forall a :: 0 <= a < |ks| ==> ks[a] <= LARGEST) && (forall a, b :: 0 <= a < b < |ks| ==> ks[b] <= ks[a])
  }

  // ----- the fewest slices -----

  /** The fewest powers of two up to 2^m that add up to u: the low m bits one each, the rest in largest ones. */
  function Fewest(u: nat, m: nat): nat
  {
    if m == 0 then u else u % 2 + Fewest(u / 2, m - 1)
  }

  /** One more power of two needs at most one more slice. */
  lemma {:induction false} OneMore(u: nat, k: nat, m: nat)
    requires k <= m
    ensures Fewest(u + Power2(k), m) <= Fewest(u, m) + 1
  {
    if m == 0 {
    } else if k == 0 {
      if u % 2 == 0 {
        assert (u + 1) / 2 == u / 2;
      } else {
        assert (u + 1) / 2 == u / 2 + Power2(0);
        OneMore(u / 2, 0, m - 1);
      }
    } else {
      assert (u + Power2(k)) % 2 == u % 2 && (u + Power2(k)) / 2 == u / 2 + Power2(k - 1);
      OneMore(u / 2, k - 1, m - 1);
    }
  }

  /** No list of allowed sizes with that sum is shorter. */
  lemma {:induction false} FewestIsLeast(ks: seq<nat>)
    requires forall a :: 0 <= a < |ks| ==> ks[a] <= LARGEST
    ensures Sum(ks) % 8 == 0 && |ks| >= Fewest(Sum(ks) / 8, LARGEST)
  {
    if ks == [] {
      assert Fewest(0, LARGEST) == 0 by { FewestOfNothing(LARGEST); }
    } else {
      hide Fewest, Power2;
      FewestIsLeast(ks[1..]);
      assert ks[0] <= LARGEST;
      OneMore(Sum(ks[1..]) / 8, ks[0], LARGEST);
      Eighths(Sum(ks[1..]), Power2(ks[0]));
    }
  }

  lemma Eighths(a: nat, p: nat)
    requires a % 8 == 0
    ensures (8 * p + a) / 8 == a / 8 + p && (8 * p + a) % 8 == 0
  {
  }

  lemma {:induction false} FewestOfNothing(m: nat)
    ensures Fewest(0, m) == 0
  {
    if m > 0 {
      FewestOfNothing(m - 1);
    }
  }

  /** A size that is too large does not help. */
  lemma {:induction false} TooLarge(u: nat, m: nat)
    requires m > 0 && u < Power2(m)
    ensures Fewest(u, m) == Fewest(u, m - 1)
  {
    if m > 1 {
      TooLarge(u / 2, m - 1);
    } else {
      assert Power2(1) == 2;
    }
  }

  /** Taking the largest size that fits is never a mistake. */
  lemma {:induction false} TakeLargest(u: nat, m: nat)
    requires Power2(m) <= u
    ensures Fewest(u, m) == 1 + Fewest(u - Power2(m), m)
  {
    if m > 0 {
      assert (u - Power2(m)) % 2 == u % 2 && (u - Power2(m)) / 2 == u / 2 - Power2(m - 1);
      TakeLargest(u / 2, m - 1);
    }
  }

  // ----- the sizes that fit -----

  /** The largest of the first n sizes that is at most size, or -1. */
  function LargestFit(size: nat, n: nat): (m: int)
    ensures -1 <= m < n
  {
    if n == 0 then -1 else if SizeMB(n - 1) <= size then n - 1 else LargestFit(size, n - 1)
  }

  lemma {:induction false} Power2Grows(a: nat, b: nat)
    requires a <= b
    ensures Power2(a) <= Power2(b)
    decreases b
  {
    if a < b {
      Power2Grows(a, b - 1);
    }
  }

  /** The sizes up to the largest that fits are those that fit. */
  lemma {:induction false} FitsIff(size: nat, n: nat, k: nat)
    requires k < n
    ensures SizeMB(k) <= size <==> k <= LargestFit(size, n)
  {
    if SizeMB(n - 1) <= size {
      Power2Grows(k, n - 1);
    } else if k < n - 1 {
      FitsIff(size, n - 1, k);
    }
  }

  lemma SizesInMB(k: nat)
    requires k <= 8
    ensures SizeMB(k) == [8, 16, 32, 64, 128, 256, 512, 1024, 2048][k]
  {
    if k > 0 {
      SizesInMB(k - 1);
    }
  }

  // ----- the requests to the disk -----

  /** What is left of the request for disk space when the first n requests for a size have been answered. */
  function LeftAt(size: nat, requests: seq<nat>, answers: nat -> int, n: nat): int
    requires n <= |requests|
  {
    if n == 0 then size
    else LeftAt(size, requests, answers, n - 1) - if answers(n - 1) >= 0 then SizeMB(requests[n - 1]) else 0
  }

  /** The largest size that is still considered then: 2 GB at first, then the last one, or one less if it was refused. */
  function TopAt(requests: seq<nat>, answers: nat -> int, n: nat): int
    requires n <= |requests|
  {
    if n == 0 then 8 else requests[n - 1] as int - if answers(n - 1) >= 0 then 0 else 1
  }

  ghost predicate NoneFits(from: int, to: int, room: int)
  {
    forall m: nat :: from <= m <= to ==> SizeMB(m) > room
  }

  /** Every request is for the largest size that is still considered and fits what is left. */
  ghost predicate Greedy(size: nat, requests: seq<nat>, answers: nat -> int)
  {
    forall n :: 0 <= n < |requests| ==>
      && requests[n] <= TopAt(requests, answers, n)
      && SizeMB(requests[n]) <= LeftAt(size, requests, answers, n)
      && NoneFits(requests[n] + 1, TopAt(requests, answers, n), LeftAt(size, requests, answers, n))
  }

  /** The sizes that were granted, in order. */
  function GrantedOf(requests: seq<nat>, answers: nat -> int, n: nat): seq<nat>
    requires n <= |requests|
  {
    if n == 0 then []
    else GrantedOf(requests, answers, n - 1) + if answers(n - 1) >= 0 then [requests[n - 1]] else []
  }

  lemma {:induction false} SameSoFar(size: nat, requests: seq<nat>, k: nat, answers: nat -> int, n: nat)
    requires n <= |requests|
    ensures LeftAt(size, requests + [k], answers, n) == LeftAt(size, requests, answers, n)
    ensures TopAt(requests + [k], answers, n) == TopAt(requests, answers, n)
    ensures GrantedOf(requests + [k], answers, n) == GrantedOf(requests, answers, n)
  {
    hide SizeMB;
    if n > 0 {
      SameSoFar(size, requests, k, answers, n - 1);
    }
  }

  lemma NextOf(size: nat, requests: seq<nat>, answers: nat -> int, n: nat)
    requires n < |requests|
    ensures var k, granted := requests[n], answers(n) >= 0;
      && LeftAt(size, requests, answers, n + 1) == LeftAt(size, requests, answers, n) - (if granted then SizeMB(k) else 0)
      && TopAt(requests, answers, n + 1) == k as int - (if granted then 0 else 1)
      && GrantedOf(requests, answers, n + 1) == GrantedOf(requests, answers, n) + if granted then [k] else []
  {
    hide SizeMB;
  }

  /** One request more. */
  lemma Requested(size: nat, requests: seq<nat>, k: nat, answers: nat -> int)
    requires Greedy(size, requests, answers)
    requires var n := |requests|;
      && k <= TopAt(requests, answers, n) && SizeMB(k) <= LeftAt(size, requests, answers, n)
      && NoneFits(k + 1, TopAt(requests, answers, n), LeftAt(size, requests, answers, n))
    ensures var rs, n := requests + [k], |requests|;
      && Greedy(size, rs, answers)
      && LeftAt(size, rs, answers, n + 1) == LeftAt(size, requests, answers, n) - (if answers(n) >= 0 then SizeMB(k) else 0)
      && TopAt(rs, answers, n + 1) == k as int - (if answers(n) >= 0 then 0 else 1)
      && GrantedOf(rs, answers, n + 1) == GrantedOf(requests, answers, n) + if answers(n) >= 0 then [k] else []
  {
    hide SizeMB, NoneFits, LeftAt, TopAt, GrantedOf;
    var rs, n := requests + [k], |requests|;
    SameSoFar(size, requests, k, answers, n);
    NextOf(size, rs, answers, n);
    forall i | 0 <= i < n
      ensures rs[i] <= TopAt(rs, answers, i) && SizeMB(rs[i]) <= LeftAt(size, rs, answers, i)
      ensures NoneFits(rs[i] + 1, TopAt(rs, answers, i), LeftAt(size, rs, answers, i))
    {
      SameSoFar(size, requests, k, answers, i);
    }
  }

  lemma NoRequests(size: nat, answers: nat -> int)
    ensures Greedy(size, [], answers) && LeftAt(size, [], answers, 0) == size && TopAt([], answers, 0) == 8
    ensures GrantedOf([], answers, 0) == []
  {
  }

  /** One size more that does not fit. */
  lemma OneMoreTooLarge(i: nat, to: int, room: int)
    requires NoneFits(i + 1, to, room) && SizeMB(i) > room
    ensures NoneFits(i, to, room)
  {
    hide SizeMB;
  }

  lemma NoSizes(from: int, to: int, room: int)
    requires to < from
    ensures NoneFits(from, to, room)
  {
  }

  /** Without room nothing fits. */
  lemma NoRoom(from: int, to: int)
    ensures NoneFits(from, to, 0)
  {
  }

  // ----- the code -----

  /** The two loops of do_mkpart. answers(n) is what the n-th request to the disk returns, negative when it is
      refused. requests are the sizes asked for, by their index, and created the ones made, the main partition first:
      always the largest that fits, none larger than the last, and none that was just refused, until no size is left. */
  method MakePartition(size: nat, answers: nat -> int)
    returns (result: int, created: seq<nat>, left: nat, requests: seq<nat>)
    requires size < 0x1_0000_0000
    ensures Greedy(size, requests, answers) && created == GrantedOf(requests, answers, |requests|)
    ensures left == LeftAt(size, requests, answers, |requests|)
    ensures NoneFits(0, TopAt(requests, answers, |requests|), left)
    ensures Sum(created) + left == size
    ensures Descending(created)
    ensures result >= 0 <==> created != []
    ensures size < 8 ==> created == []
    ensures (forall n :: answers(n) >= 0) && size >= 8 ==>
      left == size % 8 && |created| == Fewest(size / 8, LARGEST)
    ensures var m := LargestFit(size, LARGEST + 1);
      && (created == [] <==> forall c :: 0 <= c <= m ==> answers(c) < 0)
      && (created != [] ==> created[0] <= m && answers(m - created[0]) == result
                            && forall c :: 0 <= c < m - created[0] ==> answers(c) < 0)
    ensures size >= 2048 && answers(0) >= 0 ==> created != [] && created[0] == 8 && SizeMB(created[0]) == 2048
    ensures size == 2048 && answers(0) >= 0 ==> created == [8] && left == 0
  {
    hide Greedy, GrantedOf, LeftAt, TopAt, NoneFits, Fewest, LargestFit, SizeMB, Sum;
    TwoGigabytes(size);
    SumOfNone();
    var partFd, i;
    result, partFd, i, left, requests := MainPartition(size, answers);
    if partFd < 0 {
      return result, [], left, requests;
    }
    created, left, requests := SubPartitions(size, i, left, requests, answers);
    Remainder(size, created, left);
    if size == 2048 && i == 8 {
      OnlyOne(created, left);
    }
  }

  lemma TwoGigabytes(size: nat)
    ensures SizeMB(8) == 2048 && (size >= 2048 ==> LargestFit(size, LARGEST + 1) == 8)
  {
    SizesInMB(8);
  }

  lemma SumOfNone()
    ensures Sum([]) == 0
  {
  }

  lemma OnlyOne(created: seq<nat>, left: nat)
    requires created != [] && created[0] == 8 && Sum(created) + left == 2048
    ensures created == [8] && left == 0
  {
    SizesInMB(8);
    if |created| > 1 {
      assert Sum(created) == 2048 + Sum(created[1..]);
      SumIsWhole(created[1..]);
    }
  }

  lemma Remainder(size: nat, ks: seq<nat>, left: nat)
    requires Sum(ks) + left == size && ks != []
    ensures size >= 8
    ensures left < 8 ==> left == size % 8
  {
    hide Sum;
    SumIsWhole(ks);
  }

  /** The loop that adds sub-partitions, none larger than the main one. */
  method SubPartitions(size: nat, i: nat, unused: nat, before: seq<nat>, answers: nat -> int)
    returns (created: seq<nat>, left: nat, requests: seq<nat>)
    requires i <= LARGEST
    requires Greedy(size, before, answers) && unused == LeftAt(size, before, answers, |before|)
    requires TopAt(before, answers, |before|) == i && GrantedOf(before, answers, |before|) == [i]
    ensures Greedy(size, requests, answers) && created == GrantedOf(requests, answers, |requests|)
    ensures left == LeftAt(size, requests, answers, |requests|)
    ensures NoneFits(0, TopAt(requests, answers, |requests|), left)
    ensures created != [] && created[0] == i && Descending(created)
    ensures Sum(created) + left == SizeMB(i) + unused
    ensures (forall n :: answers(n) >= 0) ==> left < 8 && |created| == 1 + Fewest(unused / 8, i)
  {
    hide SizeMB, Power2, Fewest, Sum, Greedy, GrantedOf, LeftAt, TopAt, NoneFits;
    ghost var willing := forall n :: answers(n) >= 0;
    left, created, requests := unused, [i], before;
    SumOne(i);
    var j: int := i;
    NoSizes(i + 1, i, unused);
    while left > 0 && j >= 0
      invariant -1 <= j <= i && created != [] && created[0] == i
      invariant j >= 0 ==> Descending(created + [j])
      invariant Descending(created) && Sum(created) + left == SizeMB(i) + unused
      invariant Greedy(size, requests, answers) && created == GrantedOf(requests, answers, |requests|)
      invariant left == LeftAt(size, requests, answers, |requests|)
      invariant j <= TopAt(requests, answers, |requests|)
      invariant NoneFits(j + 1, TopAt(requests, answers, |requests|), left)
      invariant willing ==> |created| + Fewest(left / 8, if j < 0 then 0 else j) == 1 + Fewest(unused / 8, i)
      invariant willing && j < 0 ==> left < 8
      decreases left, j
    {
      if SizeMB(j) <= left {
        var r := answers(|requests|);
        Requested(size, requests, j, answers);
        requests := requests + [j];
        if r >= 0 {
          SumSnoc(created, j);
          Taken(left, j);
          DescendingSnoc(created, j);
          left := left - SizeMB(j);
          created := created + [j];
          NoSizes(j + 1, j, left);
        } else {
          DescendingSnoc(created, j);
          j := j - 1;
          NoSizes(j + 1, j, left);
        }
      } else {
        Passed(left, j);
        DescendingSnoc(created, j);
        OneMoreTooLarge(j, TopAt(requests, answers, |requests|), left);
        j := j - 1;
      }
    }
    if left == 0 {
      NoRoom(0, TopAt(requests, answers, |requests|));
    }
    if willing {
      Leftover(left, j);
    }
  }

  lemma SumOne(i: nat)
    ensures Sum([i]) == SizeMB(i)
    ensures i <= LARGEST ==> Descending([i]) && Descending([i] + [i])
  {
  }

  lemma DescendingSnoc(ks: seq<nat>, j: nat)
    requires Descending(ks + [j])
    ensures Descending(ks + [j] + [j])
    ensures j > 0 ==> Descending(ks + [j - 1])
    ensures Descending(ks)
  {
    var all := ks + [j];
    assert all[|ks|] == j;
    forall a | 0 <= a < |ks| ensures j <= ks[a] <= LARGEST {
      assert all[a] == ks[a];
    }
    forall a, b | 0 <= a < b < |ks| ensures ks[b] <= ks[a] {
      assert all[a] == ks[a] && all[b] == ks[b];
    }
  }

  lemma Leftover(left: nat, j: int)
    requires j < 0 ==> left < 8
    requires j >= 0 ==> left == 0
    ensures Fewest(left / 8, if j < 0 then 0 else j) == 0
  {
    FewestOfNothing(if j < 0 then 0 else j);
  }

  /** The loop that makes the main partition: from 2 GB downwards, the first size that fits and is granted. One
      request is made for each size that fits, the c-th for the c-th below the largest, until one is granted. */
  method MainPartition(size: nat, answers: nat -> int)
    returns (result: int, partFd: int, i: nat, left: nat, requests: seq<nat>)
    requires size < 0x1_0000_0000
    ensures result >= 0 <==> partFd >= 0
    ensures result < 0 ==> left == size
    ensures result >= 0 ==> i <= LARGEST && left + SizeMB(i) == size
    ensures var calls, m := |requests|, LargestFit(size, LARGEST + 1);
      && (result >= 0 ==> calls > 0 && answers(calls - 1) == result && i == m - (calls - 1))
      && (result < 0 ==> calls == m + 1)
      && forall c :: 0 <= c < calls && (c < calls - 1 || result < 0) ==> answers(c) < 0
    ensures Greedy(size, requests, answers) && left == LeftAt(size, requests, answers, |requests|)
    ensures GrantedOf(requests, answers, |requests|) == if result < 0 then [] else [i]
    ensures result >= 0 ==> TopAt(requests, answers, |requests|) == i
    ensures result < 0 ==> NoneFits(0, TopAt(requests, answers, |requests|), left)
    ensures (forall n :: answers(n) >= 0) ==> if result < 0 then size < 8
      else 1 + Fewest(left / 8, i) == Fewest(size / 8, LARGEST)
  {
    hide SizeMB, Power2, Fewest, LargestFit, Greedy, GrantedOf, LeftAt, TopAt, NoneFits;
    ghost var willing, m := forall n :: answers(n) >= 0, LargestFit(size, LARGEST + 1);
    left, requests := size, [];
    NoRequests(size, answers);
    NoSizes(LARGEST + 1, 8, size);
    result := -1;
    partFd := -2;
    i := LARGEST + 1;
    while result < 0 && i > 0
      invariant 0 <= i <= LARGEST + 1
      invariant result < 0 ==> left == size && partFd < 0
      invariant result >= 0 ==> i <= LARGEST && left + SizeMB(i) == size && partFd >= 0
      invariant |requests| == if result < 0 then (if m < i then 0 else m + 1 - i) else m + 1 - i
      invariant result >= 0 ==> i <= m && answers(|requests| - 1) == result
      invariant forall c :: 0 <= c < |requests| && (c < |requests| - 1 || result < 0) ==> answers(c) < 0
      invariant Greedy(size, requests, answers) && left == LeftAt(size, requests, answers, |requests|)
      invariant GrantedOf(requests, answers, |requests|) == if result < 0 then [] else [i]
      invariant result >= 0 ==> TopAt(requests, answers, |requests|) == i
      invariant result < 0 ==> i - 1 <= TopAt(requests, answers, |requests|)
      invariant result < 0 ==> NoneFits(i, TopAt(requests, answers, |requests|), left)
      invariant willing && result < 0 ==>
        if i == 0 then size < 8 else Fewest(size / 8, i - 1) == Fewest(size / 8, LARGEST)
      invariant willing && result >= 0 ==> 1 + Fewest(left / 8, i) == Fewest(size / 8, LARGEST)
      decreases result < 0, i
    {
      i := i - 1;
      FitsIff(size, LARGEST + 1, i);
      if SizeMB(i) <= left {
        partFd := answers(|requests|);
        Requested(size, requests, i, answers);
        requests := requests + [i];
        if partFd >= 0 {
          Taken(left, i);
          left := left - SizeMB(i);
          result := partFd;
        } else {
          NoSizes(i, i - 1, left);
        }
      } else {
        Passed(left, i);
        OneMoreTooLarge(i, TopAt(requests, answers, |requests|), left);
      }
    }
  }

  lemma Taken(left: nat, j: nat)
    requires SizeMB(j) <= left
    ensures SizeMB(j) > 0
    ensures Fewest(left / 8, j) == 1 + Fewest((left - SizeMB(j)) / 8, j)
  {
    TakeLargest(left / 8, j);
    assert (left - SizeMB(j)) / 8 == left / 8 - Power2(j);
  }

  lemma Passed(left: nat, j: nat)
    requires left < SizeMB(j)
    ensures left / 8 < Power2(j)
    ensures j > 0 ==> Fewest(left / 8, j) == Fewest(left / 8, j - 1)
    ensures j == 0 ==> left < 8
  {
    if j > 0 {
      TooLarge(left / 8, j);
    }
  }

  lemma {:induction false} SumIsWhole(ks: seq<nat>)
    ensures Sum(ks) % 8 == 0
    ensures ks != [] ==> Sum(ks) >= 8
  {
    if ks != [] {
      SumIsWhole(ks[1..]);
    }
  }

  /** With a willing disk the split is the shortest: any other list of the allowed sizes that leaves less than
      8 MB of the request has at least as many slices. */
  lemma SplitIsShortest(size: nat, created: seq<nat>, other: seq<nat>)
    requires |created| == Fewest(size / 8, LARGEST)
    requires forall a :: 0 <= a < |other| ==> other[a] <= LARGEST
    requires Sum(other) <= size < Sum(other) + 8
    ensures |created| <= |other|
  {
    FewestIsLeast(other);
    assert Sum(other) / 8 == size / 8;
  }
}
