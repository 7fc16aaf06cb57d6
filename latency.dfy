/** The latency probe of `SpeedTest.testLatency`: five sequential timed
    requests, failed ones dropped, the survivors sorted ascending and the
    element at index floor(n/2) returned (0 when nothing survived).
    Durations are whole milliseconds, so `Math.round` is the identity. */
module Latency {
  import opened Wrappers

  /** Number of timed requests the probe makes. */
  const Attempts: nat := 5

  /** The durations of the successful attempts, in the order they are pushed. */
  function Survivors(attempts: seq<Option<nat>>): seq<nat>
  {
    if attempts == [] then []
    else
      var init := Survivors(attempts[..|attempts| - 1]);
      match attempts[|attempts| - 1]
      case Some(d) => init + [d]
      case None => init
  }

  ghost predicate Ascending(s: seq<nat>)
  {
    forall i, j :: 0 <= i < j < |s| ==> s[i] <= s[j]
  }

  /** Reference sort: insertion into an ascending sequence. */
  function Insert(x: nat, s: seq<nat>): seq<nat>
  {
    if s == [] || x <= s[0] then [x] + s else [s[0]] + Insert(x, s[1..])
  }

  function SortAscending(s: seq<nat>): seq<nat>
  {
    if s == [] then [] else Insert(s[0], SortAscending(s[1..]))
  }

  lemma {:induction false} InsertKeeps(x: nat, s: seq<nat>)
    ensures multiset(Insert(x, s)) == multiset(s) + multiset{x}
  {
    if s != [] && x > s[0] {
      InsertKeeps(x, s[1..]);
      assert s == [s[0]] + s[1..];
      assert Insert(x, s) == [s[0]] + Insert(x, s[1..]);
    }
  }

  lemma {:induction false} InsertCorrect(x: nat, s: seq<nat>)
    requires Ascending(s)
    ensures Ascending(Insert(x, s))
    ensures multiset(Insert(x, s)) == multiset(s) + multiset{x}
  {
    InsertKeeps(x, s);
    if s != [] && x > s[0] {
      var rest := Insert(x, s[1..]);
      InsertCorrect(x, s[1..]);
      InsertKeeps(x, s[1..]);
      forall k | 0 <= k < |rest|
        ensures s[0] <= rest[k]
      {
        assert rest[k] in multiset(s[1..]) + multiset{x};
        if rest[k] != x {
          var i :| 1 <= i < |s| && s[i] == rest[k] by {
            assert rest[k] in s[1..];
          }
        }
      }
      AscendingCons(s[0], rest);
    }
  }

  lemma AscendingCons(h: nat, t: seq<nat>)
    requires Ascending(t)
    requires forall k :: 0 <= k < |t| ==> h <= t[k]
    ensures Ascending([h] + t)
  {
  }

  /** The reference sort returns an ascending permutation of its input. */
  lemma {:induction false} SortAscendingCorrect(s: seq<nat>)
    ensures Ascending(SortAscending(s))
    ensures multiset(SortAscending(s)) == multiset(s)
  {
    if s != [] {
      assert s == [s[0]] + s[1..];
      SortAscendingCorrect(s[1..]);
      InsertCorrect(s[0], SortAscending(s[1..]));
    }
  }

  /** What `testLatency` returns for the given outcomes of its attempts. */
  function LatencyOf(attempts: seq<Option<nat>>): nat
  {
    var measurements := Survivors(attempts);
    if |measurements| == 0 then 0
    else
      var sorted := SortAscending(measurements);
      SortAscendingCorrect(measurements);  // a permutation, so `sorted` is non-empty too
      sorted[|sorted| / 2]
  }

  /** Number of elements of `s` strictly below `x`, and at most `x`. */
  ghost function CountBelow(s: seq<nat>, x: nat): nat
  {
    if s == [] then 0 else (if s[0] < x then 1 else 0) + CountBelow(s[1..], x)
  }

  ghost function CountAtMost(s: seq<nat>, x: nat): nat
  {
    if s == [] then 0 else (if s[0] <= x then 1 else 0) + CountAtMost(s[1..], x)
  }

  // ---------------------------------------------------------------------
  // The in-place sort of `measurements.sort((a, b) => a - b)`.

  ghost predicate SortedPrefix(a: array<nat>, n: int)
    reads a
  {
    forall p, q :: 0 <= p < q < n && q < a.Length ==> a[p] <= a[q]
  }

  method SortInPlace(a: array<nat>)
    modifies a
    ensures Ascending(a[..])
    ensures multiset(a[..]) == old(multiset(a[..]))
  {
    var i := 0;
    while i < a.Length
      invariant 0 <= i <= a.Length
      invariant SortedPrefix(a, i)
      invariant multiset(a[..]) == old(multiset(a[..]))
    {
      InsertLast(a, i);
      i := i + 1;
    }
  }

  /** One pass of insertion sort: sinks `a[i]` into the sorted prefix `a[..i]`. */
  method InsertLast(a: array<nat>, i: nat)
    requires i < a.Length && SortedPrefix(a, i)
    modifies a
    ensures SortedPrefix(a, i + 1)
    ensures multiset(a[..]) == old(multiset(a[..]))
  {
    var j := i;
    while j > 0 && a[j - 1] > a[j]
      invariant 0 <= j <= i
      invariant forall p, q :: 0 <= p < q <= i && p != j && q != j ==> a[p] <= a[q]
      invariant forall q :: j < q <= i ==> a[j] < a[q]
      invariant multiset(a[..]) == old(multiset(a[..]))
    {
      Swap(a, j - 1, j);
      j := j - 1;
    }
  }

  method Swap(a: array<nat>, i: nat, j: nat)
    requires i < j < a.Length
    modifies a
    ensures a[i] == old(a[j]) && a[j] == old(a[i])
    ensures forall k :: 0 <= k < a.Length && k != i && k != j ==> a[k] == old(a[k])
    ensures multiset(a[..]) == old(multiset(a[..]))
  {
    a[i], a[j] := a[j], a[i];
  }

  // ---------------------------------------------------------------------
  // Properties of the reduction.

  /** Every attempt either contributes one sample or is dropped as failed:
      the samples plus the failures make up all the attempts. */
  lemma {:induction false} SurvivorsCount(attempts: seq<Option<nat>>)
    ensures |Survivors(attempts)| + multiset(attempts)[None] == |attempts|
  {
    if attempts != [] {
      var n := |attempts| - 1;
      assert attempts == attempts[..n] + [attempts[n]];
      SurvivorsCount(attempts[..n]);
    }
  }

  /** The samples are exactly the durations of the successful attempts. */
  lemma {:induction false} SurvivorsAreSuccesses(attempts: seq<Option<nat>>, d: nat)
    ensures d in Survivors(attempts) <==> Some(d) in attempts
  {
    if attempts != [] {
      var n := |attempts| - 1;
      assert attempts == attempts[..n] + [attempts[n]];
      SurvivorsAreSuccesses(attempts[..n], d);
    }
  }

  /** An ascending arrangement of a multiset is unique. */
  lemma {:induction false} AscendingUnique(a: seq<nat>, b: seq<nat>)
    requires Ascending(a) && Ascending(b)
    requires multiset(a) == multiset(b)
    ensures a == b
  {
    assert |a| == |multiset(a)| == |multiset(b)| == |b|;
    if a != [] {
      assert a[0] in multiset(b);
      assert b[0] in multiset(a);
      assert a == [a[0]] + a[1..];
      assert b == [b[0]] + b[1..];
      assert a[0] == b[0];
      assert multiset(a) == multiset{a[0]} + multiset(a[1..]);
      assert multiset(b) == multiset{b[0]} + multiset(b[1..]);
      assert multiset(a[1..]) == multiset(a) - multiset{a[0]};
      assert multiset(b[1..]) == multiset(b) - multiset{b[0]};
      AscendingUnique(a[1..], b[1..]);
    }
  }

  /** When every attempt failed, the probe reports 0. */
  lemma AllFailedGivesZero(attempts: seq<Option<nat>>)
    requires forall i :: 0 <= i < |attempts| ==> attempts[i] == None
    ensures LatencyOf(attempts) == 0
  {
    var m := Survivors(attempts);
    if m != [] {
      SurvivorsAreSuccesses(attempts, m[0]);
      assert false;
    }
  }

  /** When some attempt succeeded, the probe reports one of the measured durations. */
  lemma LatencyIsASample(attempts: seq<Option<nat>>)
    requires exists i :: 0 <= i < |attempts| && attempts[i].Some?
    ensures Some(LatencyOf(attempts)) in attempts
  {
    var i :| 0 <= i < |attempts| && attempts[i].Some?;
    var m := Survivors(attempts);
    SurvivorsAreSuccesses(attempts, attempts[i].value);
    var sorted := SortAscending(m);
    SortAscendingCorrect(m);
    assert |sorted| == |multiset(sorted)| == |m|;
    var r := sorted[|sorted| / 2];
    assert r in multiset(sorted);
    SurvivorsAreSuccesses(attempts, r);
  }

  /** With positive durations, 0 is reported exactly when every attempt failed. */
  lemma LatencyZeroIff(attempts: seq<Option<nat>>)
    requires forall i :: 0 <= i < |attempts| && attempts[i].Some? ==> attempts[i].value > 0
    ensures LatencyOf(attempts) == 0 <==> forall i :: 0 <= i < |attempts| ==> attempts[i] == None
  {
    if forall i :: 0 <= i < |attempts| ==> attempts[i] == None {
      AllFailedGivesZero(attempts);
    } else {
      LatencyIsASample(attempts);
      var i :| 0 <= i < |attempts| && attempts[i] == Some(LatencyOf(attempts));
    }
  }

  lemma {:induction false} CountsInsert(y: nat, s: seq<nat>, x: nat)
    requires Ascending(s)
    ensures CountBelow(Insert(y, s), x) == CountBelow(s, x) + (if y < x then 1 else 0)
    ensures CountAtMost(Insert(y, s), x) == CountAtMost(s, x) + (if y <= x then 1 else 0)
  {
    if s == [] || y <= s[0] {
      assert ([y] + s)[1..] == s;
    } else {
      CountsInsert(y, s[1..], x);
      assert ([s[0]] + Insert(y, s[1..]))[1..] == Insert(y, s[1..]);
    }
  }

  /** Sorting does not change how many samples lie below a bound. */
  lemma {:induction false} CountsSort(s: seq<nat>, x: nat)
    ensures CountBelow(SortAscending(s), x) == CountBelow(s, x)
    ensures CountAtMost(SortAscending(s), x) == CountAtMost(s, x)
  {
    if s != [] {
      CountsSort(s[1..], x);
      SortAscendingCorrect(s[1..]);
      CountsInsert(s[0], SortAscending(s[1..]), x);
    }
  }

  lemma {:induction false} NoneBelow(t: seq<nat>, x: nat)
    requires forall i :: 0 <= i < |t| ==> x <= t[i]
    ensures CountBelow(t, x) == 0
  {
    if t != [] {
      NoneBelow(t[1..], x);
    }
  }

  /** In an ascending sequence the element at index k has at most k elements
      strictly below it and more than k elements at most it. */
  lemma {:induction false} RankInAscending(t: seq<nat>, k: nat)
    requires Ascending(t) && k < |t|
    ensures CountBelow(t, t[k]) <= k < CountAtMost(t, t[k])
  {
    if k == 0 {
      NoneBelow(t[1..], t[0]);
    } else {
      RankInAscending(t[1..], k - 1);
    }
  }

  /** The reported latency is the upper median of the surviving samples,
      stated without sorting: at most floor(n/2) samples are strictly
      smaller, and more than floor(n/2) samples are no larger. */
  lemma LatencyIsUpperMedian(attempts: seq<Option<nat>>)
    requires Survivors(attempts) != []
    ensures var m := Survivors(attempts);
      CountBelow(m, LatencyOf(attempts)) <= |m| / 2 < CountAtMost(m, LatencyOf(attempts))
  {
    var m := Survivors(attempts);
    var sorted := SortAscending(m);
    SortAscendingCorrect(m);
    assert |sorted| == |multiset(sorted)| == |m|;
    RankInAscending(sorted, |m| / 2);
    CountsSort(m, LatencyOf(attempts));
  }

  /** The latency is read off any ascending arrangement of the samples. */
  lemma LatencyFromArrangement(attempts: seq<Option<nat>>, t: seq<nat>)
    requires t != [] && Ascending(t)
    requires multiset(t) == multiset(Survivors(attempts))
    ensures LatencyOf(attempts) == t[|t| / 2]
  {
    var m := Survivors(attempts);
    assert |m| == |multiset(m)| == |t|;
    SortAscendingCorrect(m);
    AscendingUnique(SortAscending(m), t);
  }

  /** The samples one attempt contributes. */
  function Sample(o: Option<nat>): seq<nat>
  {
    match o
    case Some(d) => [d]
    case None => []
  }

  /** Five attempts contribute their samples in order. */
  lemma SurvivorsOfFive(attempts: seq<Option<nat>>)
    requires |attempts| == 5
    ensures Survivors(attempts)
         == Sample(attempts[0]) + Sample(attempts[1]) + Sample(attempts[2]) + Sample(attempts[3]) + Sample(attempts[4])
  {
    var a: seq<Option<nat>> := attempts;
    assert a[..1][..0] == [];
    assert Survivors(a[..1]) == Sample(a[0]);
    assert a[..2][..1] == a[..1];
    assert Survivors(a[..2]) == Sample(a[0]) + Sample(a[1]);
    assert a[..3][..2] == a[..2];
    assert Survivors(a[..3]) == Sample(a[0]) + Sample(a[1]) + Sample(a[2]);
    assert a[..4][..3] == a[..3];
    assert Survivors(a[..4]) == Sample(a[0]) + Sample(a[1]) + Sample(a[2]) + Sample(a[3]);
    assert a[..4] == a[..|a| - 1];
  }

  /** Two surviving samples, wherever they occur: the larger one is reported. */
  lemma TwoSurvivors(attempts: seq<Option<nat>>)
    requires |Survivors(attempts)| == 2
    ensures var m := Survivors(attempts); LatencyOf(attempts) == if m[0] < m[1] then m[1] else m[0]
  {
    var m := Survivors(attempts);
    assert m == [m[0], m[1]];
    var sorted := if m[0] < m[1] then [m[0], m[1]] else [m[1], m[0]];
    assert Ascending(sorted) && multiset(sorted) == multiset(m);
    LatencyFromArrangement(attempts, sorted);
  }

  /** Two of five attempts succeeded, the second and the fourth. */
  lemma SecondAndFourth(attempts: seq<Option<nat>>, x: nat, y: nat)
    requires attempts == [None, Some(x), None, Some(y), None]
    ensures LatencyOf(attempts) == if x < y then y else x
  {
    SurvivorsOfFive(attempts);
    assert Survivors(attempts) == [x, y];
    TwoSurvivors(attempts);
  }

  /** Five successful samples: the middle one is reported. */
  lemma FiveSamples(attempts: seq<Option<nat>>)
    requires attempts == [Some(50), Some(10), Some(40), Some(20), Some(30)]
    ensures LatencyOf(attempts) == 30
  {
    SurvivorsOfFive(attempts);
    assert Survivors(attempts) == [50, 10, 40, 20, 30];
    assert SortAscending([50, 10, 40, 20, 30]) == [10, 20, 30, 40, 50];
  }

  /** Two of five attempts failed: the middle of the three survivors is reported. */
  lemma ThreeSurvivors(attempts: seq<Option<nat>>)
    requires attempts == [Some(35), None, Some(15), None, Some(25)]
    ensures LatencyOf(attempts) == 25
  {
    SurvivorsOfFive(attempts);
    assert Survivors(attempts) == [35, 15, 25];
    assert SortAscending([35, 15, 25]) == [15, 25, 35];
  }

  /** All five attempts failed. */
  lemma NoSurvivors(attempts: seq<Option<nat>>)
    requires attempts == [None, None, None, None, None]
    ensures LatencyOf(attempts) == 0
  {
    AllFailedGivesZero(attempts);
  }
}
