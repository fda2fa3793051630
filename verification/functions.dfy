/** binary_search from the helper-function header: sort the vector ascending, then
    halve the window [L, R] until the target is met or the window is empty. */
module Functions {

  predicate Sorted(s: seq<int>) {
    forall i, j :: 0 <= i < j < |s| ==> s[i] <= s[j]
  }

  /** Places `x` in front of the first element not below it. */
  function InsertSorted(x: int, s: seq<int>): (r: seq<int>)
    requires Sorted(s)
    ensures Sorted(r)
    ensures multiset(r) == multiset(s) + multiset{x}
  {
    if |s| == 0 then [x]
    else if x <= s[0] then
      SortedCons(x, s);
      [x] + s
    else
      assert s == [s[0]] + s[1..];
      var rest := InsertSorted(x, s[1..]);
      assert forall i :: 0 <= i < |rest| ==> s[0] <= rest[i] by {
        forall i | 0 <= i < |rest|
          ensures s[0] <= rest[i]
        {
          assert rest[i] in multiset(rest);
        }
      }
      SortedCons(s[0], rest);
      [s[0]] + rest
  }

  lemma SortedCons(h: int, t: seq<int>)
    requires Sorted(t)
    requires forall i :: 0 <= i < |t| ==> h <= t[i]
    ensures Sorted([h] + t)
  {
  }

  /** std::sort over integers: an ascending permutation of its input. */
  function Sort(s: seq<int>): (r: seq<int>)
    ensures Sorted(r)
    ensures multiset(r) == multiset(s)
  {
    if |s| == 0 then []
    else
      assert s == [s[0]] + s[1..];
      InsertSorted(s[0], Sort(s[1..]))
  }

  /** Two ascending arrangements of the same integers are the same sequence, so the
      sort above loses nothing against any other implementation of std::sort. */
  lemma {:induction false} SortedPermutationUnique(a: seq<int>, b: seq<int>)
    requires Sorted(a) && Sorted(b)
    requires multiset(a) == multiset(b)
    ensures a == b
    decreases |a|
  {
    if |a| == 0 {
      assert |b| == |multiset(b)| == 0;
    } else {
      assert |b| == |multiset(b)| == |multiset(a)| == |a|;
      assert a[0] in multiset(b);
      assert b[0] in multiset(a);
      // a[0] and b[0] both are the least element of the shared multiset
      assert a[0] == b[0] by {
        var i :| 0 <= i < |b| && b[i] == a[0];
        var j :| 0 <= j < |a| && a[j] == b[0];
        assert b[0] <= b[i] && a[0] <= a[j];
      }
      assert a == [a[0]] + a[1..];
      assert b == [b[0]] + b[1..];
      assert multiset(a) == multiset{a[0]} + multiset(a[1..]);
      assert multiset(b) == multiset{b[0]} + multiset(b[1..]);
      assert multiset(a[1..]) == multiset(a) - multiset{a[0]};
      assert multiset(b[1..]) == multiset(b) - multiset{b[0]};
      SortedPermutationUnique(a[1..], b[1..]);
    }
  }

  /** Returns the vector after sorting and the index of `t` in it, or -1 when `t` does
      not occur. */
  method BinarySearch(vec: seq<int>, t: int) returns (sorted: seq<int>, r: int)
    ensures Sorted(sorted) && multiset(sorted) == multiset(vec)
    ensures r == -1 || 0 <= r < |sorted|
    ensures r != -1 ==> sorted[r] == t
    ensures r == -1 <==> t !in vec
  {
    sorted := Sort(vec);
    var lo, hi := 0, |sorted| - 1;
    while lo <= hi
      invariant 0 <= lo <= hi + 1 <= |sorted|
      invariant forall i :: 0 <= i < lo ==> sorted[i] < t
      invariant forall i :: hi < i < |sorted| ==> t < sorted[i]
      decreases hi - lo
    {
      // lo + hi is non-negative here, so Dafny's division agrees with C++'s truncation
      var mid := (lo + hi) / 2;
      if sorted[mid] < t {
        assert forall i :: 0 <= i <= mid ==> sorted[i] <= sorted[mid];
        lo := mid + 1;
      } else if sorted[mid] > t {
        assert forall i :: mid <= i < |sorted| ==> sorted[mid] <= sorted[i];
        hi := mid - 1;
      } else {
        return sorted, mid;
      }
    }
    assert t !in sorted by {
      forall i | 0 <= i < |sorted|
        ensures sorted[i] != t
      {
      }
    }
    assert t !in multiset(vec);
    r := -1;
  }
}
