/**
 * Python's `collections.deque(maxlen=k)` as used for the sample window:
 * `append` adds at the right end and, when the deque already holds `k`
 * elements, silently drops the leftmost (oldest) one. The deque is modelled
 * by the sequence of its elements, oldest first.
 */
module BoundedDeque {

  /** The last `min(|s|, k)` elements of `s`, in their original order. */
  function LastN<T>(s: seq<T>, k: nat): (r: seq<T>)
    ensures |r| == if |s| <= k then |s| else k
    ensures s == s[..|s| - |r|] + r
  {
    if |s| <= k then s else s[|s| - k..]
  }

  /**
   * `append(x)` on a deque holding `s` with `maxlen` `k` (a deque never holds
   * more than its `maxlen`). A deque with `maxlen` 0 stays empty.
   */
  function Append<T>(s: seq<T>, x: T, k: nat): (r: seq<T>)
    requires |s| <= k
    ensures r == LastN(s + [x], k)
    ensures |s| <= |r| <= k
    ensures k > 0 ==> r[|r| - 1] == x
  {
    if k == 0 then s
    else if |s| == k then s[1..] + [x]
    else s + [x]
  }

  /**
   * Keeping the last `k` elements of a suffix `t` of `u` that is at least as
   * long as the result is the same as keeping the last `k` of `u`.
   */
  lemma LastNOfSuffix<T>(t: seq<T>, u: seq<T>, k: nat)
    requires |t| <= |u| && t == u[|u| - |t|..]
    requires |t| >= k || t == u
    ensures LastN(t, k) == LastN(u, k)
  {
  }

  /** Truncating before appending more does not change the final window. */
  lemma LastNAbsorbs<T>(a: seq<T>, b: seq<T>, k: nat)
    ensures LastN(LastN(a, k) + b, k) == LastN(a + b, k)
  {
    var t := LastN(a, k) + b;
    var u := a + b;
    assert a == a[..|a| - |LastN(a, k)|] + LastN(a, k);
    assert u == a[..|a| - |LastN(a, k)|] + t;
    LastNOfSuffix(t, u, k);
  }

  /**
   * The deque after appending every element of `xs`, left to right: it holds
   * the last `k` elements of everything it was given, in arrival order.
   */
  function AppendAll<T>(s: seq<T>, xs: seq<T>, k: nat): (r: seq<T>)
    requires |s| <= k
    ensures r == LastN(s + xs, k)
    decreases |xs|
  {
    if xs == [] then
      assert s + xs == s;
      s
    else
      var x, rest := xs[0], xs[1..];
      assert s + xs == s + [x] + rest by { assert xs == [x] + rest; }
      LastNAbsorbs(s + [x], rest, k);
      AppendAll(Append(s, x, k), rest, k)
  }

  /** Capacity 3, readings 21, 22, 23, 24: the window ends as 22, 23, 24. */
  lemma CapacityThreeScenario()
    ensures AppendAll([], [21.0, 22.0, 23.0, 24.0], 3) == [22.0, 23.0, 24.0]
  {
  }
}
