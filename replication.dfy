/**
 * The leader's replica choice and read fallback as functions of their inputs: the
 * candidate list (other ports, ascending), the round-robin walk that collects up to
 * `tolerance` successful Store calls, the first holder that answers a Retrieve, and
 * the union of views collected while discovering peers.
 */
module Replication {
  import opened Optional
  import opened JavaString
  import opened Nodes

  // ---------------------------------------------------------------- candidates

  /** The snapshot members whose port differs from this node's, in snapshot order. */
  function OtherPorts(members: seq<NodeInfo>, selfPort: int): (r: seq<NodeInfo>)
    ensures forall n :: n in r <==> n in members && n.port != selfPort
    ensures multiset(r) <= multiset(members)
  {
    if members == [] then []
    else
      assert members == [members[0]] + members[1..];
      (if members[0].port != selfPort then [members[0]] else []) + OtherPorts(members[1..], selfPort)
  }

  ghost predicate SortedByPort(s: seq<NodeInfo>) {
    forall i, j | 0 <= i < j < |s| :: s[i].port <= s[j].port
  }

  /** Inserts `x` before the first element with a port at least its own (stable). */
  function InsertByPort(x: NodeInfo, s: seq<NodeInfo>): (r: seq<NodeInfo>)
    ensures multiset(r) == multiset(s) + multiset{x}
    ensures forall y :: y in r <==> y == x || y in s
  {
    if s == [] || x.port <= s[0].port then [x] + s
    else
      assert s == [s[0]] + s[1..];
      [s[0]] + InsertByPort(x, s[1..])
  }

  lemma {:induction false} InsertByPortSorted(x: NodeInfo, s: seq<NodeInfo>)
    requires SortedByPort(s)
    ensures SortedByPort(InsertByPort(x, s))
    decreases |s|
  {
    if s != [] && x.port > s[0].port {
      var rest := InsertByPort(x, s[1..]);
      InsertByPortSorted(x, s[1..]);
      var r := [s[0]] + rest;
      assert r == InsertByPort(x, s);
      forall i, j | 0 <= i < j < |r| ensures r[i].port <= r[j].port {
        if i == 0 {
          assert r[j] in rest;
          if r[j] != x {
            var k :| 0 <= k < |s[1..]| && s[1..][k] == r[j];
            assert s[k + 1] == r[j];
          }
        } else {
          assert r[i] == rest[i - 1] && r[j] == rest[j - 1];
        }
      }
    }
  }

  /** `sorted(comparingInt(getPort))`: a stable insertion sort on the port. */
  function SortByPort(s: seq<NodeInfo>): (r: seq<NodeInfo>)
    ensures multiset(r) == multiset(s)
    ensures forall y :: y in r <==> y in s
    ensures SortedByPort(r)
  {
    if s == [] then []
    else
      assert s == [s[0]] + s[1..];
      var sorted := SortByPort(s[1..]);
      InsertByPortSorted(s[0], sorted);
      InsertByPort(s[0], sorted)
  }

  /** A list in which every element occurs at most as often as in a duplicate-free list has no duplicates. */
  lemma NoDuplicatesWithin<T>(a: seq<T>, b: seq<T>)
    requires multiset(a) <= multiset(b)
    ensures NoDuplicates(b) ==> NoDuplicates(a)
  {
    if NoDuplicates(b) {
      forall x | x in a ensures multiset(a)[x] == 1 {
        assert x in multiset(b);
      }
    }
  }

  /**
   * The replica candidates of a SET: the snapshot members on a port other than this
   * node's, each once, in ascending port order.
   */
  function Candidates(snapshot: seq<NodeInfo>, self: NodeInfo): (r: seq<NodeInfo>)
    ensures SortedByPort(r)
    ensures forall n :: n in r <==> n in snapshot && n.port != self.port
    ensures NoDuplicates(snapshot) ==> NoDuplicates(r)
  {
    var others := OtherPorts(snapshot, self.port);
    var r := SortByPort(others);
    NoDuplicatesWithin(r, snapshot);
    r
  }

  // ---------------------------------------------------------------- the round-robin walk

  /** The candidates in walk order: from index `start` to the end, then from the front. */
  function Rotate(c: seq<NodeInfo>, start: nat): (r: seq<NodeInfo>)
    requires start <= |c|
    ensures multiset(r) == multiset(c)
  {
    assert c == c[..start] + c[start..];
    c[start..] + c[..start]
  }

  /** Step `i` of the walk visits candidate `(start + i) mod |c|`. */
  lemma RotateAt(c: seq<NodeInfo>, start: nat, i: nat)
    requires start < |c| && i < |c|
    ensures Rotate(c, start)[i] == c[(start + i) % |c|]
  {
    var r := Rotate(c, start);
    assert r == c[start..] + c[..start];
    if start + i < |c| {
      DivModUnique(start + i, |c|, 0, start + i);
      assert r[i] == c[start..][i];
    } else {
      DivModUnique(start + i, |c|, 1, start + i - |c|);
      assert r[i] == c[..start][i - (|c| - start)];
    }
  }

  /** The members of `s`, in order, whose Store call succeeds. */
  function Successes(s: seq<NodeInfo>, store: NodeInfo -> bool): (r: seq<NodeInfo>)
    ensures forall n | n in r :: store(n)
    ensures |r| <= |s|
  {
    if s == [] then []
    else Successes(s[..|s| - 1], store) + (if store(s[|s| - 1]) then [s[|s| - 1]] else [])
  }

  /** Each node occurs among the successes as often as in the walk if its Store succeeds, else never. */
  lemma {:induction false} SuccessesCount(s: seq<NodeInfo>, store: NodeInfo -> bool, n: NodeInfo)
    ensures multiset(Successes(s, store))[n] == if store(n) then multiset(s)[n] else 0
    decreases |s|
  {
    if s != [] {
      SuccessesCount(s[..|s| - 1], store, n);
      assert s == s[..|s| - 1] + [s[|s| - 1]];
    }
  }

  lemma {:induction false} SuccessesAppend(a: seq<NodeInfo>, b: seq<NodeInfo>, store: NodeInfo -> bool)
    ensures Successes(a + b, store) == Successes(a, store) + Successes(b, store)
    decreases |b|
  {
    if b == [] {
      assert a + b == a;
    } else {
      var b' := b[..|b| - 1];
      assert (a + b)[..|a + b| - 1] == a + b';
      SuccessesAppend(a, b', store);
    }
  }

  /** The first `n` elements (none for `n <= 0`, all when there are fewer). */
  function Take(s: seq<NodeInfo>, n: int): seq<NodeInfo> {
    if n <= 0 then [] else if n >= |s| then s else s[..n]
  }

  /** Where the walk of a SET starts: the request counter reduced modulo the number of candidates. */
  function StartIndex(counter: nat, size: nat): (k: nat)
    requires size > 0
    ensures k < size
  {
    counter % size
  }

  /**
   * Where a SET places its replicas: walking the candidates from
   * `counter mod |candidates|`, the first `tolerance` whose Store call succeeds.
   */
  function Placement(candidates: seq<NodeInfo>, counter: nat, tolerance: int, store: NodeInfo -> bool): seq<NodeInfo> {
    if candidates == [] then []
    else Take(Successes(Rotate(candidates, StartIndex(counter, |candidates|)), store), tolerance)
  }

  /**
   * The walk stops as soon as `tolerance` Store calls have succeeded (at once when
   * `tolerance <= 0`): what has been collected by then is the whole placement.
   */
  lemma {:induction false} WalkStopsAtTolerance(walk: seq<NodeInfo>, i: nat, tolerance: int, store: NodeInfo -> bool)
    requires i <= |walk|
    requires tolerance <= 0 ==> i == 0
    requires tolerance > 0 ==> |Successes(walk[..i], store)| == tolerance
    ensures Take(Successes(walk, store), tolerance) == Successes(walk[..i], store)
  {
    assert walk == walk[..i] + walk[i..];
    SuccessesAppend(walk[..i], walk[i..], store);
    if tolerance > 0 {
      var all := Successes(walk, store);
      assert all[..tolerance] == Successes(walk[..i], store);
    }
  }

  /**
   * Every holder is a candidate whose Store call succeeded, there are at most
   * `tolerance` of them (none when `tolerance <= 0`) and at most as many as
   * candidates, and no holder is listed twice.
   */
  lemma PlacementSound(candidates: seq<NodeInfo>, counter: nat, tolerance: int, store: NodeInfo -> bool)
    requires NoDuplicates(candidates)
    ensures var p := Placement(candidates, counter, tolerance, store);
      && |p| <= |candidates|
      && (tolerance <= 0 ==> p == [])
      && (tolerance >= 0 ==> |p| <= tolerance)
      && (forall n | n in p :: n in candidates && store(n))
      && NoDuplicates(p)
  {
    var p := Placement(candidates, counter, tolerance, store);
    if candidates != [] {
      var rot := Rotate(candidates, StartIndex(counter, |candidates|));
      var walk := Successes(rot, store);
      if 0 < tolerance < |walk| {
        assert walk == walk[..tolerance] + walk[tolerance..];
      }
      assert multiset(p) <= multiset(walk);
      forall n ensures multiset(walk)[n] <= multiset(candidates)[n] {
        SuccessesCount(rot, store, n);
      }
      assert multiset(p) <= multiset(candidates);
      forall n | n in p ensures n in candidates {
        assert n in multiset(candidates);
      }
      NoDuplicatesWithin(p, candidates);
    }
  }

  /**
   * The replication bound: a SET with `T >= 0` places `min(T, reachable)` replicas,
   * where `reachable` counts the candidates whose Store call succeeds, whatever the
   * round-robin start.
   */
  lemma ReplicationBound(candidates: seq<NodeInfo>, counter: nat, tolerance: nat, store: NodeInfo -> bool)
    ensures var reachable := |Successes(candidates, store)|;
      |Placement(candidates, counter, tolerance, store)| == if tolerance <= reachable then tolerance else reachable
  {
    if candidates != [] {
      SuccessesRotate(candidates, StartIndex(counter, |candidates|), store);
    }
  }

  /** Where the walk starts does not change how many Store calls succeed. */
  lemma SuccessesRotate(c: seq<NodeInfo>, k: nat, store: NodeInfo -> bool)
    requires k <= |c|
    ensures |Successes(Rotate(c, k), store)| == |Successes(c, store)|
  {
    SuccessesAppend(c[k..], c[..k], store);
    SuccessesAppend(c[..k], c[k..], store);
    assert c[..k] + c[k..] == c;
  }

  /**
   * Fewer than `tolerance` holders only when the walk went all the way round: every
   * candidate whose Store call succeeds is then a holder.
   */
  lemma ShortfallMeansAllTried(candidates: seq<NodeInfo>, counter: nat, tolerance: int, store: NodeInfo -> bool)
    requires |Placement(candidates, counter, tolerance, store)| < tolerance
    ensures forall n | n in candidates && store(n) :: n in Placement(candidates, counter, tolerance, store)
  {
    if candidates != [] {
      var rot := Rotate(candidates, StartIndex(counter, |candidates|));
      forall n | n in candidates && store(n) ensures n in Successes(rot, store) {
        SuccessesCount(rot, store, n);
        assert n in multiset(rot);
      }
    }
  }

  // ---------------------------------------------------------------- the 32-bit request counter

  /** The value a 32-bit two's-complement counter holds after counting up to `x`. */
  function WrapInt32(x: int): (r: Int32)
    ensures IsInt32(x) ==> r == x
  {
    (x - IntMin) % 0x1_0000_0000 + IntMin
  }

  /** Java's `%` on ints: truncates toward zero, so the remainder takes the dividend's sign. */
  function JavaRem(a: int, b: int): (r: int)
    requires b > 0
    ensures a >= 0 ==> 0 <= r < b
    ensures a < 0 ==> -b < r <= 0
  {
    if a >= 0 then a % b else -((-a) % b)
  }

  /** The start index as written: the 32-bit counter value, Java `%` the candidate count. */
  function JavaStartIndex(counter: Int32, size: nat): int
    requires size > 0
  {
    JavaRem(counter, size)
  }

  /** While the counter has not wrapped, the start index as written is the intended one. */
  lemma JavaStartIndexBeforeWrap(counter: nat, size: nat)
    requires size > 0 && counter <= IntMax
    ensures JavaStartIndex(WrapInt32(counter), size) == StartIndex(counter, size)
  {
  }

  /**
   * After 2^31 SETs that found candidates, the next one reads -2^31 from the wrapped
   * counter; with three candidates its start index is -2, which is no index into the
   * candidate list.
   */
  lemma JavaStartIndexAfterWrap()
    ensures WrapInt32(IntMax + 1) == IntMin
    ensures JavaStartIndex(WrapInt32(IntMax + 1), 3) == -2
  {
    assert 2147483648 % 3 == 2;
  }

  // ---------------------------------------------------------------- round-robin fairness

  /** How many of the counter values `a .. a + n - 1` pick start index `j` among `m` candidates. */
  function StartCount(a: nat, n: nat, m: nat, j: nat): nat
    requires m > 0
  {
    if n == 0 then 0 else StartCount(a, n - 1, m, j) + (if (a + n - 1) % m == j then 1 else 0)
  }

  lemma {:induction false} StartCountSplit(a: nat, n1: nat, n2: nat, m: nat, j: nat)
    requires m > 0
    ensures StartCount(a, n1 + n2, m, j) == StartCount(a, n1, m, j) + StartCount(a + n1, n2, m, j)
    decreases n2
  {
    if n2 > 0 {
      StartCountSplit(a, n1, n2 - 1, m, j);
    }
  }

  lemma {:induction false} StartCountFromZero(n: nat, m: nat, j: nat)
    requires 0 < m && n <= m && j < m
    ensures StartCount(0, n, m, j) == if j < n then 1 else 0
    decreases n
  {
    if n > 0 {
      StartCountFromZero(n - 1, m, j);
      DivModUnique(n - 1, m, 0, n - 1);
    }
  }

  /** Any `m` consecutive counter values pick each start index exactly once. */
  lemma {:induction false} StartCountWindow(a: nat, m: nat, j: nat)
    requires 0 < m && j < m
    ensures StartCount(a, m, m, j) == 1
    decreases a
  {
    if a == 0 {
      StartCountFromZero(m, m, j);
    } else {
      StartCountWindow(a - 1, m, j);
      StartCountSplit(a - 1, 1, m - 1, m, j);
      StartCountSplit(a, m - 1, 1, m, j);
      DivShift(a - 1, m);
    }
  }

  lemma {:induction false} StartCountAtMostOne(a: nat, n: nat, m: nat, j: nat)
    requires 0 < m && n <= m && j < m
    ensures StartCount(a, n, m, j) <= 1
  {
    StartCountSplit(a, n, m - n, m, j);
    StartCountWindow(a, m, j);
  }

  /**
   * Round-robin fairness: over `n` consecutive SETs against `m` stable candidates,
   * each candidate is the starting point `floor(n / m)` or `ceil(n / m)` times.
   */
  lemma {:induction false} RoundRobinFair(a: nat, n: nat, m: nat, j: nat)
    requires 0 < m && j < m
    ensures n / m <= StartCount(a, n, m, j) <= (n + m - 1) / m
    decreases n
  {
    if n < m {
      StartCountAtMostOne(a, n, m, j);
      DivModUnique(n, m, 0, n);
      if n == 0 {
        DivModUnique(m - 1, m, 0, m - 1);
      } else {
        DivModUnique(n + m - 1, m, 1, n - 1);
      }
    } else {
      var before: nat := n - m;
      RoundRobinFair(a, before, m, j);
      StartCountSplit(a, before, m, m, j);
      StartCountWindow(a + before, m, j);
      assert StartCount(a, n, m, j) == StartCount(a, before, m, j) + 1;
      DivShift(before, m);
      DivShift(before + m - 1, m);
      assert before + m == n;
    }
  }

  lemma MulAtLeast(k: int, m: int)
    requires k >= 1 && m > 0
    ensures k * m >= m
  {
  }

  lemma DivModUnique(x: int, m: int, q: int, r: int)
    requires 0 < m && 0 <= r < m && x == q * m + r
    ensures x / m == q && x % m == r
  {
    var q', r' := x / m, x % m;
    assert x == q' * m + r';
    assert (q - q') * m == r' - r;
    if q' < q {
      MulAtLeast(q - q', m);
    } else if q' > q {
      MulAtLeast(q' - q, m);
    }
  }

  lemma DivShift(x: int, m: int)
    requires m > 0
    ensures (x + m) % m == x % m && (x + m) / m == x / m + 1
  {
    DivModUnique(x + m, m, x / m + 1, x % m);
  }

  // ---------------------------------------------------------------- read fallback

  /** The first holder, in list order, whose Retrieve call reports the record found. */
  function FirstFound(holders: seq<NodeInfo>, retrieve: NodeInfo -> Option<string>): Option<string> {
    if holders == [] then None
    else if retrieve(holders[0]).Some? then retrieve(holders[0])
    else FirstFound(holders[1..], retrieve)
  }

  /** The fallback yields `v` exactly when some holder returns `v` and every earlier holder misses. */
  lemma {:induction false} FirstFoundIsFirstHit(holders: seq<NodeInfo>, retrieve: NodeInfo -> Option<string>, v: string)
    ensures FirstFound(holders, retrieve) == Some(v) <==>
      exists i :: 0 <= i < |holders| && retrieve(holders[i]) == Some(v) &&
                  forall k | 0 <= k < i :: retrieve(holders[k]).None?
    decreases |holders|
  {
    if holders != [] {
      FirstFoundIsFirstHit(holders[1..], retrieve, v);
      if retrieve(holders[0]).None? {
        if FirstFound(holders, retrieve) == Some(v) {
          var i :| 0 <= i < |holders[1..]| && retrieve(holders[1..][i]) == Some(v) &&
                   forall k | 0 <= k < i :: retrieve(holders[1..][k]).None?;
          assert forall k | 0 <= k < i + 1 :: retrieve(holders[k]).None? by {
            forall k | 0 <= k < i + 1 ensures retrieve(holders[k]).None? {
              if k > 0 { assert holders[k] == holders[1..][k - 1]; }
            }
          }
        }
        if exists i :: 0 <= i < |holders| && retrieve(holders[i]) == Some(v) &&
                       forall k | 0 <= k < i :: retrieve(holders[k]).None? {
          var i :| 0 <= i < |holders| && retrieve(holders[i]) == Some(v) &&
                   forall k | 0 <= k < i :: retrieve(holders[k]).None?;
          assert i > 0;
          assert holders[1..][i - 1] == holders[i];
          assert forall k | 0 <= k < i - 1 :: holders[1..][k] == holders[k + 1];
        }
      } else {
        if FirstFound(holders, retrieve) == Some(v) {
          assert retrieve(holders[0]) == Some(v);
        }
      }
    }
  }

  /** The fallback misses exactly when every holder misses. */
  lemma {:induction false} FirstFoundMissesAll(holders: seq<NodeInfo>, retrieve: NodeInfo -> Option<string>)
    ensures FirstFound(holders, retrieve).None? <==> forall i | 0 <= i < |holders| :: retrieve(holders[i]).None?
    decreases |holders|
  {
    if holders != [] {
      FirstFoundMissesAll(holders[1..], retrieve);
      assert forall i | 1 <= i < |holders| :: holders[i] == holders[1..][i - 1];
    }
  }

  // ---------------------------------------------------------------- discovery

  /** The members of every view returned by a successful Join to a port in `lo .. hi - 1`. */
  function JoinedViews(lo: int, hi: int, join: int -> Option<seq<NodeInfo>>): set<NodeInfo>
    decreases hi - lo
  {
    if hi <= lo then {}
    else
      var view := join(hi - 1);
      JoinedViews(lo, hi - 1, join) + (if view.Some? then set n | n in view.value else {})
  }

  /** A node is gathered exactly when some port in range answered with a view holding it. */
  lemma {:induction false} JoinedViewsMembers(lo: int, hi: int, join: int -> Option<seq<NodeInfo>>, n: NodeInfo)
    ensures n in JoinedViews(lo, hi, join) <==>
      exists p :: lo <= p < hi && join(p).Some? && n in join(p).value
    decreases hi - lo
  {
    if hi > lo {
      JoinedViewsMembers(lo, hi - 1, join, n);
    }
  }
}
