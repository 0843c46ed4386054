/** Which frames a list of requested times selects: sorted, looked up one by one, up to the first
    time that is not found. */
module FrameRequests {
  import opened Lpxstd
  import opened FrameIndex
  import opened FrameLookup

  // ---------------------------------------------------------------- sorting

  function Insert(x: nat, s: seq<nat>): (r: seq<nat>)
    ensures |r| == |s| + 1
  {
    if s == [] || x <= s[0] then [x] + s else [s[0]] + Insert(x, s[1..])
  }

  function SortTimes(s: seq<nat>): (r: seq<nat>)
    ensures |r| == |s|
  {
    if s == [] then [] else Insert(s[0], SortTimes(s[1..]))
  }

  predicate Sorted(s: seq<nat>)
  {
    forall i, j :: 0 <= i <= j < |s| ==> s[i] <= s[j]
  }

  lemma {:induction false} InsertSorted(x: nat, s: seq<nat>)
    requires Sorted(s)
    ensures Sorted(Insert(x, s)) && multiset(Insert(x, s)) == multiset{x} + multiset(s)
  {
    if s != [] && x > s[0] {
      InsertSorted(x, s[1..]);
      assert s == [s[0]] + s[1..];
      LeastInFront(s[0], Insert(x, s[1..]), x, s[1..]);
    } else {
      assert s == [] || s == [s[0]] + s[1..];
    }
  }

  lemma LeastInFront(y: nat, r: seq<nat>, x: nat, s: seq<nat>)
    requires Sorted(r) && multiset(r) == multiset{x} + multiset(s)
    requires y <= x && forall i :: 0 <= i < |s| ==> y <= s[i]
    ensures Sorted([y] + r)
  {
    forall i | 0 <= i < |r|
      ensures y <= r[i]
    {
      assert r[i] in multiset(r);
    }
  }

  /** `SortTimes` orders its argument and keeps its elements: what `qsort` promises. */
  lemma {:induction false} SortTimesSorts(s: seq<nat>)
    ensures Sorted(SortTimes(s)) && multiset(SortTimes(s)) == multiset(s)
  {
    if s != [] {
      SortTimesSorts(s[1..]);
      InsertSorted(s[0], SortTimes(s[1..]));
      assert s == [s[0]] + s[1..];
    }
  }

  /** Any sorting gives the same result. */
  lemma {:induction false} SortedUnique(s: seq<nat>, t: seq<nat>)
    requires Sorted(s) && Sorted(t) && multiset(s) == multiset(t)
    ensures s == t
  {
    assert |multiset(s)| == |multiset(t)|;
    if s != [] {
      SameLeast(s, t);
      assert s == [s[0]] + s[1..] && t == [t[0]] + t[1..];
      assert multiset(s[1..]) == multiset(s) - multiset{s[0]};
      assert multiset(t[1..]) == multiset(t) - multiset{t[0]};
      SortedUnique(s[1..], t[1..]);
    }
  }

  lemma SameLeast(s: seq<nat>, t: seq<nat>)
    requires Sorted(s) && Sorted(t) && multiset(s) == multiset(t) && s != [] && t != []
    ensures s[0] == t[0]
  {
    assert s[0] in multiset(t) && t[0] in multiset(s);
  }

  lemma OrderOfRequestIrrelevant(s: seq<nat>, t: seq<nat>)
    requires multiset(s) == multiset(t)
    ensures SortTimes(s) == SortTimes(t)
  {
    SortTimesSorts(s);
    SortTimesSorts(t);
    SortedUnique(SortTimes(s), SortTimes(t));
  }

  // ---------------------------------------------------------------- looking up

  /** The loop with its early break. */
  function TakeFound(index: seq<FrameMeta>, times: seq<nat>): (r: seq<nat>)
    requires index != []
    ensures |r| <= |times|
  {
    if times == [] || FindFrame(index, times[0]) < 0 then []
    else [FindFrame(index, times[0])] + TakeFound(index, times[1..])
  }

  /** The results of all lookups that succeed. */
  function Hits(index: seq<FrameMeta>, times: seq<nat>): (r: seq<nat>)
    requires index != []
  {
    if times == [] then []
    else if FindFrame(index, times[0]) < 0 then Hits(index, times[1..])
    else [FindFrame(index, times[0])] + Hits(index, times[1..])
  }

  predicate Missed(index: seq<FrameMeta>, t: nat)
    requires index != []
  {
    FindFrame(index, t) == -1
  }

  /** Some lookup that would succeed comes after one that fails. */
  predicate HitAfterMiss(index: seq<FrameMeta>, times: seq<nat>)
    requires index != []
  {
    exists i, j :: 0 <= i < j < |times| && Missed(index, times[i]) && !Missed(index, times[j])
  }

  lemma {:induction false} AllMissed(index: seq<FrameMeta>, times: seq<nat>)
    requires index != []
    ensures Hits(index, times) == [] <==> forall i :: 0 <= i < |times| ==> Missed(index, times[i])
  {
    if times != [] {
      AllMissed(index, times[1..]);
      assert forall i :: 0 < i < |times| ==> times[i] == times[1..][i - 1];
      assert forall i :: 0 <= i < |times| - 1 ==> times[1..][i] == times[i + 1];
    }
  }

  /** The break costs results exactly when some hit follows a miss. */
  lemma {:induction false} BreakCosts(index: seq<FrameMeta>, times: seq<nat>)
    requires index != []
    ensures HitAfterMiss(index, times) ==> |TakeFound(index, times)| < |Hits(index, times)|
    ensures !HitAfterMiss(index, times) ==> TakeFound(index, times) == Hits(index, times)
  {
    if times != [] {
      var rest := times[1..];
      assert times == [times[0]] + rest;
      AllMissed(index, rest);
      if Missed(index, times[0]) {
        BreakAtHead(index, times);
      } else {
        BreakCosts(index, rest);
        BreakLater(index, times);
      }
    }
  }

  lemma BreakAtHead(index: seq<FrameMeta>, times: seq<nat>)
    requires index != [] && times != [] && Missed(index, times[0])
    ensures HitAfterMiss(index, times) <==> exists j :: 0 <= j < |times| - 1 && !Missed(index, times[1..][j])
  {
    if HitAfterMiss(index, times) {
      var i, j :| 0 <= i < j < |times| && Missed(index, times[i]) && !Missed(index, times[j]);
      assert times[1..][j - 1] == times[j];
    } else {
      forall j | 0 <= j < |times| - 1
        ensures Missed(index, times[1..][j])
      {
        assert times[1..][j] == times[j + 1];
      }
    }
  }

  lemma BreakLater(index: seq<FrameMeta>, times: seq<nat>)
    requires index != [] && times != [] && !Missed(index, times[0])
    ensures HitAfterMiss(index, times) <==> HitAfterMiss(index, times[1..])
  {
    if HitAfterMiss(index, times) {
      var i, j :| 0 <= i < j < |times| && Missed(index, times[i]) && !Missed(index, times[j]);
      assert times[1..][i - 1] == times[i] && times[1..][j - 1] == times[j];
    }
    if HitAfterMiss(index, times[1..]) {
      var i, j :| 0 <= i < j < |times[1..]| && Missed(index, times[1..][i]) && !Missed(index, times[1..][j]);
      assert times[1..][i] == times[i + 1] && times[1..][j] == times[j + 1];
    }
  }

  lemma {:induction false} HitsOfInsert(index: seq<FrameMeta>, x: nat, s: seq<nat>)
    requires index != []
    ensures multiset(Hits(index, Insert(x, s))) == multiset(Hits(index, [x] + s))
  {
    assert ([x] + s)[1..] == s;
    if s != [] && x > s[0] {
      HitsOfInsert(index, x, s[1..]);
      assert ([x] + s[1..])[1..] == s[1..];
    }
  }

  /** Sorting does not change which lookups there are. */
  lemma {:induction false} HitsOfSort(index: seq<FrameMeta>, s: seq<nat>)
    requires index != []
    ensures multiset(Hits(index, SortTimes(s))) == multiset(Hits(index, s))
  {
    if s != [] {
      HitsOfSort(index, s[1..]);
      HitsOfInsert(index, s[0], SortTimes(s[1..]));
      assert ([s[0]] + SortTimes(s[1..]))[1..] == SortTimes(s[1..]);
    }
  }

  // ---------------------------------------------------------------- what a request gets

  /** The requested offsets as they are compared and looked up. */
  function Unsigned(xs: seq<int>): (ts: seq<nat>)
    ensures |ts| == |xs|
  {
    seq(|xs|, i requires 0 <= i < |xs| => ToUint64(xs[i]))
  }

  /** What the server selects for the requested offsets. */
  function Selected(index: seq<FrameMeta>, xs: seq<int>): seq<nat>
    requires index != []
  {
    TakeFound(index, SortTimes(Unsigned(xs)))
  }

  /** It selects every frame that a lookup of some requested offset gives, as often as it is given. */
  predicate LosesNothing(index: seq<FrameMeta>, xs: seq<int>)
    requires index != []
  {
    multiset(Selected(index, xs)) == multiset(Hits(index, Unsigned(xs)))
  }

  predicate AllAccepted(index: seq<FrameMeta>, xs: seq<int>)
    requires index != []
  {
    forall i :: 0 <= i < |xs| ==> Accepted(index, xs[i])
  }

  lemma LossIsHitAfterMiss(index: seq<FrameMeta>, xs: seq<int>)
    requires index != []
    ensures LosesNothing(index, xs) <==> !HitAfterMiss(index, SortTimes(Unsigned(xs)))
  {
    var ts := SortTimes(Unsigned(xs));
    BreakCosts(index, ts);
    HitsOfSort(index, Unsigned(xs));
    assert |multiset(TakeFound(index, ts))| == |TakeFound(index, ts)|;
    assert |multiset(Hits(index, ts))| == |Hits(index, ts)|;
  }

  /** Some requested offset misses and some negative one does not. */
  predicate MissAndNegativeHit(index: seq<FrameMeta>, xs: seq<int>)
    requires index != []
  {
    && (exists a :: 0 <= a < |xs| && Misses(index, xs[a]))
    && (exists b :: 0 <= b < |xs| && xs[b] < 0 && !Misses(index, xs[b]))
  }

  lemma MissedMeaning(index: seq<FrameMeta>, xs: seq<int>, i: nat)
    requires Ordered(index) && AllAccepted(index, xs) && i < |xs|
    ensures Missed(index, Unsigned(xs)[i]) <==> Misses(index, xs[i])
  {
    FindFrameMeaning(index, xs[i]);
  }

  /** Where a sorted time came from. */
  lemma RequestOf(xs: seq<int>, j: nat) returns (i: nat)
    requires j < |xs|
    ensures i < |xs| && SortTimes(Unsigned(xs))[j] == Unsigned(xs)[i]
  {
    SortTimesSorts(Unsigned(xs));
    assert SortTimes(Unsigned(xs))[j] in multiset(Unsigned(xs));
    i :| 0 <= i < |xs| && SortTimes(Unsigned(xs))[j] == Unsigned(xs)[i];
  }

  /** Where a requested offset is sorted to. */
  lemma PlaceOf(xs: seq<int>, i: nat) returns (j: nat)
    requires i < |xs|
    ensures j < |xs| && SortTimes(Unsigned(xs))[j] == Unsigned(xs)[i]
  {
    SortTimesSorts(Unsigned(xs));
    assert Unsigned(xs)[i] in multiset(SortTimes(Unsigned(xs)));
    j :| 0 <= j < |xs| && SortTimes(Unsigned(xs))[j] == Unsigned(xs)[i];
  }

  lemma HitAfterMissIsNegative(index: seq<FrameMeta>, xs: seq<int>)
    requires Ordered(index) && AllAccepted(index, xs) && HitAfterMiss(index, SortTimes(Unsigned(xs)))
    ensures MissAndNegativeHit(index, xs)
  {
    var ts := SortTimes(Unsigned(xs));
    SortTimesSorts(Unsigned(xs));
    var i, j :| 0 <= i < j < |ts| && Missed(index, ts[i]) && !Missed(index, ts[j]);
    var a := RequestOf(xs, i);
    var b := RequestOf(xs, j);
    MissedMeaning(index, xs, a);
    MissedMeaning(index, xs, b);
    HitBehindMissIsNegative(index, xs[a], xs[b]);
  }

  lemma NegativeHitIsAfterMiss(index: seq<FrameMeta>, xs: seq<int>)
    requires Ordered(index) && AllAccepted(index, xs) && MissAndNegativeHit(index, xs)
    ensures HitAfterMiss(index, SortTimes(Unsigned(xs)))
  {
    var a :| 0 <= a < |xs| && Misses(index, xs[a]);
    var b :| 0 <= b < |xs| && xs[b] < 0 && !Misses(index, xs[b]);
    var i := PlaceOf(xs, a);
    var j := PlaceOf(xs, b);
    MissedMeaning(index, xs, a);
    MissedMeaning(index, xs, b);
    NegativeHitIsBehindMiss(index, xs[a], xs[b]);
    SortTimesSorts(Unsigned(xs));
    assert i < j;
  }

  /** Sorted as unsigned numbers, negative offsets come after all others; so the break loses results
      exactly when some requested offset misses and some negative one does not. */
  lemma WhenBreakLosesNothing(index: seq<FrameMeta>, xs: seq<int>)
    requires Ordered(index) && AllAccepted(index, xs)
    ensures LosesNothing(index, xs) <==> !MissAndNegativeHit(index, xs)
  {
    LossIsHitAfterMiss(index, xs);
    if MissAndNegativeHit(index, xs) {
      NegativeHitIsAfterMiss(index, xs);
    } else if HitAfterMiss(index, SortTimes(Unsigned(xs))) {
      HitAfterMissIsNegative(index, xs);
    }
  }

  lemma UnsignedOrder(x: int)
    requires -TWO63 < x < TWO63
    ensures ToUint64(x) == if x < 0 then x + TWO64 else x
  {
  }

  lemma HitBehindMissIsNegative(index: seq<FrameMeta>, x: int, y: int)
    requires Ordered(index) && Accepted(index, x) && Accepted(index, y)
    requires Misses(index, x) && !Misses(index, y) && ToUint64(x) <= ToUint64(y)
    ensures y < 0
  {
    UnsignedOrder(x);
    UnsignedOrder(y);
  }

  lemma NegativeHitIsBehindMiss(index: seq<FrameMeta>, x: int, y: int)
    requires Ordered(index) && Accepted(index, x) && Accepted(index, y)
    requires Misses(index, x) && y < 0 && !Misses(index, y)
    ensures ToUint64(x) < ToUint64(y)
  {
    UnsignedOrder(x);
    UnsignedOrder(y);
  }

  lemma {:induction false} TakeFoundAscends(index: seq<FrameMeta>, times: seq<nat>)
    requires Ordered(index) && Sorted(times)
    requires forall i :: 0 <= i < |times| ==> times[i] < TWO63
    ensures Sorted(TakeFound(index, times))
    ensures TakeFound(index, times) != [] ==> times != [] && TakeFound(index, times)[0] == FindFrame(index, times[0])
  {
    if times != [] && FindFrame(index, times[0]) >= 0 {
      var rest := times[1..];
      assert forall i :: 0 <= i < |rest| ==> rest[i] == times[i + 1];
      TakeFoundAscends(index, rest);
      if TakeFound(index, rest) != [] {
        FindFrameMonotone(index, times[0], rest[0]);
      }
    }
  }

  /** For offsets from the start on, nothing is lost, the frames come in order, and the order of the
      request does not matter. */
  lemma EarlyBreakLosesNothing(index: seq<FrameMeta>, xs: seq<int>)
    requires Ordered(index)
    requires forall i :: 0 <= i < |xs| ==> 0 <= xs[i] < TWO63
    ensures LosesNothing(index, xs)
    ensures Sorted(Selected(index, xs))
    ensures forall ys :: multiset(ys) == multiset(xs) ==> Selected(index, ys) == Selected(index, xs)
  {
    WhenBreakLosesNothing(index, xs);
    var ts := SortTimes(Unsigned(xs));
    SortTimesSorts(Unsigned(xs));
    forall j | 0 <= j < |ts|
      ensures ts[j] < TWO63
    {
      var i := RequestOf(xs, j);
      UnsignedOrder(xs[i]);
    }
    TakeFoundAscends(index, ts);
    forall ys | multiset(ys) == multiset(xs)
      ensures Selected(index, ys) == Selected(index, xs)
    {
      MapPermutes(ToUint64, ys, xs);
      assert Unsigned(ys) == Mapped(ToUint64, ys) && Unsigned(xs) == Mapped(ToUint64, xs);
      OrderOfRequestIrrelevant(Unsigned(ys), Unsigned(xs));
    }
  }

  function Without<T>(s: seq<T>, k: nat): seq<T>
    requires k < |s|
  {
    s[..k] + s[k + 1..]
  }

  lemma WithoutRemoves<T>(s: seq<T>, k: nat)
    requires k < |s|
    ensures multiset(s) == multiset(Without(s, k)) + multiset{s[k]}
  {
    assert s == s[..k] + [s[k]] + s[k + 1..];
  }

  function Mapped<T, U>(f: T -> U, s: seq<T>): (r: seq<U>)
    ensures |r| == |s|
  {
    seq(|s|, i requires 0 <= i < |s| => f(s[i]))
  }

  lemma MappedWithout<T, U>(f: T -> U, s: seq<T>, k: nat)
    requires k < |s|
    ensures Mapped(f, Without(s, k)) == Without(Mapped(f, s), k)
  {
  }

  lemma {:induction false} MapPermutes<T, U>(f: T -> U, s: seq<T>, t: seq<T>)
    requires multiset(s) == multiset(t)
    ensures multiset(Mapped(f, s)) == multiset(Mapped(f, t))
    decreases |s|
  {
    if s == [] {
      assert |multiset(t)| == 0;
    } else {
      assert s[0] in multiset(t);
      var k :| 0 <= k < |t| && t[k] == s[0];
      WithoutRemoves(s, 0);
      WithoutRemoves(t, k);
      assert multiset(Without(s, 0)) == multiset(s) - multiset{s[0]};
      assert multiset(Without(t, k)) == multiset(t) - multiset{s[0]};
      MapPermutes(f, Without(s, 0), Without(t, k));
      MappedWithout(f, s, 0);
      MappedWithout(f, t, k);
      WithoutRemoves(Mapped(f, s), 0);
      WithoutRemoves(Mapped(f, t), k);
    }
  }

  lemma OneOrTwoTimes(t: nat, u: nat)
    requires u < t
    ensures SortTimes([t]) == [t] && SortTimes([t, u]) == [u, t]
  {
    assert [t][1..] == [] && [u][1..] == [] && [t, u][1..] == [u];
    assert SortTimes([t]) == [t] && SortTimes([u]) == [u];
    assert SortTimes([t, u]) == Insert(t, [u]) == [u] + Insert(t, []);
  }

  lemma NegativeIsFirst(index: seq<FrameMeta>)
    requires index == [FrameMeta(100, 110), FrameMeta(110, 120)]
    ensures FindFrame(index, ToUint64(-5)) == 0 && FindFrame(index, 30) == -1
  {
    FindFrameMeaning(index, -5);
    FindFrameAfterStart(index, 30);
    assert Gap(index, 0, -5) == 5 && Gap(index, 1, -5) == 15;
  }

  /** A request for a time after the end hides the answer to one before the start. */
  lemma NegativeRequestLost()
    ensures var index := [FrameMeta(100, 110), FrameMeta(110, 120)];
            Selected(index, [-5]) == [0] && Selected(index, [-5, 30]) == []
  {
    var t := ToUint64(-5);
    NegativeIsFirst([FrameMeta(100, 110), FrameMeta(110, 120)]);
    UnsignedOrder(-5);
    OneOrTwoTimes(t, 30);
    assert Unsigned([-5]) == [t] && Unsigned([-5, 30]) == [t, 30];
    assert [t][1..] == [];
  }
}
