/**
 Floodfill routers by XOR distance: a bounded selection over an unsorted list
 against sorting everything, and the search for the single closest one.
 */
module NetDb {
  import opened Bytes

  /** An ident hash, or the XOR metric of two. */
  type Hash = h: seq<byte> | |h| == 32 witness seq(32, _ => 0)

  datatype RouterInfo = RouterInfo(ident: Hash, unreachable: bool)

  // ---------------------------------------------------------------- the metric and its order

  function Metric(key: Hash, ident: Hash): Hash { Xor(key, ident) }

  /** memcmp(a, b) < 0. */
  predicate Less(a: seq<byte>, b: seq<byte>)
    requires |a| == |b|
    decreases |a|
  {
    a != [] && (a[0] < b[0] || (a[0] == b[0] && Less(a[1..], b[1..])))
  }

  /** With a fixed key, different idents have different metrics. */
  lemma MetricInjective(key: Hash, a: Hash, b: Hash)
    ensures Metric(key, a) == Metric(key, b) <==> a == b
  {
    XorInvolutive(a, key);
    XorInvolutive(b, key);
  }

  lemma {:induction false} LessTrichotomy(a: seq<byte>, b: seq<byte>)
    requires |a| == |b|
    ensures !(Less(a, b) && Less(b, a))
    ensures Less(a, b) || Less(b, a) <==> a != b
    decreases |a|
  {
    if a == [] {
    } else {
      LessTrichotomy(a[1..], b[1..]);
      assert a == [a[0]] + a[1..] && b == [b[0]] + b[1..];
    }
  }

  lemma {:induction false} LessTransitive(a: seq<byte>, b: seq<byte>, c: seq<byte>)
    requires |a| == |b| == |c| && Less(a, b) && Less(b, c)
    ensures Less(a, c)
    decreases |a|
  {
    if a[0] == b[0] && b[0] == c[0] {
      LessTransitive(a[1..], b[1..], c[1..]);
    }
  }

  predicate Closer(key: Hash, a: Hash, b: Hash) { Less(Metric(key, a), Metric(key, b)) }

  /** The distance to a key orders idents totally. */
  lemma CloserTotal(key: Hash, a: Hash, b: Hash)
    ensures !(Closer(key, a, b) && Closer(key, b, a))
    ensures Closer(key, a, b) || Closer(key, b, a) <==> a != b
  {
    LessTrichotomy(Metric(key, a), Metric(key, b));
    MetricInjective(key, a, b);
  }

  lemma CloserTransitive(key: Hash, a: Hash, b: Hash, c: Hash)
    requires Closer(key, a, b) && Closer(key, b, c)
    ensures Closer(key, a, c)
  {
    LessTransitive(Metric(key, a), Metric(key, b), Metric(key, c));
  }

  // ---------------------------------------------------------------- sets sorted by distance

  ghost predicate Ascending(key: Hash, s: seq<Hash>) { forall i, j :: 0 <= i < j < |s| ==> Closer(key, s[i], s[j]) }

  /** std::set::insert: nothing happens if an equal element is there. */
  function Insert(key: Hash, s: seq<Hash>, h: Hash): (r: seq<Hash>)
    ensures |s| <= |r| <= |s| + 1
    decreases |s|
  {
    if s == [] then [h]
    else if Closer(key, h, s[0]) then [h] + s
    else if Closer(key, s[0], h) then [s[0]] + Insert(key, s[1..], h)
    else s
  }

  lemma {:induction false} InsertOk(key: Hash, s: seq<Hash>, h: Hash)
    requires Ascending(key, s)
    ensures Ascending(key, Insert(key, s, h))
    ensures forall x :: x in Insert(key, s, h) <==> x == h || x in s
    ensures h in s <==> Insert(key, s, h) == s
    decreases |s|
  {
    if s == [] {
    } else {
      CloserTotal(key, h, s[0]);
      if Closer(key, h, s[0]) {
        FrontOk(key, s, h);
      } else if Closer(key, s[0], h) {
        InsertOk(key, s[1..], h);
        var t := Insert(key, s[1..], h);
        forall j | 0 <= j < |t| ensures Closer(key, s[0], t[j]) {
          assert t[j] in t;
          if t[j] != h {
            var i :| 0 <= i < |s[1..]| && s[1..][i] == t[j];
            assert s[i + 1] == t[j];
          }
        }
        assert s == [s[0]] + s[1..];
      }
    }
  }

  lemma FrontOk(key: Hash, s: seq<Hash>, h: Hash)
    requires Ascending(key, s) && s != [] && Closer(key, h, s[0])
    ensures Ascending(key, [h] + s) && h !in s
  {
    forall j | 0 <= j < |s| ensures Closer(key, h, s[j]) && h != s[j] {
      if j > 0 {
        CloserTransitive(key, h, s[0], s[j]);
      }
      CloserTotal(key, h, s[j]);
    }
  }

  /** All idents, each once, the closest first. */
  function Sort(key: Hash, hs: seq<Hash>): seq<Hash>
    decreases |hs|
  {
    if hs == [] then [] else Insert(key, Sort(key, hs[..|hs| - 1]), hs[|hs| - 1])
  }

  lemma {:induction false} SortOk(key: Hash, hs: seq<Hash>)
    ensures Ascending(key, Sort(key, hs))
    ensures forall x :: x in Sort(key, hs) <==> x in hs
    decreases |hs|
  {
    if hs == [] {
    } else {
      var n := |hs| - 1;
      SortOk(key, hs[..n]);
      InsertOk(key, Sort(key, hs[..n]), hs[n]);
      assert hs == hs[..n] + [hs[n]];
    }
  }

  function Take(s: seq<Hash>, n: nat): (r: seq<Hash>)
    ensures |r| == if n < |s| then n else |s|
  {
    if n < |s| then s[..n] else s
  }

  function Without(s: seq<Hash>, excluded: set<Hash>): seq<Hash>
    decreases |s|
  {
    if s == [] then [] else
      Without(s[..|s| - 1], excluded) + if s[|s| - 1] in excluded then [] else [s[|s| - 1]]
  }

  function Reachable(routers: seq<RouterInfo>): seq<Hash>
    decreases |routers|
  {
    if routers == [] then [] else
      var n := |routers| - 1;
      Reachable(routers[..n]) + if routers[n].unreachable then [] else [routers[n].ident]
  }

  /** The simple form: sort the reachable routers, take num of them, then drop those that are excluded. */
  function ClosestFloodfills(key: Hash, routers: seq<RouterInfo>, num: nat, excluded: set<Hash>): seq<Hash> {
    Without(Take(Sort(key, Reachable(routers)), num), excluded)
  }

  // ---------------------------------------------------------------- one more router

  /** The bounded set after one more reachable router. */
  function Offer(key: Hash, num: nat, s: seq<Hash>, h: Hash): (r: seq<Hash>)
    requires num > 0
    ensures |s| <= num ==> |r| <= num
  {
    if |s| < num then Insert(key, s, h)
    else if Closer(key, h, s[|s| - 1]) then
      var t := Insert(key, s, h);
      t[..|t| - 1]
    else s
  }

  /** Inserting before position num does not look beyond it. */
  lemma {:induction false} InsertTake(key: Hash, s: seq<Hash>, num: nat, h: Hash)
    requires Ascending(key, s) && 0 < num <= |s| && h !in s
    ensures |Insert(key, s[..num], h)| == num + 1 && |Insert(key, s, h)| == |s| + 1
    ensures Closer(key, h, s[num - 1]) ==> Insert(key, s, h)[..num] == Insert(key, s[..num], h)[..num]
    ensures !Closer(key, h, s[num - 1]) ==> Insert(key, s, h)[..num] == s[..num]
    decreases |s|
  {
    CloserTotal(key, h, s[0]);
    CloserTotal(key, h, s[num - 1]);
    if Closer(key, h, s[0]) {
      if num > 1 {
        CloserTransitive(key, h, s[0], s[num - 1]);
      }
    } else if num == 1 {
      InsertLength(key, s[1..], h);
    } else {
      InsertTake(key, s[1..], num - 1, h);
      assert s[..num][1..] == s[1..][..num - 1];
      var all, part := Insert(key, s[1..], h), Insert(key, s[1..][..num - 1], h);
      assert ([s[0]] + all)[..num] == [s[0]] + all[..num - 1];
      assert ([s[0]] + part)[..num] == [s[0]] + part[..num - 1];
      assert s[..num] == [s[0]] + s[1..][..num - 1];
    }
  }

  lemma {:induction false} InsertLength(key: Hash, s: seq<Hash>, h: Hash)
    requires h !in s
    ensures |Insert(key, s, h)| == |s| + 1
    decreases |s|
  {
    if s == [] {
    } else {
      CloserTotal(key, h, s[0]);
      InsertLength(key, s[1..], h);
    }
  }

  /** For an ident not seen before, the bounded set stays the front part of the complete one. */
  lemma OfferNew(key: Hash, num: nat, all: seq<Hash>, h: Hash)
    requires num > 0 && Ascending(key, all) && h !in all
    ensures Offer(key, num, Take(all, num), h) == Take(Insert(key, all, h), num)
  {
    InsertLength(key, all, h);
    if |all| >= num {
      OfferFull(key, num, all, h);
      assert Take(all, num) == all[..num];
      assert Take(Insert(key, all, h), num) == Insert(key, all, h)[..num];
    } else {
      assert Take(all, num) == all;
    }
  }

  lemma OfferFull(key: Hash, num: nat, all: seq<Hash>, h: Hash)
    requires 0 < num <= |all| && Ascending(key, all) && h !in all
    ensures Offer(key, num, all[..num], h) == Insert(key, all, h)[..num]
  {
    InsertTake(key, all, num, h);
    var s := all[..num];
    assert s[|s| - 1] == all[num - 1];
    if Closer(key, h, s[|s| - 1]) {
      var t := Insert(key, s, h);
      assert |t| - 1 == num && Offer(key, num, s, h) == t[..|t| - 1];
    }
  }

  /** In an ascending list an ident has one position. */
  lemma PositionUnique(key: Hash, s: seq<Hash>, i: nat, j: nat)
    requires Ascending(key, s) && i < |s| && j < |s| && s[i] == s[j]
    ensures i == j
  {
    CloserTotal(key, s[i], s[j]);
  }

  /** An ident of a full set's complete list is not inserted, but erases the last one if it is closer. */
  lemma OfferOldAt(key: Hash, num: nat, all: seq<Hash>, i: nat)
    requires 0 < num <= |all| && Ascending(key, all) && i < |all|
    ensures Offer(key, num, all[..num], all[i]) == if i < num - 1 then all[..num - 1] else all[..num]
  {
    var s, h := all[..num], all[i];
    assert s[|s| - 1] == all[num - 1];
    CloserTotal(key, h, all[num - 1]);
    if i < num - 1 {
      assert s[i] == h;
      InsertOk(key, s, h);
      assert s[..num - 1] == all[..num - 1];
    }
  }

  /** The one case that goes wrong: a full set already holds the ident, and not as its last. */
  predicate OfferedAgain(num: nat, all: seq<Hash>, h: Hash)
    requires num > 0
  {
    num <= |all| && h in all[..num] && h != all[num - 1]
  }

  lemma OfferedAgainAt(key: Hash, num: nat, all: seq<Hash>, i: nat)
    requires 0 < num <= |all| && Ascending(key, all) && i < |all|
    ensures OfferedAgain(num, all, all[i]) <==> i < num - 1
  {
    var s := all[..num];
    if i < num - 1 {
      assert s[i] == all[i];
      CloserTotal(key, all[i], all[num - 1]);
    } else if all[i] in s {
      var j :| 0 <= j < num && s[j] == all[i];
      PositionUnique(key, all, i, j);
    }
  }

  lemma OfferOld(key: Hash, num: nat, all: seq<Hash>, i: nat)
    requires num > 0 && Ascending(key, all) && i < |all|
    ensures Offer(key, num, Take(all, num), all[i]) == Take(Insert(key, all, all[i]), num) <==> !OfferedAgain(num, all, all[i])
  {
    InsertOk(key, all, all[i]);
    if num <= |all| {
      OfferOldAt(key, num, all, i);
      OfferedAgainAt(key, num, all, i);
      assert Take(all, num) == all[..num];
    } else {
      assert Take(all, num) == all;
    }
  }

  /** The bounded set stays the front part of the complete one if and only if that case does not occur. */
  lemma OfferExactly(key: Hash, num: nat, all: seq<Hash>, h: Hash)
    requires num > 0 && Ascending(key, all)
    ensures Offer(key, num, Take(all, num), h) == Take(Insert(key, all, h), num) <==> !OfferedAgain(num, all, h)
  {
    if h in all {
      var i :| 0 <= i < |all| && all[i] == h;
      OfferOld(key, num, all, i);
    } else {
      OfferNew(key, num, all, h);
    }
  }

  /** The bounded set after all the given idents. */
  function Bounded(key: Hash, num: nat, hs: seq<Hash>): (r: seq<Hash>)
    requires num > 0
    ensures |r| <= num
    decreases |hs|
  {
    if hs == [] then [] else Offer(key, num, Bounded(key, num, hs[..|hs| - 1]), hs[|hs| - 1])
  }

  ghost predicate Refines(key: Hash, num: nat, hs: seq<Hash>, k: nat)
    requires num > 0 && k <= |hs|
  {
    Bounded(key, num, hs[..k]) == Take(Sort(key, hs[..k]), num)
  }

  ghost predicate Again(key: Hash, num: nat, hs: seq<Hash>, k: nat)
    requires num > 0 && k < |hs|
  {
    OfferedAgain(num, Sort(key, hs[..k]), hs[k])
  }

  lemma RefinesStep(key: Hash, num: nat, hs: seq<Hash>, k: nat)
    requires num > 0 && k < |hs| && Refines(key, num, hs, k)
    ensures Refines(key, num, hs, k + 1) <==> !Again(key, num, hs, k)
  {
    assert hs[..k + 1][..k] == hs[..k] && hs[..k + 1][k] == hs[k];
    SortOk(key, hs[..k]);
    OfferExactly(key, num, Sort(key, hs[..k]), hs[k]);
  }

  /** After each of the first n idents the bounded set is the sorted list, cut after num. */
  ghost predicate AllRefine(key: Hash, num: nat, hs: seq<Hash>, n: nat)
    requires num > 0 && n <= |hs|
  {
    Refines(key, num, hs, n) && (n > 0 ==> AllRefine(key, num, hs, n - 1))
  }

  /** None of the first n idents is offered again in the way that goes wrong. */
  ghost predicate NeverAgain(key: Hash, num: nat, hs: seq<Hash>, n: nat)
    requires num > 0 && n <= |hs|
  {
    n > 0 ==> !Again(key, num, hs, n - 1) && NeverAgain(key, num, hs, n - 1)
  }

  /**
   The bounded selection has sorted and cut correctly all along if and only if no ident was offered again to a full set
   that held it elsewhere than in its last place.
   */
  lemma {:induction false} BoundedExactly(key: Hash, num: nat, hs: seq<Hash>, n: nat)
    requires num > 0 && n <= |hs|
    ensures AllRefine(key, num, hs, n) <==> NeverAgain(key, num, hs, n)
  {
    if n == 0 {
      assert hs[..0] == [];
    } else {
      BoundedExactly(key, num, hs, n - 1);
      if AllRefine(key, num, hs, n - 1) {
        RefinesStep(key, num, hs, n - 1);
      }
    }
  }

  lemma {:induction false} DistinctNeverAgain(key: Hash, num: nat, hs: seq<Hash>, n: nat)
    requires num > 0 && n <= |hs| && forall i, j :: 0 <= i < j < |hs| ==> hs[i] != hs[j]
    ensures NeverAgain(key, num, hs, n)
  {
    if n == 0 {
    } else {
      DistinctNeverAgain(key, num, hs, n - 1);
      SortOk(key, hs[..n - 1]);
      assert hs[n - 1] !in hs[..n - 1];
    }
  }

  /** Different idents are never offered again. */
  lemma DistinctRefines(key: Hash, num: nat, hs: seq<Hash>)
    requires num > 0 && forall i, j :: 0 <= i < j < |hs| ==> hs[i] != hs[j]
    ensures Bounded(key, num, hs) == Take(Sort(key, hs), num)
  {
    DistinctNeverAgain(key, num, hs, |hs|);
    BoundedExactly(key, num, hs, |hs|);
    assert hs[..|hs|] == hs;
  }

  /** An ident that comes a second time erases the other one of the two that are asked for. */
  lemma RepeatedErasesLast(key: Hash, a: Hash, b: Hash)
    requires Closer(key, a, b)
    ensures Bounded(key, 2, [a, b, a]) == [a]
    ensures Take(Sort(key, [a, b, a]), 2) == [a, b]
    ensures OfferedAgain(2, Sort(key, [a, b]), a)
  {
    CloserTotal(key, a, b);
    CloserTotal(key, a, a);
    assert [a, b, a][..2] == [a, b] && [a, b][..1] == [a] && [a][..0] == [];
    assert Insert(key, [a], b) == [a, b] by { assert [a][1..] == []; }
    assert Insert(key, [a, b], a) == [a, b];
    assert Bounded(key, 2, [a]) == [a] && Sort(key, [a]) == [a];
    assert Bounded(key, 2, [a, b]) == [a, b] && Sort(key, [a, b]) == [a, b];
    assert a in [a, b][..2];
    assert Sort(key, [a, b, a]) == [a, b];
    assert Offer(key, 2, [a, b], a) == [a, b][..1];
  }

  /** 32 bytes, the first one given and the others zero. */
  function Ident(x: byte): (h: Hash)
    ensures h[0] == x
  {
    [x] + seq(31, _ => 0)
  }

  lemma ZeroCloser()
    ensures Closer(Ident(0), Ident(0), Ident(1))
  {
    var m, n := Metric(Ident(0), Ident(0)), Metric(Ident(0), Ident(1));
    XorByteInvolutive(0, 0);
    XorByteInvolutive(0, 1);
    assert m[0] == XorByte(0, 0) && n[0] == XorByte(0, 1);
  }

  /** The failing case at an input: the second router is lost. */
  lemma OfferedAgainErasesLast()
    ensures OfferedAgain(2, Sort(Ident(0), [Ident(0), Ident(1)]), Ident(0))
    ensures Bounded(Ident(0), 2, [Ident(0), Ident(1), Ident(0)]) == [Ident(0)]
    ensures Take(Sort(Ident(0), [Ident(0), Ident(1), Ident(0)]), 2) == [Ident(0), Ident(1)]
  {
    ZeroCloser();
    RepeatedErasesLast(Ident(0), Ident(0), Ident(1));
  }

  lemma BoundedSnoc(key: Hash, num: nat, hs: seq<Hash>, h: Hash)
    requires num > 0
    ensures Bounded(key, num, hs + [h]) == Offer(key, num, Bounded(key, num, hs), h)
  {
    assert (hs + [h])[..|hs|] == hs;
  }

  // ---------------------------------------------------------------- who is selected

  /** The reachable routers closer to the key than h. */
  ghost function CloserOnes(key: Hash, routers: seq<RouterInfo>, h: Hash): set<Hash> {
    set x | x in Reachable(routers) && Closer(key, x, h)
  }

  lemma {:induction false} DistinctCount(key: Hash, s: seq<Hash>)
    requires Ascending(key, s)
    ensures |set x | x in s| == |s|
    decreases |s|
  {
    if s == [] {
    } else {
      var n := |s| - 1;
      DistinctCount(key, s[..n]);
      forall i | 0 <= i < n ensures s[i] != s[n] {
        CloserTotal(key, s[i], s[n]);
      }
      assert s == s[..n] + [s[n]];
      assert (set x | x in s) == (set x | x in s[..n]) + {s[n]};
    }
  }

  /** In an ascending list, the elements closer than the i-th are the first i. */
  lemma RankIsPosition(key: Hash, s: seq<Hash>, i: nat)
    requires Ascending(key, s) && i < |s|
    ensures |set x | x in s && Closer(key, x, s[i])| == i
  {
    forall j | 0 <= j < |s| ensures Closer(key, s[j], s[i]) <==> j < i {
      CloserTotal(key, s[j], s[i]);
    }
    assert (set x | x in s && Closer(key, x, s[i])) == (set x | x in s[..i]);
    DistinctCount(key, s[..i]);
  }

  lemma {:induction false} WithoutOk(key: Hash, s: seq<Hash>, excluded: set<Hash>)
    requires Ascending(key, s)
    ensures Ascending(key, Without(s, excluded))
    ensures forall x :: x in Without(s, excluded) <==> x in s && x !in excluded
    decreases |s|
  {
    if s == [] {
    } else {
      var n := |s| - 1;
      WithoutOk(key, s[..n], excluded);
      assert s == s[..n] + [s[n]];
      var w := Without(s[..n], excluded);
      forall i | 0 <= i < |w| ensures Closer(key, w[i], s[n]) {
        assert w[i] in w;
      }
    }
  }

  lemma {:induction false} NoneExcluded(s: seq<Hash>)
    ensures Without(s, {}) == s
    decreases |s|
  {
    if s == [] {
    } else {
      NoneExcluded(s[..|s| - 1]);
    }
  }

  /**
   Among the chosen: reachable, not excluded, and fewer than num reachable routers, excluded ones included, are
   closer.
   */
  ghost predicate Selected(key: Hash, routers: seq<RouterInfo>, num: nat, excluded: set<Hash>, h: Hash) {
    h in Reachable(routers) && h !in excluded && |CloserOnes(key, routers, h)| < num
  }

  /**
   What the selection amounts to, without any sorting: exactly those reachable routers that are not excluded and have
   fewer than num reachable routers, excluded ones included, closer than they are; the closest first.
   */
  lemma SelectedExactly(key: Hash, routers: seq<RouterInfo>, num: nat, excluded: set<Hash>, h: Hash)
    ensures Ascending(key, ClosestFloodfills(key, routers, num, excluded))
    ensures h in ClosestFloodfills(key, routers, num, excluded) <==> Selected(key, routers, num, excluded, h)
  {
    var s := Sort(key, Reachable(routers));
    SortOk(key, Reachable(routers));
    WithoutOk(key, Take(s, num), excluded);
    if h in s {
      var i :| 0 <= i < |s| && s[i] == h;
      RankIsPosition(key, s, i);
      assert CloserOnes(key, routers, h) == set x | x in s && Closer(key, x, s[i]);
      assert i < num ==> Take(s, num)[i] == h;
      if h in Take(s, num) {
        var j :| 0 <= j < |Take(s, num)| && Take(s, num)[j] == h;
        RankIsPosition(key, s, j);
      }
    }
  }

  lemma AllSelected(key: Hash, routers: seq<RouterInfo>, num: nat, excluded: set<Hash>, res: seq<Hash>)
    requires res == ClosestFloodfills(key, routers, num, excluded)
    ensures Ascending(key, res) && forall h :: h in res <==> Selected(key, routers, num, excluded, h)
  {
    SelectedExactly(key, routers, num, excluded, key);
    forall h: Hash ensures h in res <==> Selected(key, routers, num, excluded, h) {
      SelectedExactly(key, routers, num, excluded, h);
    }
  }

  // ---------------------------------------------------------------- the methods

  /** No two reachable routers have the same ident. */
  ghost predicate DistinctIdents(routers: seq<RouterInfo>) {
    forall i, j :: 0 <= i < j < |Reachable(routers)| ==> Reachable(routers)[i] != Reachable(routers)[j]
  }

  lemma ReachableSnoc(seen: seq<RouterInfo>, it: RouterInfo)
    ensures Reachable(seen + [it]) == Reachable(seen) + if it.unreachable then [] else [it.ident]
  {
    assert (seen + [it])[..|seen|] == seen;
  }

  lemma {:induction false} AllReachable(routers: seq<RouterInfo>)
    requires forall r :: r in routers ==> !r.unreachable
    ensures |Reachable(routers)| == |routers|
    ensures forall k :: 0 <= k < |routers| ==> Reachable(routers)[k] == routers[k].ident
    decreases |routers|
  {
    if routers == [] {
    } else {
      AllReachable(routers[..|routers| - 1]);
    }
  }

  /** SetMax. */
  function MaxMetric(): (m: Hash)
    ensures forall i :: 0 <= i < 32 ==> m[i] == 255
  {
    seq(32, _ => 255)
  }

  /** The ident at the largest possible distance from a key. */
  function Opposite(key: Hash): Hash { Xor(MaxMetric(), key) }

  lemma OppositeMetric(key: Hash)
    ensures Metric(key, Opposite(key)) == MaxMetric()
  {
    XorInvolutive(MaxMetric(), key);
    XorInvolutive(Opposite(key), key);
  }

  /** Only the opposite ident is not closer than the largest metric. */
  lemma BelowMax(key: Hash, h: Hash)
    ensures Less(Metric(key, h), MaxMetric()) <==> h != Opposite(key)
  {
    OppositeMetric(key);
    MetricInjective(key, h, Opposite(key));
    LessTrichotomy(Metric(key, h), MaxMetric());
    NothingAbove(Metric(key, h), MaxMetric());
  }

  lemma {:induction false} NothingAbove(a: seq<byte>, b: seq<byte>)
    requires |a| == |b| && forall i :: 0 <= i < |b| ==> b[i] == 255
    ensures !Less(b, a)
    decreases |a|
  {
    if a == [] {
    } else {
      NothingAbove(a[1..], b[1..]);
    }
  }

  /** The reachable routers that are not excluded. */
  ghost predicate Candidate(routers: seq<RouterInfo>, excluded: set<Hash>, r: RouterInfo) {
    r in routers && !r.unreachable && r.ident !in excluded
  }

  class NetDb {
    var floodfills: seq<RouterInfo>

    constructor ()
      ensures floodfills == []
    {
      floodfills := [];
    }

    /** The first loop: a bounded set of the closest reachable floodfills. */
    method SelectClosest(key: Hash, num: nat) returns (sorted: seq<Hash>)
      requires num > 0
      ensures sorted == Bounded(key, num, Reachable(floodfills))
    {
      sorted := [];
      var k := 0;
      while k < |floodfills|
        invariant 0 <= k <= |floodfills|
        invariant sorted == Bounded(key, num, Reachable(floodfills[..k]))
      {
        var it := floodfills[k];
        ghost var seen, before := Reachable(floodfills[..k]), sorted;
        assert floodfills[..k + 1] == floodfills[..k] + [it];
        ReachableSnoc(floodfills[..k], it);
        BoundedSnoc(key, num, seen, it.ident);
        if it.unreachable {
          assert seen + [] == seen;
        } else {
          if |sorted| < num {
            sorted := Insert(key, sorted, it.ident);
          } else if Closer(key, it.ident, sorted[|sorted| - 1]) {
            sorted := Insert(key, sorted, it.ident);
            sorted := sorted[..|sorted| - 1];
          }
          assert sorted == Offer(key, num, before, it.ident);
        }
        k := k + 1;
      }
      assert floodfills[..k] == floodfills;
    }

    /**
     key is the routing key of the destination.  If all idents differ, exactly the selected routers are returned, the
     closest first.
     */
    method GetClosestFloodfills(key: Hash, num: nat, excluded: set<Hash>) returns (res: seq<Hash>)
      requires num > 0
      ensures res == Without(Bounded(key, num, Reachable(floodfills)), excluded)
      ensures DistinctIdents(floodfills) ==> res == ClosestFloodfills(key, floodfills, num, excluded)
      ensures DistinctIdents(floodfills) ==> Ascending(key, res)
      ensures DistinctIdents(floodfills) ==> forall h :: h in res <==> Selected(key, floodfills, num, excluded, h)
    {
      var sorted := SelectClosest(key, num);
      res := Copied(sorted, num, excluded);
      if DistinctIdents(floodfills) {
        DistinctRefines(key, num, Reachable(floodfills));
        AllSelected(key, floodfills, num, excluded, res);
      }
    }

    /** The second loop leaves out the excluded ones. */
    static method Copied(sorted: seq<Hash>, num: nat, excluded: set<Hash>) returns (res: seq<Hash>)
      requires |sorted| <= num
      ensures res == Without(sorted, excluded)
    {
      res := [];
      var i, j := 0, 0;
      while j < |sorted|
        invariant 0 <= j <= |sorted| && i == |res| <= j
        invariant res == Without(sorted[..j], excluded)
      {
        assert sorted[..j + 1][..j] == sorted[..j];
        if i < num {
          if sorted[j] !in excluded {
            res := res + [sorted[j]];
            i := i + 1;
          }
        } else {
          break;
        }
        j := j + 1;
      }
      assert sorted[..j] == sorted;
    }

    /**
     The closest candidate, the first of several with the same ident.  None is found exactly if there is none or if all of
     them have the ident opposite to the key.
     */
    method GetClosestFloodfill(key: Hash, excluded: set<Hash>) returns (r: Option<RouterInfo>)
      ensures r.Some? ==> Candidate(floodfills, excluded, r.value)
      ensures r.Some? ==> forall c :: Candidate(floodfills, excluded, c) ==> !Closer(key, c.ident, r.value.ident)
      ensures r.None? <==> forall c :: Candidate(floodfills, excluded, c) ==> c.ident == Opposite(key)
    {
      r := None;
      var minMetric := MaxMetric();
      var k := 0;
      while k < |floodfills|
        invariant 0 <= k <= |floodfills|
        invariant r.Some? ==> Candidate(floodfills[..k], excluded, r.value) && minMetric == Metric(key, r.value.ident)
        invariant r.None? ==> minMetric == MaxMetric()
        invariant r.Some? ==> Less(minMetric, MaxMetric())
        invariant forall c :: Candidate(floodfills[..k], excluded, c) ==> !Less(Metric(key, c.ident), minMetric)
      {
        var it := floodfills[k];
        assert floodfills[..k + 1] == floodfills[..k] + [it];
        if !it.unreachable {
          var m := Metric(key, it.ident);
          LessTrichotomy(m, m);
          if Less(m, minMetric) && it.ident !in excluded {
            forall c | Candidate(floodfills[..k], excluded, c) ensures !Less(Metric(key, c.ident), m) {
              if Less(Metric(key, c.ident), m) {
                LessTransitive(Metric(key, c.ident), m, minMetric);
              }
            }
            if r.Some? {
              LessTransitive(m, minMetric, MaxMetric());
            }
            minMetric := m;
            r := Some(it);
          }
        }
        k := k + 1;
      }
      assert floodfills[..k] == floodfills;
      forall c ensures Less(Metric(key, c), MaxMetric()) <==> c != Opposite(key) {
        BelowMax(key, c);
      }
    }
  }

  /** A floodfill listed twice makes the method return one router of the two that are closest. */
  method RepeatedFloodfill() returns (res: seq<Hash>)
    ensures res == [Ident(0)]
    ensures var a, b := RouterInfo(Ident(0), false), RouterInfo(Ident(1), false);
            ClosestFloodfills(Ident(0), [a, b, a], 2, {}) == [Ident(0), Ident(1)]
  {
    var a, b := RouterInfo(Ident(0), false), RouterInfo(Ident(1), false);
    var db := new NetDb();
    db.floodfills := [a, b, a];
    res := db.GetClosestFloodfills(Ident(0), 2, {});
    AllReachable([a, b, a]);
    assert Reachable(db.floodfills) == [Ident(0), Ident(1), Ident(0)];
    OfferedAgainErasesLast();
    NoneExcluded([Ident(0)]);
    NoneExcluded([Ident(0), Ident(1)]);
  }
}
