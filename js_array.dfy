/**
 The JavaScript array built-ins that the service's reply post-processing uses:
 `find`, `filter`, `map` and `slice(0, n)`, on sequences; and a one-pass
 filter-and-map that a `filter`/`map`/`filter` chain amounts to, with the
 positions of the elements it keeps.
 */
module JsArray {

  datatype Option<+T> = None | Some(value: T)

  /** `Array.prototype.find`: the first element that satisfies `p`, or nothing when none does. */
  function Find<T(==)>(p: T -> bool, s: seq<T>): (r: Option<T>)
    ensures r.None? <==> forall k :: 0 <= k < |s| ==> !p(s[k])
    ensures r.Some? ==> exists k :: 0 <= k < |s| && s[k] == r.value && p(s[k]) && forall j :: 0 <= j < k ==> !p(s[j])
  {
    if s == [] then
      None
    else if p(s[0]) then
      assert s[0] == s[0] && p(s[0]);
      Some(s[0])
    else
      var r := Find(p, s[1..]);
      assert forall k :: 1 <= k < |s| ==> s[k] == s[1..][k - 1];
      if r.Some? then
        var k :| 0 <= k < |s[1..]| && s[1..][k] == r.value && p(s[1..][k]) && forall j :: 0 <= j < k ==> !p(s[1..][j]);
        assert s[k + 1] == r.value && p(s[k + 1]);
        assert forall j :: 0 <= j < k + 1 ==> !p(s[j]) by {
          forall j | 0 <= j < k + 1 ensures !p(s[j]) {
            if j > 0 {
              assert s[j] == s[1..][j - 1];
            }
          }
        }
        r
      else
        r
  }

  /** `Array.prototype.filter`: the elements that satisfy `p`, in their original order. */
  function Filter<T>(p: T -> bool, s: seq<T>): (r: seq<T>)
    ensures |r| <= |s|
    ensures forall k :: 0 <= k < |r| ==> p(r[k])
  {
    if s == [] then [] else (if p(s[0]) then [s[0]] else []) + Filter(p, s[1..])
  }

  /** `Array.prototype.map`: `f` applied to every element, positions kept. */
  function Map<T, U>(f: T -> U, s: seq<T>): (r: seq<U>)
    ensures |r| == |s|
    ensures forall k :: 0 <= k < |s| ==> r[k] == f(s[k])
  {
    if s == [] then [] else [f(s[0])] + Map(f, s[1..])
  }

  /** `Array.prototype.slice(0, n)`: the first `n` elements, or all of them when there are fewer. */
  function Take<T>(s: seq<T>, n: nat): (r: seq<T>)
    ensures |r| == if |s| < n then |s| else n
    ensures forall k :: 0 <= k < |r| ==> r[k] == s[k]
  {
    if |s| < n then s else s[..n]
  }

  /** At most `n` elements survive filtering and slicing, and each satisfies the filter. */
  lemma TakeFiltered<T>(p: T -> bool, s: seq<T>, n: nat)
    ensures |Take(Filter(p, s), n)| <= n
    ensures forall k :: 0 <= k < |Take(Filter(p, s), n)| ==> p(Take(Filter(p, s), n)[k])
  {
  }

  /** The `f`-images of the elements that satisfy `keep`, in one pass. */
  function FilterMap<T, U>(keep: T -> bool, f: T -> U, s: seq<T>): (r: seq<U>)
    ensures |r| <= |s|
  {
    if s == [] then [] else (if keep(s[0]) then [f(s[0])] else []) + FilterMap(keep, f, s[1..])
  }

  /** Filtering with `p`, mapping with `f` and filtering with `q` keeps the images of the elements that pass `p` and whose image passes `q`. */
  lemma {:induction false} FilterMapFilter<T, U>(p: T -> bool, f: T -> U, q: U -> bool, keep: T -> bool, s: seq<T>)
    requires forall x :: keep(x) == (p(x) && q(f(x)))
    ensures Filter(q, Map(f, Filter(p, s))) == FilterMap(keep, f, s)
  {
    if s != [] {
      FilterMapFilter(p, f, q, keep, s[1..]);
      var passed := Filter(p, s);
      var rest := Filter(p, s[1..]);
      if p(s[0]) {
        assert passed == [s[0]] + rest;
        assert Map(f, passed) == [f(s[0])] + Map(f, rest);
      } else {
        assert passed == rest;
      }
    }
  }

  /** Filter-and-map distributes over concatenation: order is kept across blocks. */
  lemma {:induction false} FilterMapAppend<T, U>(keep: T -> bool, f: T -> U, a: seq<T>, b: seq<T>)
    ensures FilterMap(keep, f, a + b) == FilterMap(keep, f, a) + FilterMap(keep, f, b)
  {
    if a == [] {
      assert a + b == b;
    } else {
      var head := if keep(a[0]) then [f(a[0])] else [];
      calc {
        FilterMap(keep, f, a + b);
        { assert (a + b)[0] == a[0] && (a + b)[1..] == a[1..] + b; }
        head + FilterMap(keep, f, a[1..] + b);
        { FilterMapAppend(keep, f, a[1..], b); }
        head + (FilterMap(keep, f, a[1..]) + FilterMap(keep, f, b));
      }
    }
  }

  /** Filter-and-map over four elements of which the last is dropped. */
  lemma FilterMapFour<T, U>(keep: T -> bool, f: T -> U, a: T, b: T, c: T, d: T)
    requires keep(a) && keep(b) && keep(c) && !keep(d)
    ensures FilterMap(keep, f, [a, b, c, d]) == [f(a), f(b), f(c)]
  {
    assert [d][1..] == [];
    assert FilterMap(keep, f, [d]) == [];
    assert [c, d][1..] == [d];
    assert FilterMap(keep, f, [c, d]) == [f(c)];
    assert [b, c, d][1..] == [c, d];
    assert FilterMap(keep, f, [b, c, d]) == [f(b), f(c)];
    assert [a, b, c, d][1..] == [b, c, d];
  }

  /** Every position moved up by one. */
  function Shift(positions: seq<nat>): (r: seq<nat>)
    ensures |r| == |positions|
    ensures forall k :: 0 <= k < |r| ==> r[k] == positions[k] + 1
  {
    seq(|positions|, k requires 0 <= k < |positions| => positions[k] + 1)
  }

  /** The positions of the elements that satisfy `keep`. */
  function Kept<T>(keep: T -> bool, s: seq<T>): seq<nat> {
    if s == [] then [] else (if keep(s[0]) then [0] else []) + Shift(Kept(keep, s[1..]))
  }

  /** As many elements are kept as there are kept positions. */
  lemma {:induction false} FilterMapKeptLength<T, U>(keep: T -> bool, f: T -> U, s: seq<T>)
    ensures |FilterMap(keep, f, s)| == |Kept(keep, s)|
  {
    if s != [] {
      FilterMapKeptLength(keep, f, s[1..]);
    }
  }

  /** Element `k` of the filter-and-map is the image of the element at the `k`-th kept position. */
  lemma {:induction false} FilterMapAtKeptIndex<T, U>(keep: T -> bool, f: T -> U, s: seq<T>, k: nat)
    requires k < |Kept(keep, s)|
    ensures k < |FilterMap(keep, f, s)|
    ensures Kept(keep, s)[k] < |s| && FilterMap(keep, f, s)[k] == f(s[Kept(keep, s)[k]])
  {
    FilterMapKeptLength(keep, f, s);
    var head: seq<nat> := if keep(s[0]) then [0] else [];
    var rest := Kept(keep, s[1..]);
    if k >= |head| {
      var j := k - |head|;
      FilterMapAtKeptIndex(keep, f, s[1..], j);
      assert Kept(keep, s)[k] == rest[j] + 1;
      assert FilterMap(keep, f, s)[k] == FilterMap(keep, f, s[1..])[j];
      assert s[rest[j] + 1] == s[1..][rest[j]];
    }
  }

  /** Element `k` of the filter-and-map is the image of the element at the `k`-th kept position, for every `k`. */
  lemma {:induction false} FilterMapAtKept<T, U>(keep: T -> bool, f: T -> U, s: seq<T>)
    ensures |FilterMap(keep, f, s)| == |Kept(keep, s)|
    ensures forall k :: 0 <= k < |Kept(keep, s)| ==>
      Kept(keep, s)[k] < |s| && FilterMap(keep, f, s)[k] == f(s[Kept(keep, s)[k]])
  {
    FilterMapKeptLength(keep, f, s);
    forall k | 0 <= k < |Kept(keep, s)|
      ensures Kept(keep, s)[k] < |s| && FilterMap(keep, f, s)[k] == f(s[Kept(keep, s)[k]])
    {
      FilterMapAtKeptIndex(keep, f, s, k);
    }
  }

  /** Filtering is filter-and-map with the identity. */
  lemma {:induction false} FilterIsFilterMap<T>(p: T -> bool, s: seq<T>)
    ensures Filter(p, s) == FilterMap(p, x => x, s)
  {
    if s != [] {
      FilterIsFilterMap(p, s[1..]);
    }
  }

  /**
   `filter` keeps exactly the elements that satisfy `p`, in their original order:
   element `k` of the result is the input element at the `k`-th kept position
   (and `KeptExact` says those positions increase and are exactly the satisfying ones).
   */
  lemma FilterKept<T>(p: T -> bool, s: seq<T>)
    ensures |Filter(p, s)| == |Kept(p, s)|
    ensures forall k :: 0 <= k < |Kept(p, s)| ==> Kept(p, s)[k] < |s| && Filter(p, s)[k] == s[Kept(p, s)[k]]
  {
    FilterIsFilterMap(p, s);
    FilterMapAtKept(p, x => x, s);
  }

  /** The kept positions increase, and a position is kept exactly when its element satisfies `keep`. */
  lemma {:induction false} KeptExact<T>(keep: T -> bool, s: seq<T>)
    ensures forall k, m :: 0 <= k < m < |Kept(keep, s)| ==> Kept(keep, s)[k] < Kept(keep, s)[m]
    ensures forall i :: 0 <= i < |s| ==> (keep(s[i]) <==> i in Kept(keep, s))
  {
    if s != [] {
      KeptExact(keep, s[1..]);
      var rest := Kept(keep, s[1..]);
      var shifted := Shift(rest);
      forall i | 1 <= i < |s| ensures (i in shifted <==> i - 1 in rest) && s[i] == s[1..][i - 1] {
        if i - 1 in rest {
          var k :| 0 <= k < |rest| && rest[k] == i - 1;
          assert shifted[k] == i;
        }
      }
      assert 0 !in shifted;
    }
  }
}
