/** Operations on Python lists that the connection manager relies on,
    modelled on immutable sequences. */
module Lists {
  import opened Wrappers

  /** The elements of `xs` that satisfy `p`, in their original order
      (a list comprehension `[x for x in xs if p(x)]`). */
  function Filter<T>(p: T -> bool, xs: seq<T>): (r: seq<T>)
    ensures |r| <= |xs|
  {
    if xs == [] then []
    else
      assert xs == [xs[0]] + xs[1..];
      if p(xs[0]) then [xs[0]] + Filter(p, xs[1..])
    else Filter(p, xs[1..])
  }

  /** Position of the first occurrence of `x` in `xs`. */
  function FirstIndex<T(==)>(xs: seq<T>, x: T): (i: nat)
    requires x in xs
    ensures i < |xs| && xs[i] == x && x !in xs[..i]
  {
    if xs[0] == x then 0
    else
      assert xs == [xs[0]] + xs[1..];
      var j := FirstIndex(xs[1..], x);
      assert xs[..j + 1] == [xs[0]] + xs[1..][..j];
      j + 1
  }

  /** The complement of a predicate. */
  function Negate<T>(p: T -> bool): (q: T -> bool)
  {
    x => !p(x)
  }

  /** Filtering a list extended by one element extends the filtered list
      by that element exactly when it passes. */
  lemma {:induction false} FilterSnoc<T>(p: T -> bool, xs: seq<T>, x: T)
    ensures Filter(p, xs + [x]) == Filter(p, xs) + (if p(x) then [x] else [])
  {
    if xs == [] {
      assert xs + [x] == [x];
      assert [x][1..] == [];
    } else {
      assert (xs + [x])[1..] == xs[1..] + [x];
      FilterSnoc(p, xs[1..], x);
    }
  }

  /** Filtering keeps every copy of an element that passes and no copy of
      one that fails. */
  lemma {:induction false} FilterCount<T>(p: T -> bool, xs: seq<T>, y: T)
    ensures multiset(Filter(p, xs))[y] == if p(y) then multiset(xs)[y] else 0
  {
    if xs != [] {
      assert xs == [xs[0]] + xs[1..];
      FilterCount(p, xs[1..], y);
    }
  }

  /** Python's `list.remove(x)`: drops the first occurrence of `x`, and
      raises `ValueError` (here `None`) when `x` is not in the list. */
  function RemoveFirst<T(==)>(xs: seq<T>, x: T): (r: Option<seq<T>>)
    ensures r.Some? <==> x in xs
    ensures r.Some? ==> |r.value| == |xs| - 1
  {
    if xs == [] then None
    else if xs[0] == x then Some(xs[1..])
    else
      assert xs == [xs[0]] + xs[1..];
      match RemoveFirst(xs[1..], x)
      case None => None
      case Some(rest) => Some([xs[0]] + rest)
  }

  /** `list.remove(x)` cuts out exactly the first occurrence of `x`. */
  lemma {:induction false} RemoveFirstIsSplice<T>(xs: seq<T>, x: T)
    requires x in xs
    ensures var i := FirstIndex(xs, x);
            RemoveFirst(xs, x) == Some(xs[..i] + xs[i + 1..])
  {
    if xs[0] != x {
      var t := xs[1..];
      assert xs == [xs[0]] + t;
      RemoveFirstIsSplice(t, x);
      var j := FirstIndex(t, x);
      assert FirstIndex(xs, x) == j + 1;
      assert RemoveFirst(xs, x) == Some([xs[0]] + RemoveFirst(t, x).value);
      calc {
        [xs[0]] + (t[..j] + t[j + 1..]);
        ([xs[0]] + t[..j]) + t[j + 1..];
        { assert [xs[0]] + t[..j] == xs[..j + 1]; assert t[j + 1..] == xs[j + 2..]; }
        xs[..j + 1] + xs[j + 2..];
      }
    } else {
      assert xs[..0] + xs[1..] == xs[1..];
    }
  }

  /** `list.remove` takes away exactly one copy of the removed element. */
  lemma RemoveFirstMultiset<T>(xs: seq<T>, x: T)
    requires x in xs
    ensures multiset(RemoveFirst(xs, x).value) == multiset(xs) - multiset{x}
  {
    var i := FirstIndex(xs, x);
    RemoveFirstIsSplice(xs, x);
    assert xs == xs[..i] + [x] + xs[i + 1..];
  }

  /** `for d in ds: xs.remove(d)`: removes one occurrence per element of
      `ds`, in order; `None` when some removal would raise. */
  function RemoveEach<T(==)>(xs: seq<T>, ds: seq<T>): (r: Option<seq<T>>)
    ensures r.Some? ==> |r.value| == |xs| - |ds|
    decreases |ds|
  {
    if ds == [] then Some(xs)
    else match RemoveFirst(xs, ds[0])
      case None => None
      case Some(xs') => RemoveEach(xs', ds[1..])
  }

  /** Removing from behind a head that is not removed keeps the head. */
  lemma {:induction false} RemoveEachKeepsHead<T>(x: T, t: seq<T>, ds: seq<T>)
    requires x !in ds
    ensures RemoveEach([x] + t, ds).Some? <==> RemoveEach(t, ds).Some?
    ensures RemoveEach(t, ds).Some? ==>
              RemoveEach([x] + t, ds).value == [x] + RemoveEach(t, ds).value
    decreases |ds|
  {
    if ds != [] {
      assert ([x] + t)[1..] == t;
      match RemoveFirst(t, ds[0])
      case None =>
      case Some(t') =>
        assert RemoveFirst([x] + t, ds[0]) == Some([x] + t');
        RemoveEachKeepsHead(x, t', ds[1..]);
    }
  }

  /** Removing, one by one, exactly the elements that fail `p` never raises
      and leaves the elements that pass `p`, in order. */
  lemma {:induction false} RemoveFailedIsFilter<T>(fails: T -> bool, xs: seq<T>)
    ensures RemoveEach(xs, Filter(fails, xs)) == Some(Filter(Negate(fails), xs))
  {
    if xs != [] {
      var x, t := xs[0], xs[1..];
      assert xs == [x] + t;
      RemoveFailedIsFilter(fails, t);
      if fails(x) {
        assert Filter(fails, xs)[1..] == Filter(fails, t);
      } else {
        forall d | d in Filter(fails, t) ensures d != x {
          FilterCount(fails, t, d);
        }
        RemoveEachKeepsHead(x, t, Filter(fails, t));
      }
    }
  }

  /** Appending an element that is not yet present and then removing it
      gives back the original list. */
  lemma {:induction false} RemoveFirstOfAppended<T>(xs: seq<T>, x: T)
    requires x !in xs
    ensures RemoveFirst(xs + [x], x) == Some(xs)
  {
    if xs == [] {
      assert xs + [x] == [x];
    } else {
      var ys := xs + [x];
      assert ys[0] == xs[0] && ys[0] != x;
      assert ys[1..] == xs[1..] + [x];
      RemoveFirstOfAppended(xs[1..], x);
      assert RemoveFirst(ys, x) == Some([ys[0]] + xs[1..]);
      assert [xs[0]] + xs[1..] == xs;
    }
  }
}
