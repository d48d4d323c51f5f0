/** List operations the aggregation stages are built from: an
    order-preserving filter (`$match`) and a skip-then-limit window
    (`$skip` followed by `$limit`). */
module Sequences {
  import opened Wrappers

  /** The elements of `s` that satisfy `p`, in their original order. */
  function Filter<T(!new)>(p: T -> bool, s: seq<T>): (r: seq<T>)
    ensures |r| <= |s|
    ensures forall x :: multiset(r)[x] == if p(x) then multiset(s)[x] else 0
    ensures forall x :: x in r <==> x in s && p(x)
  {
    if |s| == 0 then []
    else
      assert s == [s[0]] + s[1..];
      (if p(s[0]) then [s[0]] else []) + Filter(p, s[1..])
  }

  /** One step of the filter: the head is kept or dropped by `p`. */
  lemma FilterHead<T(!new)>(p: T -> bool, s: seq<T>)
    requires 0 < |s|
    ensures Filter(p, s) == (if p(s[0]) then [s[0]] else []) + Filter(p, s[1..])
  {
  }

  /** A filter whose predicate holds everywhere keeps the whole sequence. */
  lemma {:induction false} FilterKeepsAll<T(!new)>(p: T -> bool, s: seq<T>)
    requires forall x :: p(x)
    ensures Filter(p, s) == s
  {
    if |s| > 0 {
      FilterKeepsAll(p, s[1..]);
    }
  }

  /** Filtering keeps the relative order: it distributes over concatenation. */
  lemma {:induction false} FilterAppend<T(!new)>(p: T -> bool, a: seq<T>, b: seq<T>)
    ensures Filter(p, a + b) == Filter(p, a) + Filter(p, b)
  {
    if |a| == 0 {
      assert a + b == b;
    } else {
      assert (a + b)[1..] == a[1..] + b;
      FilterAppend(p, a[1..], b);
    }
  }

  /** A relation that holds between every earlier and later element of `s`
      still holds in any filtered copy of `s`. */
  lemma {:induction false} FilterKeepsPairwise<T(!new)>(p: T -> bool, rel: (T, T) -> bool, s: seq<T>)
    requires forall i, j :: 0 <= i < j < |s| ==> rel(s[i], s[j])
    ensures forall i, j :: 0 <= i < j < |Filter(p, s)| ==> rel(Filter(p, s)[i], Filter(p, s)[j])
  {
    if |s| > 0 {
      var tail := Filter(p, s[1..]);
      TailKeepsPairwise(rel, s);
      FilterKeepsPairwise(p, rel, s[1..]);
      HeadRelatesToFilteredTail(p, rel, s);
      if p(s[0]) {
        assert Filter(p, s) == [s[0]] + tail;
        ConsKeepsPairwise(rel, s[0], tail);
      } else {
        assert Filter(p, s) == tail;
      }
    }
  }

  lemma TailKeepsPairwise<T>(rel: (T, T) -> bool, s: seq<T>)
    requires 0 < |s|
    requires forall i, j :: 0 <= i < j < |s| ==> rel(s[i], s[j])
    ensures forall i, j :: 0 <= i < j < |s[1..]| ==> rel(s[1..][i], s[1..][j])
  {
    forall i, j | 0 <= i < j < |s[1..]|
      ensures rel(s[1..][i], s[1..][j])
    {
      assert s[1..][i] == s[i + 1] && s[1..][j] == s[j + 1];
    }
  }

  lemma HeadRelatesToFilteredTail<T(!new)>(p: T -> bool, rel: (T, T) -> bool, s: seq<T>)
    requires 0 < |s|
    requires forall i, j :: 0 <= i < j < |s| ==> rel(s[i], s[j])
    ensures forall x :: x in Filter(p, s[1..]) ==> rel(s[0], x)
  {
    forall x | x in Filter(p, s[1..])
      ensures rel(s[0], x)
    {
      var k :| 0 <= k < |s[1..]| && s[1..][k] == x;
      assert s[k + 1] == x;
    }
  }

  lemma ConsKeepsPairwise<T>(rel: (T, T) -> bool, h: T, t: seq<T>)
    requires forall i, j :: 0 <= i < j < |t| ==> rel(t[i], t[j])
    requires forall x :: x in t ==> rel(h, x)
    ensures forall i, j :: 0 <= i < j < |[h] + t| ==> rel(([h] + t)[i], ([h] + t)[j])
  {
    var r := [h] + t;
    forall i, j | 0 <= i < j < |r|
      ensures rel(r[i], r[j])
    {
      assert r[j] == t[j - 1];
      if i == 0 {
        assert t[j - 1] in t;
      } else {
        assert r[i] == t[i - 1];
      }
    }
  }

  function Min(a: nat, b: nat): nat
  {
    if a <= b then a else b
  }

  /** Drop the first `skip` elements, then keep at most `limit`. */
  function Window<T>(s: seq<T>, skip: nat, limit: nat): (r: seq<T>)
    ensures |r| <= limit
    ensures skip >= |s| ==> |r| == 0
    ensures skip < |s| ==> |r| == Min(limit, |s| - skip)
    ensures forall i :: 0 <= i < |r| ==> skip + i < |s| && r[i] == s[skip + i]
  {
    if skip >= |s| then [] else s[skip..][..Min(limit, |s| - skip)]
  }

  /** Two adjacent windows make up the window that spans both. */
  lemma WindowsTile<T>(s: seq<T>, skip: nat, a: nat, b: nat)
    ensures Window(s, skip, a) + Window(s, skip + a, b) == Window(s, skip, a + b)
  {
    var left, right, whole := Window(s, skip, a), Window(s, skip + a, b), Window(s, skip, a + b);
    assert |left + right| == |whole|;
    forall i | 0 <= i < |whole|
      ensures (left + right)[i] == whole[i]
    {
      if i >= |left| {
        assert |left| == a;
      }
    }
  }

  /** The first `count` pages of size `size`, one after another. */
  function Pages<T>(s: seq<T>, size: nat, count: nat): seq<T>
  {
    if count == 0 then [] else Pages(s, size, count - 1) + Window(s, (count - 1) * size, size)
  }

  /** Reading pages `0, 1, ..., count - 1` with `skip = page * size` and
      `limit = size` returns every element once, in order, up to
      `count * size` elements: no element is skipped or repeated. */
  lemma {:induction false} PagesCoverPrefix<T>(s: seq<T>, size: nat, count: nat)
    ensures Pages(s, size, count) == Window(s, 0, count * size)
  {
    if count > 0 {
      PagesCoverPrefix(s, size, count - 1);
      WindowsTile(s, 0, (count - 1) * size, size);
    }
  }

  /** All-or-nothing collection of independent results, as `Promise.all`
      does: every value in order when all succeed, otherwise one of the
      failures. */
  function AllSucceed<T, E>(results: seq<Result<T, E>>): (r: Result<seq<T>, E>)
    ensures r.Success? <==> forall i :: 0 <= i < |results| ==> results[i].Success?
    ensures r.Success? ==> |r.value| == |results| && forall i :: 0 <= i < |results| ==> results[i] == Success(r.value[i])
    ensures r.Failure? ==> exists i :: 0 <= i < |results| && results[i] == Failure(r.error)
  {
    if |results| == 0 then Success([])
    else
      match results[0]
      case Failure(e) => Failure(e)
      case Success(first) =>
        assert forall i :: 0 < i < |results| ==> results[i] == results[1..][i - 1];
        match AllSucceed(results[1..])
        case Failure(e) => Failure(e)
        case Success(rest) => Success([first] + rest)
  }
}
