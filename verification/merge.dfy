/** Sequence facts behind the merge in `Scrap`: per-task lists are appended
    one after another, in whatever order the workers take the lock. */
module Merge {

  /** Applies `f` to every element, keeping the order. */
  function MapSeq<A, B>(f: A -> B, xs: seq<A>): seq<B> {
    seq(|xs|, i requires 0 <= i < |xs| => f(xs[i]))
  }

  /** The lists appended in order, the last one last. */
  function Flatten<T>(xss: seq<seq<T>>): seq<T>
    decreases |xss|
  {
    if |xss| == 0 then []
    else Flatten(xss[..|xss| - 1]) + xss[|xss| - 1]
  }

  /** The sum of the lengths of the lists. */
  function TotalLength<T>(xss: seq<seq<T>>): nat
    decreases |xss|
  {
    if |xss| == 0 then 0 else |xss[0]| + TotalLength(xss[1..])
  }

  lemma {:induction false} FlattenAppend<T>(u: seq<seq<T>>, v: seq<seq<T>>)
    ensures Flatten(u + v) == Flatten(u) + Flatten(v)
    decreases |v|
  {
    if |v| == 0 {
      assert u + v == u;
    } else {
      var v' := v[..|v| - 1];
      assert (u + v)[..|u + v| - 1] == u + v';
      assert Flatten(u + v) == Flatten(u + v') + v[|v| - 1];
      FlattenAppend(u, v');
      assert Flatten(v) == Flatten(v') + v[|v| - 1];
    }
  }

  /** Appending the lists loses nothing and adds nothing: the length of the
      result is the sum of the lengths. */
  lemma {:induction false} FlattenLength<T>(xss: seq<seq<T>>)
    ensures |Flatten(xss)| == TotalLength(xss)
    decreases |xss|
  {
    if |xss| > 0 {
      FlattenLength(xss[1..]);
      FlattenAppend([xss[0]], xss[1..]);
      assert [xss[0]] + xss[1..] == xss;
      assert Flatten([xss[0]]) == xss[0] by {
        assert [xss[0]][..0] == [];
      }
    }
  }

  /** Taking the last element of `a` out of both sides of a multiset equality
      leaves a multiset equality, with `b` losing one copy at index `i`. */
  lemma CancelLast<T>(a: seq<T>, b: seq<T>) returns (i: nat)
    requires |a| > 0 && multiset(a) == multiset(b)
    ensures i < |b| && b[i] == a[|a| - 1]
    ensures multiset(a[..|a| - 1]) == multiset(b[..i] + b[i + 1..])
  {
    var x := a[|a| - 1];
    assert a == a[..|a| - 1] + [x];
    assert x in multiset(b);
    i :| 0 <= i < |b| && b[i] == x;
    assert b == b[..i] + [x] + b[i + 1..];
    calc {
      multiset(a[..|a| - 1]);
      multiset(a) - multiset{x};
      multiset(b) - multiset{x};
      multiset(b[..i] + b[i + 1..]);
    }
  }

  /** Flattening with the element at `i` removed drops exactly that list. */
  lemma FlattenRemoveAt<T>(b: seq<seq<T>>, i: nat)
    requires i < |b|
    ensures multiset(Flatten(b)) == multiset(Flatten(b[..i] + b[i + 1..])) + multiset(b[i])
  {
    var pre, x, post := b[..i], b[i], b[i + 1..];
    assert b == (pre + [x]) + post;
    FlattenAppend(pre + [x], post);
    assert (pre + [x])[..|pre|] == pre;
    assert Flatten(pre + [x]) == Flatten(pre) + x;
    FlattenAppend(pre, post);
    calc {
      multiset(Flatten(b));
      multiset(Flatten(pre) + x + Flatten(post));
      multiset(Flatten(pre)) + multiset(x) + multiset(Flatten(post));
      multiset(Flatten(pre + post)) + multiset(x);
    }
  }

  /** The merged multiset does not depend on the order of the lists. */
  lemma {:induction false} FlattenReorder<T>(a: seq<seq<T>>, b: seq<seq<T>>)
    requires multiset(a) == multiset(b)
    ensures multiset(Flatten(a)) == multiset(Flatten(b))
    decreases |a|
  {
    if |a| == 0 {
      assert |b| == |multiset(b)| == 0;
    } else {
      var i := CancelLast(a, b);
      FlattenReorder(a[..|a| - 1], b[..i] + b[i + 1..]);
      FlattenRemoveAt(b, i);
    }
  }

  /** Mapping commutes with reordering, up to the multiset of results. */
  lemma {:induction false} MapReorder<A, B>(f: A -> B, a: seq<A>, b: seq<A>)
    requires multiset(a) == multiset(b)
    ensures multiset(MapSeq(f, a)) == multiset(MapSeq(f, b))
    decreases |a|
  {
    if |a| == 0 {
      assert |b| == |multiset(b)| == 0;
    } else {
      var i := CancelLast(a, b);
      var b' := b[..i] + b[i + 1..];
      MapReorder(f, a[..|a| - 1], b');
      assert MapSeq(f, a) == MapSeq(f, a[..|a| - 1]) + [f(a[|a| - 1])];
      assert MapSeq(f, b) == MapSeq(f, b[..i]) + [f(b[i])] + MapSeq(f, b[i + 1..]);
      assert MapSeq(f, b') == MapSeq(f, b[..i]) + MapSeq(f, b[i + 1..]);
    }
  }
}
