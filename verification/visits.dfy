/** Loops over a Go map. Go visits the keys in an arbitrary order, so that the order is one more input of such a loop. */
module Visits {
  import opened Text

  /** An order in which a loop may visit the keys. */
  ghost predicate IsVisit(keys: set<string>, order: seq<string>) {
    multiset(order) == multiset(keys)
  }

  lemma VisitHas(keys: set<string>, order: seq<string>, k: string)
    requires IsVisit(keys, order)
    ensures k in order <==> k in keys
  {
    assert k in multiset(order) <==> k in multiset(keys);
  }

  lemma VisitCovers(keys: set<string>, order: seq<string>)
    requires IsVisit(keys, order)
    ensures forall k :: k in order <==> k in keys
  {
    forall k ensures k in order <==> k in keys { VisitHas(keys, order, k); }
  }

  /** Any key may come first, and any key may come last. */
  lemma VisitWith(keys: set<string>, order: seq<string>, k: string) returns (first: seq<string>, last: seq<string>)
    requires IsVisit(keys, order) && k in keys
    ensures IsVisit(keys, first) && first != [] && first[0] == k
    ensures IsVisit(keys, last) && last != [] && last[|last| - 1] == k
  {
    VisitHas(keys, order, k);
    var a, b := Occurrence(order, k);
    first, last := [k] + (a + b), a + b + [k];
  }

  lemma Occurrence(order: seq<string>, k: string) returns (a: seq<string>, b: seq<string>)
    requires k in multiset(order)
    ensures order == a + [k] + b
    ensures multiset(a + b) == multiset(order) - multiset{k}
  {
    var j :| 0 <= j < |order| && order[j] == k;
    a, b := order[..j], order[j + 1..];
    assert order == a + [k] + b;
  }

  /** No key is visited twice. */
  lemma VisitDistinct(keys: set<string>, order: seq<string>, i: nat, j: nat)
    requires IsVisit(keys, order) && i < j < |order|
    ensures order[i] != order[j]
  {
    assert order == order[..j] + order[j..];
    assert multiset(order) == multiset(order[..j]) + multiset(order[j..]);
    assert order[i] == order[..j][i] && order[j] == order[j..][0];
    assert multiset(order)[order[i]] <= 1;
  }

  /** What the rounds of a loop append to a list, one after the other. */
  function Gather<T>(order: seq<string>, f: string -> seq<T>): seq<T> {
    if order == [] then [] else Gather(order[..|order| - 1], f) + f(order[|order| - 1])
  }

  lemma GatherSnoc<T>(order: seq<string>, f: string -> seq<T>, k: string)
    ensures Gather(order + [k], f) == Gather(order, f) + f(k)
  {
    assert (order + [k])[..|order|] == order;
  }

  lemma {:induction false} GatherWithout<T>(a: seq<string>, k: string, b: seq<string>, f: string -> seq<T>)
    ensures multiset(Gather(a + [k] + b, f)) == multiset(Gather(a + b, f)) + multiset(f(k))
    decreases |b|
  {
    if b == [] {
      assert a + b == a && a + [k] + b == a + [k];
      GatherSnoc(a, f, k);
    } else {
      var last, shorter := b[|b| - 1], b[..|b| - 1];
      GatherWithout(a, k, shorter, f);
      assert b == shorter + [last];
      Assoc(a + [k], shorter, [last]);
      GatherSnoc(a + [k] + shorter, f, last);
      Assoc(a, shorter, [last]);
      GatherSnoc(a + shorter, f, last);
    }
  }

  lemma {:induction false} GatherSame<T>(order: seq<string>, f: string -> seq<T>, g: string -> seq<T>)
    requires forall k :: k in order ==> f(k) == g(k)
    ensures Gather(order, f) == Gather(order, g)
  {
    if order != [] {
      GatherSame(order[..|order| - 1], f, g);
    }
  }

  /** Two orders gather the same, as often. */
  lemma {:induction false} GatherPermutes<T>(order: seq<string>, other: seq<string>, f: string -> seq<T>)
    requires multiset(order) == multiset(other)
    ensures multiset(Gather(order, f)) == multiset(Gather(other, f))
    decreases |order|
  {
    assert |order| == |multiset(order)| == |multiset(other)| == |other|;
    if order != [] {
      var k, rest := order[|order| - 1], order[..|order| - 1];
      var a, b := Occurrence(other, k) by { assert k in multiset(order); }
      assert order == rest + [k];
      assert multiset(rest) == multiset(order) - multiset{k} == multiset(a + b);
      GatherSnoc(rest, f, k);
      GatherWithout(a, k, b, f);
      GatherPermutes(rest, a + b, f);
    }
  }

  lemma {:induction false} GatherHas<T>(order: seq<string>, f: string -> seq<T>, k: string, x: T)
    requires k in order && x in f(k)
    ensures x in Gather(order, f)
  {
    var last := |order| - 1;
    if order[last] != k {
      assert order == order[..last] + [order[last]];
      GatherHas(order[..last], f, k, x);
    }
  }

  lemma {:induction false} GatherSource<T>(order: seq<string>, f: string -> seq<T>, i: int) returns (k: string)
    requires 0 <= i < |Gather(order, f)|
    ensures k in order && Gather(order, f)[i] in f(k)
  {
    var before := order[..|order| - 1];
    if i < |Gather(before, f)| {
      k := GatherSource(before, f, i);
    } else {
      k := order[|order| - 1];
      assert Gather(order, f)[i] == f(k)[i - |Gather(before, f)|];
    }
  }
}
