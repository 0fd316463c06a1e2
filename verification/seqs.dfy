/** Sequence utilities. `Dedup` is `Array.from(new Set(xs))`: a JavaScript
    `Set` remembers insertion order, so the result keeps each distinct value
    once, at the position of its first occurrence. */
module Seqs {

  predicate NoDuplicates<T(==,!new)>(xs: seq<T>) {
    forall i, j :: 0 <= i < j < |xs| ==> xs[i] != xs[j]
  }

  /** Index of the first occurrence of `x` in `xs`. */
  function FirstIndex<T(==,!new)>(xs: seq<T>, x: T): (r: nat)
    requires x in xs
    ensures r < |xs| && xs[r] == x
    ensures forall j :: 0 <= j < r ==> xs[j] != x
  {
    if xs[0] == x then 0 else 1 + FirstIndex(xs[1..], x)
  }

  /** The first index of a value is unchanged by appending to the sequence. */
  lemma FirstIndexPrefix<T(!new)>(xs: seq<T>, ys: seq<T>, x: T)
    requires x in xs
    ensures x in xs + ys && FirstIndex(xs + ys, x) == FirstIndex(xs, x)
  {
    var i := FirstIndex(xs, x);
    assert (xs + ys)[i] == x;
    assert forall j :: 0 <= j < i ==> (xs + ys)[j] == xs[j];
  }

  /** Values ordered by the position at which they first appear in `xs`. */
  ghost predicate InFirstOccurrenceOrder<T(!new)>(r: seq<T>, xs: seq<T>)
    requires forall i :: 0 <= i < |r| ==> r[i] in xs
  {
    forall i, j :: 0 <= i < j < |r| ==> FirstIndex(xs, r[i]) < FirstIndex(xs, r[j])
  }

  /** `Array.from(new Set(xs))`. */
  function Dedup<T(==,!new)>(xs: seq<T>): (r: seq<T>)
    ensures NoDuplicates(r)
    ensures forall x :: x in r <==> x in xs
    decreases |xs|
  {
    if |xs| == 0 then []
    else
      var init := xs[..|xs| - 1];
      var last := xs[|xs| - 1];
      var d := Dedup(init);
      assert xs == init + [last];
      if last in d then d else d + [last]
  }

  /** `Dedup` lists the values in the order in which they first appear. */
  lemma {:induction false} DedupOrder<T(!new)>(xs: seq<T>)
    ensures InFirstOccurrenceOrder(Dedup(xs), xs)
    decreases |xs|
  {
    if |xs| > 0 {
      var init := xs[..|xs| - 1];
      var last := xs[|xs| - 1];
      var d := Dedup(init);
      assert xs == init + [last];
      DedupOrder(init);
      forall x | x in init ensures FirstIndex(xs, x) == FirstIndex(init, x) {
        FirstIndexPrefix(init, [last], x);
      }
      if last !in d {
        assert FirstIndex(xs, last) == |xs| - 1 by {
          assert last !in init;
        }
      }
    }
  }

  /** The three properties of `Dedup` determine its result: any duplicate-free
      listing of the values of `xs` in first-occurrence order is `Dedup(xs)`. */
  lemma {:induction false} DedupUnique<T(!new)>(r: seq<T>, xs: seq<T>)
    requires NoDuplicates(r)
    requires forall x :: x in r <==> x in xs
    requires InFirstOccurrenceOrder(r, xs)
    ensures r == Dedup(xs)
    decreases |xs|
  {
    SameValuesBothEmpty(r, xs);
    if |xs| > 0 {
      var init := xs[..|xs| - 1];
      var last := xs[|xs| - 1];
      assert xs == init + [last];
      assert Dedup(xs) == if last in Dedup(init) then Dedup(init) else Dedup(init) + [last];
      if last in init {
        assert forall i :: 0 <= i < |r| ==> r[i] in init by {
          assert forall x :: x in xs ==> x in init;
        }
        OrderOnPrefix(r, init, last);
        DedupUnique(r, init);
        assert last in Dedup(init);
      } else {
        var r' := LastNewValue(r, init, last);
        DedupUnique(r', init);
        assert last !in Dedup(init);
      }
    }
  }

  lemma SameValuesBothEmpty<T(!new)>(a: seq<T>, b: seq<T>)
    requires forall x :: x in a <==> x in b
    ensures |a| == 0 <==> |b| == 0
  {
    if |a| > 0 {
      assert a[0] in b;
    }
    if |b| > 0 {
      assert b[0] in a;
    }
  }

  /** Elements of `init` have the same first index in `init + [last]`. */
  lemma OrderOnPrefix<T(!new)>(r: seq<T>, init: seq<T>, last: T)
    requires forall i :: 0 <= i < |r| ==> r[i] in init
    requires InFirstOccurrenceOrder(r, init + [last])
    ensures InFirstOccurrenceOrder(r, init)
  {
    forall x | x in init ensures FirstIndex(init + [last], x) == FirstIndex(init, x) {
      FirstIndexPrefix(init, [last], x);
    }
  }

  /** A value first seen at the end of `xs` is listed last. */
  lemma LastNewValue<T(!new)>(r: seq<T>, init: seq<T>, last: T) returns (r': seq<T>)
    requires NoDuplicates(r)
    requires forall x :: x in r <==> x in init + [last]
    requires InFirstOccurrenceOrder(r, init + [last])
    requires last !in init
    ensures r == r' + [last]
    ensures NoDuplicates(r')
    ensures forall x :: x in r' <==> x in init
    ensures InFirstOccurrenceOrder(r', init)
  {
    var xs := init + [last];
    assert last in r;
    var p :| 0 <= p < |r| && r[p] == last;
    assert FirstIndex(xs, last) == |xs| - 1;
    assert p == |r| - 1 by {
      var z := |r| - 1;
      assert FirstIndex(xs, r[z]) >= FirstIndex(xs, r[p]);
      assert xs[FirstIndex(xs, r[z])] == r[z];
      assert r[z] == last;
    }
    r' := r[..|r| - 1];
    assert r == r' + [last];
    forall x ensures x in r' <==> x in init {
      if x in init {
        assert x in r && x != last;
      }
    }
    OrderOnPrefix(r', init, last);
  }

  /** Deduplicating twice is deduplicating once. */
  lemma DedupIdempotent<T(!new)>(xs: seq<T>)
    ensures Dedup(Dedup(xs)) == Dedup(xs)
  {
    DedupOrder(xs);
    DedupOfDistinct(Dedup(xs));
  }

  /** A duplicate-free sequence is its own deduplication. */
  lemma DedupOfDistinct<T(!new)>(xs: seq<T>)
    requires NoDuplicates(xs)
    ensures Dedup(xs) == xs
  {
    forall i, j | 0 <= i < j < |xs|
      ensures FirstIndex(xs, xs[i]) < FirstIndex(xs, xs[j])
    {
      FirstIndexOfDistinct(xs, i);
      FirstIndexOfDistinct(xs, j);
    }
    DedupUnique(xs, xs);
  }

  lemma FirstIndexOfDistinct<T(!new)>(xs: seq<T>, i: nat)
    requires NoDuplicates(xs) && i < |xs|
    ensures FirstIndex(xs, xs[i]) == i
  {
  }

  /** The elements of `d` that do not occur in `a`, in their order in `d`. */
  function Without<T(==)>(d: seq<T>, a: seq<T>): seq<T>
    decreases |d|
  {
    if |d| == 0 then []
    else (if d[0] in a then [] else [d[0]]) + Without(d[1..], a)
  }

  lemma {:induction false} WithoutAppend<T>(d1: seq<T>, d2: seq<T>, a: seq<T>)
    ensures Without(d1 + d2, a) == Without(d1, a) + Without(d2, a)
    decreases |d1|
  {
    if |d1| == 0 {
      assert d1 + d2 == d2;
    } else {
      WithoutAppend(d1[1..], d2, a);
      assert (d1 + d2)[0] == d1[0];
      assert (d1 + d2)[1..] == d1[1..] + d2;
      var head := if d1[0] in a then [] else [d1[0]];
      assert Without(d1 + d2, a) == head + Without(d1[1..] + d2, a);
      assert Without(d1, a) == head + Without(d1[1..], a);
    }
  }

  /** `Without` only looks at which values `a` holds. */
  lemma {:induction false} WithoutSameValues<T(!new)>(d: seq<T>, a: seq<T>, b: seq<T>)
    requires forall x :: x in a <==> x in b
    ensures Without(d, a) == Without(d, b)
    decreases |d|
  {
    if |d| > 0 {
      WithoutSameValues(d[1..], a, b);
    }
  }

  /** Deduplicating a concatenation keeps the values of the first part, then
      the new values of the second part in their first-occurrence order. */
  lemma {:induction false} DedupAppend<T(!new)>(a: seq<T>, b: seq<T>)
    ensures Dedup(a + b) == Dedup(a) + Without(Dedup(b), a)
    decreases |b|
  {
    if |b| == 0 {
      assert a + b == a;
    } else {
      var b' := b[..|b| - 1];
      var l := b[|b| - 1];
      assert b == b' + [l];
      assert a + b == (a + b') + [l];
      DedupAppend(a, b');
      DedupSnoc(a + b', l);
      DedupSnoc(b', l);
      var d := Dedup(a + b');
      var w := Without(Dedup(b'), a);
      assert Without([l], a) == if l in a then [] else [l];
      if l !in b' {
        WithoutAppend(Dedup(b'), [l], a);
      }
    }
  }

  /** `Dedup` of a sequence extended by one value. */
  lemma DedupSnoc<T(!new)>(xs: seq<T>, l: T)
    ensures Dedup(xs + [l]) == if l in Dedup(xs) then Dedup(xs) else Dedup(xs) + [l]
  {
    assert (xs + [l])[..|xs + [l]| - 1] == xs;
  }

  /** A set built from a set's elements followed by more values is the set
      built from all of the values: `new Set([...new Set(a), ...b])`. */
  lemma DedupOfDedupPrefix<T(!new)>(a: seq<T>, b: seq<T>)
    ensures Dedup(Dedup(a) + b) == Dedup(a + b)
  {
    DedupAppend(Dedup(a), b);
    DedupAppend(a, b);
    DedupIdempotent(a);
    WithoutSameValues(Dedup(b), Dedup(a), a);
  }

  /** Concatenation of a sequence of sequences. */
  function Flatten<T(!new)>(xss: seq<seq<T>>): (r: seq<T>)
    ensures forall x :: x in r <==> exists i :: 0 <= i < |xss| && x in xss[i]
    decreases |xss|
  {
    if |xss| == 0 then []
    else
      var rest := Flatten(xss[1..]);
      assert forall i :: 0 < i < |xss| ==> xss[i] == xss[1..][i - 1];
      xss[0] + rest
  }

  /** Deduplicating each part before deduplicating their concatenation
      changes nothing. */
  lemma {:induction false} DedupFlattenDedups<T(!new)>(xss: seq<seq<T>>)
    ensures Dedup(Flatten(DedupEach(xss))) == Dedup(Flatten(xss))
    decreases |xss|
  {
    if |xss| > 0 {
      var rest := Flatten(DedupEach(xss[1..]));
      assert DedupEach(xss)[1..] == DedupEach(xss[1..]);
      assert Flatten(DedupEach(xss)) == Dedup(xss[0]) + rest;
      assert Flatten(xss) == xss[0] + Flatten(xss[1..]);
      DedupOfDedupPrefix(xss[0], rest);
      DedupAppend(xss[0], rest);
      DedupFlattenDedups(xss[1..]);
      DedupAppend(xss[0], Flatten(xss[1..]));
    }
  }

  function DedupEach<T(==,!new)>(xss: seq<seq<T>>): (r: seq<seq<T>>)
    ensures |r| == |xss|
    ensures forall i :: 0 <= i < |xss| ==> r[i] == Dedup(xss[i])
  {
    seq(|xss|, i requires 0 <= i < |xss| => Dedup(xss[i]))
  }
}
