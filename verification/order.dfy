/** Python's ordering of strings and `sorted(set(...))`: a set of strings is
    kept as the strictly increasing sequence of its members. */
module Order {

  /** Python's `a < b` on `str`: lexicographic by code point, with a proper
      prefix ordered first. */
  predicate LexLess(a: string, b: string)
    decreases |a|
  {
    if a == [] then b != []
    else if b == [] then false
    else a[0] < b[0] || (a[0] == b[0] && LexLess(a[1..], b[1..]))
  }

  lemma {:induction false} LexIrreflexive(a: string)
    ensures !LexLess(a, a)
    decreases |a|
  {
    if a != [] {
      LexIrreflexive(a[1..]);
    }
  }

  lemma {:induction false} LexTransitive(a: string, b: string, c: string)
    requires LexLess(a, b) && LexLess(b, c)
    ensures LexLess(a, c)
    decreases |a|
  {
    if a != [] && a[0] == b[0] && b[0] == c[0] {
      LexTransitive(a[1..], b[1..], c[1..]);
    }
  }

  lemma {:induction false} LexTotal(a: string, b: string)
    ensures a == b || LexLess(a, b) || LexLess(b, a)
    decreases |a|
  {
    if a != [] && b != [] && a[0] == b[0] {
      LexTotal(a[1..], b[1..]);
      if a[1..] == b[1..] {
        assert a == [a[0]] + a[1..] && b == [b[0]] + b[1..];
      }
    }
  }

  lemma LexAsymmetric(a: string, b: string)
    requires LexLess(a, b)
    ensures !LexLess(b, a) && a != b
  {
    LexIrreflexive(a);
    if LexLess(b, a) {
      LexTransitive(a, b, a);
    }
  }

  /** Each member is lexicographically smaller than every later one (which
      also rules out duplicates). */
  predicate StrictlySorted(xs: seq<string>) {
    forall i, j :: 0 <= i < j < |xs| ==> LexLess(xs[i], xs[j])
  }

  /** The members of a sequence, as a set. */
  function Elems(xs: seq<string>): set<string> {
    set x | x in xs
  }

  /** Adding `x` to a sorted set of strings: the result is sorted and holds
      exactly the old members and `x`. */
  function Insert(xs: seq<string>, x: string): (r: seq<string>)
    requires StrictlySorted(xs)
    ensures StrictlySorted(r)
    ensures Elems(r) == Elems(xs) + {x}
    ensures |r| <= |xs| + 1
  {
    if xs == [] then [x]
    else if x == xs[0] then
      assert x in Elems(xs);
      xs
    else if LexLess(x, xs[0]) then
      InsertFront(xs, x);
      [x] + xs
    else
      var rest := Insert(xs[1..], x);
      InsertLater(xs, x, rest);
      [xs[0]] + rest
  }

  /** A member smaller than the head of a sorted sequence can go in front. */
  lemma InsertFront(xs: seq<string>, x: string)
    requires StrictlySorted(xs) && xs != [] && LexLess(x, xs[0])
    ensures StrictlySorted([x] + xs)
    ensures Elems([x] + xs) == Elems(xs) + {x}
  {
    forall i, j | 0 <= i < j < |[x] + xs| ensures LexLess(([x] + xs)[i], ([x] + xs)[j]) {
      if i == 0 && j > 1 {
        LexTransitive(x, xs[0], xs[j - 1]);
      }
    }
  }

  /** A member above the head goes into the tail: keeping the head in front
      of the tail's insertion gives a sorted sequence with the right members. */
  lemma InsertLater(xs: seq<string>, x: string, rest: seq<string>)
    requires StrictlySorted(xs) && xs != [] && x != xs[0] && !LexLess(x, xs[0])
    requires StrictlySorted(rest) && Elems(rest) == Elems(xs[1..]) + {x}
    ensures StrictlySorted([xs[0]] + rest)
    ensures Elems([xs[0]] + rest) == Elems(xs) + {x}
  {
    LexTotal(x, xs[0]);
    ElemsCons(xs[0], xs[1..]);
    assert xs == [xs[0]] + xs[1..];
    ElemsCons(xs[0], rest);
    assert forall y :: y in rest ==> LexLess(xs[0], y) by {
      forall y | y in rest ensures LexLess(xs[0], y) {
        assert y in Elems(rest);
        if y != x {
          assert y in Elems(xs[1..]);
          var k :| 0 <= k < |xs[1..]| && xs[1..][k] == y;
          assert xs[k + 1] == y;
        }
      }
    }
    InsertBehind(xs[0], rest);
  }

  /** A member smaller than everything in a sorted sequence can go in front. */
  lemma InsertBehind(h: string, rest: seq<string>)
    requires StrictlySorted(rest)
    requires forall y :: y in rest ==> LexLess(h, y)
    ensures StrictlySorted([h] + rest)
  {
    forall i, j | 0 <= i < j < |[h] + rest| ensures LexLess(([h] + rest)[i], ([h] + rest)[j]) {
      if i == 0 {
        assert rest[j - 1] in rest;
      }
    }
  }

  /** Python's `sorted(set(items))`: the members of `items`, each once, in
      increasing order. */
  function SortedSet(items: seq<string>): (r: seq<string>)
    ensures StrictlySorted(r)
    ensures Elems(r) == Elems(items)
  {
    if items == [] then []
    else
      var init := items[..|items| - 1];
      assert items == init + [items[|items| - 1]];
      assert Elems(items) == Elems(init) + {items[|items| - 1]};
      Insert(SortedSet(init), items[|items| - 1])
  }

  /** The head of a sorted sequence is its least member. */
  lemma HeadIsLeast(xs: seq<string>, x: string)
    requires StrictlySorted(xs) && x in xs
    ensures x == xs[0] || LexLess(xs[0], x)
  {
  }

  /** A set of strings has only one sorted arrangement: two strictly sorted
      sequences with the same members are equal. So the order in which the
      members were gathered never shows in the result. */
  lemma {:induction false} SortedUnique(a: seq<string>, b: seq<string>)
    requires StrictlySorted(a) && StrictlySorted(b)
    requires Elems(a) == Elems(b)
    ensures a == b
    decreases |a|
  {
    if a != [] {
      assert a[0] in Elems(b);
      assert b[0] in Elems(a);
      HeadIsLeast(a, b[0]);
      HeadIsLeast(b, a[0]);
      if a[0] != b[0] {
        LexAsymmetric(a[0], b[0]);
      }
      assert a[0] == b[0];
      assert forall y :: y in a[1..] ==> LexLess(a[0], y);
      assert forall y :: y in b[1..] ==> LexLess(b[0], y);
      LexIrreflexive(a[0]);
      assert Elems(a[1..]) == Elems(a) - {a[0]} by {
        assert a == [a[0]] + a[1..];
      }
      assert Elems(b[1..]) == Elems(b) - {b[0]} by {
        assert b == [b[0]] + b[1..];
      }
      SortedUnique(a[1..], b[1..]);
      assert a == [a[0]] + a[1..] && b == [b[0]] + b[1..];
    } else {
      ElemsEmpty(b);
    }
  }

  /** The members of a sequence with a head in front. */
  lemma ElemsCons(h: string, t: seq<string>)
    ensures Elems([h] + t) == {h} + Elems(t)
  {
    assert forall y :: y in [h] + t <==> y == h || y in t;
  }

  /** Only the empty sequence has no members. */
  lemma ElemsEmpty(xs: seq<string>)
    ensures Elems(xs) == {} <==> xs == []
  {
    if xs != [] {
      assert xs[0] in Elems(xs);
    }
  }
}
