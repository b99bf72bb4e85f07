/** Linear registers over an abstract group: what holds of a CRC register whatever the
    words and the generator polynomial are. */
module LinearMaps {

  ghost predicate Linear<T(!new)>(f: T -> T, plus: (T, T) -> T) {
    forall a, b :: f(plus(a, b)) == plus(f(a), f(b))
  }

  function Iterate<T>(f: T -> T, n: nat, r: T): T {
    if n == 0 then r else Iterate(f, n - 1, f(r))
  }

  lemma {:induction false} IterateLinear<T(!new)>(f: T -> T, plus: (T, T) -> T, n: nat, a: T, b: T)
    requires Linear(f, plus)
    ensures Iterate(f, n, plus(a, b)) == plus(Iterate(f, n, a), Iterate(f, n, b))
  {
    if n == 0 {
    } else {
      IterateLinear(f, plus, n - 1, f(a), f(b));
    }
  }

  lemma {:induction false} IterateCommutes<T>(f: T -> T, n: nat, r: T)
    ensures Iterate(f, n, f(r)) == f(Iterate(f, n, r))
  {
    if n == 0 {
    } else {
      IterateCommutes(f, n - 1, f(r));
    }
  }

  lemma {:induction false} IterateAdds<T>(f: T -> T, m: nat, n: nat, r: T)
    ensures Iterate(f, m + n, r) == Iterate(f, n, Iterate(f, m, r))
  {
    if m == 0 {
    } else {
      IterateAdds(f, m - 1, n, f(r));
    }
  }

  /** Runs a message through a register, bit by bit. */
  function Fold<T>(feed: (T, bool) -> T, r: T, bits: seq<bool>): T
    decreases |bits|
  {
    if bits == [] then r else Fold(feed, feed(r, bits[0]), bits[1..])
  }

  lemma {:induction false} FoldConcat<T>(feed: (T, bool) -> T, r: T, a: seq<bool>, b: seq<bool>)
    ensures Fold(feed, r, a + b) == Fold(feed, Fold(feed, r, a), b)
    decreases |a|
  {
    if a == [] {
      assert a + b == b;
    } else {
      assert (a + b)[1..] == a[1..] + b;
      FoldConcat(feed, feed(r, a[0]), a[1..], b);
    }
  }

  ghost predicate OneToOne<T(!new)>(feed: (T, bool) -> T) {
    forall a, b, bit :: feed(a, bit) == feed(b, bit) ==> a == b
  }

  /** Whatever follows, two different registers stay different. */
  lemma {:induction false} FoldOneToOne<T(!new)>(feed: (T, bool) -> T, a: T, b: T, bits: seq<bool>)
    requires OneToOne(feed) && Fold(feed, a, bits) == Fold(feed, b, bits)
    ensures a == b
    decreases |bits|
  {
    if bits == [] {
    } else {
      var bit := bits[0];
      FoldOneToOne(feed, feed(a, bit), feed(b, bit), bits[1..]);
      assert feed(a, bit) == feed(b, bit);
    }
  }

  function XorBits(a: seq<bool>, b: seq<bool>): (r: seq<bool>)
    requires |a| == |b|
    ensures |r| == |a|
  {
    seq(|a|, i requires 0 <= i < |a| => a[i] != b[i])
  }

  ghost predicate LinearFeed<T(!new)>(feed: (T, bool) -> T, plus: (T, T) -> T) {
    forall a, b, x: bool, y: bool :: feed(plus(a, b), x != y) == plus(feed(a, x), feed(b, y))
  }

  lemma {:induction false} FoldLinear<T(!new)>(feed: (T, bool) -> T, plus: (T, T) -> T, a: T, b: T, x: seq<bool>, y: seq<bool>)
    requires LinearFeed(feed, plus) && |x| == |y|
    ensures Fold(feed, plus(a, b), XorBits(x, y)) == plus(Fold(feed, a, x), Fold(feed, b, y))
    decreases |x|
  {
    if x == [] {
    } else {
      assert XorBits(x, y)[1..] == XorBits(x[1..], y[1..]);
      assert feed(plus(a, b), x[0] != y[0]) == plus(feed(a, x[0]), feed(b, y[0]));
      FoldLinear(feed, plus, feed(a, x[0]), feed(b, y[0]), x[1..], y[1..]);
    }
  }

  /** A register that is mapped by f and then takes in g for every bit that is set. */
  ghost predicate TakesIn<T(!new)>(feed: (T, bool) -> T, f: T -> T, plus: (T, T) -> T, g: T) {
    && (forall s :: feed(s, true) == plus(f(s), g))
    && (forall s :: feed(s, false) == f(s))
  }

  /** If g = f^k(one), the register that takes in g is always k steps of f ahead of the
      register that takes in one. */
  lemma {:induction false} FeedIsAhead<T(!new)>(
    f: T -> T, plus: (T, T) -> T, one: T, g: T, k: nat,
    feed: (T, bool) -> T, divide: (T, bool) -> T, r: T, bits: seq<bool>)
    requires Linear(f, plus) && Iterate(f, k, one) == g
    requires TakesIn(feed, f, plus, g) && TakesIn(divide, f, plus, one)
    ensures Fold(feed, Iterate(f, k, r), bits) == Iterate(f, k, Fold(divide, r, bits))
    decreases |bits|
  {
    if bits == [] {
    } else {
      IterateLinear(f, plus, k, f(r), one);
      IterateCommutes(f, k, r);
      var next := divide(r, bits[0]);
      if bits[0] {
        assert next == divide(r, true) == plus(f(r), one);
        assert feed(Iterate(f, k, r), true) == plus(f(Iterate(f, k, r)), g);
      } else {
        assert next == divide(r, false) == f(r);
        assert feed(Iterate(f, k, r), false) == f(Iterate(f, k, r));
      }
      assert feed(Iterate(f, k, r), bits[0]) == Iterate(f, k, next);
      FeedIsAhead(f, plus, one, g, k, feed, divide, next, bits[1..]);
    }
  }

  /** Exclusive or. */
  ghost predicate Group<T(!new)>(plus: (T, T) -> T, zero: T) {
    && (forall a, b, c :: plus(plus(a, b), c) == plus(a, plus(b, c)))
    && (forall a, b :: plus(a, b) == plus(b, a))
    && (forall a :: plus(a, a) == zero && plus(a, zero) == a)
  }

  ghost predicate Regroups<T>(plus: (T, T) -> T, g: T, a: T, b: T) {
    && plus(plus(a, g), plus(b, g)) == plus(a, b)
    && plus(plus(a, g), b) == plus(plus(a, b), g)
    && plus(a, plus(b, g)) == plus(plus(a, b), g)
  }

  lemma GroupRegroups<T(!new)>(plus: (T, T) -> T, zero: T, g: T, a: T, b: T)
    requires Group(plus, zero)
    ensures Regroups(plus, g, a, b)
  {
    calc {
      plus(plus(a, g), plus(b, g));
      plus(a, plus(g, plus(b, g)));
      plus(a, plus(g, plus(g, b)));
      plus(a, plus(plus(g, g), b));
      plus(a, plus(zero, b));
      plus(a, plus(b, zero));
      plus(a, b);
    }
  }

  lemma TakingInIsLinear<T(!new)>(feed: (T, bool) -> T, f: T -> T, plus: (T, T) -> T, g: T)
    requires Linear(f, plus) && TakesIn(feed, f, plus, g) && forall a, b :: Regroups(plus, g, a, b)
    ensures LinearFeed(feed, plus)
  {
    forall a, b, x: bool, y: bool ensures feed(plus(a, b), x != y) == plus(feed(a, x), feed(b, y)) {
      assert Regroups(plus, g, f(a), f(b));
      TakesInAt(feed, f, plus, g, a, b, x, y);
    }
  }

  lemma TakesInAt<T(!new)>(feed: (T, bool) -> T, f: T -> T, plus: (T, T) -> T, g: T, a: T, b: T, x: bool, y: bool)
    requires f(plus(a, b)) == plus(f(a), f(b)) && Regroups(plus, g, f(a), f(b))
    requires TakesIn(feed, f, plus, g)
    ensures feed(plus(a, b), x != y) == plus(feed(a, x), feed(b, y))
  {
    assert feed(a, x) == if x then plus(f(a), g) else f(a);
    assert feed(b, y) == if y then plus(f(b), g) else f(b);
    assert feed(plus(a, b), x != y) == if x != y then plus(f(plus(a, b)), g) else f(plus(a, b));
  }

  /** f either doubles y or, if the top of y is set, doubles it and takes in g. */
  ghost predicate Reduces<T(!new)>(f: T -> T, plus: (T, T) -> T, g: T, top: T -> bool, double: T -> T) {
    && (forall y :: top(y) ==> f(y) == plus(double(y), g))
    && (forall y :: !top(y) ==> f(y) == double(y))
  }

  function TopBits<T>(top: T -> bool, double: T -> T, y: T, n: nat): (r: seq<bool>)
    ensures |r| == n
  {
    if n == 0 then [] else [top(y)] + TopBits(top, double, double(y), n - 1)
  }

  lemma EightTopBits<T>(top: T -> bool, double: T -> T, y: T)
    ensures var y1 := double(y); var y2 := double(y1); var y3 := double(y2); var y4 := double(y3);
      var y5 := double(y4); var y6 := double(y5); var y7 := double(y6);
      && TopBits(top, double, y, 8) == [top(y), top(y1), top(y2), top(y3), top(y4), top(y5), top(y6), top(y7)]
      && Iterate(double, 8, y) == double(y7)
  {
    var y2 := double(double(y));
    var y4 := double(double(y2));
    var y6 := double(double(y4));
    assert TopBits(top, double, y6, 2) == [top(y6), top(double(y6))];
    assert TopBits(top, double, y4, 4) == [top(y4), top(double(y4))] + TopBits(top, double, y6, 2);
    assert TopBits(top, double, y2, 6) == [top(y2), top(double(y2))] + TopBits(top, double, y4, 4);
    assert TopBits(top, double, y, 8) == [top(y), top(double(y))] + TopBits(top, double, y2, 6);
    assert Iterate(double, 2, y6) == double(double(y6));
    assert Iterate(double, 4, y4) == Iterate(double, 2, y6);
    assert Iterate(double, 6, y2) == Iterate(double, 4, y4);
    assert Iterate(double, 8, y) == Iterate(double, 6, y2);
  }

  lemma SplitsTop<T(!new)>(f: T -> T, plus: (T, T) -> T, g: T, feed: (T, bool) -> T, top: T -> bool, double: T -> T, u: T, y: T)
    requires Linear(f, plus) && TakesIn(feed, f, plus, g) && Reduces(f, plus, g, top, double)
    requires Regroups(plus, g, f(u), double(y))
    ensures f(plus(u, y)) == plus(feed(u, top(y)), double(y))
  {
    assert f(plus(u, y)) == plus(f(u), f(y));
    if top(y) {
      assert f(y) == plus(double(y), g);
      assert feed(u, true) == plus(f(u), g);
    } else {
      assert feed(u, false) == f(u);
    }
  }

  /** Instead of feeding n bits one at a time they may all be added up front. */
  lemma {:induction false} FeedUpFront<T(!new)>(
    f: T -> T, plus: (T, T) -> T, g: T, feed: (T, bool) -> T, top: T -> bool, double: T -> T, u: T, y: T, n: nat)
    requires Linear(f, plus) && TakesIn(feed, f, plus, g) && Reduces(f, plus, g, top, double)
    requires forall a, b :: Regroups(plus, g, a, b)
    ensures Iterate(f, n, plus(u, y)) == plus(Fold(feed, u, TopBits(top, double, y, n)), Iterate(double, n, y))
    decreases n
  {
    if n == 0 {
    } else {
      assert Regroups(plus, g, f(u), double(y));
      SplitsTop(f, plus, g, feed, top, double, u, y);
      FeedUpFront(f, plus, g, feed, top, double, feed(u, top(y)), double(y), n - 1);
      assert TopBits(top, double, y, n)[1..] == TopBits(top, double, double(y), n - 1);
    }
  }

  /** x added to each of sixteen table entries. */
  function AddAll<T>(plus: (T, T) -> T, x: T, row: seq<T>): seq<T>
    requires |row| == 16
  {
    [plus(x, row[0]), plus(x, row[1]), plus(x, row[2]), plus(x, row[3]),
     plus(x, row[4]), plus(x, row[5]), plus(x, row[6]), plus(x, row[7]),
     plus(x, row[8]), plus(x, row[9]), plus(x, row[10]), plus(x, row[11]),
     plus(x, row[12]), plus(x, row[13]), plus(x, row[14]), plus(x, row[15])]
  }

  lemma AddAllAt<T>(plus: (T, T) -> T, x: T, row: seq<T>, j: nat)
    requires |row| == 16 && j < 16
    ensures AddAll(plus, x, row)[j] == plus(x, row[j])
  {
  }

  function Zeros(n: nat): (z: seq<bool>)
    ensures |z| == n
  {
    seq(n, _ => false)
  }

  lemma {:induction false} FoldZeros<T(!new)>(f: T -> T, feed: (T, bool) -> T, r: T, n: nat)
    requires forall s :: feed(s, false) == f(s)
    ensures Fold(feed, r, Zeros(n)) == Iterate(f, n, r)
    decreases n
  {
    if n == 0 {
    } else {
      assert Zeros(n)[1..] == Zeros(n - 1);
      FoldZeros(f, feed, f(r), n - 1);
    }
  }
}
