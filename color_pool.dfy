/** Accounting for the colour pool: how often each real colour is still available in
    `colors`, and how many open connections hold it.  `undefined` entries (`None`)
    carry no colour. */
module ColorPool {
  import opened ChatTypes

  /** The seven colours of the literal list the pool starts from, each once. */
  function Palette(): multiset<Color>
  {
    multiset{Red, Green, Blue, Magenta, Purple, Plum, Orange}
  }

  /** How many entries of the pool are colour `x`. */
  function AvailCount(pool: seq<Option<Color>>, x: Color): nat
  {
    if pool == [] then 0
    else AvailCount(pool[..|pool| - 1], x) + (if pool[|pool| - 1] == Some(x) then 1 else 0)
  }

  /** A connection holds a colour from the moment it draws it until it closes. */
  predicate Holds(c: Conn, x: Color)
  {
    c.open && c.color == Taken(Some(x))
  }

  /** How many connections hold colour `x`. */
  function HeldCount(cs: seq<Conn>, x: Color): nat
  {
    if cs == [] then 0
    else HeldCount(cs[..|cs| - 1], x) + (if Holds(cs[|cs| - 1], x) then 1 else 0)
  }

  /** The shuffled colour list as the initial pool. */
  function Lift(s: seq<Color>): (r: seq<Option<Color>>)
    ensures |r| == |s|
    ensures forall k :: 0 <= k < |s| ==> r[k] == Some(s[k])
  {
    seq(|s|, k requires 0 <= k < |s| => Some(s[k]))
  }

  /** `colors.shift()`: the first entry and the rest, or `undefined` and the empty
      pool when the pool is exhausted. */
  function Take(pool: seq<Option<Color>>): (r: (Option<Color>, seq<Option<Color>>))
    ensures pool == [] ==> r == (None, [])
    ensures pool != [] ==> [r.0] + r.1 == pool
  {
    if pool == [] then (None, []) else (pool[0], pool[1..])
  }

  lemma PaletteOnce(x: Color)
    ensures Palette()[x] == 1
  {
  }

  /** The initial pool holds each colour as often as the list it was made from. */
  lemma {:induction false} AvailLift(s: seq<Color>, x: Color)
    ensures AvailCount(Lift(s), x) == multiset(s)[x]
  {
    if s != [] {
      var s' := s[..|s| - 1];
      assert Lift(s)[..|s| - 1] == Lift(s');
      AvailLift(s', x);
      assert s == s' + [s[|s| - 1]];
    }
  }

  /** Concatenated pools add their counts; in particular `colors.push(c)` adds one to
      the count of `c` and to no other. */
  lemma {:induction false} AvailAppend(a: seq<Option<Color>>, b: seq<Option<Color>>, x: Color)
    ensures AvailCount(a + b, x) == AvailCount(a, x) + AvailCount(b, x)
    decreases |b|
  {
    if b == [] {
      assert a + b == a;
    } else {
      var b' := b[..|b| - 1];
      assert (a + b)[..|a + b| - 1] == a + b';
      AvailAppend(a, b', x);
    }
  }

  /** `colors.shift()` removes exactly the colour it returns. */
  lemma AvailTake(pool: seq<Option<Color>>, x: Color)
    ensures AvailCount(pool, x) == AvailCount(Take(pool).1, x) + (if Take(pool).0 == Some(x) then 1 else 0)
  {
    if pool != [] {
      AvailAppend([pool[0]], pool[1..], x);
      assert [pool[0]] + pool[1..] == pool;
      assert [pool[0]][..0] == [];
    }
  }

  /** A colour is in the pool exactly when its count there is positive. */
  lemma {:induction false} AvailHas(pool: seq<Option<Color>>, x: Color)
    ensures Some(x) in pool <==> AvailCount(pool, x) > 0
  {
    if pool != [] {
      var n := |pool| - 1;
      AvailHas(pool[..n], x);
      assert pool == pool[..n] + [pool[n]];
    }
  }

  lemma HeldAppend(cs: seq<Conn>, c: Conn, x: Color)
    ensures HeldCount(cs + [c], x) == HeldCount(cs, x) + (if Holds(c, x) then 1 else 0)
  {
    assert (cs + [c])[..|cs|] == cs;
  }

  /** Replacing the state of one connection changes each colour's held count by
      exactly the difference between its old and new holding. */
  lemma {:induction false} HeldUpdate(cs: seq<Conn>, k: nat, c: Conn, x: Color)
    requires k < |cs|
    ensures HeldCount(cs[k := c], x) + (if Holds(cs[k], x) then 1 else 0)
         == HeldCount(cs, x) + (if Holds(c, x) then 1 else 0)
  {
    var n := |cs| - 1;
    var cs' := cs[k := c];
    if k < n {
      assert cs'[..n] == cs[..n][k := c];
      assert cs[..n][k] == cs[k] && cs'[n] == cs[n];
      HeldUpdate(cs[..n], k, c, x);
    } else {
      assert cs'[..n] == cs[..n];
    }
  }

  /** A colour held by two different connections is counted twice. */
  lemma {:induction false} HeldTwo(cs: seq<Conn>, j: nat, k: nat, x: Color)
    requires j < k < |cs|
    requires Holds(cs[j], x) && Holds(cs[k], x)
    ensures HeldCount(cs, x) >= 2
  {
    var n := |cs| - 1;
    var init := cs[..n];
    assert init[j] == cs[j];
    if k < n {
      assert init[k] == cs[k];
      HeldTwo(init, j, k, x);
    } else {
      HeldOne(init, j, x);
    }
  }

  /** A colour held by some connection is counted at least once. */
  lemma {:induction false} HeldOne(cs: seq<Conn>, k: nat, x: Color)
    requires k < |cs| && Holds(cs[k], x)
    ensures HeldCount(cs, x) >= 1
  {
    var n := |cs| - 1;
    if k < n {
      assert cs[..n][k] == cs[k];
      HeldOne(cs[..n], k, x);
    }
  }

  /** Every colour is either available in the pool or held by an open connection,
      exactly once. */
  predicate Conserved(pool: seq<Option<Color>>, cs: seq<Conn>)
  {
    forall x: Color :: AvailCount(pool, x) + HeldCount(cs, x) == 1
  }

  /** While the colours are conserved, no two connections hold the same colour. */
  lemma NoColorHeldTwice(pool: seq<Option<Color>>, cs: seq<Conn>, j: nat, k: nat, x: Color)
    requires Conserved(pool, cs)
    requires j < |cs| && k < |cs| && j != k && Holds(cs[j], x)
    ensures !Holds(cs[k], x)
  {
    assert AvailCount(pool, x) + HeldCount(cs, x) == 1;
    if Holds(cs[k], x) {
      if j < k { HeldTwo(cs, j, k, x); } else { HeldTwo(cs, k, j, x); }
      assert false;
    }
  }

  /** While the colours are conserved, a colour held by an open connection is not also
      in the pool. */
  lemma HeldNotAvailable(pool: seq<Option<Color>>, cs: seq<Conn>, k: nat, x: Color)
    requires Conserved(pool, cs)
    requires k < |cs| && Holds(cs[k], x)
    ensures Some(x) !in pool
  {
    assert AvailCount(pool, x) + HeldCount(cs, x) == 1;
    HeldOne(cs, k, x);
    AvailHas(pool, x);
  }

  /** No `undefined` anywhere: the pool holds only real colours and no connection
      drew `undefined`.  This holds until a name frame arrives on an empty pool. */
  predicate Defined(pool: seq<Option<Color>>, cs: seq<Conn>)
  {
    None !in pool && forall k :: 0 <= k < |cs| ==> cs[k].color != Taken(None)
  }

  /** The real colours in the pool. */
  function PoolColors(pool: seq<Option<Color>>): multiset<Color>
  {
    if pool == [] then multiset{}
    else
      var last := pool[|pool| - 1];
      PoolColors(pool[..|pool| - 1]) + (if last.Some? then multiset{last.value} else multiset{})
  }

  /** The colours held by open connections. */
  function HeldColors(cs: seq<Conn>): multiset<Color>
  {
    if cs == [] then multiset{}
    else
      var last := cs[|cs| - 1];
      HeldColors(cs[..|cs| - 1])
        + (if last.open && last.color.Taken? && last.color.taken.Some?
           then multiset{last.color.taken.value} else multiset{})
  }

  lemma {:induction false} PoolColorsCount(pool: seq<Option<Color>>, x: Color)
    ensures PoolColors(pool)[x] == AvailCount(pool, x)
  {
    if pool != [] {
      PoolColorsCount(pool[..|pool| - 1], x);
    }
  }

  lemma {:induction false} HeldColorsCount(cs: seq<Conn>, x: Color)
    ensures HeldColors(cs)[x] == HeldCount(cs, x)
  {
    if cs != [] {
      HeldColorsCount(cs[..|cs| - 1], x);
    }
  }

  /** A pool without `undefined` has as many colours as entries. */
  lemma {:induction false} PoolColorsSize(pool: seq<Option<Color>>)
    requires None !in pool
    ensures |PoolColors(pool)| == |pool|
  {
    if pool != [] {
      var init := pool[..|pool| - 1];
      assert forall e :: e in init ==> e in pool;
      PoolColorsSize(init);
      assert pool[|pool| - 1] in pool;
    }
  }

  /** While the colours are conserved, the real colours of the pool and the colours
      held by open connections together are exactly the seven starting colours. */
  lemma ConservedPalette(pool: seq<Option<Color>>, cs: seq<Conn>)
    requires Conserved(pool, cs)
    ensures PoolColors(pool) + HeldColors(cs) == Palette()
  {
    forall x: Color ensures (PoolColors(pool) + HeldColors(cs))[x] == Palette()[x] {
      assert AvailCount(pool, x) + HeldCount(cs, x) == 1;
      PoolColorsCount(pool, x);
      HeldColorsCount(cs, x);
      PaletteOnce(x);
    }
  }

  /** While no `undefined` is in the pool, the pool has exactly as many entries as
      the starting colours not held by an open connection. */
  lemma PoolSize(pool: seq<Option<Color>>, cs: seq<Conn>)
    requires Conserved(pool, cs) && None !in pool
    ensures |pool| + |HeldColors(cs)| == |Palette()| == 7
  {
    ConservedPalette(pool, cs);
    PoolColorsSize(pool);
  }
}
