/**
 * `random_choice` and `random_choices`. Every call of `Math.random()` is
 * replaced by the next value of a sequence of reals in [0, 1) that the caller
 * supplies, so each property below holds whatever values the generator returns.
 */
module Random {
  import opened Wrappers

  /** A value `Math.random()` can return. */
  predicate IsUnit(r: real) {
    0.0 <= r < 1.0
  }

  predicate AllUnit(rs: seq<real>) {
    forall i :: 0 <= i < |rs| ==> IsUnit(rs[i])
  }

  /** `Math.floor(r * n)`: an index below `n`, and 0 when `n` is 0. */
  function ScaledIndex(r: real, n: nat): (i: int)
    requires IsUnit(r)
    ensures n > 0 ==> 0 <= i < n
    ensures n == 0 ==> i == 0
  {
    assert r * n as real <= 1.0 * n as real;
    (r * n as real).Floor
  }

  /**
   * Each index `k` below `n` is chosen for exactly the values in [k/n, (k+1)/n):
   * an interval of width 1/n, so a uniform `r` picks every index alike.
   */
  lemma ScaledIndexInterval(r: real, n: nat, k: nat)
    requires IsUnit(r) && k < n
    ensures ScaledIndex(r, n) == k <==> k as real / n as real <= r < (k + 1) as real / n as real
  {
    var m := n as real;
    var lo, hi := k as real / m, (k + 1) as real / m;
    assert lo * m == k as real && hi * m == (k + 1) as real;
    ScaleMonotone(lo, r, m);
    ScaleMonotone(hi, r, m);
    FloorIs(r * m, k);
  }

  lemma FloorIs(x: real, k: int)
    ensures x.Floor == k <==> k as real <= x < (k + 1) as real
  {
    assert x.Floor as real <= x < x.Floor as real + 1.0;
  }

  /** Multiplying by a positive number keeps the order of two reals. */
  lemma ScaleMonotone(a: real, b: real, m: real)
    requires m > 0.0
    ensures a <= b <==> a * m <= b * m
  {
    assert (b - a) * m == b * m - a * m;
    if a <= b {
      assert (b - a) * m >= 0.0;
    } else {
      assert (a - b) * m > 0.0;
    }
  }

  /** `random_choice(a)`: the element at `Math.floor(r * a.length)`, `undefined` (None) for an empty `a`. */
  function RandomChoice(a: string, r: real): (c: Option<char>)
    requires IsUnit(r)
    ensures c.Some? <==> |a| > 0
    ensures c.Some? ==> c.value in a
  {
    var i := ScaledIndex(r, |a|);
    if 0 <= i < |a| then Some(a[i]) else None
  }

  /** Every element of a non-empty `a` is the choice for some value of `Math.random()`. */
  lemma RandomChoiceReaches(a: string, k: nat)
    requires k < |a|
    ensures IsUnit(k as real / |a| as real)
    ensures RandomChoice(a, k as real / |a| as real) == Some(a[k])
  {
    var n := |a| as real;
    var r := k as real / n;
    assert r * n == k as real;
    ScaledIndexInterval(r, |a|, k);
  }

  /** The choices made with the random values `rs`, one per value, in order. */
  function Draws(a: string, rs: seq<real>): seq<Option<char>>
    requires AllUnit(rs)
  {
    if rs == [] then []
    else Draws(a, rs[..|rs| - 1]) + [RandomChoice(a, rs[|rs| - 1])]
  }

  /** One draw per random value, the `i`-th made with the `i`-th value. */
  lemma {:induction false} DrawsSpec(a: string, rs: seq<real>)
    requires AllUnit(rs)
    ensures |Draws(a, rs)| == |rs|
    ensures forall i :: 0 <= i < |rs| ==> Draws(a, rs)[i] == RandomChoice(a, rs[i])
  {
    if rs != [] {
      DrawsSpec(a, rs[..|rs| - 1]);
    }
  }

  /**
   * `random_choices(a, length)`, where `rs` are the `length` values `Math.random()`
   * returns during the call.
   */
  method RandomChoices(a: string, length: nat, rs: seq<real>) returns (result: seq<Option<char>>)
    requires |rs| == length && AllUnit(rs)
    ensures result == Draws(a, rs)
    ensures |result| == length
    ensures forall i :: 0 <= i < length ==> (result[i].Some? <==> |a| > 0)
    ensures forall i :: 0 <= i < length && result[i].Some? ==> result[i].value in a
  {
    result := [];
    for i := 0 to length
      invariant result == Draws(a, rs[..i])
    {
      assert rs[..i + 1][..i] == rs[..i];
      result := result + [RandomChoice(a, rs[i])];
    }
    assert rs[..length] == rs;
    DrawsSpec(a, rs);
  }

  /** `.join('')` of possibly undefined characters: `undefined` contributes nothing. */
  function Concat(xs: seq<Option<char>>): string {
    if xs == [] then ""
    else Concat(xs[..|xs| - 1]) + (if xs[|xs| - 1].Some? then [xs[|xs| - 1].value] else [])
  }

  /** Joining defined characters keeps every one of them, in order. */
  lemma {:induction false} ConcatDefined(xs: seq<Option<char>>)
    requires forall i :: 0 <= i < |xs| ==> xs[i].Some?
    ensures |Concat(xs)| == |xs|
    ensures forall i :: 0 <= i < |xs| ==> Concat(xs)[i] == xs[i].value
  {
    if xs != [] {
      ConcatDefined(xs[..|xs| - 1]);
    }
  }

  /** Joining only undefined values gives the empty string. */
  lemma {:induction false} ConcatUndefined(xs: seq<Option<char>>)
    requires forall i :: 0 <= i < |xs| ==> xs[i].None?
    ensures Concat(xs) == ""
  {
    if xs != [] {
      ConcatUndefined(xs[..|xs| - 1]);
    }
  }

  /**
   * The string made from `|rs|` draws: `|rs|` characters of `a` when `a` is
   * non-empty, and empty otherwise.
   */
  lemma DrawnString(a: string, rs: seq<real>)
    requires AllUnit(rs)
    ensures |a| > 0 ==> |Concat(Draws(a, rs))| == |rs| && forall c :: c in Concat(Draws(a, rs)) ==> c in a
    ensures |a| == 0 ==> Concat(Draws(a, rs)) == ""
  {
    var d := Draws(a, rs);
    DrawsSpec(a, rs);
    if |a| > 0 {
      ConcatDefined(d);
      forall c | c in Concat(d)
        ensures c in a
      {
        var i :| 0 <= i < |Concat(d)| && Concat(d)[i] == c;
        assert d[i] == RandomChoice(a, rs[i]);
      }
    } else {
      ConcatUndefined(d);
    }
  }
}
