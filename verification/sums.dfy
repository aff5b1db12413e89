/** Sums of a natural-number measure over finite sets. */
module Sums {

  /** The sum of `f` over the keys in `s`. The order in which elements are drawn does not matter, see SumSetRemove. */
  ghost function SumSet<T>(s: set<T>, f: map<T, nat>): nat
    requires s <= f.Keys
  {
    if s == {} then 0 else
      var x :| x in s;
      f[x] + SumSet(s - {x}, f)
  }

  lemma {:induction false} SumSetRemove<T>(s: set<T>, f: map<T, nat>, x: T)
    requires s <= f.Keys && x in s
    ensures SumSet(s, f) == f[x] + SumSet(s - {x}, f)
    decreases s
  {
    var y :| y in s && SumSet(s, f) == f[y] + SumSet(s - {y}, f);
    if y != x {
      SumSetRemove(s - {y}, f, x);
      SumSetRemove(s - {x}, f, y);
      assert s - {y} - {x} == s - {x} - {y};
    }
  }

  lemma {:induction false} SumSetAgree<T>(s: set<T>, f: map<T, nat>, g: map<T, nat>)
    requires s <= f.Keys && s <= g.Keys
    requires forall x | x in s :: f[x] == g[x]
    ensures SumSet(s, f) == SumSet(s, g)
    decreases s
  {
    if s != {} {
      var x :| x in s;
      SumSetRemove(s, f, x);
      SumSetRemove(s, g, x);
      SumSetAgree(s - {x}, f, g);
    }
  }

  /** Changing the measure of one element changes the sum by exactly that much. */
  lemma {:induction false} SumSetUpdate<T>(s: set<T>, f: map<T, nat>, x: T, v: nat)
    requires s <= f.Keys && x in s
    ensures SumSet(s, f[x := v]) + f[x] == SumSet(s, f) + v
  {
    SumSetRemove(s, f, x);
    SumSetRemove(s, f[x := v], x);
    SumSetAgree(s - {x}, f, f[x := v]);
  }

  /** Adding a new element adds its measure. */
  lemma {:induction false} SumSetInsert<T>(s: set<T>, f: map<T, nat>, x: T)
    requires s <= f.Keys && x in f && x !in s
    ensures SumSet(s + {x}, f) == SumSet(s, f) + f[x]
  {
    SumSetRemove(s + {x}, f, x);
    assert s + {x} - {x} == s;
  }

  /** Elements of measure zero can be left out. */
  lemma {:induction false} SumSetZeros<T>(s: set<T>, t: set<T>, f: map<T, nat>)
    requires t <= s <= f.Keys
    requires forall x | x in s - t :: f[x] == 0
    ensures SumSet(s, f) == SumSet(t, f)
    decreases s
  {
    if s - t == {} {
      assert forall x | x in s :: x in t || x in s - t;
      assert s == t;
    } else {
      var x :| x in s - t;
      SumSetRemove(s, f, x);
      SumSetZeros(s - {x}, t, f);
    }
  }

  lemma {:induction false} SumSetAdd<T>(s: set<T>, f: map<T, nat>, g: map<T, nat>, h: map<T, nat>)
    requires s <= f.Keys && s <= g.Keys && s <= h.Keys
    requires forall x | x in s :: h[x] == f[x] + g[x]
    ensures SumSet(s, h) == SumSet(s, f) + SumSet(s, g)
    decreases s
  {
    if s != {} {
      var x :| x in s;
      SumSetRemove(s, f, x);
      SumSetRemove(s, g, x);
      SumSetRemove(s, h, x);
      SumSetAdd(s - {x}, f, g, h);
    }
  }

  lemma {:induction false} SumSetConstant<T>(s: set<T>, f: map<T, nat>, c: nat)
    requires s <= f.Keys
    requires forall x | x in s :: f[x] == c
    ensures SumSet(s, f) == c * |s|
    decreases s
  {
    if s == {} {
    } else {
      var x :| x in s;
      SumSetRemove(s, f, x);
      SumSetConstant(s - {x}, f, c);
      assert |s| == |s - {x}| + 1;
      assert c * |s| == c * |s - {x}| + c;
    }
  }

  lemma {:induction false} SumSetUnion<T>(s: set<T>, t: set<T>, f: map<T, nat>)
    requires s <= f.Keys && t <= f.Keys && s !! t
    ensures SumSet(s + t, f) == SumSet(s, f) + SumSet(t, f)
    decreases t
  {
    if t == {} {
      assert s + t == s;
    } else {
      var x :| x in t;
      SumSetRemove(t, f, x);
      SumSetRemove(s + t, f, x);
      assert s + t - {x} == s + (t - {x});
      SumSetUnion(s, t - {x}, f);
    }
  }
}
