/** Counting the events of an invocation's trace. */
module Trace {

  /** How many events of t satisfy p. */
  function Count<E>(t: seq<E>, p: E -> bool): (n: nat)
    ensures n <= |t|
  {
    if t == [] then 0 else (if p(t[0]) then 1 else 0) + Count(t[1..], p)
  }

  lemma {:induction false} CountAppend<E>(a: seq<E>, b: seq<E>, p: E -> bool)
    ensures Count(a + b, p) == Count(a, p) + Count(b, p)
  {
    if a != [] {
      assert (a + b)[1..] == a[1..] + b;
      CountAppend(a[1..], b, p);
    } else {
      assert a + b == b;
    }
  }

  /** Counting distributes over a trace made of three parts. */
  lemma Count3<E>(a: seq<E>, b: seq<E>, c: seq<E>, p: E -> bool)
    ensures Count(a + b + c, p) == Count(a, p) + Count(b, p) + Count(c, p)
  {
    CountAppend(a + b, c, p);
    CountAppend(a, b, p);
  }

  lemma CountOne<E>(e: E, p: E -> bool)
    ensures Count([e], p) == if p(e) then 1 else 0
  {
    assert [e][1..] == [];
  }
}
