/** `Pair<A, B>`: the two-field value that keys the converter map. The getters
    `getA`/`getB` are the datatype's fields `a`/`b`. */
module Pairs {

  datatype Pair<A, B> = Pair(a: A, b: B)

  /** The argument of `equals(Object)`: a null reference, an object of some
      other class, or another pair. */
  datatype Other<A, B> = NullRef | OtherClass | PairRef(pair: Pair<A, B>)

  /** `setA`: replaces the first component and nothing else. */
  function SetA<A, B>(p: Pair<A, B>, x: A): (r: Pair<A, B>)
    ensures r.a == x && r.b == p.b
    ensures r == p <==> p.a == x
  {
    p.(a := x)
  }

  /** `setB`: replaces the second component and nothing else. */
  function SetB<A, B>(p: Pair<A, B>, y: B): (r: Pair<A, B>)
    ensures r.b == y && r.a == p.a
    ensures r == p <==> p.b == y
  {
    p.(b := y)
  }

  /** `equals`: false for null and for another class, otherwise true exactly
      when both components are equal. */
  predicate Equals<A(==), B(==)>(p: Pair<A, B>, o: Other<A, B>)
    ensures Equals(p, o) <==> o == PairRef(p)
  {
    match o
    case NullRef => false
    case OtherClass => false
    case PairRef(q) => p.a == q.a && p.b == q.b
  }

  /** Java's 32-bit signed `int` wrap-around. */
  function Wrap32(x: int): (r: int)
    ensures -0x8000_0000 <= r < 0x8000_0000
    ensures (r - x) % 0x1_0000_0000 == 0
  {
    var m := x % 0x1_0000_0000;
    if m >= 0x8000_0000 then m - 0x1_0000_0000 else m
  }

  /** `hashCode` = `Objects.hash(a, b)`: starting from 1, each component folds
      in as `31 * acc + hash(component)` with 32-bit wrap-around. `hashA` and
      `hashB` are the components' own `hashCode` (0 for null). */
  function HashCode<A, B>(p: Pair<A, B>, hashA: A -> int, hashB: B -> int): (r: int)
    ensures -0x8000_0000 <= r < 0x8000_0000
  {
    var h1 := Wrap32(31 * 1 + hashA(p.a));
    Wrap32(31 * h1 + hashB(p.b))
  }

  lemma EqualsReflexive<A, B>(p: Pair<A, B>)
    ensures Equals(p, PairRef(p))
  {
  }

  lemma EqualsSymmetric<A, B>(p: Pair<A, B>, q: Pair<A, B>)
    ensures Equals(p, PairRef(q)) <==> Equals(q, PairRef(p))
  {
  }

  /** The hash reads only the two components, so equal pairs hash alike. */
  lemma EqualsImpliesSameHash<A, B>(p: Pair<A, B>, q: Pair<A, B>, hashA: A -> int, hashB: B -> int)
    requires Equals(p, PairRef(q))
    ensures HashCode(p, hashA, hashB) == HashCode(q, hashA, hashB)
  {
  }
}
