/** Serial numbers of 16 and 32 bits (section 3.2 of RFC 1982). */
module SeqNum {
  datatype Width = Bits16 | Bits32 {
    /** Size of the number space. */
    function Space(): (n: nat)
      ensures n == 2 * Half()
    {
      if Bits16? then 0x1_0000 else 0x1_0000_0000
    }

    function Half(): nat {
      if Bits16? then 0x8000 else 0x8000_0000
    }
  }

  predicate Lt(w: Width, a: int, b: int) {
    var d := b - a;
    a != b && ((a < b && d < w.Half()) || (a > b && -d > w.Half()))
  }

  predicate Gt(w: Width, a: int, b: int) {
    var d := b - a;
    a != b && ((a < b && d > w.Half()) || (a > b && -d < w.Half()))
  }

  /** seq_num_add: unsigned addition in the width. */
  function Add(w: Width, a: int, b: int): (c: int)
    ensures 0 <= c < w.Space()
  {
    (a + b) % w.Space()
  }

  /** The number that position p carries on the wire. */
  function Num(w: Width, p: int): (n: int)
    ensures 0 <= n < w.Space()
  {
    p % w.Space()
  }

  /** The position within half the space of base that has wire number n. */
  function Unwrap(w: Width, base: int, n: int): (p: int)
    requires 0 <= n < w.Space()
    ensures Num(w, p) == n
    ensures base - w.Half() <= p < base + w.Half()
  {
    base + (n - base + w.Half()) % w.Space() - w.Half()
  }

  /** The position a number is taken for: the one within half the space, and the
      one ahead if it is exactly half the space away. */
  function Filed(w: Width, base: int, n: int): (p: int)
    requires 0 <= n < w.Space()
    ensures Num(w, p) == n
    ensures base - w.Half() < p <= base + w.Half()
    ensures p == Unwrap(w, base, n) || (p == base + w.Half() && Unwrap(w, base, n) == base - w.Half())
  {
    if Unwrap(w, base, n) == base - w.Half() then base + w.Half() else Unwrap(w, base, n)
  }

  lemma UnwrapUnique(w: Width, base: int, p: int)
    requires base - w.Half() <= p < base + w.Half()
    ensures Unwrap(w, base, Num(w, p)) == p
  {
  }

  /** Numbers exactly half the space apart cannot be ordered. */
  lemma HalfApart(w: Width, x: int)
    ensures var y := x - w.Half();
            Num(w, x) != Num(w, y) && !Lt(w, Num(w, x), Num(w, y)) && !Gt(w, Num(w, x), Num(w, y))
  {
  }

  /** Comparing wire numbers compares the unbounded positions, as long as they
      are less than half the space apart. */
  lemma SerialOrder(w: Width, x: int, y: int)
    requires x - y < w.Half() && y - x < w.Half()
    ensures Lt(w, Num(w, x), Num(w, y)) <==> x < y
    ensures Gt(w, Num(w, x), Num(w, y)) <==> x > y
    ensures Num(w, x) == Num(w, y) <==> x == y
  {
  }

  /** The forward distance decides the comparison; exactly half the space apart
      neither number is before the other. */
  lemma ForwardDistance(w: Width, a: int, b: int)
    requires 0 <= a < w.Space() && 0 <= b < w.Space()
    ensures Lt(w, a, b) <==> 0 < (b - a) % w.Space() < w.Half()
    ensures Gt(w, a, b) <==> w.Half() < (b - a) % w.Space()
    ensures Gt(w, a, b) <==> Lt(w, b, a)
  {
  }

  lemma AddWire(w: Width, x: int, y: int)
    ensures Add(w, Num(w, x), y) == Num(w, x + y)
  {
  }
}
