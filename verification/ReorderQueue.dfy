/** The reorder queue: a ring of 2^sizeExp slots indexed by wrapping serial
    numbers, proved to be a ReorderWindow. */
module ReorderQueue {
  import opened Bytes
  import opened Arith
  import opened SeqNum
  import W = ReorderWindow

  /** idx(): seq_num & ((1 << size_exp) - 1). */
  function Slot(n: int, size: nat): (i: nat)
    requires size > 0
    ensures i < size
  {
    n % size
  }

  /** Reducing modulo the serial space first does not change the slot. */
  lemma {:induction false} SlotOfWire(n: int, size: nat, k: nat)
    requires size > 0 && k > 0
    ensures Slot(n % (size * k), size) == Slot(n, size)
  {
    var s := size * k;
    var q := n / s;
    assert n == s * q + n % s;
    var r := n % s;
    var j := r / size;
    assert r == size * j + r % size;
    assert n == (k * q + j) * size + r % size;
    ModUnique(size, n, r % size, k * q + j);
  }

  /** Positions less than the ring size apart never share a slot. */
  lemma {:induction false} SlotsDistinct(size: nat, p: int, q: int)
    requires p < q < p + size
    ensures Slot(p, size) != Slot(q, size)
  {
    var a, b := p / size, q / size;
    assert p == a * size + p % size && q == b * size + q % size;
    if p % size == q % size {
      assert q - p == (b - a) * size;
      SmallMultiple(b - a, size);
    }
  }

  /** The exponents for which the ring is smaller than half the number space. */
  predicate RingExp(w: Width, e: nat) {
    e < (if w.Bits16? then 15 else 31)
  }

  /** The ring is smaller than half the number space and divides it. */
  lemma {:induction false} RingFits(w: Width, e: nat)
    requires RingExp(w, e)
    ensures Pow2(e) < w.Half()
    ensures exists k: nat :: k > 0 && w.Space() == Pow2(e) * k
  {
    PowersOfTwo();
    hide Pow2;
    var bits := if w.Bits16? then 16 else 32;
    PowersDivide(e, bits);
    PowersDivide(e, bits - 2);
    MultipleGrows(Pow2(bits - 2 - e), Pow2(e));
  }

  lemma {:induction false} PowersOfTwo()
    ensures Pow2(14) == 0x4000 && Pow2(16) == 0x1_0000
    ensures Pow2(30) == 0x4000_0000 && Pow2(32) == 0x1_0000_0000
  {
    assert Pow2(4) == 16;
    PowersDivide(4, 8);
    PowersDivide(8, 14);
    assert Pow2(6) == 64;
    PowersDivide(8, 16);
    PowersDivide(14, 30);
    PowersDivide(16, 32);
  }

  lemma {:induction false} SlotOfSerial(w: Width, e: nat, n: int)
    requires RingExp(w, e)
    ensures Slot(Num(w, n), Pow2(e)) == Slot(n, Pow2(e))
  {
    RingFits(w, e);
    var k: nat :| k > 0 && w.Space() == Pow2(e) * k;
    SlotOfWire(n, Pow2(e), k);
  }

  /** The drop callback sees wire numbers. */
  function Wire<T>(w: Width, items: seq<W.Item<T>>): seq<(int, T)> {
    seq(|items|, i requires 0 <= i < |items| => (Num(w, items[i].0), items[i].1))
  }

  /** The calls a registered callback sees when these elements are dropped. */
  function Calls<T>(w: Width, registered: bool, items: seq<W.Item<T>>): seq<(int, T)> {
    if registered then Wire(w, items) else []
  }

  /** A registered callback sees one call for each dropped element, in order, with
      the number cut to its width; without one nothing is called. */
  lemma CallsExactly<T>(w: Width, registered: bool, items: seq<W.Item<T>>)
    ensures |Calls(w, registered, items)| == if registered then |items| else 0
    ensures registered ==> forall i :: 0 <= i < |items| ==>
              Calls(w, registered, items)[i] == (items[i].0 % (if w.Bits16? then 0x1_0000 else 0x1_0000_0000), items[i].1)
  {
  }

  /** The call log went from before to after while exactly these elements were
      dropped, in this order. */
  ghost predicate Logged<T>(w: Width, registered: bool, before: seq<(int, T)>, items: seq<W.Item<T>>,
      after: seq<(int, T)>) {
    after == before + Calls(w, registered, items)
  }

  lemma {:induction false} LoggedThen<T>(w: Width, registered: bool, a: seq<(int, T)>, xs: seq<W.Item<T>>,
                                         b: seq<(int, T)>, ys: seq<W.Item<T>>, c: seq<(int, T)>)
    requires Logged(w, registered, a, xs, b) && Logged(w, registered, b, ys, c)
    ensures Logged(w, registered, a, xs + ys, c)
  {
    assert Calls(w, registered, xs + ys) == Calls(w, registered, xs) + Calls(w, registered, ys);
  }

  lemma {:induction false} LoggedQuiet<T>(w: Width, a: seq<(int, T)>, items: seq<W.Item<T>>)
    ensures Logged(w, false, a, items, a)
  {
  }

  lemma {:induction false} LoggedNothing<T>(w: Width, registered: bool, a: seq<(int, T)>)
    ensures Logged(w, registered, a, [], a)
  {
  }

  /** ChiakiReorderQueueEntry; user is None for a null pointer. */
  datatype Entry<T> = Entry(user: Option<T>, isSet: bool)

  class ReorderQueue<T> {
    const width: Width
    const sizeExp: nat
    const size: nat
    const queue: array<Entry<T>>
    var begin: int
    var count: nat
    var dropStrategy: W.DropStrategy
    /** Whether a drop callback is registered, and the calls made to it. */
    var dropCb: bool
    var dropped: seq<(int, T)>
    /** The unbounded position of begin. */
    ghost var base: int

    ghost predicate Ring()
    {
      RingExp(width, sizeExp) && size == Pow2(sizeExp) == queue.Length
    }

    ghost predicate Valid()
      reads this`begin, this`count, this`base, queue
    {
      && Ring()
      && count <= size
      && begin == Num(width, base)
      && forall p :: base <= p < base + count && queue[Slot(p, size)].isSet ==> queue[Slot(p, size)].user.Some?
    }

    /** The window this ring represents. */
    ghost function Model(): (w: W.Window<T>)
      requires Valid()
      reads this`begin, this`count, this`base, queue
      ensures w.Wf(size) && w.base == base && w.count == count
    {
      W.Window(base, count,
        map p | base <= p < base + count && queue[Slot(p, size)].isSet :: queue[Slot(p, size)].user.value)
    }

    /** A ring of one slot cannot take a number that is exactly half the space away
        from the first expected one. */
    predicate Comparable(seqNum: int)
      reads this`begin
    {
      && 0 <= seqNum < width.Space()
      && (size > 1 || seqNum == begin || Lt(width, begin, seqNum) || Gt(width, begin, seqNum))
    }

    constructor (width: Width, sizeExp: nat, seqNumStart: int)
      requires RingExp(width, sizeExp)
      requires 0 <= seqNumStart < width.Space()
      ensures Valid() && fresh(queue)
      ensures this.width == width && this.sizeExp == sizeExp
      ensures Model() == W.Window(seqNumStart, 0, map[])
      ensures dropStrategy == W.DropEnd && !dropCb && dropped == []
    {
      this.width := width;
      this.sizeExp := sizeExp;
      this.size := Pow2(sizeExp);
      queue := new Entry<T>[Pow2(sizeExp)](_ => Entry(None, false));
      begin, count := seqNumStart, 0;
      dropStrategy, dropCb, dropped := W.DropEnd, false, [];
      base := seqNumStart;
    }

    method Drop(ghost pos: int, seqNum: int, user: T)
      requires seqNum == Num(width, pos)
      modifies this`dropped
      ensures Logged(width, dropCb, old(dropped), [(pos, user)], dropped)
    {
      if dropCb {
        dropped := dropped + [(seqNum, user)];
      }
    }

    /** Marks the slot of a position inside the window as holding user. */
    method Store(ghost pos: int, seqNum: int, user: T)
      requires Valid() && base <= pos < base + count && seqNum == Num(width, pos)
      modifies queue
      ensures Valid()
      ensures Model() == old(Model()).(held := old(Model()).held[pos := user])
    {
      SlotOfSerial(width, sizeExp, pos);
      forall p | base <= p < base + count && p != pos
        ensures Slot(p, size) != Slot(pos, size)
      {
        SlotsDistinct(size, if p < pos then p else pos, if p < pos then pos else p);
      }
      queue[Slot(seqNum, size)] := Entry(Some(user), true);
    }

    /** Clears the slot of the position just after the window. */
    method Clear(seqNum: int)
      requires Ring() && count < size && seqNum == Num(width, base + count)
      modifies queue
      ensures !queue[Slot(base + count, size)].isSet
      ensures forall p :: base <= p < base + count ==> queue[Slot(p, size)] == old(queue[Slot(p, size)])
    {
      ghost var pos := base + count;
      SlotOfSerial(width, sizeExp, pos);
      forall p | base <= p < pos
        ensures Slot(p, size) != Slot(pos, size)
      {
        SlotsDistinct(size, p, pos);
      }
      queue[Slot(seqNum, size)] := queue[Slot(seqNum, size)].(isSet := false);
    }

    /** Takes one slot into the window, empty. */
    method GrowOne(end: int) returns (next: int)
      requires Valid() && count < size && end == Num(width, base + count)
      modifies queue, this`count
      ensures Valid() && count == old(count) + 1 && next == Num(width, base + count)
      ensures Model() == old(Model()).(count := count)
    {
      hide Slot, Pow2, Add, Num, RingExp, Width.Half, Width.Space;
      Clear(end);
      count := count + 1;
      AddWire(width, base, count);
      next := Add(width, begin, count);
    }

    /** Moves the end of the window up to newEnd, clearing the slots it takes in. */
    method Grow(ghost newEndPos: int, newEnd: int)
      requires Valid() && base + count <= newEndPos <= base + size && newEnd == Num(width, newEndPos)
      modifies queue, this`count
      ensures Valid()
      ensures Model() == old(Model()).(count := newEndPos - base)
    {
      hide Slot, Pow2, Lt, Add, Num, RingExp, Width.Half, Width.Space, Model;
      RingFits(width, sizeExp);
      AddWire(width, base, count);
      var end := Add(width, begin, count);
      SerialOrder(width, base + count, newEndPos);
      while Lt(width, end, newEnd)
        invariant Valid() && base + count <= newEndPos
        invariant end == Num(width, base + count)
        invariant Lt(width, end, newEnd) <==> base + count < newEndPos
        invariant Model() == old(Model()).(count := count)
        decreases newEndPos - base - count
      {
        end := GrowOne(end);
        SerialOrder(width, base + count, newEndPos);
      }
    }

    /** Drops elements from the beginning until pos fits or nothing is left. */
    method Evict(ghost pos: int, seqNum: int, end: int, totalEnd: int, newEnd: int)
      requires Valid() && seqNum == Num(width, pos)
      requires end == Num(width, base + count) && totalEnd == Num(width, base + size) && newEnd == Num(width, pos + 1)
      requires base + size <= pos < base + width.Half() + (if size > 1 then 1 else 0)
      modifies this`begin, this`count, this`base, this`dropped
      ensures Valid()
      ensures Model() == W.Evict(old(Model()), W.EvictedBase(old(Model()), size, pos)).window
      ensures Logged(width, dropCb, old(dropped), W.Evict(old(Model()), W.EvictedBase(old(Model()), size, pos)).dropped, dropped)
    {
      ghost var m := Model();
      DropFirst(pos, end, totalEnd, newEnd);
      if count == 0 {
        begin := seqNum;
        base := pos;
      }
      assert Model().held == W.Evict(m, W.EvictedBase(m, size, pos)).window.held;
    }

    /** Drops the element at pos, if there is one. */
    method DropSlot(ghost held: map<int, T>, ghost first: int, ghost pos: int, seqNum: int, ghost log: seq<(int, T)>)
      requires Ring() && first <= pos && seqNum == Num(width, pos)
      requires AtSlot(held, pos)
      requires Logged(width, dropCb, log, W.Items(held, first, pos), dropped)
      modifies this`dropped
      ensures Logged(width, dropCb, log, W.Items(held, first, pos + 1), dropped)
    {
      SlotOfSerial(width, sizeExp, pos);
      W.ItemsNext(held, first, pos);
      hide W.Items, Logged, Slot, Pow2, Num, RingExp, Width.Half, Width.Space;
      ghost var before := dropped;
      var entry := queue[Slot(seqNum, size)];
      if entry.isSet {
        Drop(pos, seqNum, entry.user.value);
      } else {
        LoggedNothing(width, dropCb, dropped);
      }
      LoggedThen(width, dropCb, log, W.Items(held, first, pos), before, W.Items(held, pos, pos + 1), dropped);
    }

    /** held agrees with the ring at pos. */
    ghost predicate AtSlot(held: map<int, T>, pos: int)
      requires Ring()
      reads queue
    {
      var entry := queue[Slot(pos, size)];
      && (pos in held <==> entry.isSet)
      && (pos in held ==> entry.user == Some(held[pos]))
    }

    lemma AllAtSlots()
      requires Valid()
      ensures forall p :: base <= p < base + count ==> AtSlot(Model().held, p)
    {
    }

    method DropFirst(ghost pos: int, end: int, totalEnd0: int, newEnd: int)
      requires Valid()
      requires end == Num(width, base + count) && totalEnd0 == Num(width, base + size) && newEnd == Num(width, pos + 1)
      requires base + size <= pos < base + width.Half() + (if size > 1 then 1 else 0)
      modifies this`begin, this`count, this`base, this`dropped
      ensures Valid()
      ensures old(base) <= base <= old(base + count) == base + count
      ensures pos + 1 <= base + size || count == 0
      ensures base + size <= pos + 1
      ensures Logged(width, dropCb, old(dropped), W.Items(old(Model()).held, old(base), base), dropped)
    {
      hide Model, W.Items, Logged, Slot, Pow2, Lt, Add, Num, RingExp, Width.Half, Width.Space, AtSlot;
      RingFits(width, sizeExp);
      ghost var held, first, e := Model().held, base, base + count;
      AllAtSlots();
      var totalEnd := totalEnd0;
      SerialOrder(width, base + size, pos + 1);
      W.ItemsNone(held, first, first);
      LoggedNothing(width, dropCb, dropped);
      while count > 0 && Lt(width, totalEnd, newEnd)
        invariant first <= base <= e == base + count
        invariant begin == Num(width, base)
        invariant base + size <= pos + 1
        invariant totalEnd == Num(width, base + size)
        invariant Lt(width, totalEnd, newEnd) <==> base + size < pos + 1
        invariant Logged(width, dropCb, old(dropped), W.Items(held, first, base), dropped)
        decreases count
      {
        DropSlot(held, first, base, begin, old(dropped));
        begin := Add(width, begin, 1);
        AddWire(width, base, 1);
        base := base + 1;
        count := count - 1;
        totalEnd := Add(width, end, size - count);
        AddWire(width, e, size - count);
        SerialOrder(width, base + size, pos + 1);
      }
    }

    /** A number inside the window. */
    method PushInside(ghost pos: int, seqNum: int, user: T)
      requires Valid() && base <= pos < base + count && seqNum == Num(width, pos)
      modifies this`dropped, queue
      ensures Valid()
      ensures Model() == W.Push(old(Model()), size, dropStrategy, pos, user).window
      ensures Logged(width, dropCb, old(dropped), W.Push(old(Model()), size, dropStrategy, pos, user).dropped, dropped)
    {
      SlotOfSerial(width, sizeExp, pos);
      LoggedNothing(width, dropCb, dropped);
      if queue[Slot(seqNum, size)].isSet {
        Drop(pos, seqNum, user);
      } else {
        Store(pos, seqNum, user);
      }
    }

    /** A number at or after the end of the window. */
    method PushBeyond(ghost pos: int, seqNum: int, end: int, user: T)
      requires Valid() && base + count <= pos < base + width.Half() + (if size > 1 then 1 else 0) && seqNum == Num(width, pos)
      requires end == Num(width, base + count)
      modifies this`begin, this`count, this`base, this`dropped, queue
      ensures Valid()
      ensures Model() == W.Push(old(Model()), size, dropStrategy, pos, user).window
      ensures Logged(width, dropCb, old(dropped), W.Push(old(Model()), size, dropStrategy, pos, user).dropped, dropped)
    {
      hide Logged, Slot, Pow2, Model, Lt, Add, Num, RingExp, Width.Half, Width.Space, W.Items;
      RingFits(width, sizeExp);
      LoggedNothing(width, dropCb, dropped);
      var totalEnd := Add(width, end, size - count);
      AddWire(width, base + count, size - count);
      var newEnd := Add(width, seqNum, 1);
      AddWire(width, pos, 1);
      SerialOrder(width, base + size, pos + 1);
      if Lt(width, totalEnd, newEnd) {
        if dropStrategy == W.DropEnd {
          Drop(pos, seqNum, user);
          return;
        }
        Evict(pos, seqNum, end, totalEnd, newEnd);
      }
      Grow(pos + 1, newEnd);
      Store(pos, seqNum, user);
    }

    /** Where a number lies, as its comparisons with the beginning say. */
    lemma Side(pos: int)
      requires Ring() && count <= size && begin == Num(width, base)
      requires base - width.Half() < pos <= base + width.Half() && Comparable(Num(width, pos))
      ensures Lt(width, Num(width, pos), begin) <==> pos < base
      ensures pos < base + count ==> (Num(width, pos) == begin || Gt(width, Num(width, pos), begin) <==> pos >= base)
      ensures Num(width, pos) == begin || Gt(width, Num(width, pos), begin) ==> base <= pos < base + width.Half()
      ensures pos < base + width.Half() + (if size > 1 then 1 else 0)
    {
      RingFits(width, sizeExp);
      HalfApart(width, base);
      HalfApart(width, pos);
      if pos < base + width.Half() {
        SerialOrder(width, pos, base);
      }
    }

    /** chiaki_reorder_queue_push. */
    method Push(seqNum: int, user: T)
      requires Valid() && Comparable(seqNum)
      modifies this`begin, this`count, this`base, this`dropped, queue
      ensures Valid()
      ensures Model() == W.Push(old(Model()), size, dropStrategy, Filed(width, old(base), seqNum), user).window
      ensures Logged(width, dropCb, old(dropped),
                W.Push(old(Model()), size, dropStrategy, Filed(width, old(base), seqNum), user).dropped, dropped)
    {
      RingFits(width, sizeExp);
      ghost var pos := Filed(width, base, seqNum);
      Side(pos);
      hide Logged, Slot, Pow2, Model, Lt, Gt, Add, Num, Filed, Unwrap, RingExp, Width.Half, Width.Space;
      var end := Add(width, begin, count);
      AddWire(width, base, count);
      if seqNum == begin || Gt(width, seqNum, begin) {
        SerialOrder(width, pos, base + count);
        if Lt(width, seqNum, end) {
          PushInside(pos, seqNum, user);
          return;
        }
      }
      if Lt(width, seqNum, begin) {
        Drop(pos, seqNum, user);
        return;
      }
      PushBeyond(pos, seqNum, end, user);
    }

    /** chiaki_reorder_queue_pull. */
    method Pull() returns (r: Option<(int, T)>)
      requires Valid()
      modifies this`begin, this`count, this`base
      ensures Valid()
      ensures var p := W.Pull(old(Model()));
              && Model() == p.window
              && r == if p.item.Some? then Some((Num(width, p.item.value.0), p.item.value.1)) else None
    {
      if count == 0 {
        return None;
      }
      SlotOfSerial(width, sizeExp, base);
      var entry := queue[Slot(begin, size)];
      if !entry.isSet {
        return None;
      }
      r := Some((begin, entry.user.value));
      AddWire(width, base, 1);
      begin := Add(width, begin, 1);
      base := base + 1;
      count := count - 1;
    }

    /** chiaki_reorder_queue_peek. */
    method Peek(index: nat) returns (r: Option<(int, T)>)
      requires Valid()
      ensures r.Some? <==> index < count && base + index in Model().held
      ensures r.Some? ==> r.value == (Num(width, base + index), Model().held[base + index])
    {
      if index >= count {
        return None;
      }
      AddWire(width, base, index);
      SlotOfSerial(width, sizeExp, base + index);
      var seqNum := Add(width, begin, index);
      var entry := queue[Slot(seqNum, size)];
      r := if entry.isSet then Some((seqNum, entry.user.value)) else None;
    }

    /** chiaki_reorder_queue_fini: whatever is still held goes to the callback. */
    method Fini()
      requires Valid()
      modifies this`dropped
      ensures Logged(width, dropCb, old(dropped), W.Contents(Model()), dropped)
    {
      ghost var held := Model().held;
      if dropCb {
        DropAll(held);
      } else {
        LoggedQuiet(width, dropped, W.Contents(Model()));
      }
    }

    method DropAll(ghost held: map<int, T>)
      requires Valid() && dropCb && held == Model().held
      modifies this`dropped
      ensures Logged(width, dropCb, old(dropped), W.Items(held, base, base + count), dropped)
    {
      assert forall p :: base <= p < base + count ==> AtSlot(held, p);
      hide Model, W.Items, Logged, Slot, Pow2, Lt, Add, Num, RingExp, Width.Half, Width.Space, AtSlot, Ring;
      LoggedNothing(width, dropCb, dropped);
      W.ItemsNone(held, base, base);
      var i := 0;
      while i < count
        invariant i <= count
        invariant Logged(width, dropCb, old(dropped), W.Items(held, base, base + i), dropped)
      {
        AddWire(width, base, i);
        DropSlot(held, base, base + i, Add(width, begin, i), old(dropped));
        i := i + 1;
      }
    }
  }
}
