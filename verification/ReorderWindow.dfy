/** What the reorder queue means: a window of consecutive positions, some of
    which hold an element. Positions are unbounded; the queue itself only sees
    them modulo the serial number space. */
module ReorderWindow {
  import opened Bytes

  datatype DropStrategy = DropBegin | DropEnd

  datatype Window<T> = Window(base: int, count: nat, held: map<int, T>) {
    ghost predicate Wf(size: nat) {
      && count <= size
      && forall p :: p in held ==> base <= p < base + count
    }
  }

  type Item<T> = (int, T)

  /** The held elements at positions lo..hi, lowest first. */
  function Items<T>(held: map<int, T>, lo: int, hi: int): seq<Item<T>>
    decreases hi - lo
  {
    if lo >= hi then []
    else (if lo in held then [(lo, held[lo])] else []) + Items(held, lo + 1, hi)
  }

  function Contents<T>(w: Window<T>): seq<Item<T>> {
    Items(w.held, w.base, w.base + w.count)
  }

  datatype Pushed<T> = Pushed(window: Window<T>, dropped: seq<Item<T>>)

  /** Where the window begins once an element beyond its end has been admitted
      under DropBegin: as little as possible is evicted, but a window that is
      emptied restarts at the new element. */
  function EvictedBase<T>(w: Window<T>, size: nat, pos: int): int {
    if pos + 1 - size >= w.base + w.count then pos else pos + 1 - size
  }

  /** Everything before b goes. */
  function Evict<T>(w: Window<T>, b: int): Pushed<T> {
    var e := w.base + w.count;
    Pushed(Window(b, if b < e then e - b else 0, map p | p in w.held && b <= p :: w.held[p]),
           Items(w.held, w.base, if b < e then b else e))
  }

  function Push<T>(w: Window<T>, size: nat, strategy: DropStrategy, pos: int, user: T): Pushed<T> {
    if pos < w.base || pos in w.held then
      Pushed(w, [(pos, user)])
    else if pos < w.base + w.count then
      Pushed(w.(held := w.held[pos := user]), [])
    else if pos < w.base + size then
      Pushed(Window(w.base, pos + 1 - w.base, w.held[pos := user]), [])
    else if strategy == DropEnd then
      Pushed(w, [(pos, user)])
    else
      var r := Evict(w, EvictedBase(w, size, pos));
      Pushed(Window(r.window.base, pos + 1 - r.window.base, r.window.held[pos := user]), r.dropped)
  }

  datatype Pulled<T> = Pulled(window: Window<T>, item: Option<Item<T>>)

  function Pull<T>(w: Window<T>): Pulled<T> {
    if w.count > 0 && w.base in w.held then
      Pulled(Window(w.base + 1, w.count - 1, w.held - {w.base}), Some((w.base, w.held[w.base])))
    else
      Pulled(w, None)
  }

  // ---------------------------------------------------------------- items

  lemma {:induction false} ItemsSplit<T>(held: map<int, T>, lo: int, mid: int, hi: int)
    requires lo <= mid <= hi
    ensures Items(held, lo, hi) == Items(held, lo, mid) + Items(held, mid, hi)
    decreases mid - lo
  {
    if lo < mid {
      ItemsSplit(held, lo + 1, mid, hi);
    }
  }

  lemma {:induction false} ItemsNext<T>(held: map<int, T>, lo: int, hi: int)
    requires lo <= hi
    ensures Items(held, lo, hi + 1) == Items(held, lo, hi) + Items(held, hi, hi + 1)
    ensures Items(held, hi, hi + 1) == if hi in held then [(hi, held[hi])] else []
  {
    ItemsSplit(held, lo, hi, hi + 1);
  }

  lemma {:induction false} ItemsSame<T>(a: map<int, T>, b: map<int, T>, lo: int, hi: int)
    requires forall p :: lo <= p < hi ==> (p in a <==> p in b) && (p in a ==> a[p] == b[p])
    ensures Items(a, lo, hi) == Items(b, lo, hi)
    decreases hi - lo
  {
    if lo < hi {
      ItemsSame(a, b, lo + 1, hi);
    }
  }

  lemma {:induction false} ItemsNone<T>(held: map<int, T>, lo: int, hi: int)
    requires forall p :: lo <= p < hi ==> p !in held
    ensures Items(held, lo, hi) == []
    decreases hi - lo
  {
    if lo < hi {
      ItemsNone(held, lo + 1, hi);
    }
  }

  /** An element put at an empty position appears once among the items, and
      nothing else changes. */
  lemma {:induction false} ItemsInsert<T>(held: map<int, T>, lo: int, pos: int, hi: int, user: T)
    requires lo <= pos < hi && pos !in held
    ensures Items(held, lo, hi) == Items(held, lo, pos) + Items(held, pos + 1, hi)
    ensures Items(held[pos := user], lo, hi) == Items(held, lo, pos) + [(pos, user)] + Items(held, pos + 1, hi)
  {
    hide Items;
    var h := held[pos := user];
    ItemsSplit(held, lo, pos, hi);
    ItemsSplit(h, lo, pos, hi);
    ItemsSame(held, h, lo, pos);
    ItemsSame(held, h, pos + 1, hi);
    ItemsFirst(held, pos, hi);
    ItemsFirst(h, pos, hi);
    assert Items(h, lo, pos) + ([(pos, user)] + Items(h, pos + 1, hi))
        == Items(h, lo, pos) + [(pos, user)] + Items(h, pos + 1, hi);
  }

  lemma {:induction false} ItemsFirst<T>(held: map<int, T>, lo: int, hi: int)
    requires lo < hi
    ensures lo in held ==> Items(held, lo, hi) == [(lo, held[lo])] + Items(held, lo + 1, hi)
    ensures lo !in held ==> Items(held, lo, hi) == Items(held, lo + 1, hi)
  {
  }

  lemma {:induction false} InsertBag<X>(a: seq<X>, x: X, b: seq<X>)
    ensures multiset(a + [x] + b) == multiset(a + b) + multiset{x}
  {
  }

  // ---------------------------------------------------------------- single steps

  /** The elements a push leaves behind and the ones it drops are exactly the
      elements that were there and the new one. */
  ghost predicate Conserved<T>(before: seq<Item<T>>, x: Item<T>, after: seq<Item<T>>, dropped: seq<Item<T>>) {
    multiset(before) + multiset{x} == multiset(after) + multiset(dropped)
  }

  lemma {:induction false} PushConserves<T>(w: Window<T>, size: nat, strategy: DropStrategy, pos: int, user: T)
    requires w.Wf(size) && size > 0
    ensures var r := Push(w, size, strategy, pos, user);
            && r.window.Wf(size)
            && r.window.base >= w.base
            && Conserved(Contents(w), (pos, user), Contents(r.window), r.dropped)
  {
    hide Conserved, Items;
    var e := w.base + w.count;
    if pos < w.base || pos in w.held {
      NothingKept(Contents(w), (pos, user));
    } else if pos < e {
      InsertConserves(w.held, w.base, pos, e, user);
    } else if pos < w.base + size {
      GrowConserves(w.held, w.base, e, pos, user);
    } else if strategy == DropBegin {
      EvictConserves(w, size, pos, user);
    } else {
      NothingKept(Contents(w), (pos, user));
    }
  }

  /** A push admits the element unless it is late or its place is taken, or it lies
      beyond the ring and the end is to be dropped. An element that is not
      admitted is what is dropped, and nothing else changes. One within the ring
      drops nothing. For one beyond it the window moves up until it is the
      last of a full ring, or all alone if that leaves no place of the old
      window; what the window leaves behind is dropped, lowest first. */
  lemma {:induction false} PushExactly<T>(w: Window<T>, size: nat, strategy: DropStrategy, pos: int, user: T)
    requires w.Wf(size) && size > 0
    ensures var r := Push(w, size, strategy, pos, user);
            var end := w.base + w.count;
            if pos < w.base || pos in w.held || (pos >= w.base + size && strategy == DropEnd) then
              r == Pushed(w, [(pos, user)])
            else if pos < w.base + size then
              && r.dropped == [] && r.window.base == w.base && r.window.held == w.held[pos := user]
              && r.window.base + r.window.count == (if pos >= end then pos + 1 else end)
            else
              && r.window.base == (if pos + 1 - size < end then pos + 1 - size else pos)
              && r.window.base + r.window.count == pos + 1
              && (forall p :: p in r.window.held <==> p == pos || (p in w.held && p >= r.window.base))
              && (forall p :: p in r.window.held ==> r.window.held[p] == if p == pos then user else w.held[p])
              && Increasing(r.dropped)
              && forall x :: x in r.dropped <==> x.0 in w.held && x.0 < r.window.base && x.1 == w.held[x.0]
  {
    if pos >= w.base + size && strategy == DropBegin {
      var b := EvictedBase(w, size, pos);
      ItemsExact(w.held, w.base, if b < w.base + w.count then b else w.base + w.count);
      hide Items;
    }
  }

  lemma {:induction false} ItemsExact<T>(held: map<int, T>, lo: int, hi: int)
    ensures Increasing(Items(held, lo, hi))
    ensures forall i :: 0 <= i < |Items(held, lo, hi)| ==> lo <= Items(held, lo, hi)[i].0 < hi
    ensures forall x :: x in Items(held, lo, hi) <==> lo <= x.0 < hi && x.0 in held && x.1 == held[x.0]
    decreases hi - lo
  {
    if lo < hi {
      ItemsExact(held, lo + 1, hi);
    }
  }

  lemma {:induction false} NothingKept<T>(items: seq<Item<T>>, x: Item<T>)
    ensures Conserved(items, x, items, [x])
  {
  }

  lemma {:induction false} InsertConserves<T>(held: map<int, T>, lo: int, pos: int, hi: int, user: T)
    requires lo <= pos < hi && pos !in held
    ensures Conserved(Items(held, lo, hi), (pos, user), Items(held[pos := user], lo, hi), [])
  {
    ItemsInsert(held, lo, pos, hi, user);
    InsertBag(Items(held, lo, pos), (pos, user), Items(held, pos + 1, hi));
  }

  lemma {:induction false} GrowConserves<T>(held: map<int, T>, lo: int, hi: int, pos: int, user: T)
    requires lo <= hi <= pos && forall p :: p in held ==> p < hi
    ensures Conserved(Items(held, lo, hi), (pos, user), Items(held[pos := user], lo, pos + 1), [])
  {
    hide Items, Conserved;
    ItemsSplit(held, lo, hi, pos + 1);
    ItemsNone(held, hi, pos + 1);
    assert Items(held, lo, hi) + [] == Items(held, lo, hi);
    InsertConserves(held, lo, pos, pos + 1, user);
  }

  lemma {:induction false} EvictConserves<T>(w: Window<T>, size: nat, pos: int, user: T)
    requires w.Wf(size) && size > 0 && pos >= w.base + size
    ensures var r := Push(w, size, DropBegin, pos, user);
            && r.window.Wf(size)
            && Conserved(Contents(w), (pos, user), Contents(r.window), r.dropped)
  {
    hide Conserved, Items;
    var e := w.base + w.count;
    var b := EvictedBase(w, size, pos);
    var keep := map p | p in w.held && b <= p :: w.held[p];
    var c := if b < e then b else e;
    ItemsSplit(w.held, w.base, c, e);
    ItemsSame(w.held, keep, c, e);
    GrowConserves(keep, b, if b < e then e else b, pos, user);
    if e <= b {
      ItemsNone(keep, e, e);
      ItemsNone(keep, b, b);
    }
    DropThenKeep(Items(w.held, w.base, c), Items(keep, c, e), (pos, user), Items(keep[pos := user], b, pos + 1));
  }

  lemma {:induction false} DropThenKeep<T>(out: seq<Item<T>>, kept: seq<Item<T>>, x: Item<T>, after: seq<Item<T>>)
    requires Conserved(kept, x, after, [])
    ensures Conserved(out + kept, x, after, out)
  {
    assert multiset(out + kept) == multiset(out) + multiset(kept);
    assert multiset(kept) + multiset{x} == multiset(after);
  }

  lemma {:induction false} PullConserves<T>(w: Window<T>, size: nat)
    requires w.Wf(size)
    ensures var r := Pull(w);
            && r.window.Wf(size)
            && (r.item.Some? <==> w.base in w.held)
            && (r.item == None ==> r.window == w)
            && (r.item.Some? ==>
                  && r.window.base == w.base + 1 && r.item.value.0 == w.base
                  && Contents(w) == [r.item.value] + Contents(r.window))
  {
    var r := Pull(w);
    if r.item.Some? {
      ItemsSame(w.held, r.window.held, w.base + 1, w.base + w.count);
    }
  }

  // ---------------------------------------------------------------- whole runs

  datatype Op<T> = OpPush(strategy: DropStrategy, pos: int, user: T) | OpPull

  /** A queue together with the history of everything that went in and out. */
  datatype Ledger<T(==)> = Ledger(window: Window<T>, pushed: multiset<Item<T>>,
                              pulled: seq<Item<T>>, dropped: seq<Item<T>>)

  function Step<T(==)>(l: Ledger<T>, size: nat, op: Op<T>): Ledger<T> {
    match op
    case OpPush(strategy, pos, user) =>
      var r := Push(l.window, size, strategy, pos, user);
      Ledger(r.window, l.pushed + multiset{(pos, user)}, l.pulled, l.dropped + r.dropped)
    case OpPull =>
      var r := Pull(l.window);
      l.(window := r.window, pulled := if r.item.Some? then l.pulled + [r.item.value] else l.pulled)
  }

  function Run<T(==)>(l: Ledger<T>, size: nat, ops: seq<Op<T>>): Ledger<T>
    decreases |ops|
  {
    if ops == [] then l else Step(Run(l, size, ops[..|ops| - 1]), size, ops[|ops| - 1])
  }

  function Fresh<T(==)>(start: int): Ledger<T> {
    Ledger(Window(start, 0, map[]), multiset{}, [], [])
  }

  ghost predicate Increasing<T>(items: seq<Item<T>>) {
    forall i, j :: 0 <= i < j < |items| ==> items[i].0 < items[j].0
  }

  ghost predicate Balanced<T>(l: Ledger<T>, size: nat, start: int) {
    && l.window.Wf(size)
    && l.pushed == multiset(l.pulled) + multiset(l.dropped) + multiset(Contents(l.window))
    && Increasing(l.pulled)
    && forall x :: x in l.pulled ==> start <= x.0 < l.window.base
  }

  lemma {:induction false} StepKeepsBalance<T>(l: Ledger<T>, size: nat, start: int, op: Op<T>)
    requires Balanced(l, size, start) && size > 0 && start <= l.window.base
    ensures Balanced(Step(l, size, op), size, start) && start <= Step(l, size, op).window.base
  {
    match op
    case OpPush(strategy, pos, user) =>
      var r := Push(l.window, size, strategy, pos, user);
      PushConserves(l.window, size, strategy, pos, user);
      LedgerBag(multiset(l.pulled), l.dropped, Contents(l.window), (pos, user), Contents(r.window), r.dropped);
    case OpPull =>
      PullStep(l, size, start);
  }

  lemma {:induction false} LedgerBag<T>(pulled: multiset<Item<T>>, oldDropped: seq<Item<T>>, before: seq<Item<T>>,
                                        x: Item<T>, after: seq<Item<T>>, dropped: seq<Item<T>>)
    requires Conserved(before, x, after, dropped)
    ensures pulled + multiset(oldDropped) + multiset(before) + multiset{x}
         == pulled + multiset(oldDropped + dropped) + multiset(after)
  {
    var p, d, b, a, n := pulled, multiset(oldDropped), multiset(before), multiset(after), multiset(dropped);
    assert multiset(oldDropped + dropped) == d + n;
    assert p + d + b + multiset{x} == p + d + (b + multiset{x});
    assert p + d + (a + n) == p + (d + n) + a;
  }

  lemma {:induction false} PullStep<T>(l: Ledger<T>, size: nat, start: int)
    requires Balanced(l, size, start) && size > 0 && start <= l.window.base
    ensures Balanced(Step(l, size, OpPull), size, start) && start <= Step(l, size, OpPull).window.base
  {
    PullConserves(l.window, size);
    var r := Pull(l.window);
    if r.item.Some? {
      var x := r.item.value;
      assert multiset(l.pulled + [x]) == multiset(l.pulled) + multiset{x};
      assert multiset([x] + Contents(r.window)) == multiset{x} + multiset(Contents(r.window));
    }
  }

  /** Over any run of pushes (under either strategy, switching at will) and
      pulls: the count stays within the ring, pulls come out in strictly
      increasing order, and every pushed element is exactly one of pulled,
      dropped or still held. */
  lemma {:induction false} RunBalanced<T>(size: nat, start: int, ops: seq<Op<T>>)
    requires size > 0
    ensures Balanced(Run(Fresh(start), size, ops), size, start)
    ensures start <= Run(Fresh<T>(start), size, ops).window.base
    decreases |ops|
  {
    if ops != [] {
      RunBalanced(size, start, ops[..|ops| - 1]);
      StepKeepsBalance(Run(Fresh(start), size, ops[..|ops| - 1]), size, start, ops[|ops| - 1]);
    }
  }

  /** Finishing the queue hands exactly what is still held to the drop
      callback, so nothing pushed is ever leaked. */
  lemma {:induction false} FinishAccountsForAll<T>(size: nat, start: int, ops: seq<Op<T>>)
    requires size > 0
    ensures var l := Run(Fresh(start), size, ops);
            l.pushed == multiset(l.pulled) + multiset(l.dropped + Contents(l.window))
  {
    RunBalanced(size, start, ops);
    var l := Run(Fresh(start), size, ops);
    assert multiset(l.dropped + Contents(l.window)) == multiset(l.dropped) + multiset(Contents(l.window));
  }
}
