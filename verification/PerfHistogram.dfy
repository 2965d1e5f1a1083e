/** A histogram over any number of axes, kept in one flat array of 64-bit counters. */
module PerfHistogram {
  import opened Options
  import opened HistogramAxis
  import opened Sequences

  const TWO64 := 0x1_0000_0000_0000_0000
  const INT32_MAX := 0x7FFF_FFFF

  type Tuple = seq<int>

  // ---------- Mixed-radix indexing ----------

  /** Bucket counts of the axes, all positive. */
  predicate Dims(dims: seq<int>) {
    forall i | 0 <= i < |dims| :: dims[i] > 0
  }

  predicate InRange(dims: seq<int>, t: Tuple) {
    |t| == |dims| && forall i | 0 <= i < |dims| :: 0 <= t[i] < dims[i]
  }

  /** n times s, added up. */
  function Times(n: nat, s: nat): nat {
    if n == 0 then 0 else Times(n - 1, s) + s
  }

  lemma {:induction false} TimesIsProduct(n: nat, s: nat)
    ensures Times(n, s) == n * s
  {
    if n > 0 {
      TimesIsProduct(n - 1, s);
    }
  }

  lemma {:induction false} TimesSum(m: nat, n: nat, s: nat)
    ensures Times(m + n, s) == Times(m, s) + Times(n, s)
  {
    if n > 0 {
      TimesSum(m, n - 1, s);
    }
  }

  lemma {:induction false} TimesTimes(m: nat, d: nat, s: nat)
    ensures Times(Times(m, d), s) == Times(m, Times(d, s))
  {
    if m > 0 {
      TimesTimes(m - 1, d, s);
      TimesSum(Times(m - 1, d), d, s);
    }
  }

  /** The number of bucket tuples, the product of the bucket counts. */
  function Size(dims: seq<int>): (n: nat)
    requires Dims(dims)
    ensures n > 0
  {
    if dims == [] then 1 else
    assert dims[0] > 0 && Dims(dims[1..]);
    Times(dims[0], Size(dims[1..]))
  }

  lemma SizeIsProduct(dims: seq<int>)
    requires Dims(dims) && dims != []
    ensures Size(dims) == dims[0] * Size(dims[1..])
  {
    TimesIsProduct(dims[0], Size(dims[1..]));
  }

  method RawSize(dims: seq<int>) returns (ret: int)
    requires Dims(dims)
    ensures ret == Size(dims)
  {
    ret := 1;
    var i := 0;
    while i < |dims|
      invariant 0 <= i <= |dims|
      invariant ret * Size(dims[i..]) == Size(dims)
    {
      assert dims[i..][1..] == dims[i + 1..];
      SizeIsProduct(dims[i..]);
      MulAssociative(ret, dims[i], Size(dims[i + 1..]));
      ret := ret * dims[i];
      i := i + 1;
    }
  }

  lemma MulAssociative(a: int, b: int, c: int)
    ensures a * (b * c) == (a * b) * c
  {
  }

  /** `get_raw_index_internal`: the index so far, extended by the remaining buckets. */
  function RawIndex(dims: seq<int>, start: int, t: Tuple): int
    requires |t| == |dims|
    decreases dims
  {
    if dims == [] then start else RawIndex(dims[1..], dims[0] * start + t[0], t[1..])
  }

  /** The bucket tuple of a raw index. */
  function TupleAt(dims: seq<int>, i: int): (t: Tuple)
    requires Dims(dims) && 0 <= i < Size(dims)
    ensures |t| == |dims|
  {
    if dims == [] then [] else
    var n := Size(dims[1..]);
    ModBounds(i, n);
    [i / n] + TupleAt(dims[1..], i % n)
  }

  lemma ModBounds(i: int, n: int)
    requires n > 0
    ensures 0 <= i % n < n && i == (i / n) * n + i % n
  {
  }

  lemma DivMod(b: int, n: int, r: int)
    requires n > 0 && 0 <= r < n
    ensures (b * n + r) / n == b && (b * n + r) % n == r
  {
    var q := (b * n + r) / n;
    ModBounds(b * n + r, n);
    assert (q - b) * n == r - (b * n + r) % n;
    SmallMultiple(q - b, n);
  }

  lemma SmallMultiple(k: int, n: int)
    requires n > 0 && -n < k * n < n
    ensures k == 0
  {
  }

  lemma InBox(b: int, d: int, n: int, r: int)
    requires 0 <= b < d && 0 <= r < n
    ensures 0 <= b * n + r < d * n
  {
    assert b * n + n == (b + 1) * n <= d * n;
  }

  lemma QuotientInBox(i: int, d: int, n: int)
    requires n > 0 && 0 <= i < d * n
    ensures 0 <= i / n < d
  {
    QuotientBelow(i, n, d);
  }

  lemma {:induction false} IndexFromStart(dims: seq<int>, start: int, t: Tuple)
    requires Dims(dims) && |t| == |dims|
    ensures RawIndex(dims, start, t) == start * Size(dims) + RawIndex(dims, 0, t)
    decreases dims
  {
    if dims != [] {
      var n, d := Size(dims[1..]), dims[0];
      IndexFromStart(dims[1..], d * start + t[0], t[1..]);
      IndexFromStart(dims[1..], t[0], t[1..]);
      assert RawIndex(dims, 0, t) == RawIndex(dims[1..], t[0], t[1..]) by {
        assert d * 0 + t[0] == t[0];
      }
      SizeIsProduct(dims);
      Distribute(d, start, t[0], n);
    }
  }

  lemma Distribute(d: int, start: int, b: int, n: int)
    ensures (d * start + b) * n == start * (d * n) + b * n
  {
  }

  /** The raw index of a tuple, one axis at a time. */
  lemma IndexStep(dims: seq<int>, t: Tuple)
    requires Dims(dims) && dims != [] && |t| == |dims|
    ensures RawIndex(dims, 0, t) == t[0] * Size(dims[1..]) + RawIndex(dims[1..], 0, t[1..])
  {
    assert dims[0] * 0 + t[0] == t[0];
    IndexFromStart(dims[1..], t[0], t[1..]);
  }

  /** In-range tuples index into the array, and the tuple can be read back from the index. */
  lemma {:induction false} IndexThenTuple(dims: seq<int>, t: Tuple)
    requires Dims(dims) && InRange(dims, t)
    ensures 0 <= RawIndex(dims, 0, t) < Size(dims)
    ensures TupleAt(dims, RawIndex(dims, 0, t)) == t
  {
    if dims != [] {
      var n := Size(dims[1..]);
      var r := RawIndex(dims[1..], 0, t[1..]);
      IndexThenTuple(dims[1..], t[1..]);
      IndexStep(dims, t);
      SizeIsProduct(dims);
      DivMod(t[0], n, r);
      InBox(t[0], dims[0], n, r);
    }
  }

  /** Every index is the index of exactly the tuple read back from it. */
  lemma {:induction false} TupleThenIndex(dims: seq<int>, i: int)
    requires Dims(dims) && 0 <= i < Size(dims)
    ensures InRange(dims, TupleAt(dims, i))
    ensures RawIndex(dims, 0, TupleAt(dims, i)) == i
  {
    if dims != [] {
      var n := Size(dims[1..]);
      ModBounds(i, n);
      TupleThenIndex(dims[1..], i % n);
      var t := TupleAt(dims, i);
      assert t[1..] == TupleAt(dims[1..], i % n);
      SizeIsProduct(dims);
      QuotientInBox(i, dims[0], n);
      IndexStep(dims, t);
    }
  }

  // ---------- Visiting all counters ----------

  datatype Event = Enter(level: nat) | Value(value: int) | Leave(level: nat)

  function Cell(raw: seq<int>, i: int): int {
    if 0 <= i < |raw| then raw[i] else 0
  }

  /** The calls `visit_values` makes for the counters below an index. */
  function Calls(dims: seq<int>, level: nat, start: nat, raw: seq<int>): seq<Event>
    requires Dims(dims)
    decreases |dims|, 0
  {
    if dims == [] then [Value(Cell(raw, start))]
    else
      assert dims[0] > 0;
      [Enter(level)] + LoopCalls(dims[1..], level + 1, Times(start, dims[0]), dims[0], raw) + [Leave(level)]
  }

  /** The calls of n rounds of its loop. */
  function LoopCalls(dims: seq<int>, level: nat, base: nat, n: nat, raw: seq<int>): seq<Event>
    requires Dims(dims)
    decreases |dims|, n
  {
    if n == 0 then []
    else LoopCalls(dims, level, base, n - 1, raw) + Calls(dims, level, base + n - 1, raw)
  }

  function Values(es: seq<Event>): seq<int> {
    if es == [] then []
    else Values(es[..|es| - 1]) + if es[|es| - 1].Value? then [es[|es| - 1].value] else []
  }

  lemma {:induction false} ValuesConcat(a: seq<Event>, b: seq<Event>)
    ensures Values(a + b) == Values(a) + Values(b)
  {
    if b == [] {
      assert a + b == a;
    } else {
      assert (a + b)[..|a + b| - 1] == a + b[..|b| - 1];
      ValuesConcat(a, b[..|b| - 1]);
    }
  }

  lemma ValuesOfOne(e: Event)
    ensures Values([e]) == if e.Value? then [e.value] else []
  {
    assert [e][..0] == [];
  }

  lemma SlicesJoin(raw: seq<int>, i: int, j: int, k: int, a: seq<int>, b: seq<int>, c: seq<int>)
    requires 0 <= i <= j <= k <= |raw| && a == raw[i..j] && b == raw[j..k] && c == a + b
    ensures c == raw[i..k]
  {
  }

  lemma Bracketed(level: nat, inner: seq<Event>)
    ensures Values([Enter(level)] + inner + [Leave(level)]) == Values(inner)
  {
    ValuesOfOne(Enter(level));
    ValuesOfOne(Leave(level));
    ValuesConcat([Enter(level)], inner);
    ValuesConcat([Enter(level)] + inner, [Leave(level)]);
  }

  /** The visit passes over the Size(dims) raw cells below an index, in order and each once. */
  lemma {:induction false} VisitInOrder(dims: seq<int>, level: nat, start: nat, raw: seq<int>)
    requires Dims(dims) && Times(start + 1, Size(dims)) <= |raw|
    ensures Values(Calls(dims, level, start, raw)) == raw[Times(start, Size(dims))..Times(start + 1, Size(dims))]
    decreases |dims|, 0
  {
    if dims == [] {
      TimesIsProduct(start, 1);
      ValuesOfOne(Value(raw[start]));
    } else {
      var base, d, n := Times(start, dims[0]), dims[0], Size(dims[1..]);
      TimesTimes(start, d, n);
      TimesSum(base, d, n);
      LoopInOrder(dims[1..], level + 1, base, d, raw);
      Bracketed(level, LoopCalls(dims[1..], level + 1, base, d, raw));
    }
  }

  lemma {:induction false} LoopInOrder(dims: seq<int>, level: nat, base: nat, n: nat, raw: seq<int>)
    requires Dims(dims) && Times(base + n, Size(dims)) <= |raw|
    ensures Times(base, Size(dims)) <= Times(base + n, Size(dims))
    ensures Values(LoopCalls(dims, level, base, n, raw)) == raw[Times(base, Size(dims))..Times(base + n, Size(dims))]
    decreases |dims|, n
  {
    TimesSum(base, n, Size(dims));
    if n > 0 {
      var s := Size(dims);
      var lo, mid, hi := Times(base, s), Times(base + n - 1, s), Times(base + n, s);
      assert lo <= mid <= hi by {
        TimesSum(base, n - 1, s);
      }
      var before, last := LoopCalls(dims, level, base, n - 1, raw), Calls(dims, level, base + n - 1, raw);
      assert Values(before) == raw[lo..mid] by {
        LoopInOrder(dims, level, base, n - 1, raw);
      }
      assert Values(last) == raw[mid..hi] by {
        VisitInOrder(dims, level, base + n - 1, raw);
      }
      ValuesConcat(before, last);
      SlicesJoin(raw, lo, mid, hi, Values(before), Values(last), Values(before + last));
    }
  }

  /** Follow the calls, keeping the number of open levels: a level is entered at its own depth,
      left when innermost, and values come only at full depth. */
  function Scan(es: seq<Event>, depth: nat, full: nat): Option<nat>
    decreases es
  {
    if es == [] then Some(depth) else
    match es[0]
    case Enter(l) => if l == depth then Scan(es[1..], depth + 1, full) else None
    case Leave(l) => if l + 1 == depth then Scan(es[1..], l, full) else None
    case Value(_) => if depth == full then Scan(es[1..], depth, full) else None
  }

  lemma {:induction false} VisitIsBalanced(dims: seq<int>, level: nat, start: nat, raw: seq<int>, rest: seq<Event>)
    requires Dims(dims)
    ensures Scan(Calls(dims, level, start, raw) + rest, level, level + |dims|) == Scan(rest, level, level + |dims|)
    decreases |dims|, 0
  {
    if dims == [] {
      assert ([Value(Cell(raw, start))] + rest)[1..] == rest;
    } else {
      var base := Times(start, dims[0]);
      var inner := LoopCalls(dims[1..], level + 1, base, dims[0], raw);
      var es := [Enter(level)] + inner + [Leave(level)] + rest;
      assert es[1..] == inner + ([Leave(level)] + rest);
      LoopIsBalanced(dims[1..], level + 1, base, dims[0], raw, [Leave(level)] + rest);
      assert ([Leave(level)] + rest)[1..] == rest;
    }
  }

  lemma {:induction false} LoopIsBalanced(dims: seq<int>, level: nat, base: nat, n: nat, raw: seq<int>,
                                          rest: seq<Event>)
    requires Dims(dims)
    ensures Scan(LoopCalls(dims, level, base, n, raw) + rest, level, level + |dims|) ==
            Scan(rest, level, level + |dims|)
    decreases |dims|, n
  {
    if n == 0 {
      assert [] + rest == rest;
    } else {
      var before, last := LoopCalls(dims, level, base, n - 1, raw), Calls(dims, level, base + n - 1, raw);
      AppendAssociative(before, last, rest);
      LoopIsBalanced(dims, level, base, n - 1, raw, last + rest);
      VisitIsBalanced(dims, level, base + n - 1, raw, rest);
    }
  }

  /** The nested arrays that the calls describe. */
  datatype Tree = Leaf(value: int) | Node(kids: seq<Tree>)

  function TreeOf(dims: seq<int>, start: nat, raw: seq<int>): Tree
    requires Dims(dims)
    decreases |dims|, 0
  {
    if dims == [] then Leaf(Cell(raw, start))
    else
      assert dims[0] > 0;
      Node(Kids(dims[1..], Times(start, dims[0]), dims[0], raw))
  }

  function Kids(dims: seq<int>, base: nat, n: nat, raw: seq<int>): (ts: seq<Tree>)
    requires Dims(dims)
    ensures |ts| == n
    decreases |dims|, n
  {
    if n == 0 then [] else Kids(dims, base, n - 1, raw) + [TreeOf(dims, base + n - 1, raw)]
  }

  /** The calls that write out nested arrays. */
  function Render(t: Tree, level: nat): seq<Event>
    decreases t, 0
  {
    match t
    case Leaf(v) => [Value(v)]
    case Node(kids) => [Enter(level)] + RenderAll(kids, level + 1) + [Leave(level)]
  }

  function RenderAll(ts: seq<Tree>, level: nat): seq<Event>
    decreases ts
  {
    if ts == [] then [] else RenderAll(ts[..|ts| - 1], level) + Render(ts[|ts| - 1], level)
  }

  /** The visit writes out exactly the nested counters. */
  lemma {:induction false} VisitIsNested(dims: seq<int>, level: nat, start: nat, raw: seq<int>)
    requires Dims(dims)
    ensures Calls(dims, level, start, raw) == Render(TreeOf(dims, start, raw), level)
    decreases |dims|, 0
  {
    if dims != [] {
      LoopIsNested(dims[1..], level + 1, Times(start, dims[0]), dims[0], raw);
    }
  }

  lemma {:induction false} LoopIsNested(dims: seq<int>, level: nat, base: nat, n: nat, raw: seq<int>)
    requires Dims(dims)
    ensures LoopCalls(dims, level, base, n, raw) == RenderAll(Kids(dims, base, n, raw), level)
    decreases |dims|, n
  {
    if n > 0 {
      LoopIsNested(dims, level, base, n - 1, raw);
      VisitIsNested(dims, level, base + n - 1, raw);
      assert Kids(dims, base, n, raw)[..n - 1] == Kids(dims, base, n - 1, raw);
    }
  }

  /** The value found by descending along bucket numbers. */
  function At(t: Tree, buckets: Tuple): Option<int>
    decreases buckets
  {
    match t
    case Leaf(v) => if buckets == [] then Some(v) else None
    case Node(kids) =>
      if buckets != [] && 0 <= buckets[0] < |kids| then At(kids[buckets[0]], buckets[1..]) else None
  }

  lemma {:induction false} KidAt(dims: seq<int>, base: nat, n: nat, raw: seq<int>, i: nat)
    requires Dims(dims) && i < n
    ensures Kids(dims, base, n, raw)[i] == TreeOf(dims, base + i, raw)
    decreases n
  {
    if i < n - 1 {
      KidAt(dims, base, n - 1, raw, i);
    }
  }

  /** The value at each nested position is the counter that `read_bucket` reads there. */
  lemma {:induction false} NestedIsReadBucket(dims: seq<int>, start: nat, raw: seq<int>, t: Tuple)
    requires Dims(dims) && InRange(dims, t)
    ensures At(TreeOf(dims, start, raw), t) == Some(Cell(raw, RawIndex(dims, start, t)))
    decreases dims
  {
    if dims != [] {
      var base := Times(start, dims[0]);
      TimesIsProduct(start, dims[0]);
      KidAt(dims[1..], base, dims[0], raw, t[0]);
      NestedIsReadBucket(dims[1..], base + t[0], raw, t[1..]);
    }
  }

  /** Every value that the 32-bit `startIndex` takes while visiting below an index fits. */
  predicate IndexFits(dims: seq<int>, start: int)
    requires Dims(dims)
    decreases |dims|, 0
  {
    start <= INT32_MAX && (dims == [] || LoopFits(dims[1..], start * dims[0], dims[0]))
  }

  /** The same for n rounds of the loop, with the increment after the last. */
  predicate LoopFits(dims: seq<int>, index: int, n: int)
    requires Dims(dims)
    decreases |dims|, if n < 0 then 0 else n
  {
    index <= INT32_MAX && (n <= 0 || (IndexFits(dims, index) && LoopFits(dims, index + 1, n - 1)))
  }

  /** There is no overflow below an index exactly when the index past its cells fits. */
  lemma {:induction false} IndexFitsExactly(dims: seq<int>, start: int)
    requires Dims(dims) && 0 <= start
    ensures IndexFits(dims, start) <==>
            if dims == [] then start <= INT32_MAX else (start + 1) * Size(dims) <= INT32_MAX
    decreases |dims|, 0
  {
    if dims != [] {
      var d, n := dims[0], Size(dims[1..]);
      SizeIsProduct(dims);
      MulAssociative(start + 1, d, n);
      Growth(start, (start + 1) * d, d, n);
      LoopFitsExactly(dims[1..], start * d, d);
    }
  }

  lemma ChildInside(i: int, n: int, s: int)
    requires 0 <= i <= n && 0 < s
    ensures i * s <= n * s
  {
  }

  lemma Growth(start: int, end: int, d: int, n: int)
    requires 0 <= start && 0 < d && 0 < n && end == (start + 1) * d
    ensures start < end <= end * n
  {
  }

  lemma {:induction false} LoopFitsExactly(dims: seq<int>, index: int, n: int)
    requires Dims(dims) && 0 <= index && 0 < n
    ensures LoopFits(dims, index, n) <==> (index + n) * Size(dims) <= INT32_MAX
    decreases |dims|, n
  {
    var s := Size(dims);
    IndexFitsExactly(dims, index);
    ChildInside(index + 1, index + n, s);
    Growth(index, index + 1, 1, s);
    Growth(index + n - 1, index + n, 1, s);
    if n > 1 {
      LoopFitsExactly(dims, index + 1, n - 1);
    }
  }

  /** A whole visit is free of 32-bit overflow exactly when the number of counters fits. */
  lemma VisitFits(dims: seq<int>)
    requires Dims(dims) && dims != []
    ensures IndexFits(dims, 0) <==> Size(dims) <= 0x7FFF_FFFF
  {
    IndexFitsExactly(dims, 0);
  }

  // ---------- What the counters count ----------

  ghost predicate AllInRange(dims: seq<int>, h: seq<Tuple>) {
    forall t | t in h :: InRange(dims, t)
  }

  /** Adding one to a 64-bit counter. */
  function Next(c: int): int {
    if c == TWO64 - 1 then 0 else c + 1
  }

  /** What a 64-bit counter shows after n increments from zero. */
  function Counter(n: nat): int {
    if n == 0 then 0 else Next(Counter(n - 1))
  }

  lemma {:induction false} CounterWraps(n: nat)
    ensures Counter(n) == n % 0x1_0000_0000_0000_0000
  {
    if n > 0 {
      CounterWraps(n - 1);
    }
  }

  /** Each cell shows how often its tuple was incremented. */
  ghost predicate Refines(dims: seq<int>, raw: seq<int>, h: seq<Tuple>)
    requires Dims(dims)
  {
    && |raw| == Size(dims) && AllInRange(dims, h)
    && forall i | 0 <= i < |raw| :: raw[i] == Counter(multiset(h)[TupleAt(dims, i)])
  }

  lemma MultisetSnoc(h: seq<Tuple>, t: Tuple, u: Tuple)
    ensures multiset(h + [t])[u] == multiset(h)[u] + if u == t then 1 else 0
  {
  }

  /** One increment of a tuple's cell is one more tuple. */
  lemma IncRefines(dims: seq<int>, raw: seq<int>, raw': seq<int>, h: seq<Tuple>, t: Tuple)
    requires Dims(dims) && Refines(dims, raw, h) && InRange(dims, t)
    requires 0 <= RawIndex(dims, 0, t) < |raw|
    requires raw' == raw[RawIndex(dims, 0, t) := Next(raw[RawIndex(dims, 0, t)])]
    ensures Refines(dims, raw', h + [t])
  {
    IndexThenTuple(dims, t);
    forall i | 0 <= i < |raw'|
      ensures raw'[i] == Counter(multiset(h + [t])[TupleAt(dims, i)])
    {
      TupleThenIndex(dims, i);
      MultisetSnoc(h, t, TupleAt(dims, i));
    }
  }

  /** Occurrences in h of the tuples of the first n cells. */
  ghost function CountUpTo(dims: seq<int>, h: seq<Tuple>, n: int): int
    requires Dims(dims) && n <= Size(dims)
    decreases n
  {
    if n <= 0 then 0 else CountUpTo(dims, h, n - 1) + multiset(h)[TupleAt(dims, n - 1)]
  }

  lemma {:induction false} CountUpToSnoc(dims: seq<int>, h: seq<Tuple>, t: Tuple, n: int)
    requires Dims(dims) && 0 <= n <= Size(dims) && InRange(dims, t)
    ensures CountUpTo(dims, h + [t], n) == CountUpTo(dims, h, n) + if RawIndex(dims, 0, t) < n then 1 else 0
    decreases n
  {
    IndexThenTuple(dims, t);
    if n > 0 {
      CountUpToSnoc(dims, h, t, n - 1);
      TupleThenIndex(dims, n - 1);
      MultisetSnoc(h, t, TupleAt(dims, n - 1));
    }
  }

  /** Over all cells, every increment is counted once. */
  lemma {:induction false} CountAll(dims: seq<int>, h: seq<Tuple>)
    requires Dims(dims) && AllInRange(dims, h)
    ensures CountUpTo(dims, h, Size(dims)) == |h|
  {
    if h == [] {
      CountNone(dims, Size(dims));
    } else {
      var g, t := h[..|h| - 1], h[|h| - 1];
      assert h == g + [t];
      CountAll(dims, g);
      CountUpToSnoc(dims, g, t, Size(dims));
      IndexThenTuple(dims, t);
    }
  }

  lemma {:induction false} CountNone(dims: seq<int>, n: int)
    requires Dims(dims) && n <= Size(dims)
    ensures CountUpTo(dims, [], n) == 0
    decreases n
  {
    if n > 0 {
      CountNone(dims, n - 1);
    }
  }

  function Sum(raw: seq<int>): int {
    if raw == [] then 0 else Sum(raw[..|raw| - 1]) + raw[|raw| - 1]
  }

  lemma AddCounter(a: int, b: int, n: nat)
    requires a % TWO64 == b % TWO64
    ensures (a + Counter(n)) % TWO64 == (b + n) % TWO64
  {
    CounterWraps(n);
  }

  lemma {:induction false} SumUpTo(dims: seq<int>, raw: seq<int>, h: seq<Tuple>, n: nat)
    requires Dims(dims) && Refines(dims, raw, h) && n <= |raw|
    ensures Sum(raw[..n]) % TWO64 == CountUpTo(dims, h, n) % TWO64
  {
    if n > 0 {
      SumUpTo(dims, raw, h, n - 1);
      assert raw[..n][..n - 1] == raw[..n - 1];
      AddCounter(Sum(raw[..n - 1]), CountUpTo(dims, h, n - 1), multiset(h)[TupleAt(dims, n - 1)]);
    }
  }

  /** The grand total of the counters is the number of increments, modulo 2^64. */
  lemma GrandTotal(dims: seq<int>, raw: seq<int>, h: seq<Tuple>)
    requires Dims(dims) && Refines(dims, raw, h)
    ensures Sum(raw) % TWO64 == |h| % TWO64
  {
    SumUpTo(dims, raw, h, |raw|);
    assert raw[..|raw|] == raw;
    CountAll(dims, h);
  }

  // ---------- Summing out an axis ----------

  function Insert(t: Tuple, k: nat, b: int): Tuple
    requires k <= |t|
  {
    t[..k] + [b] + t[k..]
  }

  function Drop(t: Tuple, k: nat): Tuple
    requires k < |t|
  {
    t[..k] + t[k + 1..]
  }

  /** The increments as seen without axis k. */
  function Project(h: seq<Tuple>, k: nat): seq<Tuple>
    requires forall t | t in h :: k < |t|
  {
    if h == [] then []
    else
      assert forall t | t in h[..|h| - 1] :: t in h;
      assert h[|h| - 1] in h;
      Project(h[..|h| - 1], k) + [Drop(h[|h| - 1], k)]
  }

  /** The cells that agree with t on every axis but k, for buckets below n, added up. */
  function AxisSum(dims: seq<int>, raw: seq<int>, t: Tuple, k: nat, n: nat): int
    requires k <= |t| && |dims| == |t| + 1
    decreases n
  {
    if n == 0 then 0
    else AxisSum(dims, raw, t, k, n - 1) + Cell(raw, RawIndex(dims, 0, Insert(t, k, n - 1)))
  }

  ghost function AxisCount(h: seq<Tuple>, t: Tuple, k: nat, n: nat): int
    requires k <= |t|
    decreases n
  {
    if n == 0 then 0 else AxisCount(h, t, k, n - 1) + multiset(h)[Insert(t, k, n - 1)]
  }

  lemma InsertDrop(u: Tuple, t: Tuple, k: nat, b: int)
    requires k <= |t| && |u| == |t| + 1
    ensures Insert(t, k, b) == u <==> Drop(u, k) == t && u[k] == b
  {
    if Drop(u, k) == t && u[k] == b {
      assert u[..k] == t[..k] && u[k + 1..] == t[k..];
      assert u == u[..k] + [u[k]] + u[k + 1..];
    }
    if Insert(t, k, b) == u {
      assert u[..k] == t[..k] && u[k + 1..] == t[k..];
      assert t == t[..k] + t[k..];
    }
  }

  lemma {:induction false} AxisCountSnoc(h: seq<Tuple>, u: Tuple, t: Tuple, k: nat, n: nat)
    requires k <= |t| && |u| == |t| + 1 && 0 <= u[k]
    ensures AxisCount(h + [u], t, k, n) == AxisCount(h, t, k, n) + if Drop(u, k) == t && u[k] < n then 1 else 0
    decreases n
  {
    if n > 0 {
      AxisCountSnoc(h, u, t, k, n - 1);
      MultisetSnoc(h, u, Insert(t, k, n - 1));
      InsertDrop(u, t, k, n - 1);
    }
  }

  lemma {:induction false} AxisCountIsProjection(dims: seq<int>, h: seq<Tuple>, t: Tuple, k: nat)
    requires AllInRange(dims, h) && k <= |t| && |dims| == |t| + 1 && dims[k] >= 0
    ensures AxisCount(h, t, k, dims[k]) == multiset(Project(h, k))[t]
    decreases h
  {
    if h == [] {
      AxisCountNone(t, k, dims[k]);
    } else {
      var g, u := h[..|h| - 1], h[|h| - 1];
      assert h == g + [u] && u in h && AllInRange(dims, g);
      AxisCountIsProjection(dims, g, t, k);
      AxisCountSnoc(g, u, t, k, dims[k]);
      MultisetSnoc(Project(g, k), Drop(u, k), t);
    }
  }

  lemma {:induction false} AxisCountNone(t: Tuple, k: nat, n: nat)
    requires k <= |t|
    ensures AxisCount([], t, k, n) == 0
    decreases n
  {
    if n > 0 {
      AxisCountNone(t, k, n - 1);
    }
  }

  lemma {:induction false} AxisSumIsCount(dims: seq<int>, raw: seq<int>, h: seq<Tuple>, t: Tuple, k: nat, n: nat)
    requires Dims(dims) && Refines(dims, raw, h)
    requires k <= |t| && |dims| == |t| + 1 && n <= dims[k] && InRange(Drop(dims, k), t)
    ensures AxisSum(dims, raw, t, k, n) % TWO64 == AxisCount(h, t, k, n) % TWO64
    decreases n
  {
    if n > 0 {
      AxisSumIsCount(dims, raw, h, t, k, n - 1);
      InsertInRange(dims, t, k, n - 1);
      IndexThenTuple(dims, Insert(t, k, n - 1));
      AddCounter(AxisSum(dims, raw, t, k, n - 1), AxisCount(h, t, k, n - 1), multiset(h)[Insert(t, k, n - 1)]);
    }
  }

  lemma InsertInRange(dims: seq<int>, t: Tuple, k: nat, b: int)
    requires k <= |t| && |dims| == |t| + 1 && 0 <= b < dims[k] && InRange(Drop(dims, k), t)
    ensures InRange(dims, Insert(t, k, b))
  {
    var u := Insert(t, k, b);
    forall i | 0 <= i < |dims|
      ensures 0 <= u[i] < dims[i]
    {
      if i < k {
        assert Drop(dims, k)[i] == dims[i] && u[i] == t[i];
      } else if i > k {
        assert Drop(dims, k)[i - 1] == dims[i] && u[i] == t[i - 1];
      }
    }
  }

  /** Summing the counters across any one axis gives the histogram of the same increments over
      the other axes. */
  lemma SumOutAxis(dims: seq<int>, raw: seq<int>, h: seq<Tuple>, t: Tuple, k: nat)
    requires Dims(dims) && Refines(dims, raw, h)
    requires k < |dims| && InRange(Drop(dims, k), t)
    ensures AxisSum(dims, raw, t, k, dims[k]) % TWO64 == multiset(Project(h, k))[t] % TWO64
  {
    AxisSumIsCount(dims, raw, h, t, k, dims[k]);
    AxisCountIsProjection(dims, h, t, k);
  }

  // ---------- The histogram object ----------

  function Buckets(axes: seq<Axis>): (dims: seq<int>)
    ensures |dims| == |axes|
  {
    seq(|axes|, i requires 0 <= i < |axes| => axes[i].buckets)
  }

  /** The bucket tuple of a tuple of values. */
  function TupleFor(axes: seq<Axis>, values: seq<int>): Tuple
    requires |values| == |axes| && forall a | a in axes :: a.Valid()
  {
    seq(|axes|, i requires 0 <= i < |axes| => Bucket(values[i], axes[i]))
  }

  /** The bucket tuple of some values is the one tuple whose reported ranges they lie in, each value
      on its own axis. */
  lemma TupleForExactly(axes: seq<Axis>, values: seq<int>, t: Tuple)
    requires |values| == |axes| == |t| && forall a | a in axes :: a.Valid()
    requires forall v | v in values :: INT64_MIN <= v <= INT64_MAX
    requires InRange(Buckets(axes), t)
    ensures t == TupleFor(axes, values) <==>
            forall i | 0 <= i < |axes| :: Within(values[i], RangeOf(axes[i], t[i]))
  {
    var u := TupleFor(axes, values);
    forall i | 0 <= i < |axes|
      ensures Within(values[i], RangeOf(axes[i], t[i])) <==> t[i] == u[i]
    {
      assert axes[i] in axes && values[i] in values && Buckets(axes)[i] == axes[i].buckets;
      RangesArePartition(values[i], axes[i], t[i]);
    }
  }

  class Histogram {
    const axes: seq<Axis>
    const raw: array<int>

    /** The tuples incremented since the last reset; the array is not cleared before that. */
    ghost var counted: Option<seq<Tuple>>

    ghost predicate Shaped()
    {
      && (forall a | a in axes :: a.Valid())
      && Dims(Buckets(axes)) && raw.Length == Size(Buckets(axes))
    }

    ghost predicate Valid()
      reads this, raw
    {
      Shaped() && (counted.Some? ==> Refines(Buckets(axes), raw[..], counted.value))
    }

    constructor (axes: seq<Axis>)
      requires forall a | a in axes :: a.Valid()
      ensures Valid() && this.axes == axes && counted.None? && fresh(raw)
    {
      forall i | 0 <= i < |axes|
        ensures Buckets(axes)[i] > 0
      {
        assert axes[i] in axes;
      }
      var size := RawSize(Buckets(axes));
      this.axes, raw, counted := axes, new int[size], None;
    }

    /** The copy has the same counters in an array of its own. */
    constructor Copy(other: Histogram)
      requires other.Valid()
      ensures Valid() && axes == other.axes && counted == other.counted
      ensures fresh(raw) && raw[..] == other.raw[..]
    {
      var size := RawSize(Buckets(other.axes));
      var data := new int[size];
      var i := 0;
      while i < size
        invariant 0 <= i <= size && data[..i] == other.raw[..i]
      {
        data[i] := other.raw[i];
        assert data[..i + 1] == other.raw[..i + 1];
        i := i + 1;
      }
      axes, raw, counted := other.axes, data, other.counted;
      new;
      assert raw[..] == data[..size] == other.raw[..size] == other.raw[..];
    }

    method Reset()
      requires Valid()
      modifies this, raw
      ensures Valid() && counted == Some([])
      ensures forall i | 0 <= i < raw.Length :: raw[i] == 0
    {
      var i := raw.Length - 1;
      while i >= 0
        invariant -1 <= i < raw.Length
        invariant forall j | i < j < raw.Length :: raw[j] == 0
      {
        raw[i] := 0;
        i := i - 1;
      }
      counted := Some([]);
    }

    /** `inc_bucket`; the source asserts that the buckets are in range. */
    method IncBucket(t: Tuple)
      requires Valid() && InRange(Buckets(axes), t)
      modifies this, raw
      ensures Valid()
      ensures counted == if old(counted).Some? then Some(old(counted).value + [t]) else None
      ensures var i := RawIndex(Buckets(axes), 0, t);
              && 0 <= i < raw.Length
              && raw[..] == old(raw[..])[i := Next(old(raw[..])[i])]
    {
      ghost var before := raw[..];
      IndexThenTuple(Buckets(axes), t);
      var index := RawIndex(Buckets(axes), 0, t);
      raw[index] := Next(raw[index]);
      if counted.Some? {
        IncRefines(Buckets(axes), before, raw[..], counted.value, t);
        counted := Some(counted.value + [t]);
      }
    }

    /** `inc`: every tuple of 64-bit values has its buckets, so nothing is lost. The tuple counted is
        the one in whose ranges the values lie. */
    method Inc(values: seq<int>)
      requires Valid() && |values| == |axes|
      requires forall v | v in values :: INT64_MIN <= v <= INT64_MAX
      modifies this, raw
      ensures Valid()
      ensures counted == if old(counted).Some? then Some(old(counted).value + [TupleFor(axes, values)]) else None
      ensures InRange(Buckets(axes), TupleFor(axes, values))
      ensures forall i | 0 <= i < |axes| :: Within(values[i], RangeOf(axes[i], TupleFor(axes, values)[i]))
      ensures var i := RawIndex(Buckets(axes), 0, TupleFor(axes, values));
              && 0 <= i < raw.Length
              && raw[..] == old(raw[..])[i := Next(old(raw[..])[i])]
    {
      var t := TupleFor(axes, values);
      forall i | 0 <= i < |axes|
        ensures 0 <= t[i] < Buckets(axes)[i] && Within(values[i], RangeOf(axes[i], t[i]))
      {
        assert values[i] in values && axes[i] in axes;
        BucketMatchesRange(values[i], axes[i]);
      }
      IncBucket(t);
    }

    /** After a reset, the number of increments of that tuple so far, modulo 2^64. */
    method ReadBucket(t: Tuple) returns (v: int)
      requires Valid() && InRange(Buckets(axes), t)
      ensures 0 <= RawIndex(Buckets(axes), 0, t) < raw.Length && v == raw[RawIndex(Buckets(axes), 0, t)]
      ensures counted.Some? ==> v == multiset(counted.value)[t] % TWO64
    {
      if counted.Some? {
        CounterWraps(multiset(counted.value)[t]);
      }
      IndexThenTuple(Buckets(axes), t);
      v := raw[RawIndex(Buckets(axes), 0, t)];
    }

    /** `visit_values` from a given level. */
    method VisitValues(level: nat, start: nat) returns (trace: seq<Event>)
      requires Shaped() && level <= |axes| && Dims(Buckets(axes)[level..])
      requires Times(start + 1, Size(Buckets(axes)[level..])) <= raw.Length
      ensures trace == Calls(Buckets(axes)[level..], level, start, raw[..])
      decreases |axes| - level
    {
      if level == |axes| {
        TimesIsProduct(start + 1, 1);
        return [Value(raw[start])];
      }
      var d := axes[level].buckets;
      ghost var rest := Buckets(axes)[level + 1..];
      assert d == Buckets(axes)[level..][0] && Buckets(axes)[level..][1..] == rest;
      TimesTimes(start + 1, d, Size(rest));
      TimesIsProduct(start, d);
      ghost var base := Times(start, d);
      trace := [Enter(level)];
      var index: nat := start * d;
      var i := 0;
      while i < d
        invariant 0 <= i <= d && index == base + i && Times(base + d, Size(rest)) <= raw.Length
        invariant trace == [Enter(level)] + LoopCalls(rest, level + 1, base, i, raw[..])
      {
        TimesSum(index + 1, d - i - 1, Size(rest));
        var inner := VisitValues(level + 1, index);
        AppendAssociative([Enter(level)], LoopCalls(rest, level + 1, base, i, raw[..]), inner);
        trace := trace + inner;
        i, index := i + 1, index + 1;
      }
      trace := trace + [Leave(level)];
    }

    /** A dump of the whole histogram visits every counter once, in raw order, with balanced
        calls, and each nested position shows what ReadBucket reads there. */
    method DumpValues() returns (trace: seq<Event>)
      requires Valid()
      ensures Values(trace) == raw[..]
      ensures Scan(trace, 0, |axes|) == Some(0)
      ensures var tree := TreeOf(Buckets(axes), 0, raw[..]);
              && trace == Render(tree, 0)
              && forall t | InRange(Buckets(axes), t) ::
                   At(tree, t) == Some(Cell(raw[..], RawIndex(Buckets(axes), 0, t)))
    {
      ghost var dims := Buckets(axes);
      assert dims[0..] == dims && raw[..] == raw[0..raw.Length];
      trace := VisitValues(0, 0);
      VisitInOrder(dims, 0, 0, raw[..]);
      VisitIsBalanced(dims, 0, 0, raw[..], []);
      VisitIsNested(dims, 0, 0, raw[..]);
      assert trace + [] == trace;
      forall t | InRange(dims, t)
        ensures At(TreeOf(dims, 0, raw[..]), t) == Some(Cell(raw[..], RawIndex(dims, 0, t)))
      {
        NestedIsReadBucket(dims, 0, raw[..], t);
      }
    }
  }
}
