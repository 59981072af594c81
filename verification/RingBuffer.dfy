/** A ring buffer that keeps the newest items, and the time series built on it. */
module Ring {
  import opened Wrappers
  import opened Arithmetic

  /** The last `n` elements, or all of fewer. */
  function LastN<T>(s: seq<T>, n: nat): (r: seq<T>)
    ensures |r| == if |s| <= n then |s| else n
  {
    if |s| <= n then s else s[|s| - n..]
  }

  /** Dropping early or late leaves the same suffix. */
  lemma LastNAppend<T>(s: seq<T>, x: T, n: nat)
    ensures LastN(LastN(s, n) + [x], n) == LastN(s + [x], n)
  {
  }

  /** The slots read from oldest to newest: in order until they are all in use, then from the head round. */
  function Unrolled<T>(buf: seq<T>, capacity: nat, head: nat): (s: seq<T>)
    requires 0 < capacity
    ensures |buf| <= capacity ==> |s| == |buf|
  {
    if |buf| != capacity then buf else buf[head % capacity..] + buf[..head % capacity]
  }

  lemma PushWithRoom<T>(buf: seq<T>, capacity: nat, head: nat, item: T)
    requires |buf| < capacity
    ensures Unrolled(buf + [item], capacity, |buf| + 1) == LastN(Unrolled(buf, capacity, head) + [item], capacity)
  {
    if |buf| + 1 == capacity {
      assert capacity % capacity == 0;
    }
  }

  /** Overwriting the oldest slot and moving past it drops the oldest item and appends the new one. */
  lemma PushOverOldest<T>(buf: seq<T>, capacity: nat, head: nat, item: T)
    requires |buf| == capacity && 0 < head <= capacity
    ensures var idx := head % capacity;
            Unrolled(buf[idx := item], capacity, idx + 1) == LastN(Unrolled(buf, capacity, head) + [item], capacity)
  {
    var idx := head % capacity;
    var after := buf[idx := item];
    NextSlot(idx, capacity);
    var next := if idx + 1 == capacity then 0 else idx + 1;
    assert after[next..] + after[..next] == (buf[idx..] + buf[..idx] + [item])[1..];
  }

  lemma NextSlot(idx: nat, capacity: nat)
    requires idx < capacity
    ensures (idx + 1) % capacity == if idx + 1 == capacity then 0 else idx + 1
  {
  }

  class RingBuffer<T> {
    var buf: seq<T>
    const capacity: nat
    var head: nat
    var len: nat
    /** Everything pushed since the last clear. */
    ghost var pushed: seq<T>

    ghost predicate Valid()
      reads this
    {
      && 0 < capacity && len == |buf| <= capacity
      && (len < capacity ==> head == len)
      && (len == capacity ==> 0 < head <= capacity)
      && Contents() == LastN(pushed, capacity)
    }

    /** The items from oldest to newest. */
    function Contents(): (s: seq<T>)
      reads this
    {
      if capacity == 0 then [] else Unrolled(buf, capacity, head)
    }

    constructor (capacity: nat)
      requires 0 < capacity
      ensures Valid() && this.capacity == capacity && pushed == [] && Contents() == []
    {
      buf := [];
      this.capacity := capacity;
      head, len := 0, 0;
      pushed := [];
    }

    method Push(item: T)
      requires Valid()
      modifies this
      ensures Valid() && pushed == old(pushed) + [item]
      ensures Contents() == LastN(old(Contents()) + [item], capacity)
    {
      LastNAppend(pushed, item, capacity);
      pushed := pushed + [item];
      if |buf| < capacity {
        PushWithRoom(buf, capacity, head, item);
        buf := buf + [item];
        len := |buf|;
        head := len;
      } else {
        PushOverOldest(buf, capacity, head, item);
        var idx := head % capacity;
        buf := buf[idx := item];
        head := idx + 1;
        len := capacity;
      }
    }

    method Clear()
      requires Valid()
      modifies this
      ensures Valid() && pushed == [] && Contents() == []
    {
      buf := [];
      head, len := 0, 0;
      pushed := [];
    }

    method Get(index: nat) returns (r: Option<T>)
      requires Valid()
      ensures r == if index < |Contents()| then Some(Contents()[index]) else None
    {
      if index >= len {
        return None;
      }
      if len < capacity {
        return Some(buf[index]);
      }
      var actual := (head + index) % capacity;
      IndexWraps(head, index, capacity);
      return Some(buf[actual]);
    }

    method Last() returns (r: Option<T>)
      requires Valid()
      ensures r == if pushed == [] then None else Some(pushed[|pushed| - 1])
    {
      if len == 0 {
        return None;
      }
      r := Get(len - 1);
    }
  }

  lemma IndexWraps(head: nat, index: nat, capacity: nat)
    requires 0 < head <= capacity && index < capacity
    ensures var start := head % capacity;
            (head + index) % capacity == if start + index < capacity then start + index else start + index - capacity
  {
    if head == capacity {
      DivModUnique(head, capacity, 1, 0);
      DivModUnique(head + index, capacity, 1, index);
    } else {
      DivModUnique(head, capacity, 0, head);
      if head + index < capacity {
        DivModUnique(head + index, capacity, 0, head + index);
      } else {
        DivModUnique(head + index, capacity, 1, head + index - capacity);
      }
    }
  }

  /** The borrowing iterator: the buffer does not change while it runs. */
  class RingBufferIter<T> {
    const ring: RingBuffer<T>
    var pos: nat

    constructor (ring: RingBuffer<T>)
      ensures this.ring == ring && pos == 0
    {
      this.ring := ring;
      pos := 0;
    }

    method Next() returns (r: Option<T>)
      requires ring.Valid()
      modifies this
      ensures old(pos) < |ring.Contents()| ==> r == Some(ring.Contents()[old(pos)]) && pos == old(pos) + 1
      ensures old(pos) >= |ring.Contents()| ==> r == None && pos == old(pos)
    {
      if pos >= ring.len {
        return None;
      }
      r := ring.Get(pos);
      pos := pos + 1;
    }
  }

  /** Running the iterator to its end yields the contents, oldest first. */
  method Collect<T>(ring: RingBuffer<T>) returns (items: seq<T>)
    requires ring.Valid()
    ensures items == ring.Contents()
  {
    ghost var contents := ring.Contents();
    var it := new RingBufferIter(ring);
    items := [];
    var next := it.Next();
    while next.Some?
      invariant fresh(it) && it.ring == ring && ring.Valid() && ring.Contents() == contents
      invariant |items| <= |contents| && items == contents[..|items|]
      invariant next.Some? ==> it.pos == |items| + 1 <= |contents| && next.value == contents[|items|]
      invariant next == None ==> |items| == |contents|
      decreases |contents| - |items|
    {
      items := items + [next.value];
      next := it.Next();
    }
  }

  // ---- Runs ----------------------------------------------------------------

  datatype RingOp<T> = OpPush(item: T) | OpClear

  /** The items pushed after the last clear of a run. */
  function PushedSinceClear<T>(ops: seq<RingOp<T>>): seq<T> {
    if ops == [] then []
    else match ops[|ops| - 1]
      case OpClear => []
      case OpPush(item) => PushedSinceClear(ops[..|ops| - 1]) + [item]
  }

  /** After any run a new buffer holds exactly the newest items pushed since the last clear. */
  method ItemsAfterRun<T>(ops: seq<RingOp<T>>, capacity: nat) returns (items: seq<T>)
    requires 0 < capacity
    ensures items == LastN(PushedSinceClear(ops), capacity)
  {
    var ring := new RingBuffer(capacity);
    for k := 0 to |ops|
      invariant fresh(ring) && ring.Valid() && ring.capacity == capacity && ring.pushed == PushedSinceClear(ops[..k])
    {
      assert ops[..k + 1][..k] == ops[..k];
      match ops[k]
      case OpPush(item) => ring.Push(item);
      case OpClear => ring.Clear();
    }
    assert ops[..|ops|] == ops;
    items := Collect(ring);
  }

  // ---- Time series ---------------------------------------------------------

  datatype Sample = Sample(timestamp: nat, value: real)

  function SumOf(s: seq<Sample>): real {
    if s == [] then 0.0 else SumOf(s[..|s| - 1]) + s[|s| - 1].value
  }

  function MinOf(s: seq<Sample>): real
    requires s != []
  {
    if |s| == 1 then s[0].value else Min(MinOf(s[..|s| - 1]), s[|s| - 1].value)
  }

  function MaxOf(s: seq<Sample>): real
    requires s != []
  {
    if |s| == 1 then s[0].value else Max(MaxOf(s[..|s| - 1]), s[|s| - 1].value)
  }

  /** The minimum and the maximum are values of the series, and bound them all. */
  lemma {:induction false} ExtremesBound(s: seq<Sample>)
    requires s != []
    ensures exists k :: 0 <= k < |s| && s[k].value == MinOf(s)
    ensures exists k :: 0 <= k < |s| && s[k].value == MaxOf(s)
    ensures forall k :: 0 <= k < |s| ==> MinOf(s) <= s[k].value <= MaxOf(s)
  {
    if |s| == 1 {
      assert s[0].value == MinOf(s) == MaxOf(s);
    } else {
      var front := s[..|s| - 1];
      ExtremesBound(front);
      var i :| 0 <= i < |front| && front[i].value == MinOf(front);
      var j :| 0 <= j < |front| && front[j].value == MaxOf(front);
      assert s[i].value == MinOf(front) && s[j].value == MaxOf(front);
      assert s[|s| - 1].value == MinOf(s) || s[i].value == MinOf(s);
      assert s[|s| - 1].value == MaxOf(s) || s[j].value == MaxOf(s);
      assert forall k :: 0 <= k < |front| ==> s[k] == front[k];
    }
  }

  /** A sum is that of its parts, and of one sample its value: every sample counts once. */
  lemma {:induction false} SumConcat(s: seq<Sample>, t: seq<Sample>, x: Sample)
    ensures SumOf(s + t) == SumOf(s) + SumOf(t)
    ensures SumOf([]) == 0.0 && SumOf([x]) == x.value
    decreases |t|
  {
    assert [x][..0] == [];
    if t == [] {
      assert s + t == s;
    } else {
      SumConcat(s, t[..|t| - 1], x);
      assert (s + t)[..|s + t| - 1] == s + t[..|t| - 1];
    }
  }

  /** Values between two bounds sum to between as many times the bounds. */
  lemma {:induction false} SumWithin(s: seq<Sample>, low: real, high: real)
    requires forall k :: 0 <= k < |s| ==> low <= s[k].value <= high
    ensures |s| as real * low <= SumOf(s) <= |s| as real * high
  {
    if s != [] {
      var front := s[..|s| - 1];
      assert forall k :: 0 <= k < |front| ==> s[k] == front[k];
      SumWithin(front, low, high);
      OneMore(|front|, low);
      OneMore(|front|, high);
      assert low <= s[|s| - 1].value <= high;
    }
  }

  lemma OneMore(n: nat, x: real)
    ensures (n + 1) as real * x == n as real * x + x
  {
  }

  /** The average of a series lies between its extremes. */
  lemma AverageBetweenExtremes(s: seq<Sample>)
    requires s != []
    ensures MinOf(s) <= SumOf(s) / |s| as real <= MaxOf(s)
  {
    ExtremesBound(s);
    SumWithin(s, MinOf(s), MaxOf(s));
    QuotientWithin(SumOf(s), |s| as real, MinOf(s), MaxOf(s));
  }

  lemma QuotientWithin(sum: real, n: real, low: real, high: real)
    requires 0.0 < n && n * low <= sum <= n * high
    ensures low <= sum / n <= high
  {
    var q := sum / n;
    assert q * n == sum;
    ScaleOrder(low, q, n);
    ScaleOrder(q, high, n);
  }

  class TimeSeries {
    const ring: RingBuffer<Sample>

    ghost predicate Valid()
      reads this, ring
    {
      ring.Valid()
    }

    constructor (capacity: nat)
      requires 0 < capacity
      ensures Valid() && fresh(ring) && ring.capacity == capacity && ring.pushed == []
    {
      ring := new RingBuffer(capacity);
    }

    method Push(timestamp: nat, value: real)
      requires Valid()
      modifies ring
      ensures Valid() && ring.pushed == old(ring.pushed) + [Sample(timestamp, value)]
    {
      ring.Push(Sample(timestamp, value));
    }

    method Latest() returns (r: Option<real>)
      requires Valid()
      ensures r == if ring.pushed == [] then None else Some(ring.pushed[|ring.pushed| - 1].value)
    {
      var last := ring.Last();
      return if last.Some? then Some(last.value.value) else None;
    }

    method Average() returns (r: Option<real>)
      requires Valid()
      ensures var s := LastN(ring.pushed, ring.capacity);
              r == if s == [] then None else Some(SumOf(s) / |s| as real)
    {
      if ring.len == 0 {
        return None;
      }
      var items := Collect(ring);
      var sum := 0.0;
      for k := 0 to |items|
        invariant sum == SumOf(items[..k])
      {
        assert items[..k + 1][..k] == items[..k];
        sum := sum + items[k].value;
      }
      assert items[..|items|] == items;
      return Some(sum / ring.len as real);
    }

    method MinValue() returns (r: Option<real>)
      requires Valid()
      ensures var s := LastN(ring.pushed, ring.capacity);
              r == if s == [] then None else Some(MinOf(s))
    {
      var items := Collect(ring);
      r := None;
      for k := 0 to |items|
        invariant r == if k == 0 then None else Some(MinOf(items[..k]))
      {
        assert items[..k + 1][..k] == items[..k];
        r := if r == None then Some(items[k].value) else Some(Min(r.value, items[k].value));
      }
      assert items[..|items|] == items;
    }

    method MaxValue() returns (r: Option<real>)
      requires Valid()
      ensures var s := LastN(ring.pushed, ring.capacity);
              r == if s == [] then None else Some(MaxOf(s))
    {
      var items := Collect(ring);
      r := None;
      for k := 0 to |items|
        invariant r == if k == 0 then None else Some(MaxOf(items[..k]))
      {
        assert items[..k + 1][..k] == items[..k];
        r := if r == None then Some(items[k].value) else Some(Max(r.value, items[k].value));
      }
      assert items[..|items|] == items;
    }
  }
}
