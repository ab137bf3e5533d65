/**
 * The log ring: a fixed array of slots, a write and a read sequence number, and counters of what was lost and is
 * unread. It works for any entries and any size of an entry; the kernel's size is `LogFormat.FormattedLength`.
 */
module LogRing {
  import opened Flat
  import opened LogFormat

  datatype Slot<T> = Slot(seqNo: nat, entry: T)

  /** Total of the sizes numbered `lo` to `hi - 1`; numbers start at 1. */
  function WindowBytes(sizes: seq<nat>, lo: nat, hi: nat): nat
    requires 1 <= lo <= hi <= |sizes| + 1
    decreases hi
  {
    if lo == hi then 0 else WindowBytes(sizes, lo, hi - 1) + sizes[hi - 2]
  }

  /** Total of the sizes with the given numbers. */
  function BytesOf(sizes: seq<nat>, numbers: seq<nat>): nat
    requires Numbers(|sizes|, numbers)
  {
    if numbers == [] then 0
    else BytesOf(sizes, numbers[..|numbers| - 1]) + sizes[numbers[|numbers| - 1] - 1]
  }

  predicate Numbers(count: nat, numbers: seq<nat>) {
    forall i | 0 <= i < |numbers| :: 1 <= numbers[i] <= count
  }

  predicate Increasing(numbers: seq<nat>) {
    forall i, j | 0 <= i < j < |numbers| :: numbers[i] < numbers[j]
  }

  lemma {:induction false} WindowGrows(sizes: seq<nat>, n: nat, lo: nat, hi: nat)
    requires 1 <= lo <= hi <= |sizes| + 1
    ensures WindowBytes(sizes + [n], lo, hi) == WindowBytes(sizes, lo, hi)
    decreases hi
  {
    if lo < hi {
      WindowGrows(sizes, n, lo, hi - 1);
    }
  }

  lemma {:induction false} WindowFirst(sizes: seq<nat>, lo: nat, hi: nat)
    requires 1 <= lo < hi <= |sizes| + 1
    ensures WindowBytes(sizes, lo, hi) == sizes[lo - 1] + WindowBytes(sizes, lo + 1, hi)
    decreases hi
  {
    if lo < hi - 1 {
      WindowFirst(sizes, lo, hi - 1);
    }
  }

  lemma {:induction false} BytesGrow(sizes: seq<nat>, n: nat, numbers: seq<nat>)
    requires Numbers(|sizes|, numbers)
    ensures BytesOf(sizes + [n], numbers) == BytesOf(sizes, numbers)
    decreases |numbers|
  {
    if numbers != [] {
      BytesGrow(sizes, n, numbers[..|numbers| - 1]);
    }
  }

  lemma BytesAppend(sizes: seq<nat>, numbers: seq<nat>, k: nat)
    requires Numbers(|sizes|, numbers) && 1 <= k <= |sizes|
    ensures Numbers(|sizes|, numbers + [k])
    ensures BytesOf(sizes, numbers + [k]) == BytesOf(sizes, numbers) + sizes[k - 1]
  {
    assert (numbers + [k])[..|numbers|] == numbers;
  }

  /** Numbers less than a full ring apart use different slots. */
  lemma SlotsDiffer(i: nat, j: nat, n: nat)
    requires 0 < n && i < j < i + n
    ensures i % n != j % n
  {
    var d := j / n - i / n;
    assert j - i == d * n + (j % n - i % n) by {
      assert i == i / n * n + i % n && j == j / n * n + j % n;
    }
    assert d <= 0 ==> d * n <= 0;
    assert d >= 1 ==> d * n >= n;
  }

  /** The history of a ring: every entry's size in order, the numbers delivered and the numbers lost. */
  datatype History = History(sizes: seq<nat>, delivered: seq<nat>, lost: seq<nat>)

  /** Every number is delivered, lost or still to be read, and so is every byte; deliveries are in order. */
  predicate HistoryOk(h: History, readSeq: nat) {
    var n := |h.sizes|;
    && 1 <= readSeq <= n + 1
    && Numbers(n, h.delivered) && Numbers(n, h.lost)
    && Increasing(h.delivered) && (forall i | 0 <= i < |h.delivered| :: h.delivered[i] < readSeq)
    && readSeq - 1 == |h.delivered| + |h.lost|
    && WindowBytes(h.sizes, 1, n + 1)
       == BytesOf(h.sizes, h.delivered) + BytesOf(h.sizes, h.lost) + WindowBytes(h.sizes, readSeq, n + 1)
  }

  /** The counters agree with the history: what is lost is counted, and its bytes are still among the unread ones. */
  predicate Books(h: History, readSeq: nat, dropped: nat, unread: nat) {
    && HistoryOk(h, readSeq) && dropped == |h.lost|
    && unread == BytesOf(h.sizes, h.lost) + WindowBytes(h.sizes, readSeq, |h.sizes| + 1)
  }

  lemma AddWritten(h: History, readSeq: nat, dropped: nat, unread: nat, size: nat)
    requires Books(h, readSeq, dropped, unread)
    ensures Books(h.(sizes := h.sizes + [size]), readSeq, dropped, unread + size)
  {
    BytesGrow(h.sizes, size, h.delivered);
    BytesGrow(h.sizes, size, h.lost);
    WindowGrows(h.sizes, size, 1, |h.sizes| + 1);
    WindowGrows(h.sizes, size, readSeq, |h.sizes| + 1);
  }

  lemma AddDelivered(h: History, readSeq: nat, dropped: nat, unread: nat)
    requires Books(h, readSeq, dropped, unread) && readSeq <= |h.sizes|
    ensures unread >= h.sizes[readSeq - 1]
    ensures Books(h.(delivered := h.delivered + [readSeq]), readSeq + 1, dropped, unread - h.sizes[readSeq - 1])
  {
    BytesAppend(h.sizes, h.delivered, readSeq);
    WindowFirst(h.sizes, readSeq, |h.sizes| + 1);
  }

  lemma AddLost(h: History, readSeq: nat, dropped: nat, unread: nat)
    requires Books(h, readSeq, dropped, unread) && readSeq <= |h.sizes|
    ensures Books(h.(lost := h.lost + [readSeq]), readSeq + 1, dropped + 1, unread)
  {
    BytesAppend(h.sizes, h.lost, readSeq);
    WindowFirst(h.sizes, readSeq, |h.sizes| + 1);
  }

  /** Every number in `[lo, hi)` is in its slot with its entry, and no slot has a number from `hi` on. */
  ghost predicate Holds<T>(ring: seq<Slot<T>>, written: seq<T>, lo: nat, hi: nat)
    requires ring != [] && 1 <= lo && hi <= |written| + 1
  {
    && (forall i | lo <= i < hi :: ring[i % |ring|] == Slot(i, written[i - 1]))
    && (forall k | 0 <= k < |ring| :: ring[k].seqNo < hi)
  }

  /** A slot shows the number looked for exactly when that number is in the window. */
  lemma HoldsAt<T>(ring: seq<Slot<T>>, written: seq<T>, lo: nat, hi: nat, i: nat)
    requires ring != [] && 1 <= lo && hi <= |written| + 1 && Holds(ring, written, lo, hi) && lo <= i
    ensures ring[i % |ring|].seqNo == i <==> i < hi
    ensures i < hi ==> ring[i % |ring|].entry == written[i - 1]
  {
  }

  /** Writing the next number into its slot keeps all others of a ring that is not full. */
  lemma HoldsMore<T>(ring: seq<Slot<T>>, written: seq<T>, lo: nat, hi: nat, e: T)
    requires ring != [] && 1 <= lo <= hi == |written| + 1 && hi < lo + |ring| && Holds(ring, written, lo, hi)
    ensures Holds(ring[hi % |ring| := Slot(hi, e)], written + [e], lo, hi + 1)
  {
    forall i | lo <= i < hi
      ensures i % |ring| != hi % |ring|
    {
      SlotsDiffer(i, hi, |ring|);
    }
  }

  class GlobalLogBuffer<T> {
    const slots: array<Slot<T>>
    const size: T -> nat
    var writeSeq: nat
    var readSeq: nat
    var dropped: nat
    var unreadBytes: nat
    ghost var written: seq<T>
    ghost var history: History

    constructor (n: nat, empty: T, size: T -> nat)
      requires n > 0
      ensures Valid() && fresh(slots) && slots.Length == n && this.size == size
      ensures written == [] && history == History([], [], []) && readSeq == writeSeq == 1 && unreadBytes == 0
    {
      slots := new Slot<T>[n](_ => Slot(0, empty));
      this.size := size;
      writeSeq, readSeq, dropped, unreadBytes := 1, 1, 0, 0;
      written, history := [], History([], [], []);
    }

    /** The i-th entry lies in slot i mod N for all unread i; the counters are the totals of the history. */
    ghost predicate Valid()
      reads this, slots
    {
      && slots.Length > 0
      && writeSeq == |written| + 1 == |history.sizes| + 1 && Books(history, readSeq, dropped, unreadBytes)
      && writeSeq - readSeq <= slots.Length
      && (forall i | 0 <= i < |written| :: history.sizes[i] == size(written[i]))
      && Holds(slots[..], written, readSeq, writeSeq)
    }

    /** Makes room for entry `seqNo`: when the ring is full the oldest unread entry is given up. */
    method HandleOverwrite(seqNo: nat)
      requires Valid() && seqNo == writeSeq
      modifies this
      ensures Valid() && seqNo == writeSeq < readSeq + slots.Length && written == old(written)
      ensures history == if old(writeSeq - readSeq) < slots.Length then old(history)
                         else old(history).(lost := old(history.lost) + [old(readSeq)])
      ensures unreadBytes == old(unreadBytes)
    {
      if seqNo < readSeq + slots.Length {
        return;
      }
      var newReadSeq := seqNo - slots.Length + 1;
      var overwritten := newReadSeq - readSeq;
      AddLost(history, readSeq, dropped, unreadBytes);
      dropped := dropped + overwritten;
      history := history.(lost := history.lost + [readSeq]);
      readSeq := newReadSeq;
    }

    /** Writes an entry under the next number; a full ring loses its oldest unread entry. */
    method Write(e: T)
      requires Valid()
      modifies this, slots
      ensures Valid() && written == old(written) + [e]
      ensures history.sizes == old(history.sizes) + [size(e)] && history.delivered == old(history.delivered)
      ensures history.lost == if old(writeSeq - readSeq) < slots.Length then old(history.lost)
                              else old(history.lost) + [old(readSeq)]
    {
      var seqNo := writeSeq;
      HandleOverwrite(seqNo);
      AddWritten(history, readSeq, dropped, unreadBytes, size(e));
      HoldsMore(slots[..], written, readSeq, seqNo, e);
      writeSeq := seqNo + 1;
      slots[seqNo % slots.Length] := Slot(seqNo, e);
      written, history := written + [e], history.(sizes := history.sizes + [size(e)]);
      unreadBytes := unreadBytes + size(e);
    }

    /** Delivers the oldest unread entry. */
    method Read() returns (r: Option<T>)
      requires Valid()
      modifies this
      ensures Valid() && written == old(written)
      ensures r.Some? <==> old(readSeq < writeSeq)
      ensures r.Some? ==> r.value == written[old(readSeq) - 1]
      ensures history == if r.None? then old(history)
                         else old(history).(delivered := old(history.delivered) + [old(readSeq)])
      ensures writeSeq == old(writeSeq)
    {
      var slot := slots[readSeq % slots.Length];
      HoldsAt(slots[..], written, readSeq, writeSeq, readSeq);
      if slot.seqNo != readSeq {
        return None;
      }
      AddDelivered(history, readSeq, dropped, unreadBytes);
      unreadBytes := unreadBytes - size(slot.entry);
      history := history.(delivered := history.delivered + [readSeq]);
      readSeq := readSeq + 1;
      r := Some(slot.entry);
    }

    /** Looks at an entry by number: found exactly inside the unread window. */
    method Peek(index: nat) returns (r: Option<T>)
      requires Valid()
      ensures r.Some? <==> readSeq <= index < writeSeq
      ensures r.Some? ==> r.value == written[index - 1]
    {
      if index < readSeq || index >= writeSeq {
        return None;
      }
      if writeSeq >= readSeq + slots.Length {
        var oldestValid := Max(0, writeSeq - slots.Length);
        if index < oldestValid {
          return None;
        }
      }
      var slot := slots[index % slots.Length];
      HoldsAt(slots[..], written, readSeq, writeSeq, index);
      if slot.seqNo != index {
        return None;
      }
      r := Some(slot.entry);
    }

    /** The number of unread entries: what was written and neither delivered nor lost. */
    method Len() returns (n: nat)
      requires Valid()
      ensures |written| == |history.delivered| + dropped + n
    {
      n := Max(0, writeSeq - readSeq);
    }

    /** The unread byte count is the total written minus the total delivered; lost entries stay in it. */
    lemma UnreadIsWrittenMinusRead()
      requires Valid()
      ensures unreadBytes == WindowBytes(history.sizes, 1, writeSeq) - BytesOf(history.sizes, history.delivered)
    {
    }

    /** So it is the size of what can still be read exactly as long as nothing was lost. */
    lemma UnreadIsExactUntilLoss()
      requires Valid() && forall i | 0 <= i < |written| :: size(written[i]) > 0
      ensures unreadBytes == WindowBytes(history.sizes, readSeq, writeSeq) <==> dropped == 0
    {
      if dropped > 0 {
        var last := history.lost[dropped - 1];
        assert history.sizes[last - 1] == size(written[last - 1]) > 0;
      }
    }
  }

  datatype Op<T> = WriteOp(entry: T) | ReadOp

  /** The entries written, in order. */
  function Entries<T>(ops: seq<Op<T>>): seq<T> {
    if ops == [] then []
    else
      var before, op := Entries(ops[..|ops| - 1]), ops[|ops| - 1];
      if op.WriteOp? then before + [op.entry] else before
  }

  /** What a run has written, the first unread number, and the numbers and entries delivered. */
  datatype Trace<T> = Trace(written: seq<T>, read: nat, numbers: seq<nat>, delivered: seq<T>)

  /** One operation on a ring of `n` slots: a write into a full one loses the first unread entry, a read delivers it. */
  function TraceStep<T>(n: nat, t: Trace<T>, op: Op<T>): Trace<T> {
    match op
    case WriteOp(e) =>
      t.(written := t.written + [e], read := if t.read + n == |t.written| + 1 then t.read + 1 else t.read)
    case ReadOp =>
      if 1 <= t.read <= |t.written| then
        t.(read := t.read + 1, numbers := t.numbers + [t.read], delivered := t.delivered + [t.written[t.read - 1]])
      else t
  }

  function TraceAfter<T>(n: nat, ops: seq<Op<T>>): Trace<T> {
    if ops == [] then Trace([], 1, [], []) else TraceStep(n, TraceAfter(n, ops[..|ops| - 1]), ops[|ops| - 1])
  }

  /** The entries delivered are the written ones with the given, increasing numbers below `read`. */
  ghost predicate Delivers<T>(t: Trace<T>) {
    && |t.delivered| == |t.numbers| && Increasing(t.numbers)
    && forall i | 0 <= i < |t.delivered| ::
         1 <= t.numbers[i] < t.read <= |t.written| + 1 && t.delivered[i] == t.written[t.numbers[i] - 1]
  }

  /** A run delivers a subsequence of exactly what it wrote. */
  lemma {:induction false} TraceDelivers<T>(n: nat, ops: seq<Op<T>>)
    requires n > 0
    ensures var t := TraceAfter(n, ops);
            && t.written == Entries(ops) && Delivers(t)
            && 1 <= t.read <= |t.written| + 1 <= t.read + n
  {
    if ops != [] {
      TraceDelivers(n, ops[..|ops| - 1]);
      StepDelivers(n, TraceAfter(n, ops[..|ops| - 1]), ops[|ops| - 1]);
    }
  }

  lemma StepDelivers<T>(n: nat, t: Trace<T>, op: Op<T>)
    requires n > 0 && Delivers(t) && 1 <= t.read <= |t.written| + 1 <= t.read + n
    ensures var u := TraceStep(n, t, op);
            Delivers(u) && 1 <= u.read <= |u.written| + 1 <= u.read + n
  {
  }

  /** What a ring and the entries read from it so far say of its run. */
  ghost function TraceOf<T>(ring: GlobalLogBuffer<T>, delivered: seq<T>): Trace<T>
    reads ring
  {
    Trace(ring.written, ring.readSeq, ring.history.delivered, delivered)
  }

  /** One operation on the ring. */
  method Step<T>(ring: GlobalLogBuffer<T>, op: Op<T>, delivered: seq<T>) returns (after: seq<T>)
    requires ring.Valid()
    modifies ring, ring.slots
    ensures ring.Valid() && TraceOf(ring, after) == TraceStep(ring.slots.Length, old(TraceOf(ring, delivered)), op)
  {
    match op
    case WriteOp(e) =>
      StepWrite(ring, e, delivered);
      after := delivered;
    case ReadOp => after := StepRead(ring, delivered);
  }

  method StepWrite<T>(ring: GlobalLogBuffer<T>, e: T, ghost delivered: seq<T>)
    requires ring.Valid()
    modifies ring, ring.slots
    ensures ring.Valid()
    ensures TraceOf(ring, delivered) == TraceStep(ring.slots.Length, old(TraceOf(ring, delivered)), WriteOp(e))
  {
    ring.Write(e);
  }

  method StepRead<T>(ring: GlobalLogBuffer<T>, delivered: seq<T>) returns (after: seq<T>)
    requires ring.Valid()
    modifies ring, ring.slots
    ensures ring.Valid() && TraceOf(ring, after) == TraceStep(ring.slots.Length, old(TraceOf(ring, delivered)), ReadOp)
  {
    after := delivered;
    var r := ring.Read();
    if r.Some? {
      after := delivered + [r.value];
    }
  }

  /**
   * Any run of a new ring: it is the run the operations decide, so it delivers an exact increasing subsequence of
   * what was written, and every entry is delivered, dropped or still to be read.
   */
  method Run<T>(n: nat, empty: T, size: T -> nat, ops: seq<Op<T>>) returns (delivered: seq<T>, ring: GlobalLogBuffer<T>)
    requires n > 0
    ensures ring.Valid() && ring.slots.Length == n && ring.size == size
    ensures TraceOf(ring, delivered) == TraceAfter(n, ops)
    ensures ring.written == Entries(ops) && Delivers(TraceAfter(n, ops))
    ensures |Entries(ops)| == |delivered| + ring.dropped + (ring.writeSeq - ring.readSeq)
  {
    ring := new GlobalLogBuffer(n, empty, size);
    delivered := [];
    for i := 0 to |ops|
      invariant ring.Valid() && fresh(ring) && fresh(ring.slots) && ring.slots.Length == n && ring.size == size
      invariant TraceOf(ring, delivered) == TraceAfter(n, ops[..i])
    {
      assert ops[..i + 1][..i] == ops[..i];
      delivered := Step(ring, ops[i], delivered);
    }
    assert ops[..|ops|] == ops;
    TraceDelivers(n, ops);
  }

  /** The kernel's ring, whose sizes are formatted lengths: its byte count is exact until the first loss. */
  method RunKernel(n: nat, ops: seq<Op<Entry>>) returns (delivered: seq<Entry>, ring: GlobalLogBuffer<Entry>)
    requires n > 0
    ensures ring.Valid() && ring.size == FormattedLength
    ensures TraceOf(ring, delivered) == TraceAfter(n, ops)
    ensures ring.unreadBytes == WindowBytes(ring.history.sizes, ring.readSeq, ring.writeSeq) <==> ring.dropped == 0
  {
    delivered, ring := Run(n, Entry(Debug, 0, 0, 0, ""), FormattedLength, ops);
    ring.UnreadIsExactUntilLoss();
  }
}
