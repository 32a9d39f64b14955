/**
  The queue discipline of the ring buffer, stated on its abstract contents:
  the sequence of accepted but not yet read items, oldest first.
  `Step` is what one call of `write` or `read` does to that sequence; the
  buffer's methods are proved to follow it, and `Run` strings calls together
  so that FIFO order, no loss and no duplication can be stated for any
  sequence of calls.
 */
module Fifo {

  /** One call on the queue: `write(item)` or `read`. */
  datatype Op<T> = WriteOp(item: T) | ReadOp

  /** The boolean a call returns and the contents it leaves. */
  datatype Effect<T> = Effect(ok: bool, contents: seq<T>)

  /**
    One call: a write is refused when the contents already hold `capacity` items
    and otherwise appends; a read is refused when there is nothing and otherwise
    drops the oldest item.
   */
  function Step<T>(capacity: nat, contents: seq<T>, op: Op<T>): Effect<T>
  {
    match op
    case WriteOp(item) =>
      if |contents| == capacity then Effect(false, contents) else Effect(true, contents + [item])
    case ReadOp =>
      if |contents| == 0 then Effect(false, contents) else Effect(true, contents[1..])
  }

  /** The items a run of calls accepted, the items its reads took (in order), and what is left. */
  datatype Trace<T> = Trace(accepted: seq<T>, delivered: seq<T>, final: seq<T>)

  /** Performs `ops` one after the other, starting from `contents`. */
  function Run<T>(capacity: nat, contents: seq<T>, ops: seq<Op<T>>): Trace<T>
    decreases |ops|
  {
    if ops == [] then Trace([], [], contents)
    else
      var e := Step(capacity, contents, ops[0]);
      var rest := Run(capacity, e.contents, ops[1..]);
      if !e.ok then rest
      else match ops[0]
        case WriteOp(x) => Trace([x] + rest.accepted, rest.delivered, rest.final)
        case ReadOp => Trace(rest.accepted, [contents[0]] + rest.delivered, rest.final)
  }

  /** One write per item, in order. */
  function Writes<T>(items: seq<T>): (ops: seq<Op<T>>)
    ensures |ops| == |items|
  {
    if items == [] then [] else [WriteOp(items[0])] + Writes(items[1..])
  }

  /** `n` consecutive reads. */
  function Reads<T>(n: nat): (ops: seq<Op<T>>)
    ensures |ops| == n
    ensures forall k :: 0 <= k < n ==> ops[k] == ReadOp
  {
    if n == 0 then [] else [ReadOp] + Reads(n - 1)
  }

  /**
    One call keeps the number of stored items between 0 and `capacity`, and it
    succeeds exactly when the buffer is not full (write) or not empty (read).
   */
  lemma StepKeepsBound<T>(capacity: nat, contents: seq<T>, op: Op<T>)
    requires |contents| <= capacity
    ensures |Step(capacity, contents, op).contents| <= capacity
    ensures op.WriteOp? ==> (Step(capacity, contents, op).ok <==> |contents| < capacity)
    ensures op.ReadOp? ==> (Step(capacity, contents, op).ok <==> |contents| > 0)
  {
  }

  /**
    No loss, no duplication: whatever a run of calls does, the items it delivered
    followed by the items left are exactly the items that were there followed by
    the items it accepted; and the bound on the contents is kept throughout.
   */
  lemma {:induction false} RunConserves<T>(capacity: nat, contents: seq<T>, ops: seq<Op<T>>)
    requires |contents| <= capacity
    ensures var r := Run(capacity, contents, ops);
            contents + r.accepted == r.delivered + r.final && |r.final| <= capacity
    decreases |ops|
  {
    if ops != [] {
      var r := Run(capacity, contents, ops);
      var rest := Run(capacity, Step(capacity, contents, ops[0]).contents, ops[1..]);
      match ops[0]
      case WriteOp(x) =>
        if |contents| == capacity {
          RunConserves(capacity, contents, ops[1..]);
          assert r == rest;
        } else {
          RunConserves(capacity, contents + [x], ops[1..]);
          assert r == Trace([x] + rest.accepted, rest.delivered, rest.final);
          assert contents + r.accepted == (contents + [x]) + rest.accepted;
        }
      case ReadOp =>
        if |contents| == 0 {
          RunConserves(capacity, contents, ops[1..]);
          assert r == rest;
        } else {
          RunConserves(capacity, contents[1..], ops[1..]);
          assert r == Trace(rest.accepted, [contents[0]] + rest.delivered, rest.final);
          calc {
            contents + r.accepted;
            [contents[0]] + (contents[1..] + rest.accepted);
            [contents[0]] + (rest.delivered + rest.final);
            r.delivered + r.final;
          }
        }
    }
  }

  /**
    FIFO: the items the reads of a run take are a prefix of the items that were
    stored followed by the items the run accepted, so they come out in write
    order, each once.
   */
  lemma ReadsFollowWriteOrder<T>(capacity: nat, contents: seq<T>, ops: seq<Op<T>>)
    requires |contents| <= capacity
    ensures var r := Run(capacity, contents, ops);
            r.delivered <= contents + r.accepted
  {
    RunConserves(capacity, contents, ops);
    var r := Run(capacity, contents, ops);
    assert (contents + r.accepted)[..|r.delivered|] == r.delivered;
  }

  /** Running two lists of calls one after the other is running their concatenation. */
  lemma {:induction false} RunAppend<T>(capacity: nat, contents: seq<T>, ops1: seq<Op<T>>, ops2: seq<Op<T>>)
    ensures var r1 := Run(capacity, contents, ops1);
            var r2 := Run(capacity, r1.final, ops2);
            Run(capacity, contents, ops1 + ops2)
              == Trace(r1.accepted + r2.accepted, r1.delivered + r2.delivered, r2.final)
    decreases |ops1|
  {
    if ops1 == [] {
      assert ops1 + ops2 == ops2;
    } else {
      var e := Step(capacity, contents, ops1[0]);
      assert (ops1 + ops2)[0] == ops1[0];
      assert (ops1 + ops2)[1..] == ops1[1..] + ops2;
      RunAppend(capacity, e.contents, ops1[1..], ops2);
      var r1 := Run(capacity, contents, ops1);
      var r2 := Run(capacity, r1.final, ops2);
      var t := Run(capacity, e.contents, ops1[1..]);
      assert r1.final == t.final;
      if e.ok && ops1[0].WriteOp? {
        assert [ops1[0].item] + (t.accepted + r2.accepted) == ([ops1[0].item] + t.accepted) + r2.accepted;
      } else if e.ok {
        assert [contents[0]] + (t.delivered + r2.delivered) == ([contents[0]] + t.delivered) + r2.delivered;
      }
    }
  }

  /** Writes that fit are all accepted, in order, and appended to the contents. */
  lemma {:induction false} WritesThatFit<T>(capacity: nat, contents: seq<T>, items: seq<T>)
    requires |contents| + |items| <= capacity
    ensures Run(capacity, contents, Writes(items)) == Trace(items, [], contents + items)
    decreases |items|
  {
    if items == [] {
      assert contents + items == contents;
    } else {
      var x, more, ops := items[0], items[1..], Writes(items);
      assert ops == [WriteOp(x)] + Writes(more);
      assert ops[0] == WriteOp(x) && ops[1..] == Writes(more);
      assert Step(capacity, contents, WriteOp(x)) == Effect(true, contents + [x]);
      var rest := Run(capacity, contents + [x], Writes(more));
      assert Run(capacity, contents, ops) == Trace([x] + rest.accepted, rest.delivered, rest.final);
      WritesThatFit(capacity, contents + [x], more);
      AppendThenExtend(contents, items);
    }
  }

  /** Appending the first item and then the rest is appending them all. */
  lemma AppendThenExtend<T>(contents: seq<T>, items: seq<T>)
    requires items != []
    ensures (contents + [items[0]]) + items[1..] == contents + items
    ensures [items[0]] + items[1..] == items
  {
    assert items == [items[0]] + items[1..];
  }

  /**
    Full/empty boundary: on an empty buffer, `capacity` writes in a row all succeed
    and the next write is refused, leaving the contents as written.
   */
  lemma FillThenRefuse<T>(capacity: nat, items: seq<T>, extra: T)
    requires |items| == capacity
    ensures Run(capacity, [], Writes(items) + [WriteOp(extra)]) == Trace(items, [], items)
  {
    WritesThatFit(capacity, [], items);
    RunAppend(capacity, [], Writes(items), [WriteOp(extra)]);
    assert [] + items == items;
    var r2 := Run(capacity, items, [WriteOp(extra)]);
    assert r2 == Trace([], [], items);
    assert items + [] == items;
  }

  /** Reading a buffer holding `contents` until one read is refused delivers exactly `contents`, oldest first. */
  lemma {:induction false} DrainDelivers<T>(capacity: nat, contents: seq<T>)
    ensures Run(capacity, contents, Reads(|contents| + 1)) == Trace([], contents, [])
    decreases |contents|
  {
    var ops := Reads<T>(|contents| + 1);
    assert ops[0] == ReadOp;
    if contents == [] {
      assert ops[1..] == [];
    } else {
      assert ops[1..] == Reads(|contents|);
      DrainDelivers(capacity, contents[1..]);
      assert [contents[0]] + contents[1..] == contents;
    }
  }
}
