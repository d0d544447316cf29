/** The message queue between the feed and the evaluator
    (src/queue/mod.rs): writers push at the front, the reader pops at the
    back, so messages leave in the order they arrived. */
module Queue {
  import opened Wrappers

  /** `TwoWayQueue`: the `VecDeque` behind the mutex, front first. */
  class TwoWayQueue {
    var data: seq<string>

    constructor ()
      ensures data == []
    {
      data := [];
    }

    /** `push`: `push_front`. */
    method Push(value: string)
      modifies this
      ensures data == [value] + old(data)
      ensures data == PushAll(old(data), [value])
    {
      data := [value] + data;
    }

    /** `pop`: `pop_back`. The source waits while the queue is empty, so a
        call that returns always finds an element. */
    method Pop() returns (r: Option<string>)
      requires data != []
      modifies this
      ensures r == Some(old(data)[|old(data)| - 1])
      ensures data == old(data)[..|old(data)| - 1]
      ensures r == Some(Drain(old(data))[0]) && Drain(data) == Drain(old(data))[1..]
    {
      r := Some(data[|data| - 1]);
      data := data[..|data| - 1];
    }
  }

  /** The contents after pushing `values` in order onto `data`. */
  function PushAll(data: seq<string>, values: seq<string>): (r: seq<string>)
    ensures |r| == |data| + |values|
    decreases |values|
  {
    if values == [] then data else PushAll([values[0]] + data, values[1..])
  }

  /** The values that popping until empty returns, in order. */
  function Drain(data: seq<string>): (r: seq<string>)
    ensures |r| == |data|
  {
    if data == [] then [] else [data[|data| - 1]] + Drain(data[..|data| - 1])
  }

  /** Popping everything returns the values in reverse order of the
      deque, which is the order they were pushed. */
  lemma {:induction false} DrainReverses(data: seq<string>)
    ensures forall i :: 0 <= i < |data| ==> Drain(data)[i] == data[|data| - 1 - i]
  {
    if data != [] {
      DrainReverses(data[..|data| - 1]);
    }
  }

  /** FIFO: values pushed after the current contents come out after them,
      in the order they were pushed. */
  lemma {:induction false} Fifo(data: seq<string>, values: seq<string>)
    ensures Drain(PushAll(data, values)) == Drain(data) + values
    decreases |values|
  {
    if values != [] {
      var data' := [values[0]] + data;
      Fifo(data', values[1..]);
      DrainPrepend(data, values[0]);
      assert values == [values[0]] + values[1..];
    } else {
      assert Drain(data) + values == Drain(data);
    }
  }

  /** A value pushed in front of the contents is popped after all of them. */
  lemma {:induction false} DrainPrepend(data: seq<string>, value: string)
    ensures Drain([value] + data) == Drain(data) + [value]
  {
    if data == [] {
      assert Drain([value]) == [value] + Drain([]);
    } else {
      var d := [value] + data;
      assert d[..|d| - 1] == [value] + data[..|data| - 1];
      DrainPrepend(data[..|data| - 1], value);
    }
  }
}
