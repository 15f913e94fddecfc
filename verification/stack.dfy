/**
 * The bounded stack of astack.h: a caller-provided buffer of pointer-sized
 * slots, used by the iterator to hold the spine still to be visited.
 *
 * `data` holds the live entries bottom first, so the top of the stack is the
 * last element, exactly as `data[sz - 1]` is in the C buffer.
 */
module BoundedStack {
  import opened Optional

  datatype AStack<T> = AStack(data: seq<T>, maxSz: nat)
  {
    /** The number of live entries (`sz`). */
    function Size(): nat { |data| }

    /** The representation invariant the C code relies on: `sz <= max_sz`. */
    predicate Fits() { |data| <= maxSz }
  }

  /**
   * `stack_init`: an empty stack over a buffer of `bufferSize` bytes whose
   * slots are `ptrBytes` wide (`sizeof(void *)`); the division truncates.
   */
  function Init<T>(bufferSize: nat, ptrBytes: nat): (s: AStack<T>)
    requires ptrBytes > 0
    ensures s.Size() == 0 && s.Fits()
    ensures s.maxSz * ptrBytes <= bufferSize < (s.maxSz + 1) * ptrBytes
  {
    AStack([], bufferSize / ptrBytes)
  }

  /**
   * `stack_push`: the C code does not look at `max_sz`, so a push into a
   * full buffer writes past its end; the model makes room a precondition.
   */
  function Push<T>(s: AStack<T>, e: T): (s': AStack<T>)
    requires s.Size() < s.maxSz
    ensures s'.Size() == s.Size() + 1 && s'.Fits()
    ensures Peek(s') == Some(e)
    ensures s'.data[..s.Size()] == s.data && s'.maxSz == s.maxSz
  {
    AStack(s.data + [e], s.maxSz)
  }

  /** `stack_pop`: NULL (None) on an empty stack, which is left as it is. */
  function Pop<T>(s: AStack<T>): (r: (Option<T>, AStack<T>))
    ensures r.0.None? <==> s.Size() == 0
    ensures r.0.None? ==> r.1 == s
    ensures r.0.Some? ==> r.1.Size() == s.Size() - 1 && r.1.maxSz == s.maxSz
    ensures r.0.Some? ==> r.1.data + [r.0.value] == s.data
  {
    if |s.data| == 0 then (None, s)
    else (Some(s.data[|s.data| - 1]), AStack(s.data[..|s.data| - 1], s.maxSz))
  }

  /** `stack_peek`: the entry `Pop` would return, without removing it. */
  function Peek<T>(s: AStack<T>): (r: Option<T>)
    ensures r.None? <==> s.Size() == 0
    ensures r == Pop(s).0
  {
    if |s.data| == 0 then None else Some(s.data[|s.data| - 1])
  }

  /** Pushing then popping returns the pushed entry and the stack as it was. */
  lemma PushPop<T>(s: AStack<T>, e: T)
    requires s.Size() < s.maxSz
    ensures Pop(Push(s, e)) == (Some(e), s)
  {
    assert (s.data + [e])[..|s.data|] == s.data;
  }

  /** Popping a non-empty stack and pushing the popped entry back restores it. */
  lemma PopPush<T>(s: AStack<T>)
    requires s.Size() > 0 && s.Fits()
    ensures Pop(s).0.Some? && Push(Pop(s).1, Pop(s).0.value) == s
  {
  }
}
