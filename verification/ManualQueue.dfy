/** MANUAL_Q: the ring buffer in which Rebuild_Logger keeps its operations. */
module ManualQueue {
  import opened IkdConcurrent

  class MANUAL_Q {
    var head: int
    var tail: int
    var counter: int
    var is_empty: bool
    const q: array<Op>
    const Q_LEN: nat

    ghost predicate Valid()
      reads this, q
    {
      && q.Length == Q_LEN > 0 && 0 <= head < Q_LEN && 0 <= counter <= Q_LEN
      && (is_empty <==> counter == 0)
      && tail == if head + counter < Q_LEN then head + counter else head + counter - Q_LEN
    }

    /** The logged operations, oldest first: one stretch of the buffer, or two if it wraps around. */
    ghost function Contents(): (s: seq<Op>)
      requires Valid()
      reads this, q
      ensures |s| == counter
    {
      if head + counter <= Q_LEN then q[head..head + counter] else q[head..] + q[..head + counter - Q_LEN]
    }

    constructor (length: nat)
      requires length > 0
      ensures Valid() && Contents() == [] && Q_LEN == length && fresh(q)
    {
      head, tail, counter, is_empty := 0, 0, 0, true;
      q := new Op[length](_ => PUSH_DOWN(false, false));
      Q_LEN := length;
    }

    method clear()
      requires Valid()
      modifies this
      ensures Valid() && Contents() == []
    {
      head, tail, counter, is_empty := 0, 0, 0, true;
    }

    /** The successor of a slot. */
    lemma Successor(i: int)
      requires 0 <= i < Q_LEN
      ensures (i + 1) % Q_LEN == if i + 1 < Q_LEN then i + 1 else 0
    {
    }

    /** Popping an empty queue does nothing. */
    method pop()
      requires Valid()
      modifies this
      ensures Valid() && Contents() == if old(Contents()) == [] then [] else old(Contents())[1..]
    {
      if counter == 0 { return; }
      ghost var s := Contents();
      Successor(head);
      head := head + 1;
      head := head % Q_LEN;
      counter := counter - 1;
      if counter == 0 { is_empty := true; }
      assert Contents() == s[1..];
    }

    /** The oldest operation; of an empty queue, whatever the slot holds. */
    method front() returns (r: Op)
      requires Valid()
      ensures Contents() != [] ==> r == Contents()[0]
    {
      r := q[head];
    }

    /** Appends; but a full queue overwrites its oldest operation without moving on, and counts one more
        operation than it has slots. */
    method push(op: Op)
      requires Valid()
      modifies this, q
      ensures old(counter) < Q_LEN ==> Valid() && Contents() == old(Contents()) + [op]
      ensures old(counter) == Q_LEN ==>
        !Valid() && counter == Q_LEN + 1 && head == old(head) && q[..] == old(q[..])[old(head) := op]
    {
      ghost var s, full := Contents(), counter == Q_LEN;
      q[tail] := op;
      Successor(tail);
      counter := counter + 1;
      if is_empty { is_empty := false; }
      tail := tail + 1;
      tail := tail % Q_LEN;
      if !full { assert Contents() == s + [op]; }
    }

    method empty() returns (r: bool)
      requires Valid()
      ensures r <==> Contents() == []
    {
      r := is_empty;
    }

    method size() returns (r: int)
      requires Valid()
      ensures r == |Contents()|
    {
      r := counter;
    }
  }
}
