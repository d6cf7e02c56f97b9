/** The incoming packet buffer (pc/src/serie/PaquetBuffer.java): a FIFO
    queue that keeps at most five packets, dropping the oldest one when an
    addition overfills it. */
module PacketBuffer {
  import opened Common

  const CAPACITY: nat := 5

  /** The last `n` elements of `s` (all of them when `s` is shorter). */
  function LastN<T>(s: seq<T>, n: nat): (r: seq<T>)
    ensures |r| == if |s| < n then |s| else n
    ensures r == s[|s| - |r|..]
  {
    if |s| <= n then s else s[|s| - n..]
  }

  /** add: appends, then drops the head once if the queue has more than
      five elements. */
  function Add<T>(q: seq<T>, e: T): (r: seq<T>)
    ensures |q| <= CAPACITY ==> |r| <= CAPACITY
    ensures |r| > 0 && r[|r| - 1] == e
    ensures |q| < CAPACITY ==> r == q + [e]
    ensures |q| >= CAPACITY ==> |r| == |q| && r == q[1..] + [e]
  {
    var b := q + [e];
    if |b| > CAPACITY then b[1..] else b
  }

  /** poll: the head, or nothing (the source's null) when empty. */
  function Poll<T>(q: seq<T>): (r: (seq<T>, Option<T>))
    ensures r.1.None? <==> q == []
    ensures r.1.Some? ==> [r.1.value] + r.0 == q
    ensures r.1.None? ==> r.0 == q
  {
    if |q| == 0 then (q, None) else (q[1..], Some(q[0]))
  }

  function IsEmpty<T>(q: seq<T>): (e: bool)
    ensures e <==> Poll(q).1.None?
  {
    |q| == 0
  }

  /** A run of additions. */
  function AddAll<T>(q: seq<T>, es: seq<T>): seq<T>
    decreases |es|
  {
    if |es| == 0 then q else AddAll(Add(q, es[0]), es[1..])
  }

  /** After any run of additions to a buffer within capacity, it holds the
      last five packets of everything it held and received, in order: the
      oldest are the ones dropped. */
  lemma {:induction false} AddAllKeepsNewest<T>(q: seq<T>, es: seq<T>)
    requires |q| <= CAPACITY
    ensures AddAll(q, es) == LastN(q + es, CAPACITY)
    decreases |es|
  {
    if |es| > 0 {
      var q' := Add(q, es[0]);
      AddAllKeepsNewest(q', es[1..]);
      assert q + es == (q + [es[0]]) + es[1..];
      if |q| >= CAPACITY {
        assert q' + es[1..] == (q + es)[1..];
      }
    }
  }

  /** Polling serves what was added in the order it was added. */
  lemma FifoOrder<T>(a: T, b: T)
    ensures Poll(Add(Add([], a), b)).1 == Some(a)
    ensures Poll(Poll(Add(Add([], a), b)).0).1 == Some(b)
  {
  }

  /** Adding to a buffer within capacity then polling returns its head, or
      the new element when it was empty. */
  lemma {:induction false} AddThenPoll<T>(q: seq<T>, e: T)
    requires |q| < CAPACITY
    ensures Poll(Add(q, e)).1 == Some(if |q| == 0 then e else q[0])
    ensures Poll(Add(q, e)).0 == (if |q| == 0 then [] else Poll(q).0 + [e])
  {
  }
}
