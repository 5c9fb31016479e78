/** The action log of the third assignment (push_to_log in w3/roguelike.cpp):
    a bounded list of messages, each stamped with the turn it was written in.
    The game keeps the log and the turn counter on one "world" entity; here they
    are the fields of one object. The text an entry is rendered as (the turn
    number, ": ", then the message) is not modelled; an entry keeps the two parts. */
module ActionLogs {

  datatype LogEntry = LogEntry(turn: int, msg: string)

  /** The log after one push: the entry goes to the back, and if the log then holds
      more than capacity entries, the oldest one is dropped (one, not more). */
  function Pushed(log: seq<LogEntry>, e: LogEntry, capacity: nat): (r: seq<LogEntry>)
    ensures |log| < capacity ==> r == log + [e]
    ensures capacity <= |log| ==> r == (log + [e])[1..]
  {
    var l := log + [e];
    if |l| > capacity then l[1..] else l
  }

  /** Pushing the messages msgs in order, all stamped with the same turn. */
  function PushedAll(log: seq<LogEntry>, turn: int, msgs: seq<string>, capacity: nat): seq<LogEntry>
    decreases |msgs|
  {
    if msgs == [] then log
    else Pushed(PushedAll(log, turn, msgs[..|msgs| - 1], capacity), LogEntry(turn, msgs[|msgs| - 1]), capacity)
  }

  /** n copies of one message. */
  function Repeat(msg: string, n: nat): (r: seq<string>)
    ensures |r| == n && forall k :: 0 <= k < n ==> r[k] == msg
  {
    seq(n, _ => msg)
  }

  /** Pushing one more message after msgs. */
  lemma PushedAllSnoc(log: seq<LogEntry>, turn: int, msgs: seq<string>, m: string, capacity: nat)
    ensures PushedAll(log, turn, msgs + [m], capacity) == Pushed(PushedAll(log, turn, msgs, capacity), LogEntry(turn, m), capacity)
  {
    assert (msgs + [m])[..|msgs + [m]| - 1] == msgs;
  }

  lemma RepeatSnoc(msg: string, n: nat)
    ensures Repeat(msg, n + 1) == Repeat(msg, n) + [msg]
  {
  }

  /** The entries for msgs stamped with turn. */
  function Stamped(turn: int, msgs: seq<string>): (r: seq<LogEntry>)
    ensures |r| == |msgs|
    ensures forall k :: 0 <= k < |msgs| ==> r[k] == LogEntry(turn, msgs[k])
  {
    seq(|msgs|, k requires 0 <= k < |msgs| => LogEntry(turn, msgs[k]))
  }

  lemma StampedSnoc(turn: int, msgs: seq<string>)
    requires msgs != []
    ensures Stamped(turn, msgs) == Stamped(turn, msgs[..|msgs| - 1]) + [LogEntry(turn, msgs[|msgs| - 1])]
  {
  }

  /** The last n entries of s (all of s when it is shorter). */
  function LastN(s: seq<LogEntry>, n: nat): (r: seq<LogEntry>)
    ensures |r| == if |s| < n then |s| else n
    ensures forall k :: 0 <= k < |r| ==> r[k] == s[|s| - |r| + k]
  {
    if |s| <= n then s else s[|s| - n..]
  }

  /** One push into a log within its capacity keeps it within capacity, appends the
      entry, and keeps the older entries in their order: the new log is the newest
      capacity entries of the old log followed by the entry. */
  lemma PushedIsWindow(log: seq<LogEntry>, e: LogEntry, capacity: nat)
    requires |log| <= capacity
    ensures Pushed(log, e, capacity) == LastN(log + [e], capacity)
    ensures |Pushed(log, e, capacity)| <= capacity
    ensures 0 < capacity ==> Pushed(log, e, capacity)[|Pushed(log, e, capacity)| - 1] == e
  {
  }

  /** Pushing several messages into a log within its capacity leaves exactly the
      newest capacity entries of the old log followed by the new ones. */
  lemma {:induction false} PushedAllIsWindow(log: seq<LogEntry>, turn: int, msgs: seq<string>, capacity: nat)
    requires |log| <= capacity
    ensures PushedAll(log, turn, msgs, capacity) == LastN(log + Stamped(turn, msgs), capacity)
    decreases |msgs|
  {
    if msgs != [] {
      var front := msgs[..|msgs| - 1];
      var e := LogEntry(turn, msgs[|msgs| - 1]);
      var before := log + Stamped(turn, front);
      StampedSnoc(turn, msgs);
      calc {
        PushedAll(log, turn, msgs, capacity);
        Pushed(PushedAll(log, turn, front, capacity), e, capacity);
        { PushedAllIsWindow(log, turn, front, capacity); }
        Pushed(LastN(before, capacity), e, capacity);
        { PushedIsWindow(LastN(before, capacity), e, capacity); }
        LastN(LastN(before, capacity) + [e], capacity);
        { LastNOfWindow(before, [e], capacity); }
        LastN(before + [e], capacity);
        { assert before + [e] == log + Stamped(turn, msgs); }
        LastN(log + Stamped(turn, msgs), capacity);
      }
    }
  }

  /** Dropping old entries before appending does not change the newest n entries. */
  lemma LastNOfWindow(s: seq<LogEntry>, t: seq<LogEntry>, n: nat)
    ensures LastN(LastN(s, n) + t, n) == LastN(s + t, n)
  {
    var w := LastN(s, n);
    var u := w + t;
    var a, b := LastN(u, n), LastN(s + t, n);
    assert |a| == |b|;
    forall k | 0 <= k < |a| ensures a[k] == b[k] {
      var i := |u| - |a| + k;
      var i' := |s + t| - |b| + k;
      assert i' == i + (|s| - |w|);
      assert a[k] == u[i] && b[k] == (s + t)[i'];
      if i < |w| {
        assert u[i] == w[i] == s[|s| - |w| + i];
      } else {
        assert u[i] == t[i - |w|];
      }
    }
  }

  /** Pushing a and then b is pushing a + b. */
  lemma {:induction false} PushedAllAppend(log: seq<LogEntry>, turn: int, a: seq<string>, b: seq<string>, capacity: nat)
    ensures PushedAll(PushedAll(log, turn, a, capacity), turn, b, capacity) == PushedAll(log, turn, a + b, capacity)
    decreases |b|
  {
    if b == [] {
      assert a + b == a;
    } else {
      var front, m := b[..|b| - 1], b[|b| - 1];
      assert b == front + [m];
      PushedAllAppend(log, turn, a, front, capacity);
      PushedAllSnoc(PushedAll(log, turn, a, capacity), turn, front, m, capacity);
      assert a + b == (a + front) + [m];
      PushedAllSnoc(log, turn, a + front, m, capacity);
    }
  }

  /** ActionLog and TurnCounter of the "world" entity. */
  class ActionLog {
    var entries: seq<LogEntry>
    var capacity: nat
    var turn: int

    constructor (capacity: nat)
      ensures entries == [] && this.capacity == capacity && turn == 0
    {
      entries := [];
      this.capacity := capacity;
      turn := 0;
    }

    /** push_to_log: one entry, stamped with the current turn. */
    method Push(msg: string)
      modifies this`entries
      ensures entries == Pushed(old(entries), LogEntry(turn, msg), capacity)
    {
      entries := entries + [LogEntry(turn, msg)];
      if |entries| > capacity {
        entries := entries[1..];
      }
    }

    /** The turn counter's increment in process_turn. */
    method NextTurn()
      modifies this`turn
      ensures turn == old(turn) + 1
    {
      turn := turn + 1;
    }
  }
}
