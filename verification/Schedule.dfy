/**
 Concurrent tasks that each complete once, in any order, and a gather that waits
 for all of them.
 */
module Schedule {
  import opened Bytes

  /** Every one of `n` tasks completes, and nothing else does. */
  predicate IsSchedule(order: seq<nat>, n: nat) {
    && |order| == n
    && (forall k :: 0 <= k < |order| ==> order[k] < n)
    && (forall i :: 0 <= i < n ==> i in order)
  }

  predicate InRange(order: seq<nat>, n: nat) { forall k :: 0 <= k < |order| ==> order[k] < n }

  /** The result slots after the tasks of `order` completed in that order. */
  function Settle<T>(outcomes: seq<T>, order: seq<nat>): (r: seq<Option<T>>)
    requires InRange(order, |outcomes|)
    ensures |r| == |outcomes|
  {
    if order == [] then seq(|outcomes|, _ => None)
    else
      var last := order[|order| - 1];
      Settle(outcomes, order[..|order| - 1])[last := Some(outcomes[last])]
  }

  /** A set that the successful tasks of `order` add to as they complete. */
  function Join(initial: set<string>, outcomes: seq<Option<string>>, order: seq<nat>): set<string>
    requires InRange(order, |outcomes|)
  {
    if order == [] then initial
    else
      var last := outcomes[order[|order| - 1]];
      Join(initial, outcomes, order[..|order| - 1]) + if last.Some? then {last.value} else {}
  }

  function Gathered<T>(outcomes: seq<T>): seq<Option<T>> {
    seq(|outcomes|, i requires 0 <= i < |outcomes| => Some(outcomes[i]))
  }

  function Joined(initial: set<string>, outcomes: seq<Option<string>>): set<string> {
    initial + set i | 0 <= i < |outcomes| && outcomes[i].Some? :: outcomes[i].value
  }

  lemma {:induction false} SettledSlots<T>(outcomes: seq<T>, order: seq<nat>)
    requires InRange(order, |outcomes|)
    ensures forall i :: 0 <= i < |outcomes| ==>
              Settle(outcomes, order)[i] == if i in order then Some(outcomes[i]) else None
  {
    if order != [] {
      SettledSlots(outcomes, order[..|order| - 1]);
      assert order == order[..|order| - 1] + [order[|order| - 1]];
    }
  }

  /** What the successful tasks among `order` bring. */
  function Gains(outcomes: seq<Option<string>>, order: seq<nat>): set<string>
    requires InRange(order, |outcomes|)
  {
    set i | i in order && outcomes[i].Some? :: outcomes[i].value
  }

  lemma GainsSnoc(outcomes: seq<Option<string>>, front: seq<nat>, last: nat)
    requires InRange(front + [last], |outcomes|) && InRange(front, |outcomes|) && last < |outcomes|
    ensures Gains(outcomes, front + [last])
            == Gains(outcomes, front) + if outcomes[last].Some? then {outcomes[last].value} else {}
  {
  }

  lemma {:induction false} JoinedMembers(initial: set<string>, outcomes: seq<Option<string>>, order: seq<nat>)
    requires InRange(order, |outcomes|)
    ensures Join(initial, outcomes, order) == initial + Gains(outcomes, order)
  {
    if order != [] {
      var front, last := order[..|order| - 1], order[|order| - 1];
      assert order == front + [last];
      JoinedMembers(initial, outcomes, front);
      GainsSnoc(outcomes, front, last);
    }
  }

  /**
   What concurrent tasks leave behind does not depend on the order in which they
   complete: every slot holds its own task's outcome, and the shared set has gained
   exactly what the successful tasks bring.
   */
  lemma ScheduleIndependent<T>(outcomes: seq<T>, initial: set<string>, joins: seq<Option<string>>, order: seq<nat>)
    requires IsSchedule(order, |outcomes|) && |joins| == |outcomes|
    ensures Settle(outcomes, order) == Gathered(outcomes)
    ensures Join(initial, joins, order) == Joined(initial, joins)
  {
    SettledSlots(outcomes, order);
    JoinedMembers(initial, joins, order);
    assert Gains(joins, order) == set i | 0 <= i < |joins| && joins[i].Some? :: joins[i].value;
  }
}
