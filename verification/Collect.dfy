/** Collecting retained messages: handler goroutines store messages under a mutex and signal on a
    channel of capacity one, while the collecting goroutine selects between that channel, an idle
    timer that exists only after the first signal, and a total timer. */
module Collect {
  import opened Text

  datatype Message = Message(topic: string, payload: string, retained: bool)

  datatype IdleTimer = NoTimer | Armed | Fired

  datatype Exit = Running | ByTotal | ByIdle

  /** The last retained payload of every topic, in handling order. */
  function LastRetained(handled: seq<Message>): map<string, string>
  {
    if handled == [] then map[]
    else
      var before, m := LastRetained(handled[..|handled| - 1]), handled[|handled| - 1];
      if m.retained then before[m.topic := m.payload] else before
  }

  function RetainedCount(handled: seq<Message>): nat
  {
    if handled == [] then 0
    else RetainedCount(handled[..|handled| - 1]) + if handled[|handled| - 1].retained then 1 else 0
  }

  /** No retained message for the topic comes after position i. */
  ghost predicate LastOfTopic(handled: seq<Message>, i: nat)
    requires i < |handled|
  {
    handled[i].retained && forall j | i < j < |handled| && handled[j].retained :: handled[j].topic != handled[i].topic
  }

  /** LastRetained, told by positions: its topics are those of retained messages, and each has the
      payload of the last of them. */
  lemma {:induction false} LastRetainedExactly(handled: seq<Message>, topic: string)
    ensures topic in LastRetained(handled)
       <==> exists i | 0 <= i < |handled| :: handled[i].topic == topic && LastOfTopic(handled, i)
    ensures forall i | 0 <= i < |handled| && LastOfTopic(handled, i) && handled[i].topic == topic ::
              topic in LastRetained(handled) && LastRetained(handled)[topic] == handled[i].payload
  {
    if handled != [] {
      var n := |handled| - 1;
      var front := handled[..n];
      LastRetainedExactly(front, topic);
      assert forall i | 0 <= i < n :: front[i] == handled[i];
      if handled[n].retained && handled[n].topic == topic {
        assert LastOfTopic(handled, n);
      } else {
        forall i | 0 <= i < n && front[i].topic == topic
          ensures LastOfTopic(front, i) <==> LastOfTopic(handled, i)
        {
          if LastOfTopic(front, i) {
            forall j | i < j < |handled| && handled[j].retained ensures handled[j].topic != handled[i].topic {
              if j < n { assert front[j] == handled[j]; }
            }
          }
          if LastOfTopic(handled, i) {
            forall j | i < j < |front| && front[j].retained ensures front[j].topic != front[i].topic {
              assert front[j] == handled[j];
            }
          }
        }
      }
    }
  }

  lemma NextMessage(handled: seq<Message>, m: Message)
    ensures LastRetained(handled + [m])
         == if m.retained then LastRetained(handled)[m.topic := m.payload] else LastRetained(handled)
    ensures RetainedCount(handled + [m]) == RetainedCount(handled) + if m.retained then 1 else 0
  {
    assert (handled + [m])[..|handled|] == handled;
  }

  lemma {:induction false} RetainedCountPrefix(handled: seq<Message>, n: nat)
    requires n <= |handled|
    ensures RetainedCount(handled[..n]) <= RetainedCount(handled)
  {
    if n < |handled| {
      RetainedCountPrefix(handled[..|handled| - 1], n);
      assert handled[..|handled| - 1][..n] == handled[..n];
    } else {
      assert handled[..n] == handled;
    }
  }

  class Collector {
    /** Messages that the broker delivers, in the order in which their handlers take the lock. */
    const messages: seq<Message>
    /** Handlers that passed their critical section. */
    var next: nat
    /** Handlers of retained messages that still have to signal. */
    var unsignalled: nat
    var collected: map<string, string>
    /** The channel holds a signal. */
    var activity: bool
    var totalFired: bool
    var idle: IdleTimer
    /** Signals received, and signals dropped because the channel was full. */
    ghost var received: nat
    ghost var dropped: nat
    /** The idle period has passed since the last signal was received. */
    ghost var quiet: bool
    /** How subscribing and unsubscribing ended. */
    var answers: seq<bool>

    ghost predicate Valid()
      reads this
    {
      && next <= |messages|
      && collected == LastRetained(messages[..next])
      && RetainedCount(messages[..next]) == received + dropped + unsignalled + (if activity then 1 else 0)
      // a dropped signal means that an earlier one is pending or was received
      && (dropped > 0 ==> received > 0 || activity)
      && (idle == NoTimer <==> received == 0) && (idle == Fired ==> quiet)
    }

    constructor (messages: seq<Message>)
      ensures Valid() && this.messages == messages && next == 0 && received == 0 && answers == []
    {
      this.messages := messages;
      next, unsignalled, collected, activity, totalFired, idle := 0, 0, map[], false, false, NoTimer;
      received, dropped, quiet, answers := 0, 0, false, [];
    }

    /** The handler up to the end of its critical section. */
    method HandlerStore()
      requires Valid() && next < |messages|
      modifies this
      ensures Valid() && next == old(next) + 1
      ensures var m := messages[old(next)];
              && collected == (if m.retained then old(collected)[m.topic := m.payload] else old(collected))
              && unsignalled == old(unsignalled) + if m.retained then 1 else 0
      ensures activity == old(activity) && received == old(received) && dropped == old(dropped)
      ensures idle == old(idle) && totalFired == old(totalFired) && quiet == old(quiet) && answers == old(answers)
    {
      var msg := messages[next];
      NextMessage(messages[..next], msg);
      assert messages[..next + 1] == messages[..next] + [msg];
      next := next + 1;
      if !msg.retained {
        return;
      }
      collected := collected[msg.topic := msg.payload];
      unsignalled := unsignalled + 1;
    }

    /** The non-blocking send that ends the handler of a retained message. */
    method HandlerSignal()
      requires Valid() && unsignalled > 0
      modifies this
      ensures Valid() && next == old(next) && unsignalled == old(unsignalled) - 1
      ensures collected == old(collected) && received == old(received)
      ensures idle == old(idle) && totalFired == old(totalFired) && quiet == old(quiet) && answers == old(answers)
      ensures activity && dropped == old(dropped) + if old(activity) then 1 else 0
    {
      unsignalled := unsignalled - 1;
      if activity {
        dropped := dropped + 1;
      } else {
        activity := true;
      }
    }

    predicate Ready()
      reads this
    {
      totalFired || activity || idle == Fired
    }

    /** Whatever runs while the collecting goroutine does not: handlers and timers, in any order and
        for any length of time; when asked to wait, until some select branch is ready. */
    method Elapse(wait: bool)
      requires Valid()
      modifies this
      ensures Valid() && next >= old(next) && received == old(received)
      ensures wait ==> Ready()
      ensures (old(totalFired) ==> totalFired) && (old(quiet) ==> quiet) && answers == old(answers)
    {
      var more: bool := *;
      while more && (next < |messages| || unsignalled > 0)
        invariant Valid() && next >= old(next) && received == old(received)
        invariant (old(totalFired) ==> totalFired) && (old(quiet) ==> quiet) && answers == old(answers)
        decreases 2 * (|messages| - next) + unsignalled
      {
        var store: bool := *;
        if next < |messages| && (store || unsignalled == 0) {
          HandlerStore();
        } else {
          HandlerSignal();
        }
        var timer: bool := *;
        if timer && idle == Armed {
          idle, quiet := Fired, true;
        }
        more := *;
      }
      var passed: bool := *;
      if passed && idle == Armed {
        idle, quiet := Fired, true;
      }
      var expired: bool := *;
      if expired || (wait && !Ready()) {
        totalFired := true;
      }
    }

    /** Subscribe or Unsubscribe. */
    method Ask() returns (ok: bool)
      requires Valid()
      modifies `answers
      ensures Valid() && answers == old(answers) + [ok] && answers[|answers| - 1] == ok
    {
      ok := *;
      answers := answers + [ok];
    }

    /** CollectRetained on a broker that delivers `messages`, for every schedule.
        The result is the last retained payload per topic over the handlers that passed their
        critical section before the final lock, although signals coalesce; the select loop runs at
        most once per retained delivery plus once; it leaves through the idle timer only if a retained
        message was handled and the idle period has passed since the last signal; and there is a result
        exactly when subscribing and unsubscribing both succeed. */
    method CollectRetained()
      returns (out: Option<map<string, string>>, exit: Exit, iterations: nat, ghost atLoopEnd: nat)
      requires Valid() && next == 0 && received == 0 && answers == []
      modifies this
      ensures Valid() && next <= |messages|
      ensures out.Some? <==> answers == [true, true]
      ensures exit == Running <==> answers == [false]
      ensures out.Some? ==> out.value == LastRetained(messages[..next])
      ensures exit == Running ==> out.None? && iterations == 0
      ensures exit != Running ==> atLoopEnd <= next && iterations <= RetainedCount(messages[..atLoopEnd]) + 1
      ensures exit == ByIdle ==> RetainedCount(messages[..atLoopEnd]) > 0 && quiet
      ensures exit == ByTotal ==> totalFired
    {
      out, exit, iterations, atLoopEnd := None, Running, 0, 0;
      Elapse(false);
      var subscribed := Ask();
      if !subscribed {
        return;
      }
      exit, iterations := Select();
      atLoopEnd := next;
      Elapse(false);
      var unsubscribed := Ask();
      if unsubscribed {
        out := Some(collected);
      }
    }

    /** The select loop. */
    method Select() returns (exit: Exit, iterations: nat)
      requires Valid() && received == 0
      modifies this
      ensures Valid() && answers == old(answers) && exit != Running
      ensures iterations <= RetainedCount(messages[..next]) + 1
      ensures exit == ByIdle ==> RetainedCount(messages[..next]) > 0 && quiet
      ensures exit == ByTotal ==> totalFired
    {
      exit, iterations := Running, 0;
      while exit == Running
        invariant Valid() && answers == old(answers)
        invariant exit == Running ==> iterations == received
        invariant exit != Running ==> iterations == received + 1
        invariant exit == ByIdle ==> received > 0 && quiet
        invariant exit == ByTotal ==> totalFired
        decreases if exit == Running then RetainedCount(messages) + 1 - received else 0
      {
        Elapse(true);
        RetainedCountPrefix(messages, next);
        assert messages[..|messages|] == messages;
        iterations := iterations + 1;
        var branch: int := *;
        if totalFired && (branch == 0 || (!activity && idle != Fired)) {
          exit := ByTotal;
        } else if activity && (branch == 1 || idle != Fired) {
          Receive();
        } else {
          assert idle == Fired;
          exit := ByIdle;
        }
      }
    }

    /** A signal is taken: the idle timer is made with the first one, and afterwards stopped, drained and
        reset. */
    method Receive()
      requires Valid() && activity
      modifies this
      ensures Valid() && next == old(next) && received == old(received) + 1 && answers == old(answers)
      ensures idle == Armed && !quiet && !activity
    {
      activity, received, quiet := false, received + 1, false;
      idle := Armed;
    }
  }
}
