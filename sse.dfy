/**
 * The server-sent-events side: the registry of live subscriber handles, its
 * registration and deregistration callbacks, and the fan-out broadcaster
 * that evicts the handles whose delivery failed.
 *
 * Everything runs on one thread here. The broadcast iterates over a
 * snapshot of the registry taken when it starts, as the copy-on-write list
 * does, and no other operation interleaves with it.
 */
module Sse {
  import opened CowList

  /** A subscriber handle (`SseEmitter`). Handles are compared by identity. */
  class Emitter {
    constructor ()
    {
    }
  }

  /** One delivery attempt: the handle it was made on and the payload it carried. */
  datatype Attempt = Attempt(target: Emitter, payload: string)

  /** The attempts a broadcast of `payload` makes over `targets`, in order. */
  function Attempts(targets: seq<Emitter>, payload: string): (r: seq<Attempt>)
  {
    if targets == [] then [] else [Attempt(targets[0], payload)] + Attempts(targets[1..], payload)
  }

  /** Exactly one attempt per handle of the snapshot, in the snapshot's order,
      all carrying the same payload; whatever the outcomes, none is skipped. */
  lemma {:induction false} AttemptsAt(targets: seq<Emitter>, payload: string)
    ensures |Attempts(targets, payload)| == |targets|
    ensures forall k :: 0 <= k < |targets| ==> Attempts(targets, payload)[k] == Attempt(targets[k], payload)
  {
    if targets != [] {
      AttemptsAt(targets[1..], payload);
    }
  }

  /** A handle absent from the snapshot gets no attempt. */
  lemma NoAttemptOutside(targets: seq<Emitter>, payload: string, e: Emitter)
    requires e !in targets
    ensures forall a :: a in Attempts(targets, payload) ==> a.target != e
  {
    AttemptsAt(targets, payload);
  }

  /** One more loop step logs one more attempt, at the end. */
  lemma {:induction false} AttemptsAppend(targets: seq<Emitter>, e: Emitter, payload: string)
    ensures Attempts(targets + [e], payload) == Attempts(targets, payload) + [Attempt(e, payload)]
  {
    if targets == [] {
      assert [e][1..] == [];
    } else {
      assert (targets + [e])[1..] == targets[1..] + [e];
      AttemptsAppend(targets[1..], e, payload);
    }
  }

  /**
   * `SseController` together with the `EventController` it extends: the
   * registry field `emitters` and the operations on it.
   * `attempts` is a ghost log of every delivery attempt made so far.
   */
  class SseController {
    var emitters: seq<Emitter>
    ghost var attempts: seq<Attempt>

    /** Every handle is registered at most once. Each new handle is fresh,
        so this holds from construction on. */
    ghost predicate Valid()
      reads this
    {
      Distinct(emitters)
    }

    constructor ()
      ensures Valid()
      ensures emitters == [] && attempts == []
    {
      emitters := [];
      attempts := [];
    }

    /** A client subscribes: a new handle is created and appended to the
        registry; its completion, timeout and error callbacks are the methods
        `OnCompletion`, `OnTimeout` and `OnError` below, called with it. */
    method Handle() returns (e: Emitter)
      requires Valid()
      modifies this
      ensures Valid()
      ensures fresh(e)
      ensures emitters == old(emitters) + [e]
      ensures attempts == old(attempts)
    {
      e := new Emitter();
      AppendDistinct(emitters, e);
      emitters := emitters + [e];
    }

    /** `emitters.remove(e)`: the first occurrence of e goes, if there is one. */
    method Remove(e: Emitter)
      requires Valid()
      modifies this
      ensures Valid()
      ensures emitters == RemoveFirst(old(emitters), e)
      ensures forall x :: x in emitters <==> x in old(emitters) && x != e
      ensures e !in old(emitters) ==> emitters == old(emitters)
      ensures attempts == old(attempts)
    {
      RemoveFirstDistinct(emitters, e);
      emitters := RemoveFirst(emitters, e);
    }

    /** The completion callback wired to e by `Handle`. */
    method OnCompletion(e: Emitter)
      requires Valid()
      modifies this
      ensures Valid()
      ensures emitters == RemoveFirst(old(emitters), e)
      ensures e !in emitters
      ensures attempts == old(attempts)
    {
      Remove(e);
    }

    /** The timeout callback wired to e by `Handle`. */
    method OnTimeout(e: Emitter)
      requires Valid()
      modifies this
      ensures Valid()
      ensures emitters == RemoveFirst(old(emitters), e)
      ensures e !in emitters
      ensures attempts == old(attempts)
    {
      Remove(e);
    }

    /** The error callback wired to e by `Handle`: it only logs, so e
        stays registered until a failed delivery, a completion or a timeout
        removes it. */
    method OnError(e: Emitter)
      ensures emitters == old(emitters)
      ensures attempts == old(attempts)
    {
    }

    /** The `try { emitter.send(payload) } catch` step: one attempt on e,
        whose outcome the oracle `sendOk` gives. A failure is reported as
        `false`, never raised. */
    method TrySend(e: Emitter, payload: string, sendOk: Emitter -> bool) returns (ok: bool)
      modifies this`attempts
      ensures ok == sendOk(e)
      ensures attempts == old(attempts) + [Attempt(e, payload)]
    {
      attempts := attempts + [Attempt(e, payload)];
      ok := sendOk(e);
    }

    /**
     * `onNewEvent(payload)`: one attempt on every handle of the snapshot,
     * failures collected in a local list, then `removeAll` of that list.
     * `evicted` reports the local list of dead handles.
     */
    method OnNewEvent(payload: string, sendOk: Emitter -> bool) returns (ghost evicted: seq<Emitter>)
      requires Valid()
      modifies this
      ensures Valid()
      ensures emitters == Select(old(emitters), sendOk, true)
      ensures evicted == Select(old(emitters), sendOk, false)
      ensures forall x :: x in emitters <==> x in old(emitters) && sendOk(x)
      ensures IsSubsequence(emitters, old(emitters))
      ensures attempts == old(attempts) + Attempts(old(emitters), payload)
    {
      var snapshot := emitters;
      var dead: seq<Emitter> := [];
      var i := 0;
      while i < |snapshot|
        invariant 0 <= i <= |snapshot|
        invariant emitters == snapshot
        invariant dead == Select(snapshot[..i], sendOk, false)
        invariant attempts == old(attempts) + Attempts(snapshot[..i], payload)
      {
        var e := snapshot[i];
        var ok := TrySend(e, payload, sendOk);
        if !ok {
          dead := dead + [e];
        }
        assert snapshot[..i + 1] == snapshot[..i] + [e];
        SelectAppend(snapshot[..i], e, sendOk, false);
        AttemptsAppend(snapshot[..i], e, payload);
        i := i + 1;
      }
      assert snapshot[..i] == snapshot;
      RemoveFailed(emitters, sendOk);
      SelectIsSubsequence(emitters, sendOk, true);
      SelectDistinct(emitters, sendOk, true);
      emitters := RemoveAll(emitters, dead);
      evicted := dead;
    }
  }
}
