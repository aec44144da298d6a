/**
 * Four client methods of the registry and the broadcaster, verified
 * against the contracts alone.
 */
module Scenarios {
  import opened CowList
  import opened Sse

  /** Three subscribers; the delivery to the third fails. The first two stay
      registered, and each of the three got exactly one attempt, in order. */
  method ThreeSubscribersOneFails()
  {
    var c := new SseController();
    var a := c.Handle();
    var b := c.Handle();
    var d := c.Handle();
    assert c.emitters == [a, b, d];
    var sendOk := x => x != d;
    var evicted := c.OnNewEvent("E1", sendOk);
    assert a != d && b != d;
    assert [a, b, d][1..] == [b, d] && [b, d][1..] == [d] && [d][1..] == [];
    assert Select([d], sendOk, true) == [] && Select([d], sendOk, false) == [d];
    assert c.emitters == [a, b];
    assert evicted == [d];
    assert Attempts([d], "E1") == [Attempt(d, "E1")];
    assert c.attempts == [Attempt(a, "E1"), Attempt(b, "E1"), Attempt(d, "E1")];
  }

  /** A subscriber receives one event, completes, and is not attempted again;
      a second completion (or a timeout after it) changes nothing. */
  method NoDeliveryAfterRemoval()
  {
    var c := new SseController();
    var a := c.Handle();
    var _ := c.OnNewEvent("E1", x => true);
    assert c.emitters == [a];
    c.OnCompletion(a);
    assert c.emitters == [];
    c.OnTimeout(a);
    assert c.emitters == [];
    var _ := c.OnNewEvent("E2", x => true);
    assert c.attempts == [Attempt(a, "E1")];
  }

  /** An error callback does not evict; the next failed delivery does. */
  method ErrorThenFailedDelivery()
  {
    var c := new SseController();
    var a := c.Handle();
    var b := c.Handle();
    c.OnError(a);
    assert c.emitters == [a, b];
    var _ := c.OnNewEvent("E1", x => x != a);
    assert [a, b][1..] == [b];
    assert c.emitters == [b];
  }

  /** An error callback does not evict; a later completion does. */
  method ErrorThenCompletion()
  {
    var c := new SseController();
    var a := c.Handle();
    c.OnError(a);
    assert a in c.emitters;
    c.OnCompletion(a);
    assert a !in c.emitters;
  }
}
