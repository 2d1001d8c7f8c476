/** Sending the new-signup notice to every administrator. The send itself is outside
    the model; which admins cannot be reached is a parameter. */
module Notify {

  /** One `send_message` attempt and whether it went through. */
  datatype Delivery = Delivery(admin: int, delivered: bool)

  /** The current revision: every send is wrapped in its own `try`, so a failure is
      logged and the loop carries on with the next admin. */
  function NotifyEach(admins: seq<int>, unreachable: set<int>): (r: seq<Delivery>)
    ensures |r| == |admins|
    ensures forall k :: 0 <= k < |r| ==> r[k].admin == admins[k]
    ensures forall k :: 0 <= k < |r| ==> (r[k].delivered <==> admins[k] !in unreachable)
  {
    if admins == [] then []
    else [Delivery(admins[0], admins[0] !in unreachable)] + NotifyEach(admins[1..], unreachable)
  }

  /** The older revision: a plain loop with no `try`, so the first failing send raises
      and nobody after it is contacted. `raised` says whether that happened. */
  function NotifyUntilFailure(admins: seq<int>, unreachable: set<int>): (r: (seq<Delivery>, bool))
    ensures r.1 <==> exists a :: a in admins && a in unreachable
  {
    if admins == [] then ([], false)
    else if admins[0] in unreachable then ([Delivery(admins[0], false)], true)
    else
      UnreachableInTail(admins, unreachable);
      var rest := NotifyUntilFailure(admins[1..], unreachable);
      ([Delivery(admins[0], true)] + rest.0, rest.1)
  }

  /** The older loop stops right after the first failed send: every attempt before it
      went through, and without a failure every admin was tried. */
  lemma {:induction false} UntilFailureStops(admins: seq<int>, unreachable: set<int>)
    ensures var r := NotifyUntilFailure(admins, unreachable);
            && (r.1 ==> |r.0| > 0 && !r.0[|r.0| - 1].delivered)
            && (!r.1 ==> |r.0| == |admins|)
            && (forall k :: 0 <= k < |r.0| - 1 ==> r.0[k].delivered)
  {
    if admins != [] && admins[0] !in unreachable {
      var rest := NotifyUntilFailure(admins[1..], unreachable);
      UntilFailureStops(admins[1..], unreachable);
      var r := NotifyUntilFailure(admins, unreachable);
      assert r.0 == [Delivery(admins[0], true)] + rest.0;
      assert forall k :: 0 < k < |r.0| ==> r.0[k] == rest.0[k - 1];
    }
  }

  /** When the first administrator is reachable, an unreachable one is among the rest. */
  lemma UnreachableInTail(admins: seq<int>, unreachable: set<int>)
    requires admins != [] && admins[0] !in unreachable
    ensures (exists a :: a in admins && a in unreachable) <==> (exists a :: a in admins[1..] && a in unreachable)
  {
    if a :| a in admins[1..] && a in unreachable {
      assert a in admins;
    }
    if a :| a in admins && a in unreachable {
      assert a != admins[0];
      assert a in admins[1..];
    }
  }

  /** The older loop performs a prefix of the current loop's attempts, all of them when
      no send fails. */
  lemma {:induction false} UntilFailureIsPrefix(admins: seq<int>, unreachable: set<int>)
    ensures NotifyUntilFailure(admins, unreachable).0 <= NotifyEach(admins, unreachable)
    ensures !NotifyUntilFailure(admins, unreachable).1 ==>
              NotifyUntilFailure(admins, unreachable).0 == NotifyEach(admins, unreachable)
  {
    if admins != [] {
      UntilFailureIsPrefix(admins[1..], unreachable);
    }
  }

  /** In the current revision an unreachable admin costs only their own notice. */
  lemma EveryReachableAdminNotified(admins: seq<int>, unreachable: set<int>, a: int)
    requires a in admins && a !in unreachable
    ensures Delivery(a, true) in NotifyEach(admins, unreachable)
  {
    var k :| 0 <= k < |admins| && admins[k] == a;
    assert NotifyEach(admins, unreachable)[k] == Delivery(a, true);
  }
}
