/** The order that `functional_smoke` of `scripts/canary_gate.py` creates, cancels and deletes, under every
    placement of request failures. */
module CanarySmoke {
  import opened Prelude

  /** A writing request may take effect on the server and still fail for the client; a client that sees
      success knows that it took effect. */
  datatype Write = Write(applied: bool, succeeded: bool)

  predicate Honest(w: Write) {
    w.succeeded ==> w.applied
  }

  /** How the requests of one run come out. `carriesId` and `carriesNumber` say what the checkout response
      holds; `listed` whether the order search returned the order. */
  datatype Script = Script(preflight: bool, checkout: Write, carriesId: bool, carriesNumber: bool,
                           search: bool, listed: bool, cancel: Write, delete: Write)

  predicate HonestScript(s: Script) {
    Honest(s.checkout) && Honest(s.cancel) && Honest(s.delete)
  }

  datatype Effect = Created(order: nat) | Cancelled(order: nat) | Deleted(order: nat)

  /** The cleanup knows the order: the checkout answered and its response carried an id. */
  predicate Identified(s: Script) {
    s.preflight && s.checkout.succeeded && s.carriesId
  }

  class Store {
    var orders: set<nat>
    ghost var effects: seq<Effect>

    constructor (orders: set<nat>)
      ensures this.orders == orders && effects == []
    {
      this.orders := orders;
      effects := [];
    }

    method Checkout(order: nat, w: Write)
      modifies this
      ensures orders == old(orders) + (if w.applied then {order} else {})
      ensures effects == old(effects) + (if w.applied then [Created(order)] else [])
    {
      if w.applied {
        orders := orders + {order};
        effects := effects + [Created(order)];
      }
    }

    method Cancel(order: nat, w: Write)
      modifies this
      ensures orders == old(orders)
      ensures effects == old(effects) + (if w.applied then [Cancelled(order)] else [])
    {
      if w.applied {
        effects := effects + [Cancelled(order)];
      }
    }

    method Delete(order: nat, w: Write)
      modifies this
      ensures orders == old(orders) - (if w.applied then {order} else {})
      ensures effects == old(effects) + (if w.applied then [Deleted(order)] else [])
    {
      if w.applied {
        orders := orders - {order};
        effects := effects + [Deleted(order)];
      }
    }

    /** `functional_smoke`, of which `newOrder` is the order a checkout would create. Returns whether it ends
        without an error. Only the new order is ever touched; it is deleted at most once and only after its
        cancellation succeeded; and the store's orders end as they began exactly when no order was created,
        or the response carried its id, the cancellation succeeded and the deletion took effect. */
    method FunctionalSmoke(s: Script, newOrder: nat) returns (passed: bool)
      requires HonestScript(s) && newOrder !in orders
      modifies this
      ensures effects == old(effects) + RunEffects(s, newOrder)
      ensures orders == AfterEffects(old(orders), RunEffects(s, newOrder))
      ensures orders == old(orders) + (if Leaks(s) then {newOrder} else {})
      ensures orders == old(orders) <==>
              !(s.preflight && s.checkout.applied) || (Identified(s) && s.cancel.succeeded && s.delete.applied)
      ensures passed <==> && Identified(s) && s.carriesNumber && s.search && s.listed
                          && s.cancel.succeeded && s.delete.succeeded
    {
      RunLeaves(orders, s, newOrder);
      if !s.preflight {
        return false;
      }
      var orderId: Option<nat> := None;
      var cancelled := false;
      var failed := false;
      // The body of the `try`; `failed` is a pending exception.
      Checkout(newOrder, s.checkout);
      if !s.checkout.succeeded {
        failed := true;
      } else {
        orderId := if s.carriesId then Some(newOrder) else None;
        if orderId.None? || !s.carriesNumber {
          failed := true;
        } else if !s.search || !s.listed {
          failed := true;
        }
      }
      // The two nested `finally` clauses.
      if orderId.Some? {
        Cancel(orderId.value, s.cancel);
        if s.cancel.succeeded {
          cancelled := true;
        } else {
          failed := true;
        }
        if cancelled {
          Delete(orderId.value, s.delete);
          if !s.delete.succeeded {
            failed := true;
          }
        }
      }
      passed := !failed;
    }
  }

  /** What a run does on the server, in order. */
  function RunEffects(s: Script, newOrder: nat): seq<Effect> {
    (if s.preflight && s.checkout.applied then [Created(newOrder)] else [])
    + (if Identified(s) && s.cancel.applied then [Cancelled(newOrder)] else [])
    + (if Identified(s) && s.cancel.succeeded && s.delete.applied then [Deleted(newOrder)] else [])
  }

  /** Every deletion is of the order the run created, comes after its creation and its cancellation, and
      there is at most one. */
  lemma DeletionIsLast(s: Script, newOrder: nat, i: nat)
    requires HonestScript(s) && i < |RunEffects(s, newOrder)| && RunEffects(s, newOrder)[i].Deleted?
    ensures s.cancel.succeeded
    ensures RunEffects(s, newOrder) == [Created(newOrder), Cancelled(newOrder), Deleted(newOrder)] && i == 2
  {
  }

  function AfterEffect(orders: set<nat>, e: Effect): set<nat> {
    match e
    case Created(o) => orders + {o}
    case Cancelled(_) => orders
    case Deleted(o) => orders - {o}
  }

  /** The orders a store holds after these effects. */
  function AfterEffects(orders: set<nat>, effects: seq<Effect>): set<nat> {
    if effects == [] then orders
    else AfterEffect(AfterEffects(orders, effects[..|effects| - 1]), effects[|effects| - 1])
  }

  lemma AfterOneMore(orders: set<nat>, effects: seq<Effect>, more: seq<Effect>)
    requires |more| <= 1
    ensures AfterEffects(orders, effects + more)
         == if more == [] then AfterEffects(orders, effects) else AfterEffect(AfterEffects(orders, effects), more[0])
  {
    if more == [] {
      assert effects + more == effects;
    } else {
      assert (effects + more)[..|effects|] == effects;
    }
  }

  /** The run creates its order and does not delete it. */
  predicate Leaks(s: Script) {
    s.preflight && s.checkout.applied && !(Identified(s) && s.cancel.succeeded && s.delete.applied)
  }

  lemma RunLeaves(orders: set<nat>, s: Script, newOrder: nat)
    requires HonestScript(s) && newOrder !in orders
    ensures AfterEffects(orders, RunEffects(s, newOrder)) == orders + if Leaks(s) then {newOrder} else {}
  {
    var created := if s.preflight && s.checkout.applied then [Created(newOrder)] else [];
    var cancelled := if Identified(s) && s.cancel.applied then [Cancelled(newOrder)] else [];
    var deleted := if Identified(s) && s.cancel.succeeded && s.delete.applied then [Deleted(newOrder)] else [];
    assert [] + created == created;
    AfterOneMore(orders, [], created);
    AfterOneMore(orders, created, cancelled);
    AfterOneMore(orders, created + cancelled, deleted);
  }

  /** The checkout takes effect but its response is lost: nobody knows the order, and it stays. */
  lemma LostResponseLeaks(orders: set<nat>, newOrder: nat)
    requires newOrder !in orders
    ensures var lost := Write(true, false);
            var s := Script(true, lost, true, true, true, true, Write(true, true), Write(true, true));
            HonestScript(s) && AfterEffects(orders, RunEffects(s, newOrder)) == orders + {newOrder}
  {
    var s := Script(true, Write(true, false), true, true, true, true, Write(true, true), Write(true, true));
    RunLeaves(orders, s, newOrder);
  }

  /** Many runs on one store, each with its own new order. */
  datatype Run = Run(script: Script, newOrder: nat)

  ghost predicate FreshRuns(orders: set<nat>, runs: seq<Run>) {
    && (forall r :: r in runs ==> HonestScript(r.script) && r.newOrder !in orders)
    && (forall i, j :: 0 <= i < j < |runs| ==> runs[i].newOrder != runs[j].newOrder)
  }

  /** The store's orders after the effects of all the runs. */
  function OrdersAfter(orders: set<nat>, runs: seq<Run>): set<nat> {
    if runs == [] then orders
    else
      var last := runs[|runs| - 1];
      AfterEffects(OrdersAfter(orders, runs[..|runs| - 1]), RunEffects(last.script, last.newOrder))
  }

  /** Over any number of runs the store keeps its own orders and gathers exactly those of the leaking runs. */
  lemma {:induction false} OrdersAfterMeans(orders: set<nat>, runs: seq<Run>, o: nat)
    requires FreshRuns(orders, runs)
    ensures o in OrdersAfter(orders, runs)
            <==> o in orders || exists r :: r in runs && Leaks(r.script) && r.newOrder == o
  {
    if runs != [] {
      var init, last := runs[..|runs| - 1], runs[|runs| - 1];
      assert runs == init + [last];
      OrdersAfterMeans(orders, init, o);
      OrdersAfterMeans(orders, init, last.newOrder);
      assert last in runs;
      RunLeaves(OrdersAfter(orders, init), last.script, last.newOrder);
      assert forall r :: r in runs <==> r in init || r == last;
    }
  }
}
