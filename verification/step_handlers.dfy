/** Step-handler bookkeeping. The enhanced integrator keeps no list of its
    own: it adds its handlers to the underlying integrator's list wrapped in
    a private wrapper class, and recognises them there by that class. The
    list may also hold handlers that were added to the underlying integrator
    directly. */
module StepHandlers {

  /** An entry of the underlying integrator's handler list: a handler with
      Jacobians in this class's wrapper, or any other handler. */
  datatype Handler<J, R> = Wrapped(handler: J) | Raw(raw: R)

  /** The handlers with Jacobians inside the wrapped entries, in list order. */
  function Unwrapped<J, R>(hs: seq<Handler<J, R>>): seq<J> {
    if |hs| == 0 then []
    else (if hs[0].Wrapped? then [hs[0].handler] else []) + Unwrapped(hs[1..])
  }

  /** The entries that are not wrappers, in list order. */
  function Others<J, R>(hs: seq<Handler<J, R>>): seq<Handler<J, R>> {
    if |hs| == 0 then []
    else (if hs[0].Raw? then [hs[0]] else []) + Others(hs[1..])
  }

  lemma {:induction false} UnwrappedAppend<J, R>(a: seq<Handler<J, R>>, b: seq<Handler<J, R>>)
    ensures Unwrapped(a + b) == Unwrapped(a) + Unwrapped(b)
    decreases |a|
  {
    if |a| > 0 {
      assert (a + b)[1..] == a[1..] + b;
      UnwrappedAppend(a[1..], b);
    } else {
      assert a + b == b;
    }
  }

  lemma {:induction false} OthersAppend<J, R>(a: seq<Handler<J, R>>, b: seq<Handler<J, R>>)
    ensures Others(a + b) == Others(a) + Others(b)
    decreases |a|
  {
    if |a| > 0 {
      assert (a + b)[1..] == a[1..] + b;
      OthersAppend(a[1..], b);
    } else {
      assert a + b == b;
    }
  }

  /** addStepHandler: the handler goes, wrapped, to the end of the list. */
  function AddStepHandler<J, R>(hs: seq<Handler<J, R>>, h: J): (r: seq<Handler<J, R>>)
    ensures |r| == |hs| + 1 && r[..|hs|] == hs && r[|hs|] == Wrapped(h)
  {
    hs + [Wrapped(h)]
  }

  /** getStepHandlers: walk the list and collect the handler inside every wrapper. */
  method GetStepHandlers<J, R>(hs: seq<Handler<J, R>>) returns (handlers: seq<J>)
    ensures handlers == Unwrapped(hs)
  {
    handlers := [];
    var i := 0;
    while i < |hs|
      invariant 0 <= i <= |hs|
      invariant handlers == Unwrapped(hs[..i])
    {
      assert hs[..i + 1] == hs[..i] + [hs[i]];
      UnwrappedAppend(hs[..i], [hs[i]]);
      if hs[i].Wrapped? {
        handlers := handlers + [hs[i].handler];
      }
      i := i + 1;
    }
    assert hs[..i] == hs;
  }

  /** The first loop of clearStepHandlers: collect the entries that are not wrappers. */
  method CollectOthers<J, R>(hs: seq<Handler<J, R>>) returns (others: seq<Handler<J, R>>)
    ensures others == Others(hs)
  {
    others := [];
    var i := 0;
    while i < |hs|
      invariant 0 <= i <= |hs|
      invariant others == Others(hs[..i])
    {
      assert hs[..i + 1] == hs[..i] + [hs[i]];
      OthersAppend(hs[..i], [hs[i]]);
      if !hs[i].Wrapped? {
        others := others + [hs[i]];
      }
      i := i + 1;
    }
    assert hs[..i] == hs;
  }

  /** The second loop of clearStepHandlers: add the collected entries, one by
      one and in order, to the cleared list. */
  method AddBack<J, R>(others: seq<Handler<J, R>>) returns (after: seq<Handler<J, R>>)
    ensures after == others
  {
    after := [];
    var i := 0;
    while i < |others|
      invariant 0 <= i <= |others|
      invariant after == others[..i]
    {
      assert others[..i + 1] == others[..i] + [others[i]];
      after := after + [others[i]];
      i := i + 1;
    }
    assert others[..i] == others;
  }

  /** clearStepHandlers: collect the entries that are not wrappers, clear the
      list, and add the collected entries back one by one. */
  method ClearStepHandlers<J, R>(hs: seq<Handler<J, R>>) returns (after: seq<Handler<J, R>>)
    ensures after == Others(hs)
  {
    var others := CollectOthers(hs);
    after := AddBack(others);
  }

  // ---------------------------------------------------------------------
  // What the three operations promise together.

  /** A handler added through the enhanced integrator is returned last by getStepHandlers. */
  lemma {:induction false} GetAfterAdd<J, R>(hs: seq<Handler<J, R>>, h: J)
    ensures Unwrapped(AddStepHandler(hs, h)) == Unwrapped(hs) + [h]
  {
    UnwrappedAppend(hs, [Wrapped(h)]);
  }

  /** Clearing removes what the enhanced integrator added and nothing else. */
  lemma {:induction false} ClearAfterAdd<J, R>(hs: seq<Handler<J, R>>, h: J)
    ensures Others(AddStepHandler(hs, h)) == Others(hs)
  {
    OthersAppend(hs, [Wrapped(h)]);
  }

  /** A handler added to the underlying integrator directly survives clearing, at the end. */
  lemma {:induction false} ClearKeepsDirectAdd<J, R>(hs: seq<Handler<J, R>>, r: R)
    ensures Others(hs + [Raw(r)]) == Others(hs) + [Raw(r)]
  {
    OthersAppend(hs, [Raw(r)]);
  }

  /** After clearing, getStepHandlers returns nothing. */
  lemma {:induction false} GetAfterClear<J, R>(hs: seq<Handler<J, R>>)
    ensures Unwrapped(Others(hs)) == []
    decreases |hs|
  {
    if |hs| > 0 {
      GetAfterClear(hs[1..]);
      UnwrappedAppend(if hs[0].Raw? then [hs[0]] else [], Others(hs[1..]));
    }
  }

  /** Clearing twice is clearing once. */
  lemma {:induction false} ClearIdempotent<J, R>(hs: seq<Handler<J, R>>)
    ensures Others(Others(hs)) == Others(hs)
    decreases |hs|
  {
    if |hs| > 0 {
      ClearIdempotent(hs[1..]);
      OthersAppend(if hs[0].Raw? then [hs[0]] else [], Others(hs[1..]));
    }
  }

  /** After clearing, the list holds exactly the entries that were not
      wrappers, and every entry of the list is either returned unwrapped by
      getStepHandlers or kept by clearStepHandlers. */
  lemma {:induction false} ClearPartitions<J, R>(hs: seq<Handler<J, R>>)
    ensures forall x :: x in Others(hs) <==> x in hs && x.Raw?
    ensures forall h :: h in Unwrapped(hs) <==> Wrapped(h) in hs
    ensures |Unwrapped(hs)| + |Others(hs)| == |hs|
    decreases |hs|
  {
    if |hs| > 0 {
      ClearPartitions(hs[1..]);
      assert hs == [hs[0]] + hs[1..];
    }
  }
}
