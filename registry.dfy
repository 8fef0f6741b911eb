/**
 * `FileHandlerRegistry`: an append-only list of handler descriptors and the
 * chain-of-responsibility dispatch over it.
 */
module Registry {
  import opened Wrappers
  import opened Anchors

  /**
   * A registered descriptor: its diagnostic label (the `type` property) and
   * its two capabilities, as they were when it was registered. Both
   * capabilities are present by construction, so every descriptor the
   * registry accepts was fully capable at registration.
   */
  datatype Handler = Handler(kind: string, shouldHandle: Anchor -> bool, handle: Anchor -> bool)

  /**
   * What a caller may pass to `register`: anything that is not an object
   * (null, undefined, a primitive, a function), or an object whose
   * `shouldHandle` and `handle` properties are functions (`Some`) or
   * anything else (`None`).
   */
  datatype Candidate =
    | NotObject
    | Obj(kind: string, shouldHandle: Option<Anchor -> bool>, handle: Option<Anchor -> bool>)

  /** The two checks of `register`: the descriptor it stores, or `None` when it rejects. */
  function Validate(c: Candidate): (r: Option<Handler>)
    ensures r.Some? <==> c.Obj? && c.shouldHandle.Some? && c.handle.Some?
    ensures r.Some? ==>
      r.value.kind == c.kind && r.value.shouldHandle == c.shouldHandle.value && r.value.handle == c.handle.value
  {
    match c
    case NotObject => None
    case Obj(kind, Some(p), Some(h)) => Some(Handler(kind, p, h))
    case Obj(_, _, _) => None
  }

  /** The handler list after one `register` call. */
  function AfterRegister(hs: seq<Handler>, c: Candidate): seq<Handler> {
    match Validate(c)
    case None => hs
    case Some(h) => hs + [h]
  }

  /** The list after registering `cs` one after the other. */
  function RegisterAll(hs: seq<Handler>, cs: seq<Candidate>): seq<Handler>
    decreases |cs|
  {
    if cs == [] then hs else RegisterAll(AfterRegister(hs, cs[0]), cs[1..])
  }

  /** The descriptors of the valid candidates among `cs`, in the order given. */
  function Accepted(cs: seq<Candidate>): seq<Handler> {
    if cs == [] then []
    else (match Validate(cs[0]) case None => [] case Some(h) => [h]) + Accepted(cs[1..])
  }

  /**
   * Registration is append-only: any series of `register` calls keeps what
   * was there, in order, and adds exactly the valid candidates, in the order
   * they were registered.
   */
  lemma {:induction false} RegisterAllAppends(hs: seq<Handler>, cs: seq<Candidate>)
    ensures RegisterAll(hs, cs) == hs + Accepted(cs)
    decreases |cs|
  {
    if cs != [] {
      RegisterAllAppends(AfterRegister(hs, cs[0]), cs[1..]);
      match Validate(cs[0])
      case None =>
      case Some(h) =>
        assert hs + [h] + Accepted(cs[1..]) == hs + ([h] + Accepted(cs[1..]));
    }
  }

  /** A handler that accepts the anchor and reports success. */
  predicate Succeeds(h: Handler, a: Anchor) {
    h.shouldHandle(a) && h.handle(a)
  }

  /** No handler in `hs[lo..hi]` succeeds on `a`. */
  predicate NoSuccessIn(hs: seq<Handler>, a: Anchor, lo: nat, hi: nat)
    requires lo <= hi <= |hs|
  {
    forall m :: lo <= m < hi ==> !Succeeds(hs[m], a)
  }

  /** The outcome of `process` when the scan starts at index `i`. */
  function DispatchFrom(hs: seq<Handler>, a: Anchor, i: nat): (r: bool)
    requires i <= |hs|
    ensures r <==> exists j :: i <= j < |hs| && Succeeds(hs[j], a)
    decreases |hs| - i
  {
    if i == |hs| then false
    else if hs[i].shouldHandle(a) && hs[i].handle(a) then true
    else DispatchFrom(hs, a, i + 1)
  }

  /**
   * The outcome of `process(anchor)`: true exactly when some registered
   * handler both accepts the anchor and reports success.
   */
  function Dispatch(hs: seq<Handler>, a: Anchor): (r: bool)
    ensures r <==> exists j :: 0 <= j < |hs| && Succeeds(hs[j], a)
  {
    DispatchFrom(hs, a, 0)
  }

  /** The indices whose `handle` a scan starting at `i` invokes, in order. */
  function CallsFrom(hs: seq<Handler>, a: Anchor, i: nat): seq<nat>
    requires i <= |hs|
    decreases |hs| - i
  {
    if i == |hs| then []
    else if hs[i].shouldHandle(a) then
      if hs[i].handle(a) then [i] else [i] + CallsFrom(hs, a, i + 1)
    else CallsFrom(hs, a, i + 1)
  }

  /** The indices whose `handle` `process(anchor)` invokes, in order. */
  function Calls(hs: seq<Handler>, a: Anchor): seq<nat> {
    CallsFrom(hs, a, 0)
  }

  /**
   * What a scan from `i` invokes: in increasing index order, `handle` is
   * called on exactly those handlers whose predicate accepts the anchor and
   * that come before the first success; every call but the last reported
   * failure; and the scan succeeds exactly when the last call succeeded.
   */
  lemma {:induction false} CallsFromSpec(hs: seq<Handler>, a: Anchor, i: nat)
    requires i <= |hs|
    ensures var c := CallsFrom(hs, a, i);
      && (forall k :: 0 <= k < |c| ==> i <= c[k] < |hs| && hs[c[k]].shouldHandle(a))
      && (forall k, m :: 0 <= k < m < |c| ==> c[k] < c[m])
      && (forall j :: i <= j < |hs| ==> (j in c <==> hs[j].shouldHandle(a) && NoSuccessIn(hs, a, i, j)))
      && (forall k :: 0 <= k < |c| - 1 ==> !hs[c[k]].handle(a))
      && (DispatchFrom(hs, a, i) <==> |c| > 0 && hs[c[|c| - 1]].handle(a))
    decreases |hs| - i
  {
    if i < |hs| {
      var c := CallsFrom(hs, a, i);
      var rest := CallsFrom(hs, a, i + 1);
      CallsFromSpec(hs, a, i + 1);
      if hs[i].shouldHandle(a) && hs[i].handle(a) {
        assert c == [i];
        assert Succeeds(hs[i], a);
        forall j | i < j < |hs| ensures !NoSuccessIn(hs, a, i, j) {
          assert Succeeds(hs[i], a);
        }
      } else {
        assert !Succeeds(hs[i], a);
        assert c == if hs[i].shouldHandle(a) then [i] + rest else rest;
        forall j | i < j < |hs| ensures NoSuccessIn(hs, a, i, j) == NoSuccessIn(hs, a, i + 1, j) {
        }
      }
    }
  }

  /**
   * `process` over the whole list: `handle` is only ever invoked on handlers
   * whose predicate accepts the anchor, in registration order, never after
   * the first success, and `process` succeeds exactly when the last
   * invoked `handle` did.
   */
  lemma CallsSpec(hs: seq<Handler>, a: Anchor)
    ensures var c := Calls(hs, a);
      && (forall k :: 0 <= k < |c| ==> c[k] < |hs| && hs[c[k]].shouldHandle(a))
      && (forall k, m :: 0 <= k < m < |c| ==> c[k] < c[m])
      && (forall j :: 0 <= j < |hs| ==> (j in c <==> hs[j].shouldHandle(a) && NoSuccessIn(hs, a, 0, j)))
      && (forall k :: 0 <= k < |c| - 1 ==> !hs[c[k]].handle(a))
      && (Dispatch(hs, a) <==> |c| > 0 && hs[c[|c| - 1]].handle(a))
  {
    CallsFromSpec(hs, a, 0);
  }

  /**
   * Continue past failure: a matching handler that reports failure does not
   * end the scan. It is tried, and the first later handler that succeeds is
   * the last one tried, so `process` succeeds.
   */
  lemma ContinuePastFailure(hs: seq<Handler>, a: Anchor, i: nat, j: nat)
    requires i < j < |hs|
    requires hs[i].shouldHandle(a) && !hs[i].handle(a)
    requires Succeeds(hs[j], a) && NoSuccessIn(hs, a, 0, j)
    ensures Dispatch(hs, a)
    ensures i in Calls(hs, a) && Calls(hs, a)[|Calls(hs, a)| - 1] == j
  {
    CallsSpec(hs, a);
    assert j in Calls(hs, a);
  }

  /** When no predicate accepts the anchor, no `handle` runs and `process` fails. */
  lemma NoMatchNoCalls(hs: seq<Handler>, a: Anchor)
    requires forall j :: 0 <= j < |hs| ==> !hs[j].shouldHandle(a)
    ensures !Dispatch(hs, a) && Calls(hs, a) == []
  {
    CallsSpec(hs, a);
  }

  /**
   * Registering a handler at the end never changes what happens to an anchor
   * an earlier handler already handles: the new handler is tried only when
   * every earlier one failed and its predicate accepts the anchor.
   */
  lemma {:induction false} DispatchAppend(hs: seq<Handler>, h: Handler, a: Anchor)
    ensures Dispatch(hs + [h], a) <==> Dispatch(hs, a) || Succeeds(h, a)
    ensures Calls(hs + [h], a) ==
      Calls(hs, a) + (if !Dispatch(hs, a) && h.shouldHandle(a) then [|hs|] else [])
  {
    var ext := hs + [h];
    assert ext[|hs|] == h;
    assert forall j :: 0 <= j < |hs| ==> ext[j] == hs[j];
    CallsFromAppend(hs, h, a, 0);
  }

  lemma {:induction false} CallsFromAppend(hs: seq<Handler>, h: Handler, a: Anchor, i: nat)
    requires i <= |hs|
    ensures CallsFrom(hs + [h], a, i) ==
      CallsFrom(hs, a, i) + (if !DispatchFrom(hs, a, i) && h.shouldHandle(a) then [|hs|] else [])
    decreases |hs| - i
  {
    var ext := hs + [h];
    if i == |hs| {
      assert ext[i] == h;
      assert CallsFrom(ext, a, i + 1) == [];
    } else {
      assert ext[i] == hs[i];
      CallsFromAppend(hs, h, a, i + 1);
    }
  }

  /** The registry object: the handler list that `register` appends to. */
  class FileHandlerRegistry {
    var handlers: seq<Handler>

    constructor ()
      ensures handlers == []
    {
      handlers := [];
    }

    /**
     * `register(handler)`: a candidate that is not an object, or that lacks a
     * `shouldHandle` or `handle` function, leaves the list unchanged; a valid
     * one is appended after every earlier entry, which stay as they were.
     */
    method Register(c: Candidate)
      modifies this
      ensures Validate(c).None? ==> handlers == old(handlers)
      ensures Validate(c).Some? ==>
        && |handlers| == |old(handlers)| + 1
        && handlers[..|old(handlers)|] == old(handlers)
        && handlers[|old(handlers)|] == Validate(c).value
      ensures handlers == AfterRegister(old(handlers), c)
    {
      match Validate(c)
      case None =>
      case Some(h) =>
        handlers := handlers + [h];
    }

    /**
     * `process(anchor)`: scans the handlers in registration order, invoking
     * `handle` on those whose `shouldHandle` accepts the anchor, and stops at
     * the first success. `calls` records, for the proof only, the indices
     * whose `handle` was invoked.
     */
    method Process(a: Anchor) returns (handled: bool, ghost calls: seq<nat>)
      ensures handled == Dispatch(handlers, a)
      ensures calls == Calls(handlers, a)
    {
      calls := [];
      var i := 0;
      while i < |handlers|
        invariant i <= |handlers|
        invariant Calls(handlers, a) == calls + CallsFrom(handlers, a, i)
        invariant Dispatch(handlers, a) == DispatchFrom(handlers, a, i)
      {
        var h := handlers[i];
        if h.shouldHandle(a) {
          calls := calls + [i];
          if h.handle(a) {
            return true, calls;
          }
        }
        i := i + 1;
      }
      return false, calls;
    }
  }
}
