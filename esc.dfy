/** The `esc` service: one-shot Escape-key and outside-click listeners on the document,
    each returning a function that unregisters it, optionally tied to a scope's
    `$destroy`. */
module Esc {
  import opened Dom
  import opened Keys

  /** An event as the document delivers it: a keydown (its `which`, `keyCode` and the
      `nodeName` of its target) or a click (its target, in the tree it sits in). */
  datatype Event =
    | Keydown(which: int, keyCode: int, targetName: string)
    | Click(tree: Tree, target: NodeId)
  {
    /** The event name a listener is registered under. */
    function Name(): string {
      if Keydown? then "keydown" else "click"
    }
  }

  /** What a handler closure captured: the Escape filter of `key`, or the outside-click
      filter of `click` with its (already unwrapped) boundary element. */
  datatype Filter = EscapeKey | OutsideClick(boundary: Boundary)

  /** One entry of the document's listener registry: an event name and a handler. */
  datatype Listener = Listener(event: string, handler: Handler)

  /** The handlers that have an entry in `ls`. */
  function Handlers(ls: seq<Listener>): set<Handler> {
    set l | l in ls :: l.handler
  }

  /** No handler is registered twice. */
  predicate Distinct(ls: seq<Listener>)
    decreases |ls|
  {
    ls == [] || (ls[0].handler !in Handlers(ls[1..]) && Distinct(ls[1..]))
  }

  /** The handlers of a concatenation are those of its parts. */
  lemma HandlersConcat(a: seq<Listener>, b: seq<Listener>)
    ensures Handlers(a + b) == Handlers(a) + Handlers(b)
  {
    forall h | h in Handlers(a + b)
      ensures h in Handlers(a) + Handlers(b)
    {
      var l :| l in a + b && l.handler == h;
    }
  }

  /** The handlers of a non-empty registry: the first entry's and the rest's. */
  lemma HandlersCons(ls: seq<Listener>)
    requires ls != []
    ensures Handlers(ls) == {ls[0].handler} + Handlers(ls[1..])
  {
    assert ls == [ls[0]] + ls[1..];
    HandlersConcat([ls[0]], ls[1..]);
  }

  /** A concatenation has no repeated handler exactly when neither part has one and no
      handler is in both. */
  lemma {:induction false} DistinctConcat(a: seq<Listener>, b: seq<Listener>)
    ensures Distinct(a + b) <==> Distinct(a) && Distinct(b) && Handlers(a) !! Handlers(b)
    decreases |a|
  {
    if a == [] {
      assert a + b == b;
    } else {
      assert (a + b)[1..] == a[1..] + b;
      DistinctConcat(a[1..], b);
      HandlersConcat(a[1..], b);
      assert a == [a[0]] + a[1..];
      HandlersConcat([a[0]], a[1..]);
    }
  }

  /** Two different positions of a registry without repeated handlers hold different
      handlers. */
  lemma {:induction false} DistinctAt(ls: seq<Listener>, i: int, j: int)
    requires Distinct(ls) && 0 <= i < |ls| && 0 <= j < |ls| && i != j
    ensures ls[i].handler != ls[j].handler
    decreases |ls|
  {
    if i == 0 {
      assert ls[1..][j - 1] == ls[j];
    } else if j == 0 {
      assert ls[1..][i - 1] == ls[i];
    } else {
      DistinctAt(ls[1..], i - 1, j - 1);
    }
  }

  /** The registry after `off(event, handler)`: every entry equal to `x` is gone, every
      other entry stays, in order. */
  function Without(ls: seq<Listener>, x: Listener): (r: seq<Listener>)
    ensures x !in ls ==> r == ls
  {
    if ls == [] then []
    else (if ls[0] == x then [] else [ls[0]]) + Without(ls[1..], x)
  }

  /** `off` removes exactly the entries equal to `x`. */
  lemma {:induction false} WithoutMember(ls: seq<Listener>, x: Listener, l: Listener)
    ensures l in Without(ls, x) <==> l in ls && l != x
  {
    if ls != [] {
      WithoutMember(ls[1..], x, l);
      assert ls == [ls[0]] + ls[1..];
    }
  }

  /** `off` adds no handler, and so never makes a handler appear twice. */
  lemma {:induction false} WithoutHandlers(ls: seq<Listener>, x: Listener)
    ensures Handlers(Without(ls, x)) <= Handlers(ls)
    ensures Distinct(ls) ==> Distinct(Without(ls, x))
  {
    if ls != [] {
      var rest := Without(ls[1..], x);
      WithoutHandlers(ls[1..], x);
      HandlersCons(ls);
      if ls[0] != x {
        assert ([ls[0]] + rest)[0] == ls[0] && ([ls[0]] + rest)[1..] == rest;
        HandlersCons([ls[0]] + rest);
      } else {
        assert [] + rest == rest;
      }
    }
  }

  /** Splitting off the head of a non-empty left operand of a concatenation. */
  lemma ConsConcat<T>(a: seq<T>, b: seq<T>)
    requires a != []
    ensures a + b == [a[0]] + (a[1..] + b)
  {
  }

  /** Removing an entry that occurs exactly once, between entries that differ from it,
      leaves the entries around it together. */
  lemma {:induction false} WithoutSplit(a: seq<Listener>, x: Listener, b: seq<Listener>)
    requires x !in a && x !in b
    ensures Without(a + [x] + b, x) == a + b
    decreases |a|
  {
    var ls := a + [x] + b;
    if a == [] {
      assert ls[0] == x && ls[1..] == b;
    } else {
      assert ls[0] == a[0] && ls[1..] == a[1..] + [x] + b;
      WithoutSplit(a[1..], x, b);
      ConsConcat(a, b);
    }
  }

  /** Some event in `evs` makes `h` run its callback. */
  predicate AnyFires(h: Handler, evs: seq<Event>)
    decreases |evs|
  {
    |evs| > 0 && (AnyFires(h, evs[..|evs| - 1]) || h.Fires(evs[|evs| - 1]))
  }

  /** The entries still registered after `evs` were delivered: those whose handler fired on
      none of them. */
  function Unfired(ls: seq<Listener>, evs: seq<Event>): seq<Listener>
  {
    if ls == [] then []
    else (if AnyFires(ls[0].handler, evs) then [] else [ls[0]]) + Unfired(ls[1..], evs)
  }

  /** The entries left after `evs` are exactly those whose handler none of them fired. */
  lemma {:induction false} UnfiredMember(ls: seq<Listener>, evs: seq<Event>, l: Listener)
    ensures l in Unfired(ls, evs) <==> l in ls && !AnyFires(l.handler, evs)
  {
    if ls != [] {
      UnfiredMember(ls[1..], evs, l);
      assert ls == [ls[0]] + ls[1..];
    }
  }

  /** Delivery adds no handler, keeps none that fired, and so never makes a handler appear
      twice. */
  lemma {:induction false} UnfiredHandlers(ls: seq<Listener>, evs: seq<Event>)
    ensures Handlers(Unfired(ls, evs)) <= Handlers(ls)
    ensures forall h :: h in Handlers(Unfired(ls, evs)) ==> !AnyFires(h, evs)
    ensures Distinct(ls) ==> Distinct(Unfired(ls, evs))
  {
    if ls != [] {
      var rest := Unfired(ls[1..], evs);
      UnfiredHandlers(ls[1..], evs);
      HandlersCons(ls);
      if !AnyFires(ls[0].handler, evs) {
        assert ([ls[0]] + rest)[0] == ls[0] && ([ls[0]] + rest)[1..] == rest;
        HandlersCons([ls[0]] + rest);
      } else {
        assert [] + rest == rest;
      }
    }
  }

  /** One event fires `h` exactly when that event does. */
  lemma AnyFiresOne(h: Handler, e: Event)
    ensures AnyFires(h, [e]) <==> h.Fires(e)
  {
    assert [e][..0] == [];
  }

  /** A handler fired by `evs + [e]` was fired by `evs` or by `e`. */
  lemma AnyFiresSnoc(h: Handler, evs: seq<Event>, e: Event)
    ensures AnyFires(h, evs + [e]) <==> AnyFires(h, evs) || h.Fires(e)
  {
    assert (evs + [e])[..|evs|] == evs;
  }

  /** `h` fired on the sequence exactly when it fired on one of its events. */
  lemma {:induction false} AnyFiresSome(h: Handler, evs: seq<Event>)
    ensures AnyFires(h, evs) <==> exists i :: 0 <= i < |evs| && h.Fires(evs[i])
    decreases |evs|
  {
    if evs != [] {
      var n := |evs| - 1;
      var init := evs[..n];
      AnyFiresSome(h, init);
      if AnyFires(h, evs) && !h.Fires(evs[n]) {
        var i :| 0 <= i < |init| && h.Fires(init[i]);
        assert evs[i] == init[i];
      }
      if exists i :: 0 <= i < |evs| && h.Fires(evs[i]) {
        var i :| 0 <= i < |evs| && h.Fires(evs[i]);
        if i < n {
          assert init[i] == evs[i];
        }
      }
    }
  }

  /** Filtering two registries one after the other. */
  lemma {:induction false} UnfiredConcat(a: seq<Listener>, b: seq<Listener>, evs: seq<Event>)
    ensures Unfired(a + b, evs) == Unfired(a, evs) + Unfired(b, evs)
  {
    if a == [] {
      assert a + b == b;
    } else {
      var head := if AnyFires(a[0].handler, evs) then [] else [a[0]];
      var rest, tail := Unfired(a[1..], evs), Unfired(b, evs);
      assert (a + b)[0] == a[0] && (a + b)[1..] == a[1..] + b;
      UnfiredConcat(a[1..], b, evs);
      assert head + (rest + tail) == (head + rest) + tail;
    }
  }

  /** Delivering one more event removes the handlers it fires: the entries left after
      `evs` and then `e` are those left after `evs + [e]`. */
  lemma {:induction false} UnfiredStep(ls: seq<Listener>, evs: seq<Event>, e: Event)
    ensures Unfired(Unfired(ls, evs), [e]) == Unfired(ls, evs + [e])
  {
    if ls != [] {
      var y := ls[0];
      var head := if AnyFires(y.handler, evs) then [] else [y];
      assert Unfired(ls, evs) == head + Unfired(ls[1..], evs);
      UnfiredConcat(head, Unfired(ls[1..], evs), [e]);
      UnfiredStep(ls[1..], evs, e);
      AnyFiresSnoc(y.handler, evs, e);
      AnyFiresOne(y.handler, e);
      assert Unfired(head, [e]) == if AnyFires(y.handler, evs + [e]) then [] else [y];
    }
  }

  /** Delivering the events of `evs` one at a time: after the first `k` of them and then
      event `k`, the registry is the one after the first `k + 1`. */
  lemma NextEvent(ls: seq<Listener>, evs: seq<Event>, k: int)
    requires 0 <= k < |evs|
    ensures Unfired(Unfired(ls, evs[..k]), [evs[k]]) == Unfired(ls, evs[..k + 1])
  {
    assert evs[..k + 1] == evs[..k] + [evs[k]];
    UnfiredStep(ls, evs[..k], evs[k]);
  }

  /** With no event delivered, nothing has fired. */
  lemma {:induction false} UnfiredNone(ls: seq<Listener>)
    ensures Unfired(ls, []) == ls
  {
    if ls != [] {
      UnfiredNone(ls[1..]);
      assert ls == [ls[0]] + ls[1..];
    }
  }

  /** The entry `l` keeps its place among the kept entries exactly when its handler does
      not fire. */
  lemma UnfiredSnoc(done: seq<Listener>, l: Listener, ev: Event)
    ensures Unfired(done + [l], [ev]) == Unfired(done, [ev]) + (if l.handler.Fires(ev) then [] else [l])
  {
    UnfiredConcat(done, [l], [ev]);
    AnyFiresOne(l.handler, ev);
    assert Unfired([l], [ev]) == (if AnyFires(l.handler, [ev]) then [] else [l]) + Unfired([], [ev]);
  }

  /** In a registry without repeated handlers, the entry at position `i` occurs nowhere
      else. */
  lemma OccursOnce(s: seq<Listener>, i: int)
    requires Distinct(s) && 0 <= i < |s|
    ensures s[i] !in s[..i] && s[i] !in s[i + 1..]
  {
    forall k | 0 <= k < |s| && k != i
      ensures s[k] != s[i]
    {
      DistinctAt(s, k, i);
    }
  }

  /** Delivering `ev` to the entry at position `i` of the registry `s` as it stood when
      the event arrived, while the entries before it have been served and the ones after
      it not yet: the entry is still registered, and the registry afterwards is that of
      the next position, by removing the entry when its handler fires and unchanged
      otherwise. */
  lemma DeliverStep(s: seq<Listener>, i: int, ev: Event)
    requires 0 <= i < |s| && s[i] !in s[..i] && s[i] !in s[i + 1..]
    ensures s[i] in Unfired(s[..i], [ev]) + s[i..]
    ensures s[i].handler.Fires(ev) ==>
              Without(Unfired(s[..i], [ev]) + s[i..], s[i]) == Unfired(s[..i + 1], [ev]) + s[i + 1..]
    ensures !s[i].handler.Fires(ev) ==>
              Unfired(s[..i], [ev]) + s[i..] == Unfired(s[..i + 1], [ev]) + s[i + 1..]
  {
    var done, l, rest := s[..i], s[i], s[i + 1..];
    var kept := Unfired(done, [ev]);
    assert s[i..] == [l] + rest;
    assert s[..i + 1] == done + [l];
    assert (kept + s[i..])[|kept|] == l;
    UnfiredSnoc(done, l, ev);
    if l.handler.Fires(ev) {
      UnfiredMember(done, [ev], l);
      WithoutSplit(kept, l, rest);
      assert kept + s[i..] == kept + [l] + rest;
      assert kept + [] == kept;
    } else {
      assert kept + s[i..] == (kept + [l]) + rest;
    }
  }

  /** The handlers whose callbacks run when `ev` is delivered to the entries `ls`, in
      order. */
  function FiredBy(ls: seq<Listener>, ev: Event): seq<Handler> {
    if ls == [] then []
    else (if ls[0].handler.Fires(ev) then [ls[0].handler] else []) + FiredBy(ls[1..], ev)
  }

  /** Serving one more entry adds its handler when that handler fires. */
  lemma {:induction false} FiredBySnoc(done: seq<Listener>, l: Listener, ev: Event)
    ensures FiredBy(done + [l], ev) == FiredBy(done, ev) + (if l.handler.Fires(ev) then [l.handler] else [])
  {
    var step := if l.handler.Fires(ev) then [l.handler] else [];
    if done == [] {
      assert done + [l] == [l];
      assert FiredBy([l], ev) == step + FiredBy([], ev);
    } else {
      var head := if done[0].handler.Fires(ev) then [done[0].handler] else [];
      var rest := done[1..];
      assert (done + [l])[0] == done[0] && (done + [l])[1..] == rest + [l];
      FiredBySnoc(rest, l, ev);
      assert FiredBy(done + [l], ev) == head + (FiredBy(rest, ev) + step);
      assert FiredBy(done, ev) == head + FiredBy(rest, ev);
    }
  }

  /** Serving the entry at position `i` after those before it. */
  lemma FiredByNext(s: seq<Listener>, i: int, ev: Event)
    requires 0 <= i < |s|
    ensures FiredBy(s[..i + 1], ev) == FiredBy(s[..i], ev) + (if s[i].handler.Fires(ev) then [s[i].handler] else [])
  {
    assert s[..i + 1] == s[..i] + [s[i]];
    FiredBySnoc(s[..i], s[i], ev);
  }

  /** The trace after serving entry `i` extends the trace after the entries before it. */
  lemma ServedNext(before: seq<Handler>, s: seq<Listener>, i: int, ev: Event, trace: seq<Handler>)
    requires 0 <= i < |s|
    requires trace == before + FiredBy(s[..i], ev) + (if s[i].handler.Fires(ev) then [s[i].handler] else [])
    ensures trace == before + FiredBy(s[..i + 1], ev)
  {
    FiredByNext(s, i, ev);
  }

  /** In a registry without repeated handlers, one event runs a callback once for each
      registered handler it fires and never for any other. */
  lemma {:induction false} FiredByOnce(ls: seq<Listener>, ev: Event, h: Handler)
    requires Distinct(ls)
    ensures multiset(FiredBy(ls, ev))[h] == if h in Handlers(ls) && h.Fires(ev) then 1 else 0
  {
    if ls != [] {
      FiredByOnce(ls[1..], ev, h);
      HandlersCons(ls);
      var head := if ls[0].handler.Fires(ev) then [ls[0].handler] else [];
      assert multiset(FiredBy(ls, ev)) == multiset(head) + multiset(FiredBy(ls[1..], ev));
    }
  }

  /** The handlers whose callbacks run while `evs` are delivered one after another to the
      registry `ls`, in order: each event reaches the entries the earlier ones left. */
  function FiredAll(ls: seq<Listener>, evs: seq<Event>): seq<Handler>
    decreases |evs|
  {
    if evs == [] then []
    else
      var n := |evs| - 1;
      FiredAll(ls, evs[..n]) + FiredBy(Unfired(ls, evs[..n]), evs[n])
  }

  /** Delivering event `k` after the first `k` events. */
  lemma FiredAllNext(ls: seq<Listener>, evs: seq<Event>, k: int)
    requires 0 <= k < |evs|
    ensures FiredAll(ls, evs[..k + 1]) == FiredAll(ls, evs[..k]) + FiredBy(Unfired(ls, evs[..k]), evs[k])
  {
    assert evs[..k + 1][..k] == evs[..k];
  }

  /** The trace after event `k` extends the trace after the first `k` events. */
  lemma TraceNext(before: seq<Handler>, ls: seq<Listener>, evs: seq<Event>, k: int, trace: seq<Handler>)
    requires 0 <= k < |evs|
    requires trace == before + FiredAll(ls, evs[..k]) + FiredBy(Unfired(ls, evs[..k]), evs[k])
    ensures trace == before + FiredAll(ls, evs[..k + 1])
  {
    FiredAllNext(ls, evs, k);
  }

  /** A handler is registered after `evs` exactly when it was registered before and none
      of them fired it. */
  lemma UnfiredHandler(ls: seq<Listener>, evs: seq<Event>, h: Handler)
    ensures h in Handlers(Unfired(ls, evs)) <==> h in Handlers(ls) && !AnyFires(h, evs)
  {
    UnfiredHandlers(ls, evs);
    if h in Handlers(ls) && !AnyFires(h, evs) {
      var l :| l in ls && l.handler == h;
      UnfiredMember(ls, evs, l);
    }
  }

  /** The one-shot guarantee: however many events arrive, the callback of a registered
      handler runs once if one of them fires it and not at all otherwise, and no other
      callback runs. */
  lemma {:induction false} RunsAtMostOnce(ls: seq<Listener>, evs: seq<Event>, h: Handler)
    requires Distinct(ls)
    ensures multiset(FiredAll(ls, evs))[h] == if h in Handlers(ls) && AnyFires(h, evs) then 1 else 0
    decreases |evs|
  {
    if evs != [] {
      var n := |evs| - 1;
      var init := evs[..n];
      var rest := Unfired(ls, init);
      RunsAtMostOnce(ls, init, h);
      UnfiredHandlers(ls, init);
      UnfiredHandler(ls, init, h);
      FiredByOnce(rest, evs[n], h);
      assert FiredAll(ls, evs) == FiredAll(ls, init) + FiredBy(rest, evs[n]);
      assert AnyFires(h, evs) == (AnyFires(h, init) || h.Fires(evs[n]));
    }
  }

  /** Delivering one event to a registry of one entry: the handler runs and leaves when
      the event fires it, and nothing happens otherwise. */
  lemma OneEntry(l: Listener, ev: Event)
    ensures Unfired([l], [ev]) == if l.handler.Fires(ev) then [] else [l]
    ensures FiredBy([l], ev) == if l.handler.Fires(ev) then [l.handler] else []
    ensures Unfired([], [ev]) == [] && FiredBy([], ev) == []
  {
    AnyFiresOne(l.handler, ev);
    assert Unfired([l], [ev]) == (if AnyFires(l.handler, [ev]) then [] else [l]) + Unfired([], [ev]);
    assert FiredBy([l], ev) == (if l.handler.Fires(ev) then [l.handler] else []) + FiredBy([], ev);
  }

  /** A handler whose callback ran is no longer registered, and one that was never
      registered neither runs nor becomes registered: every registration ends Fired or
      Cancelled at most once. */
  lemma FiredIsDetached(ls: seq<Listener>, evs: seq<Event>, h: Handler)
    requires Distinct(ls)
    ensures h in FiredAll(ls, evs) ==> h !in Handlers(Unfired(ls, evs))
    ensures h !in Handlers(ls) ==> h !in FiredAll(ls, evs) && h !in Handlers(Unfired(ls, evs))
  {
    RunsAtMostOnce(ls, evs, h);
    UnfiredHandler(ls, evs, h);
  }

  /** Every entry is registered under its handler's own event name, as `register` does. */
  predicate WellNamed(ls: seq<Listener>) {
    forall l :: l in ls ==> l.event == l.handler.Name()
  }

  /** Where a registration stands. */
  datatype Phase = Armed | Fired | Cancelled

  /** The phase of `h` given the registry and the trace: waiting for its event while its
      entry is registered, done once its callback ran, and otherwise unregistered before
      that. */
  function PhaseOf(ls: seq<Listener>, trace: seq<Handler>, h: Handler): (r: Phase)
    ensures r == Fired ==> h in trace
    ensures r == Cancelled ==> h !in trace
  {
    if Listener(h.Name(), h) in ls then Armed else if h in trace then Fired else Cancelled
  }

  /** In a well-named registry a registration is Armed exactly when its handler has an
      entry. */
  lemma ArmedIsRegistered(ls: seq<Listener>, trace: seq<Handler>, h: Handler)
    ensures WellNamed(ls) ==> (PhaseOf(ls, trace, h) == Armed <==> h in Handlers(ls))
  {
    if WellNamed(ls) && h in Handlers(ls) {
      var l :| l in ls && l.handler == h;
    }
  }

  /** If `h` is Fired or Cancelled before a step (registry `ls`, trace `trace`), it is in
      the same phase after it (registry `ls'`, trace `trace'`). */
  predicate PhaseKept(ls: seq<Listener>, trace: seq<Handler>, ls': seq<Listener>, trace': seq<Handler>, h: Handler)
  {
    PhaseOf(ls, trace, h) != Armed ==> PhaseOf(ls', trace', h) == PhaseOf(ls, trace, h)
  }

  /** A step that keeps only entries already registered and runs only registered handlers
      moves no registration out of Fired or Cancelled. */
  lemma PhaseStays(ls: seq<Listener>, trace: seq<Handler>, kept: seq<Listener>, ran: seq<Handler>, h: Handler)
    requires WellNamed(ls)
    requires forall l :: l in kept ==> l in ls
    requires forall g :: g in ran ==> g in Handlers(ls)
    ensures PhaseOf(ls, trace, h) != Armed ==> PhaseOf(kept, trace + ran, h) == PhaseOf(ls, trace, h)
  {
  }

  /** Delivering a sequence of events: a Fired or Cancelled registration stays so. */
  lemma PhaseFinalUnderDelivery(ls: seq<Listener>, trace: seq<Handler>, evs: seq<Event>)
    requires Distinct(ls) && WellNamed(ls)
    ensures forall h :: PhaseKept(ls, trace, Unfired(ls, evs), trace + FiredAll(ls, evs), h)
  {
    forall l | l in Unfired(ls, evs)
      ensures l in ls
    {
      UnfiredMember(ls, evs, l);
    }
    forall g | g in FiredAll(ls, evs)
      ensures g in Handlers(ls)
    {
      RunsAtMostOnce(ls, evs, g);
    }
    forall h {
      PhaseStays(ls, trace, Unfired(ls, evs), FiredAll(ls, evs), h);
    }
  }

  /** `off`: a Fired or Cancelled registration stays so. */
  lemma PhaseFinalUnderOff(ls: seq<Listener>, trace: seq<Handler>, x: Listener)
    requires WellNamed(ls)
    ensures forall h :: PhaseKept(ls, trace, Without(ls, x), trace, h)
  {
    forall l | l in Without(ls, x)
      ensures l in ls
    {
      WithoutMember(ls, x, l);
    }
    assert trace + [] == trace;
    forall h {
      PhaseStays(ls, trace, Without(ls, x), [], h);
    }
  }

  /** `off(h.Name(), h)` leaves no entry of `h` in a well-named registry: the handler is
      unregistered for good. */
  lemma OffDetaches(ls: seq<Listener>, h: Handler)
    requires WellNamed(ls)
    ensures h !in Handlers(Without(ls, Listener(h.Name(), h)))
  {
    var x := Listener(h.Name(), h);
    if h in Handlers(Without(ls, x)) {
      var l :| l in Without(ls, x) && l.handler == h;
      WithoutMember(ls, x, l);
      assert false;
    }
  }

  /** A handler that is not registered never runs and never becomes registered, whatever
      events arrive: cancelling is final. */
  lemma CancelledNeverRuns(ls: seq<Listener>, evs: seq<Event>, h: Handler)
    requires Distinct(ls) && h !in Handlers(ls)
    ensures multiset(FiredAll(ls, evs))[h] == 0
    ensures h !in Handlers(Unfired(ls, evs))
  {
    RunsAtMostOnce(ls, evs, h);
    UnfiredHandler(ls, evs, h);
  }

  /** Delivering one event: a Fired or Cancelled registration stays so. */
  lemma PhaseFinalUnderEvent(ls: seq<Listener>, trace: seq<Handler>, ev: Event)
    requires Distinct(ls) && WellNamed(ls)
    ensures forall h :: PhaseKept(ls, trace, Unfired(ls, [ev]), trace + FiredBy(ls, ev), h)
  {
    forall l | l in Unfired(ls, [ev])
      ensures l in ls
    {
      UnfiredMember(ls, [ev], l);
    }
    forall g | g in FiredBy(ls, ev)
      ensures g in Handlers(ls)
    {
      FiredByOnce(ls, ev, g);
    }
    forall h {
      PhaseStays(ls, trace, Unfired(ls, [ev]), FiredBy(ls, ev), h);
    }
  }

  /** Running `$destroy` hooks: a Fired or Cancelled registration stays so. */
  lemma PhaseFinalUnderHooks(ls: seq<Listener>, trace: seq<Handler>, hooks: seq<Unregister>)
    requires WellNamed(ls)
    ensures forall h :: PhaseKept(ls, trace, WithoutAll(ls, hooks), trace, h)
  {
    forall l | l in WithoutAll(ls, hooks)
      ensures l in ls
    {
      WithoutAllMember(ls, hooks, l);
    }
    assert trace + [] == trace;
    forall h {
      PhaseStays(ls, trace, WithoutAll(ls, hooks), [], h);
    }
  }

  /** After the hooks run, the handler of every hook that targets its handler's own event
      name has no entry left. */
  lemma HooksDetach(ls: seq<Listener>, hooks: seq<Unregister>)
    requires WellNamed(ls)
    ensures forall u :: u in hooks && u.event == u.handler.Name() ==> u.handler !in Handlers(WithoutAll(ls, hooks))
  {
    forall u | u in hooks && u.event == u.handler.Name()
      ensures u.handler !in Handlers(WithoutAll(ls, hooks))
    {
      if u.handler in Handlers(WithoutAll(ls, hooks)) {
        var l :| l in WithoutAll(ls, hooks) && l.handler == u.handler;
        WithoutAllMember(ls, hooks, l);
        assert false;
      }
    }
  }

  /** The document's listener registry (`$document.on` / `$document.off`), the delivery of
      an event to the listeners registered when it arrives, and the trace of the callbacks
      that ran, each identified by the handler that called it. */
  class Document {
    var listeners: seq<Listener>
    var callbacks: seq<Handler>

    /** Every entry belongs to a handler created for this document under that handler's
        own event name, and no handler appears twice (each closure is registered once). */
    ghost predicate Valid()
      reads this
    {
      && Distinct(listeners)
      && forall l :: l in listeners ==> l.handler.doc == this && l.event == l.handler.Name()
    }

    constructor ()
      ensures listeners == [] && callbacks == [] && Valid()
    {
      listeners := [];
      callbacks := [];
    }

    /** `$document.on(event, h)`: append one entry. */
    method On(event: string, h: Handler)
      modifies this
      ensures listeners == old(listeners) + [Listener(event, h)] && callbacks == old(callbacks)
      ensures (&& old(Valid()) && h.doc == this && h.Name() == event
               && h !in Handlers(old(listeners))) ==> Valid()
    {
      DistinctConcat(listeners, [Listener(event, h)]);
      listeners := listeners + [Listener(event, h)];
    }

    /** `$document.off(event, h)`: remove that handler's entries for that event; a no-op
        when there are none. */
    method Off(event: string, h: Handler)
      modifies this
      ensures listeners == Without(old(listeners), Listener(event, h)) && callbacks == old(callbacks)
      ensures old(Valid()) ==> Valid()
    {
      var x := Listener(event, h);
      WithoutHandlers(listeners, x);
      forall l | l in Without(listeners, x)
        ensures l in listeners
      {
        WithoutMember(listeners, x, l);
      }
      listeners := Without(listeners, x);
    }

    /** Deliver `ev` to the entry `l` at position `i` of the registry as it stood when the
        event arrived: the entries before it have been served, the ones after it not yet. */
    method Deliver(ghost snapshot: seq<Listener>, i: nat, l: Listener, ev: Event)
      requires i < |snapshot| && l == snapshot[i] && Distinct(snapshot)
      requires Valid()
      requires listeners == Unfired(snapshot[..i], [ev]) + snapshot[i..]
      modifies this
      ensures Valid()
      ensures listeners == Unfired(snapshot[..i + 1], [ev]) + snapshot[i + 1..]
      ensures callbacks == old(callbacks) + (if l.handler.Fires(ev) then [l.handler] else [])
    {
      OccursOnce(snapshot, i);
      DeliverStep(snapshot, i, ev);
      assert l.event == l.handler.Name();
      if l.event == ev.Name() {
        l.handler.Handle(ev);
      }
    }

    /** Deliver `ev` to every listener registered for its name when it arrives, in
        registration order. The handlers it fires run their callbacks, in that order, and
        are no longer registered; every other entry stays. */
    method Dispatch(ev: Event)
      requires Valid()
      modifies this
      ensures Valid()
      ensures listeners == Unfired(old(listeners), [ev])
      ensures callbacks == old(callbacks) + FiredBy(old(listeners), ev)
      ensures forall h :: PhaseKept(old(listeners), old(callbacks), listeners, callbacks, h)
    {
      var snapshot := listeners;
      var i := 0;
      while i < |snapshot|
        invariant 0 <= i <= |snapshot|
        invariant snapshot == old(listeners) && Distinct(snapshot)
        invariant Valid()
        invariant listeners == Unfired(snapshot[..i], [ev]) + snapshot[i..]
        invariant callbacks == old(callbacks) + FiredBy(snapshot[..i], ev)
      {
        var l := snapshot[i];
        Deliver(snapshot, i, l, ev);
        ServedNext(old(callbacks), snapshot, i, ev, callbacks);
        i := i + 1;
      }
      assert snapshot[..i] == snapshot;
      PhaseFinalUnderEvent(snapshot, old(callbacks), ev);
    }

    /** Deliver event `k` of `evs` after the first `k` were delivered to the registry
        `start`, with the trace `before` ahead of them. */
    method DeliverNext(ghost start: seq<Listener>, ghost before: seq<Handler>, evs: seq<Event>, k: nat)
      requires k < |evs| && Valid()
      requires listeners == Unfired(start, evs[..k])
      requires callbacks == before + FiredAll(start, evs[..k])
      modifies this
      ensures Valid()
      ensures listeners == Unfired(start, evs[..k + 1])
      ensures callbacks == before + FiredAll(start, evs[..k + 1])
    {
      Dispatch(evs[k]);
      NextEvent(start, evs, k);
      TraceNext(before, start, evs, k, callbacks);
    }
    /** Deliver `evs` one after another: the registry keeps exactly the entries none of them
        fired, and the callbacks that ran are those of `FiredAll`. */
    method DispatchAll(evs: seq<Event>)
      requires Valid()
      modifies this
      ensures Valid()
      ensures listeners == Unfired(old(listeners), evs)
      ensures callbacks == old(callbacks) + FiredAll(old(listeners), evs)
      ensures forall h :: PhaseKept(old(listeners), old(callbacks), listeners, callbacks, h)
    {
      var k := 0;
      UnfiredNone(listeners);
      assert evs[..0] == [] && callbacks + [] == callbacks;
      while k < |evs|
        invariant 0 <= k <= |evs|
        invariant Valid()
        invariant listeners == Unfired(old(listeners), evs[..k])
        invariant callbacks == old(callbacks) + FiredAll(old(listeners), evs[..k])
      {
        DeliverNext(old(listeners), old(callbacks), evs, k);
        k := k + 1;
      }
      assert evs[..k] == evs;
      PhaseFinalUnderDelivery(old(listeners), old(callbacks), evs);
    }
  }

  /** A handler closure created by `key` or `click`, with the callback `cb` it captured. */
  class Handler {
    const doc: Document
    const filter: Filter

    constructor (doc: Document, filter: Filter)
      ensures this.doc == doc && this.filter == filter
    {
      this.doc := doc;
      this.filter := filter;
    }

    /** The event name the handler is registered under. */
    function Name(): string {
      if filter.EscapeKey? then "keydown" else "click"
    }

    /** Whether `ev` passes the handler's filter, so that it runs the callback and
        unregisters itself. */
    predicate Fires(ev: Event)
      ensures Fires(ev) ==> ev.Name() == Name()
    {
      match filter
      case EscapeKey =>
        ev.Keydown? && IsEscape(ev.which, ev.keyCode) && !IsFormControl(ev.targetName)
      case OutsideClick(boundary) =>
        ev.Click? && !Inside(ev.tree, ev.target, boundary)
    }

    /** Waiting for its event, done after running the callback, or unregistered before
        that. */
    function Phase(): (r: Phase)
      reads doc
      ensures doc.Valid() ==> (r == Armed <==> this in Handlers(doc.listeners))
      ensures r == Fired ==> this in doc.callbacks
      ensures r == Cancelled ==> this !in doc.callbacks
    {
      ArmedIsRegistered(doc.listeners, doc.callbacks, this);
      PhaseOf(doc.listeners, doc.callbacks, this)
    }

    /** The handler body: an event the filter lets through runs the callback once and
        unregisters this handler; any other event changes nothing. */
    method Handle(ev: Event)
      requires ev.Name() == Name()
      modifies doc
      ensures doc.callbacks == old(doc.callbacks) + (if Fires(ev) then [this] else [])
      ensures doc.listeners == if Fires(ev) then Without(old(doc.listeners), Listener(Name(), this))
                               else old(doc.listeners)
      ensures old(doc.Valid()) ==> doc.Valid()
    {
      match filter
      case EscapeKey =>
        if EffectiveCode(ev.which, ev.keyCode) != EscapeCode {
          return;
        }
        if IsFormControl(ev.targetName) {
          return;
        }
        doc.callbacks := doc.callbacks + [this];
        doc.Off("keydown", this);
      case OutsideClick(boundary) =>
        if boundary != NoBoundary {
          var inside := ClickedInside(ev.tree, ev.target, boundary);
          if inside {
            return;
          }
        }
        doc.callbacks := doc.callbacks + [this];
        doc.Off("click", this);
    }
  }

  /** The `unregister` closure `register` returns: `$document.off(event, handler)`. */
  class Unregister {
    const doc: Document
    const event: string
    const handler: Handler

    constructor (doc: Document, event: string, handler: Handler)
      ensures this.doc == doc && this.event == event && this.handler == handler
    {
      this.doc := doc;
      this.event := event;
      this.handler := handler;
    }

    /** The entry it removes. */
    function Target(): Listener {
      Listener(event, handler)
    }

    /** Remove that handler's entry; every other entry stays, and a second call (or a call
        after the handler fired) changes nothing. */
    method Call()
      modifies doc
      ensures doc.listeners == Without(old(doc.listeners), Target())
      ensures doc.callbacks == old(doc.callbacks)
      ensures Target() !in doc.listeners
      ensures Target() !in old(doc.listeners) ==> doc.listeners == old(doc.listeners)
      ensures old(doc.Valid()) ==> doc.Valid()
      ensures old(doc.Valid()) && event == handler.Name() ==> handler !in Handlers(doc.listeners)
      ensures old(doc.Valid()) ==>
                forall h :: PhaseKept(old(doc.listeners), doc.callbacks, doc.listeners, doc.callbacks, h)
    {
      WithoutMember(doc.listeners, Target(), Target());
      doc.Off(event, handler);
      if old(doc.Valid()) {
        if event == handler.Name() {
          OffDetaches(old(doc.listeners), handler);
        }
        PhaseFinalUnderOff(old(doc.listeners), doc.callbacks, Target());
      }
    }
  }

  /** The registry after every hook in `hooks` has run, in order. */
  function WithoutAll(ls: seq<Listener>, hooks: seq<Unregister>): seq<Listener>
  {
    if hooks == [] then ls
    else Without(WithoutAll(ls, hooks[..|hooks| - 1]), hooks[|hooks| - 1].Target())
  }

  /** After the hooks have run, an entry is still registered exactly when it was before
      and no hook targets it. */
  lemma {:induction false} WithoutAllMember(ls: seq<Listener>, hooks: seq<Unregister>, l: Listener)
    ensures l in WithoutAll(ls, hooks) <==> l in ls && forall u :: u in hooks ==> l != u.Target()
  {
    if hooks != [] {
      var init, last := hooks[..|hooks| - 1], hooks[|hooks| - 1];
      WithoutAllMember(ls, init, l);
      WithoutMember(WithoutAll(ls, init), last.Target(), l);
      assert hooks == init + [last];
    }
  }

  /** A scope's `$destroy` listeners, as far as this library subscribes to them. */
  class Scope {
    var hooks: seq<Unregister>

    constructor ()
      ensures hooks == []
    {
      hooks := [];
    }

    /** `$scope.$on('$destroy', u)`. */
    method OnDestroy(u: Unregister)
      modifies this
      ensures hooks == old(hooks) + [u]
    {
      hooks := hooks + [u];
    }

    /** Run every subscribed `unregister`, in order. */
    method RunHooks(ghost doc: Document)
      requires forall u :: u in hooks ==> u.doc == doc
      modifies doc
      ensures doc.listeners == WithoutAll(old(doc.listeners), hooks)
      ensures doc.callbacks == old(doc.callbacks)
      ensures old(doc.Valid()) ==> doc.Valid()
    {
      var i := 0;
      while i < |hooks|
        invariant 0 <= i <= |hooks|
        invariant doc.listeners == WithoutAll(old(doc.listeners), hooks[..i])
        invariant doc.callbacks == old(doc.callbacks)
        invariant old(doc.Valid()) ==> doc.Valid()
      {
        var u := hooks[i];
        assert hooks[..i + 1] == hooks[..i] + [u];
        u.Call();
        i := i + 1;
      }
      assert hooks[..i] == hooks;
    }

    /** `$scope.$destroy()`: run every subscribed `unregister`, in order. Each hooked
        handler is then unregistered for good, and no registration leaves Fired or
        Cancelled. */
    method Destroy(ghost doc: Document)
      requires forall u :: u in hooks ==> u.doc == doc
      modifies doc
      ensures doc.listeners == WithoutAll(old(doc.listeners), hooks)
      ensures doc.callbacks == old(doc.callbacks)
      ensures old(doc.Valid()) ==> doc.Valid()
      ensures old(doc.Valid()) ==>
                forall u :: u in hooks && u.event == u.handler.Name() ==> u.handler !in Handlers(doc.listeners)
      ensures old(doc.Valid()) ==>
                forall h :: PhaseKept(old(doc.listeners), doc.callbacks, doc.listeners, doc.callbacks, h)
    {
      RunHooks(doc);
      if old(doc.Valid()) {
        HooksDetach(old(doc.listeners), hooks);
        PhaseFinalUnderHooks(old(doc.listeners), doc.callbacks, hooks);
      }
    }
  }

  /** The `esc` service, bound to the document it was given. */
  class Service {
    const doc: Document

    constructor (doc: Document)
      ensures this.doc == doc
    {
      this.doc := doc;
    }

    /** `register(event, handler, $scope)`: add one entry for the handler, build the
        closure that removes it, and subscribe that closure to the scope's `$destroy`
        when a scope is given. */
    method Register(event: string, h: Handler, scope: Scope?) returns (unregister: Unregister)
      requires doc.Valid() && h.doc == doc && h.Name() == event
      requires h !in Handlers(doc.listeners)
      modifies doc, scope
      ensures doc.Valid()
      ensures fresh(unregister)
      ensures unregister.doc == doc && unregister.Target() == Listener(event, h)
      ensures doc.listeners == old(doc.listeners) + [Listener(event, h)]
      ensures doc.callbacks == old(doc.callbacks)
      ensures scope != null ==> scope.hooks == old(scope.hooks) + [unregister]
    {
      unregister := new Unregister(doc, event, h);
      doc.On(event, h);
      if scope != null {
        scope.OnDestroy(unregister);
      }
    }

    /** `key(cb, $scope)`: register a fresh Escape handler for "keydown". */
    method Key(scope: Scope?) returns (h: Handler, unregister: Unregister)
      requires doc.Valid()
      modifies doc, scope
      ensures doc.Valid()
      ensures fresh(h) && h.doc == doc && h.filter == EscapeKey
      ensures fresh(unregister)
      ensures unregister.doc == doc && unregister.Target() == Listener("keydown", h)
      ensures doc.listeners == old(doc.listeners) + [Listener("keydown", h)]
      ensures doc.callbacks == old(doc.callbacks)
      ensures scope != null ==> scope.hooks == old(scope.hooks) + [unregister]
    {
      h := new Handler(doc, EscapeKey);
      unregister := Register("keydown", h, scope);
    }

    /** `click(cb, element, $scope)`: unwrap the boundary element and register a fresh
        outside-click handler for "click". */
    method Click(element: ElementArg, scope: Scope?) returns (h: Handler, unregister: Unregister)
      requires doc.Valid()
      modifies doc, scope
      ensures doc.Valid()
      ensures fresh(h) && h.doc == doc && h.filter == OutsideClick(Unwrap(element))
      ensures fresh(unregister)
      ensures unregister.doc == doc && unregister.Target() == Listener("click", h)
      ensures doc.listeners == old(doc.listeners) + [Listener("click", h)]
      ensures doc.callbacks == old(doc.callbacks)
      ensures scope != null ==> scope.hooks == old(scope.hooks) + [unregister]
    {
      var boundary := Unwrap(element);
      h := new Handler(doc, OutsideClick(boundary));
      unregister := Register("click", h, scope);
    }
  }
}
