/** The behaviours the library's own test suite exercises, replayed on the model: each
    method builds a document, registers through the service, delivers the events the test
    sends and reports how many times the callback ran and where the registration stands. */
module Scenarios {
  import opened Dom
  import opened Keys
  import opened Esc

  /** The node name of the document itself, the target of an event sent to no element. */
  const DocumentName: string := "#document"

  /** A key press as the tests make it: `keyCode` set, `which` left at 0. */
  function KeyPress(code: int, targetName: string): Event {
    Keydown(0, code, targetName)
  }

  /** The tree the click tests build: the document (0), `html` (1), `body` (2), and
      under `body` a `div` (3) holding a `p` (4) holding an `a` (5), next to a
      `section` (6). */
  const TestTree: Tree := DomTree(
    map[1 := 0, 2 := 1, 3 := 2, 4 := 3, 5 := 4, 6 := 2],
    map[0 := 0, 1 := 1, 2 := 2, 3 := 3, 4 := 4, 5 := 5, 6 := 3])

  const Div: NodeId := 3
  const Para: NodeId := 4
  const Link: NodeId := 5
  const Section: NodeId := 6

  /** How many times `h`'s callback has run. */
  function Calls(doc: Document, h: Handler): nat
    reads doc
  {
    multiset(doc.callbacks)[h]
  }

  /** Deliver `ev` to a document whose registry holds `h`'s entry or nothing. */
  method Send(doc: Document, h: Handler, ev: Event)
    requires doc.Valid() && (doc.listeners == [] || doc.listeners == [Listener(h.Name(), h)])
    modifies doc
    ensures doc.Valid()
    ensures doc.listeners == if h.Fires(ev) then [] else old(doc.listeners)
    ensures doc.callbacks == old(doc.callbacks) + (if old(doc.listeners) != [] && h.Fires(ev) then [h] else [])
  {
    OneEntry(Listener(h.Name(), h), ev);
    doc.Dispatch(ev);
  }

  /** An Escape handler ignores Enter and takes an Escape pressed with no element
      focused. */
  lemma EnterAndEscape(h: Handler)
    requires h.filter == EscapeKey
    ensures !h.Fires(KeyPress(13, DocumentName)) && h.Fires(KeyPress(EscapeCode, DocumentName))
  {
    ButtonAndDocumentAreNotFormControls();
  }

  /** Enter does nothing; the first Escape runs the callback and detaches the handler;
      four more Escapes run nothing. */
  method EscapeFiresOnce() returns (afterEnter: nat, afterEscape: nat, afterMore: nat, phase: Phase)
    ensures afterEnter == 0 && afterEscape == 1 && afterMore == 1 && phase == Fired
  {
    var doc := new Document();
    var esc := new Service(doc);
    var h, _ := esc.Key(null);
    var enter, escape := KeyPress(13, DocumentName), KeyPress(EscapeCode, DocumentName);
    EnterAndEscape(h);
    Send(doc, h, enter);
    afterEnter := Calls(doc, h);
    Send(doc, h, escape);
    afterEscape := Calls(doc, h);
    var i := 0;
    while i < 4
      invariant doc.Valid() && doc.listeners == [] && doc.callbacks == [h]
    {
      Send(doc, h, escape);
      i := i + 1;
    }
    afterMore := Calls(doc, h);
    phase := h.Phase();
  }

  /** Calling the returned `unregister` before any Escape: the callback never runs. */
  method EscapeUnregistered() returns (calls: nat, phase: Phase)
    ensures calls == 0 && phase == Cancelled
  {
    var doc := new Document();
    var esc := new Service(doc);
    var h, unregister := esc.Key(null);
    unregister.Call();
    Send(doc, h, KeyPress(EscapeCode, DocumentName));
    calls := Calls(doc, h);
    phase := h.Phase();
  }

  /** Registering with a scope and destroying the scope: the callback never runs. */
  method EscapeScopeDestroyed() returns (calls: nat, phase: Phase)
    ensures calls == 0 && phase == Cancelled
  {
    var doc := new Document();
    var esc := new Service(doc);
    var scope := new Scope();
    var h, unregister := esc.Key(scope);
    scope.Destroy(doc);
    assert scope.hooks == [unregister];
    assert WithoutAll([Listener("keydown", h)], scope.hooks)
        == Without(WithoutAll([Listener("keydown", h)], []), unregister.Target());
    Send(doc, h, KeyPress(EscapeCode, DocumentName));
    calls := Calls(doc, h);
    phase := h.Phase();
  }

  /** Escape pressed in an `input`, `textarea` or `select`: the callback does not run and
      the handler stays registered. */
  method EscapeIgnoredInFormControl(nodeName: string) returns (calls: nat, phase: Phase)
    requires nodeName == "INPUT" || nodeName == "TEXTAREA" || nodeName == "SELECT"
    ensures calls == 0 && phase == Armed
  {
    var doc := new Document();
    var esc := new Service(doc);
    var h, _ := esc.Key(null);
    var escape := KeyPress(EscapeCode, nodeName);
    FormControlTags();
    assert !h.Fires(escape);
    Send(doc, h, escape);
    calls := Calls(doc, h);
    phase := h.Phase();
  }

  /** With no boundary, the first click on the document runs the callback and detaches the
      handler; a second click runs nothing. */
  method ClickFiresOnce() returns (before: nat, afterFirst: nat, afterSecond: nat, phase: Phase)
    ensures before == 0 && afterFirst == 1 && afterSecond == 1 && phase == Fired
  {
    var doc := new Document();
    var esc := new Service(doc);
    var h, _ := esc.Click(Missing, null);
    before := Calls(doc, h);
    Send(doc, h, Click(TestTree, 0));
    afterFirst := Calls(doc, h);
    Send(doc, h, Click(TestTree, 0));
    afterSecond := Calls(doc, h);
    phase := h.Phase();
  }

  /** Calling the returned `unregister` before any click: the callback never runs. */
  method ClickUnregistered() returns (calls: nat, phase: Phase)
    ensures calls == 0 && phase == Cancelled
  {
    var doc := new Document();
    var esc := new Service(doc);
    var h, unregister := esc.Click(Missing, null);
    unregister.Call();
    Send(doc, h, Click(TestTree, 0));
    calls := Calls(doc, h);
    phase := h.Phase();
  }

  /** Registering with a scope and destroying the scope: the callback never runs. */
  method ClickScopeDestroyed() returns (calls: nat, phase: Phase)
    ensures calls == 0 && phase == Cancelled
  {
    var doc := new Document();
    var esc := new Service(doc);
    var scope := new Scope();
    var h, unregister := esc.Click(Missing, scope);
    scope.Destroy(doc);
    assert scope.hooks == [unregister];
    assert WithoutAll([Listener("click", h)], scope.hooks)
        == Without(WithoutAll([Listener("click", h)], []), unregister.Target());
    Send(doc, h, Click(TestTree, 0));
    calls := Calls(doc, h);
    phase := h.Phase();
  }

  /** With the `div` (passed wrapped) as boundary, clicks on the `div`, on the `p` in it
      and on the `a` in that run nothing, and the handler stays registered. */
  method ClickInsideBoundary() returns (calls: nat, phase: Phase)
    ensures calls == 0 && phase == Armed
  {
    var doc := new Document();
    var esc := new Service(doc);
    var h, _ := esc.Click(Wrapped([Div]), null);
    var entry := Listener("click", h);
    assert Within(TestTree, Link, Div) && Within(TestTree, Para, Div) && Within(TestTree, Div, Div);
    for target := Div to Link + 1
      invariant doc.Valid() && doc.listeners == [entry] && doc.callbacks == []
    {
      assert Within(TestTree, target, Div);
      Send(doc, h, Click(TestTree, target));
    }
    calls := Calls(doc, h);
    phase := h.Phase();
  }

  /** With the `p` as boundary, a click on the `div` holding it runs the callback. */
  method ClickParentOfBoundary() returns (calls: nat, phase: Phase)
    ensures calls == 1 && phase == Fired
  {
    var doc := new Document();
    var esc := new Service(doc);
    var h, _ := esc.Click(Wrapped([Para]), null);
    ParentIsOutside(TestTree, Para);
    Send(doc, h, Click(TestTree, Div));
    calls := Calls(doc, h);
    phase := h.Phase();
  }

  /** With the `div` as boundary, a click on the `section` beside it runs the callback. */
  method ClickOutsideBoundary() returns (calls: nat, phase: Phase)
    ensures calls == 1 && phase == Fired
  {
    var doc := new Document();
    var esc := new Service(doc);
    var h, _ := esc.Click(Wrapped([Div]), null);
    SiblingIsOutside(TestTree, Section, Div);
    Send(doc, h, Click(TestTree, Section));
    calls := Calls(doc, h);
    phase := h.Phase();
  }

  /** Once an Escape handler has fired, no sequence of later events runs its callback
      again: it stays at one call and Fired. */
  method FiredStaysFired(evs: seq<Event>) returns (calls: nat, phase: Phase)
    ensures calls == 1 && phase == Fired
  {
    var doc := new Document();
    var esc := new Service(doc);
    var h, _ := esc.Key(null);
    EnterAndEscape(h);
    Send(doc, h, KeyPress(EscapeCode, DocumentName));
    CancelledNeverRuns([], evs, h);
    doc.DispatchAll(evs);
    assert PhaseKept([], [h], doc.listeners, doc.callbacks, h);
    calls := Calls(doc, h);
    phase := h.Phase();
  }

  /** Unregistering a click handler next to an Escape handler: whatever events arrive
      afterwards, its callback never runs and it stays Cancelled. */
  method UnregisteredStaysCancelled(evs: seq<Event>) returns (calls: nat, phase: Phase)
    ensures calls == 0 && phase == Cancelled
  {
    var doc := new Document();
    var esc := new Service(doc);
    var _, _ := esc.Key(null);
    var h, unregister := esc.Click(Missing, null);
    unregister.Call();
    ghost var left := doc.listeners;
    CancelledNeverRuns(left, evs, h);
    doc.DispatchAll(evs);
    assert PhaseKept(left, [], doc.listeners, doc.callbacks, h);
    calls := Calls(doc, h);
    phase := h.Phase();
  }

  /** Destroying the scope both handlers were registered with: whatever events arrive
      afterwards, neither callback runs and both stay Cancelled. */
  method DestroyedStaysCancelled(evs: seq<Event>) returns (keyCalls: nat, clickCalls: nat, keyPhase: Phase, clickPhase: Phase)
    ensures keyCalls == 0 && clickCalls == 0 && keyPhase == Cancelled && clickPhase == Cancelled
  {
    var doc := new Document();
    var esc := new Service(doc);
    var scope := new Scope();
    var k, unregisterKey := esc.Key(scope);
    var c, unregisterClick := esc.Click(Missing, scope);
    scope.Destroy(doc);
    assert unregisterKey in scope.hooks && unregisterClick in scope.hooks;
    ghost var left := doc.listeners;
    CancelledNeverRuns(left, evs, k);
    CancelledNeverRuns(left, evs, c);
    doc.DispatchAll(evs);
    assert PhaseKept(left, [], doc.listeners, doc.callbacks, k);
    assert PhaseKept(left, [], doc.listeners, doc.callbacks, c);
    keyCalls, clickCalls := Calls(doc, k), Calls(doc, c);
    keyPhase, clickPhase := k.Phase(), c.Phase();
  }
}
