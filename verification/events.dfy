/** The slice of the host event system that the savable-component hooks use:
    a model event with the `isNew` and `isValid` flags, handlers as pure
    event transformers run in registration order, and a log of every
    `trigger` call. */
module Events {
  import opened Wrappers

  /** A model event as the hooks build it. `isValid` is the veto channel:
      it starts true and a handler clears it to stop the pending action. */
  datatype ModelEvent = ModelEvent(isNew: bool, isValid: bool)

  /** The event a hook builds before triggering: `isValid` defaults to true. */
  function Fresh(isNew: bool): (e: ModelEvent)
    ensures e.isValid && e.isNew == isNew
  {
    ModelEvent(isNew, true)
  }

  /** An event handler, reduced to what it does to the event it is handed. */
  type Listener = ModelEvent -> ModelEvent

  /** One `trigger` call: the event name and the event object handed to the
      first handler (None when the caller passed no event object). */
  datatype Fired = Fired(name: string, payload: Option<ModelEvent>)

  /** The handlers attached to a component, by event name, and the log of
      the events it has triggered so far. */
  datatype Bus = Bus(handlers: map<string, seq<Listener>>, log: seq<Fired>)

  function HandlersOf(bus: Bus, name: string): seq<Listener> {
    if name in bus.handlers then bus.handlers[name] else []
  }

  /** The event each handler is handed during dispatch, by position: the
      first gets the original, each later one what its predecessor returned. */
  function Seen(ls: seq<Listener>, e: ModelEvent): (s: seq<ModelEvent>)
    ensures |s| == |ls|
    ensures |ls| > 0 ==> s[0] == e
    ensures forall i :: 0 <= i < |ls| - 1 ==> s[i + 1] == ls[i](s[i])
    decreases |ls|
  {
    if |ls| == 0 then [] else [e] + Seen(ls[1..], ls[0](e))
  }

  /** The event that comes out of dispatch: the input when nobody listens,
      otherwise what the last handler returned from the event it saw. */
  function Outcome(ls: seq<Listener>, e: ModelEvent): ModelEvent {
    if |ls| == 0 then e else ls[|ls| - 1](Seen(ls, e)[|ls| - 1])
  }

  /** Dispatch: every handler, in order, receives the event the previous
      one left behind; nothing is skipped, and the result is the outcome. */
  function Run(ls: seq<Listener>, e: ModelEvent): (r: ModelEvent)
    ensures r == Outcome(ls, e)
    decreases |ls|
  {
    if |ls| == 0 then e
    else
      assert |ls| > 1 ==> Seen(ls, e)[|ls| - 1] == Seen(ls[1..], ls[0](e))[|ls| - 2];
      Run(ls[1..], ls[0](e))
  }

  /** `$component->trigger($name, $event)`: run the handlers registered for
      `name` and record the call. */
  datatype Triggered = Triggered(bus: Bus, event: ModelEvent)

  function Trigger(bus: Bus, name: string, e: ModelEvent): (t: Triggered)
    ensures t.bus.handlers == bus.handlers
    ensures t.bus.log == bus.log + [Fired(name, Some(e))]
    ensures t.event == Outcome(HandlersOf(bus, name), e)
  {
    Triggered(Bus(bus.handlers, bus.log + [Fired(name, Some(e))]), Run(HandlersOf(bus, name), e))
  }

  /** `$component->trigger($name)` with no event object: whatever the
      handlers do is dropped, so only the call is recorded. */
  function Notify(bus: Bus, name: string): (b: Bus)
    ensures b.handlers == bus.handlers
    ensures b.log == bus.log + [Fired(name, None)]
  {
    Bus(bus.handlers, bus.log + [Fired(name, None)])
  }

  // ---------------------------------------------------------------------------
  // Dispatch laws
  // ---------------------------------------------------------------------------

  lemma {:induction false} RunAppend(a: seq<Listener>, b: seq<Listener>, e: ModelEvent)
    ensures Run(a + b, e) == Run(b, Run(a, e))
    decreases |a|
  {
    if |a| > 0 {
      assert (a + b)[0] == a[0];
      assert (a + b)[1..] == a[1..] + b;
      RunAppend(a[1..], b, a[0](e));
    } else {
      assert a + b == b;
    }
  }

  /** Handler `k` is handed what the handlers before it produced. */
  lemma {:induction false} SeenIsPrefixRun(ls: seq<Listener>, e: ModelEvent, k: nat)
    requires k < |ls|
    ensures Seen(ls, e)[k] == Run(ls[..k], e)
    decreases k
  {
    if k > 0 {
      SeenIsPrefixRun(ls, e, k - 1);
      assert ls[..k] == ls[..k - 1] + [ls[k - 1]];
      RunAppend(ls[..k - 1], [ls[k - 1]], e);
    }
  }

  /** In this dispatch, every handler after `k` hands back the `isValid`
      it was handed. */
  ghost predicate ValidityUntouchedAfter(ls: seq<Listener>, e: ModelEvent, k: nat) {
    forall j :: k < j < |ls| ==> ls[j](Seen(ls, e)[j]).isValid == Seen(ls, e)[j].isValid
  }

  /** In this dispatch, no handler after `k` that is handed a cleared
      `isValid` sets it back. */
  ghost predicate VetoKeptAfter(ls: seq<Listener>, e: ModelEvent, k: nat) {
    forall j :: k < j < |ls| && !Seen(ls, e)[j].isValid ==> !ls[j](Seen(ls, e)[j]).isValid
  }

  lemma {:induction false} ValidityCarriedTo(ls: seq<Listener>, e: ModelEvent, k: nat, i: nat)
    requires k < i < |ls|
    requires ValidityUntouchedAfter(ls, e, k)
    ensures Seen(ls, e)[i].isValid == ls[k](Seen(ls, e)[k]).isValid
    decreases i
  {
    var s := Seen(ls, e);
    assert s[i] == ls[i - 1](s[i - 1]);
    if i > k + 1 {
      ValidityCarriedTo(ls, e, k, i - 1);
    }
  }

  lemma {:induction false} VetoCarriedTo(ls: seq<Listener>, e: ModelEvent, k: nat, i: nat)
    requires k < i < |ls|
    requires !ls[k](Seen(ls, e)[k]).isValid
    requires VetoKeptAfter(ls, e, k)
    ensures !Seen(ls, e)[i].isValid
    decreases i
  {
    var s := Seen(ls, e);
    assert s[i] == ls[i - 1](s[i - 1]);
    if i > k + 1 {
      VetoCarriedTo(ls, e, k, i - 1);
    }
  }

  /** The last write wins: if, in this dispatch, every handler after `k`
      hands `isValid` back unchanged, dispatch ends with the `isValid`
      handler `k` returned. */
  lemma {:induction false} LastWriteWins(ls: seq<Listener>, e: ModelEvent, k: nat)
    requires k < |ls|
    requires ValidityUntouchedAfter(ls, e, k)
    ensures Outcome(ls, e).isValid == ls[k](Seen(ls, e)[k]).isValid
  {
    var s, n := Seen(ls, e), |ls|;
    if n - 1 > k {
      ValidityCarriedTo(ls, e, k, n - 1);
    }
  }

  /** A veto sticks when, in this dispatch, no later handler lifts it. */
  lemma {:induction false} VetoSticks(ls: seq<Listener>, e: ModelEvent, k: nat)
    requires k < |ls|
    requires !ls[k](Seen(ls, e)[k]).isValid
    requires VetoKeptAfter(ls, e, k)
    ensures !Outcome(ls, e).isValid
  {
    var s, n := Seen(ls, e), |ls|;
    if n - 1 > k {
      VetoCarriedTo(ls, e, k, n - 1);
    }
  }

  /** A handler that would lift a veto only on a new record does not lift
      it on a delete event, so the veto before it stands. */
  lemma ConditionalHandlerKeepsVeto()
    ensures
      var veto: Listener := (x: ModelEvent) => x.(isValid := false);
      var onlyIfNew: Listener := (x: ModelEvent) => if x.isNew then x.(isValid := true) else x;
      !Run([veto, onlyIfNew], Fresh(false)).isValid
  {
    var veto: Listener := (x: ModelEvent) => x.(isValid := false);
    var onlyIfNew: Listener := (x: ModelEvent) => if x.isNew then x.(isValid := true) else x;
    var ls := [veto, onlyIfNew];
    var s := Seen(ls, Fresh(false));
    assert s[1] == veto(s[0]);
    VetoSticks(ls, Fresh(false), 0);
  }

  /** Nothing in dispatch protects a veto: a later handler may set
      `isValid` back to true and dispatch then ends valid. */
  lemma VetoCanBeLifted(e: ModelEvent)
    ensures
      var veto: Listener := (x: ModelEvent) => x.(isValid := false);
      var lift: Listener := (x: ModelEvent) => x.(isValid := true);
      !Seen([veto, lift], e)[1].isValid && Run([veto, lift], e).isValid
  {
    var veto: Listener := (x: ModelEvent) => x.(isValid := false);
    var lift: Listener := (x: ModelEvent) => x.(isValid := true);
    assert [veto, lift][1..] == [lift];
    assert [lift][1..] == [];
  }
}
