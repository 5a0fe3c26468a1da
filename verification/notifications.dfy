/** `NotificationModule`: a FIFO of pending notifications shown one at a
    time. Timers are not modelled; the end of a close animation is an event
    that may arrive at any moment, once or several times per widget, because
    the close button, the auto-close timer and every `mouseleave` timer each
    call `closeNotification`. */
module Notifications {
  import opened Wrappers

  datatype Kind = Success | Error | Info

  datatype Note = Note(message: string, kind: Kind, duration: nat)

  /** `notificationQueue` and `isShowing`, together with the number of
      widgets `createNotification` has built so far; widget `w` is the one
      built by the `w`-th call, counting from 0. */
  datatype Queue = Queue(pending: seq<Note>, showing: bool, created: nat)

  /** The state at page load. */
  const Idle := Queue([], false, 0)

  /** What an event did: the next state, and the note handed to
      `createNotification`, if any. */
  datatype Step = Step(queue: Queue, displayed: Option<Note>)

  /** The notes an event handed out, as a sequence. */
  function Shown(r: Step): seq<Note> {
    match r.displayed
    case Some(n) => [n]
    case None => []
  }

  /** Nothing is waiting while nothing is shown. */
  predicate Inv(q: Queue) {
    !q.showing ==> q.pending == []
  }

  /** `processQueue`: idle when the queue is empty, otherwise display its head. */
  function ProcessQueue(q: Queue): (r: Step)
    ensures Shown(r) + r.queue.pending == q.pending
    ensures r.queue.showing <==> r.displayed.Some?
    ensures r.queue.created == q.created + |Shown(r)|
    ensures Inv(r.queue)
  {
    if |q.pending| == 0 then Step(q.(showing := false), None)
    else Step(Queue(q.pending[1..], true, q.created + 1), Some(q.pending[0]))
  }

  /** `show`: enqueue, and start displaying when nothing is shown. */
  function Show(q: Queue, note: Note): (r: Step)
    ensures Shown(r) + r.queue.pending == q.pending + [note]
    ensures r.queue.created == q.created + |Shown(r)|
    ensures q.showing ==> r.displayed == None && r.queue.showing
    ensures !q.showing && Inv(q) ==> r.displayed == Some(note) && r.queue.pending == []
    ensures Inv(q) ==> Inv(r.queue)
  {
    var q' := q.(pending := q.pending + [note]);
    if !q.showing then ProcessQueue(q') else Step(q', None)
  }

  /** The end of `closeNotification(widget)`: after the 300 ms animation it
      runs `processQueue`, whichever widget was closed. */
  function Close(q: Queue, widget: nat): (r: Step)
    ensures Shown(r) + r.queue.pending == q.pending
    ensures r.queue.created == q.created + |Shown(r)|
    ensures q.pending != [] ==> r.displayed == Some(q.pending[0])
    ensures r.queue.showing <==> q.pending != []
    ensures Inv(r.queue)
  {
    ProcessQueue(q)
  }

  /** The widget now on screen is `widget`. */
  predicate IsCurrent(q: Queue, widget: nat) {
    q.showing && widget + 1 == q.created
  }

  /** The close step as evidently meant: only the close of the widget on
      screen advances the queue; a late close of an earlier widget is ignored. */
  function CloseOwn(q: Queue, widget: nat): (r: Step)
    ensures !IsCurrent(q, widget) ==> r == Step(q, None)
    ensures IsCurrent(q, widget) ==> Shown(r) + r.queue.pending == q.pending && !IsCurrent(r.queue, widget)
    ensures Inv(q) ==> Inv(r.queue)
  {
    if IsCurrent(q, widget) then ProcessQueue(q) else Step(q, None)
  }

  datatype Event = ShowEvent(note: Note) | CloseEvent(widget: nat)

  /** Which close step the page runs: the script's, or the corrected one. */
  datatype Policy = AsWritten | OwnCloseOnly

  function Apply(q: Queue, e: Event, policy: Policy): Step {
    match e
    case ShowEvent(note) => Show(q, note)
    case CloseEvent(w) => if policy == AsWritten then Close(q, w) else CloseOwn(q, w)
  }

  /** The note an event passes to `show`, if any. */
  function Given(e: Event): seq<Note> {
    if e.ShowEvent? then [e.note] else []
  }

  /** The notes passed to `show`, in order. */
  function Inputs(events: seq<Event>): seq<Note> {
    if |events| == 0 then [] else Given(events[0]) + Inputs(events[1..])
  }

  datatype Trace = Trace(queue: Queue, displayed: seq<Note>)

  /** A run of events: the final state and every note handed to
      `createNotification`, in order. */
  function Run(q: Queue, events: seq<Event>, policy: Policy): (t: Trace)
    ensures t.queue.created == q.created + |t.displayed|
    decreases |events|
  {
    if |events| == 0 then Trace(q, [])
    else
      var r := Apply(q, events[0], policy);
      var rest := Run(r.queue, events[1..], policy);
      Trace(rest.queue, Shown(r) + rest.displayed)
  }

  // ---------------------------------------------------------------------
  // Lemmas

  /** No note is lost, duplicated or reordered: what was displayed followed
      by what still waits is what waited before followed by what was shown,
      whichever close step runs and however often closes fire. */
  lemma {:induction false} RunConserves(q: Queue, events: seq<Event>, policy: Policy)
    ensures var t := Run(q, events, policy);
      t.displayed + t.queue.pending == q.pending + Inputs(events)
    decreases |events|
  {
    if |events| > 0 {
      var r := Apply(q, events[0], policy);
      ApplyConserves(q, events[0], policy);
      RunConserves(r.queue, events[1..], policy);
      var t := Run(r.queue, events[1..], policy);
      Regroup(Shown(r), r.queue.pending, q.pending, Given(events[0]),
              t.displayed, t.queue.pending, Inputs(events[1..]));
    }
  }

  /** One event hands out or keeps every note, in order. */
  lemma ApplyConserves(q: Queue, e: Event, policy: Policy)
    ensures var r := Apply(q, e, policy);
      Shown(r) + r.queue.pending == q.pending + Given(e)
  {
  }

  /** Conservation over one step and over the rest of a run gives
      conservation over the whole run. */
  lemma Regroup<T>(shown: seq<T>, mid: seq<T>, before: seq<T>, given: seq<T>,
                   later: seq<T>, after: seq<T>, rest: seq<T>)
    requires shown + mid == before + given
    requires later + after == mid + rest
    ensures shown + later + after == before + (given + rest)
  {
    calc {
      shown + later + after;
      shown + (later + after);
      shown + (mid + rest);
      (shown + mid) + rest;
      (before + given) + rest;
    }
  }

  /** The invariant holds after every event. */
  lemma {:induction false} RunKeepsInv(q: Queue, events: seq<Event>, policy: Policy)
    requires Inv(q)
    ensures Inv(Run(q, events, policy).queue)
    decreases |events|
  {
    if |events| > 0 {
      RunKeepsInv(Apply(q, events[0], policy).queue, events[1..], policy);
    }
  }

  /** From page load, the notes displayed are a prefix of the notes shown,
      in the same order, and nothing waits while nothing is displayed. */
  lemma DisplayedIsPrefix(events: seq<Event>, policy: Policy)
    ensures var t := Run(Idle, events, policy);
      && |t.displayed| <= |Inputs(events)|
      && t.displayed == Inputs(events)[..|t.displayed|]
      && Inv(t.queue)
  {
    RunConserves(Idle, events, policy);
    RunKeepsInv(Idle, events, policy);
    var t := Run(Idle, events, policy);
    assert t.displayed + t.queue.pending == Inputs(events);
    assert (t.displayed + t.queue.pending)[..|t.displayed|] == t.displayed;
  }

  /** `n` close events for the widgets `first`, `first + 1`, ... */
  function Closes(first: nat, n: nat): (r: seq<Event>)
    ensures |r| == n && forall i :: 0 <= i < n ==> r[i] == CloseEvent(first + i)
    decreases n
  {
    if n == 0 then [] else [CloseEvent(first)] + Closes(first + 1, n - 1)
  }

  /** Closing each displayed widget once displays every waiting note, in
      order, and leaves the queue empty: nothing waits forever. */
  lemma {:induction false} ClosingEachDrains(q: Queue, policy: Policy)
    requires q.showing && q.created > 0
    ensures var t := Run(q, Closes(q.created - 1, |q.pending|), policy);
      t.displayed == q.pending && t.queue.pending == []
    decreases |q.pending|
  {
    var events := Closes(q.created - 1, |q.pending|);
    if |q.pending| > 0 {
      var r := Apply(q, events[0], policy);
      assert r.queue.created == q.created + 1 && r.queue.showing;
      assert events[1..] == Closes(r.queue.created - 1, |r.queue.pending|);
      ClosingEachDrains(r.queue, policy);
    }
  }

  /** Under the corrected close step, a displayed notification gives way
      only to the close of its own widget. */
  lemma OwnCloseOnlyReplacesCurrent(q: Queue, e: Event)
    requires q.showing
    requires Apply(q, e, OwnCloseOnly).displayed.Some?
    ensures e == CloseEvent(q.created - 1)
  {
  }

  /** Three notes in quick succession; the first is closed twice: from the
      keyboard and then by its auto-close timer, which only `mouseenter`
      clears (or, with a mouse, by a click and by the `mouseleave` timer of an
      earlier hover, which nothing clears). The script then replaces the
      second note, which nobody closed, with the third; the corrected close
      step leaves the second on screen. */
  lemma StaleCloseExample(a: Note, b: Note, c: Note)
    ensures var events := StaleCloses(a, b, c);
      && Run(Idle, events, AsWritten).displayed == [a, b, c]
      && Run(Idle, events, OwnCloseOnly).displayed == [a, b]
      && IsCurrent(Run(Idle, events, OwnCloseOnly).queue, 1)
  {
    StaleCloseAsWritten(a, b, c);
    StaleCloseOwnOnly(a, b, c);
  }

  /** Three notes, then two closes of widget 0. */
  function StaleCloses(a: Note, b: Note, c: Note): seq<Event> {
    [ShowEvent(a), ShowEvent(b), ShowEvent(c), CloseEvent(0), CloseEvent(0)]
  }

  /** The three notes queue up behind the first. */
  lemma StaleShows(a: Note, b: Note, c: Note)
    ensures Apply(Idle, ShowEvent(a), AsWritten) == Apply(Idle, ShowEvent(a), OwnCloseOnly)
                                              == Step(Queue([], true, 1), Some(a))
    ensures Show(Queue([], true, 1), b) == Step(Queue([b], true, 1), None)
    ensures Show(Queue([b], true, 1), c) == Step(Queue([b, c], true, 1), None)
    ensures var e := StaleCloses(a, b, c);
      e[1..][1..][1..] == [CloseEvent(0), CloseEvent(0)] && e[1..][1..][1..][1..] == [CloseEvent(0)]
      && e[0] == ShowEvent(a) && e[1..][0] == ShowEvent(b) && e[1..][1..][0] == ShowEvent(c)
  {
    assert [] + [a] == [a];
    assert [] + [b] == [b];
  }

  lemma StaleCloseAsWritten(a: Note, b: Note, c: Note)
    ensures Run(Idle, StaleCloses(a, b, c), AsWritten).displayed == [a, b, c]
  {
    var e := StaleCloses(a, b, c);
    StaleShows(a, b, c);
    var q1, q2, q3 := Queue([], true, 1), Queue([b], true, 1), Queue([b, c], true, 1);
    var q4, q5 := Queue([c], true, 2), Queue([], true, 3);
    assert Run(q4, e[1..][1..][1..][1..], AsWritten) == Trace(q5, [c]);
    assert Run(q3, e[1..][1..][1..], AsWritten) == Trace(q5, [b, c]);
    assert Run(q2, e[1..][1..], AsWritten) == Trace(q5, [b, c]);
    assert Run(q1, e[1..], AsWritten) == Trace(q5, [b, c]);
  }

  lemma StaleCloseOwnOnly(a: Note, b: Note, c: Note)
    ensures Run(Idle, StaleCloses(a, b, c), OwnCloseOnly).displayed == [a, b]
    ensures IsCurrent(Run(Idle, StaleCloses(a, b, c), OwnCloseOnly).queue, 1)
  {
    var e := StaleCloses(a, b, c);
    StaleShows(a, b, c);
    var q1, q2, q3 := Queue([], true, 1), Queue([b], true, 1), Queue([b, c], true, 1);
    var q4 := Queue([c], true, 2);
    assert Run(q4, e[1..][1..][1..][1..], OwnCloseOnly) == Trace(q4, []);
    assert Run(q3, e[1..][1..][1..], OwnCloseOnly) == Trace(q4, [b]);
    assert Run(q2, e[1..][1..], OwnCloseOnly) == Trace(q4, [b]);
    assert Run(q1, e[1..], OwnCloseOnly) == Trace(q4, [b]);
  }
}
