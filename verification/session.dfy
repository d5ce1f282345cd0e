/** The input loop as a whole: a session is the sequence of events the loop
    reads, each paired with the listing of the current directory at the
    moment it is handled. The loop runs until 'q', a panic, or the end of
    the events.
 */
module Session {
  import opened Navigator
  import opened NavigatorProps

  /** One loop iteration's input: the listing the key is checked against and the event. */
  datatype Tick = Tick(listing: Listing, event: Event)

  /** The outcome of feeding `ticks` to the loop from state `s`. A session
      without a Down or Up never panics, and a right selection that starts
      empty stays empty. */
  function Run(b: Variant, s: AppState, ticks: seq<Tick>): (r: Outcome)
    ensures (forall k :: 0 <= k < |ticks| ==> !IsMove(ticks[k].event)) ==> !r.Panicked?
    ensures s.rightSelected.None? && !r.Panicked? ==> r.state.rightSelected.None?
    decreases |ticks|
  {
    if |ticks| == 0 then Continue(s)
    else
      match StepIn(b, s, ticks[0].listing, ticks[0].event)
      case Continue(t) => Run(b, t, ticks[1..])
      case other => other
  }

  /** True when some event is Down or Up handled against an empty listing. */
  ghost predicate MovesOnEmpty(ticks: seq<Tick>)
  {
    exists k :: 0 <= k < |ticks| && |ticks[k].listing| == 0 && IsMove(ticks[k].event)
  }

  /** Every state a session passes through keeps the reachable-state
      invariant; a session panics only in the loop as written, and only when
      Down or Up meets an empty listing. */
  lemma {:induction false} RunKeepsValid(b: Variant, s: AppState, ticks: seq<Tick>)
    requires Valid(s)
    ensures !Run(b, s, ticks).Panicked? ==> Valid(Run(b, s, ticks).state)
    ensures Run(b, s, ticks).Panicked? ==> b == AsWritten && MovesOnEmpty(ticks)
    decreases |ticks|
  {
    if |ticks| > 0 {
      var o := StepIn(b, s, ticks[0].listing, ticks[0].event);
      StepKeepsValid(b, s, ticks[0].listing, ticks[0].event);
      if o.Continue? {
        RunKeepsValid(b, o.state, ticks[1..]);
        if Run(b, o.state, ticks[1..]).Panicked? {
          var k :| 0 <= k < |ticks[1..]| && |ticks[1..][k].listing| == 0 && IsMove(ticks[1..][k].event);
          assert ticks[1..][k] == ticks[k + 1];
        }
      } else if o.Panicked? {
        assert |ticks[0].listing| == 0 && IsMove(ticks[0].event);
      }
    }
  }

  /** Starting from `AppState::new`, the right selection is never set, in
      whichever state the loop stops. */
  lemma RightNeverSelected(b: Variant, ticks: seq<Tick>)
    ensures !Run(b, Init(), ticks).Panicked? ==> Run(b, Init(), ticks).state.rightSelected == None
  {
    RunKeepsValid(b, Init(), ticks);
  }

  /** With the empty-directory guard, no session from `AppState::new` panics. */
  lemma GuardedSessionNeverPanics(ticks: seq<Tick>)
    ensures !Run(Guarded, Init(), ticks).Panicked?
  {
    RunKeepsValid(Guarded, Init(), ticks);
  }

  /** The guarded loop behaves exactly like the loop as written on every
      session the latter survives. */
  lemma {:induction false} GuardedRunAgrees(s: AppState, ticks: seq<Tick>)
    ensures !Run(AsWritten, s, ticks).Panicked? ==> Run(Guarded, s, ticks) == Run(AsWritten, s, ticks)
    decreases |ticks|
  {
    if |ticks| > 0 {
      GuardedAgrees(s, ticks[0].listing, ticks[0].event);
      var o := Step(s, ticks[0].listing, ticks[0].event);
      if o.Continue? {
        GuardedRunAgrees(o.state, ticks[1..]);
      }
    }
  }

  /** The session that enters an empty directory and presses Down crashes the
      loop as written; the guarded loop stays inside the directory. */
  lemma EmptyDirectorySession()
    ensures var ticks := [Tick([Entry("empty", true)], KeyPress(Enter)), Tick([], KeyPress(Down))];
      && Run(AsWritten, Init(), ticks) == Panicked(DivideByZero)
      && Run(Guarded, Init(), ticks) == Continue(AppState([".", "empty"], Some(0), None, Some([".", "empty"])))
  {
    var ticks := [Tick([Entry("empty", true)], KeyPress(Enter)), Tick([], KeyPress(Down))];
    EmptyDirectoryPanics();
    assert ticks[1..][1..] == [];
  }

  /** `run_app`: the loop from `AppState::new` over the events, stopping at
      'q', at a panic, or when the events run out. */
  method RunApp(b: Variant, ticks: seq<Tick>) returns (o: Outcome)
    ensures o == Run(b, Init(), ticks)
    ensures o.Panicked? ==> b == AsWritten
    ensures !o.Panicked? ==> o.state.rightSelected == None && o.state.leftSelected.Some?
  {
    var k := 0;
    o := Continue(Init());
    while k < |ticks| && o.Continue?
      invariant 0 <= k <= |ticks|
      invariant o.Continue? ==> Run(b, Init(), ticks) == Run(b, o.state, ticks[k..])
      invariant !o.Continue? ==> o == Run(b, Init(), ticks)
      invariant !o.Panicked? ==> Valid(o.state)
      invariant o.Panicked? ==> b == AsWritten
      decreases |ticks| - k
    {
      var tick := ticks[k];
      StepKeepsValid(b, o.state, tick.listing, tick.event);
      assert ticks[k..][0] == tick && ticks[k..][1..] == ticks[k + 1..];
      o := StepIn(b, o.state, tick.listing, tick.event);
      k := k + 1;
    }
  }
}
