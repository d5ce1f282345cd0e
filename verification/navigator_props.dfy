/** Properties of one navigation step: what each key does to the state, how
    Down and Up wrap around and undo each other, how the right-pane preview
    relates to Enter, and when a step panics.
 */
module NavigatorProps {
  import opened Paths
  import opened Navigator

  // ----- Quit and the keys the loop ignores -----

  /** 'q' ends the loop and leaves the state as it was. */
  lemma QuitKey(s: AppState, listing: Listing)
    ensures Step(s, listing, KeyPress(Char('q'))) == Quit(s)
  {
  }

  /** Any other character, any other key code and any non-key event change nothing. */
  lemma IgnoredInput(s: AppState, listing: Listing, ev: Event)
    requires ev == OtherEvent || ev == KeyPress(OtherKey) || (ev.KeyPress? && ev.code.Char? && ev.code.c != 'q')
    ensures Step(s, listing, ev) == Continue(s)
  {
  }

  // ----- Down and Up -----

  /** Down moves the selection to `(i + 1) mod N`: the next entry, or the first
      after the last (a stale index past the end wraps the same way). It clears
      the right selection, and the new index is in range. */
  lemma DownSelectsNext(s: AppState, listing: Listing)
    requires s.leftSelected.Some? && s.leftSelected.value < USIZE_MAX && |listing| >= 1
    ensures Step(s, listing, KeyPress(Down)).Continue?
    ensures var t := Step(s, listing, KeyPress(Down)).state;
      && t.leftSelected.Some? && t.leftSelected.value < |listing|
      && t.leftSelected.value == (s.leftSelected.value + 1) % |listing|
      && (s.leftSelected.value + 1 < |listing| ==> t.leftSelected.value == s.leftSelected.value + 1)
      && (s.leftSelected.value + 1 == |listing| ==> t.leftSelected.value == 0)
      && t == s.(leftSelected := t.leftSelected, rightSelected := None)
  {
  }

  /** Up moves the selection to the previous entry, from the first entry to the
      last, and clears the right selection. */
  lemma UpSelectsPrevious(s: AppState, listing: Listing)
    requires s.leftSelected.Some? && |listing| >= 1
    ensures Step(s, listing, KeyPress(Up)).Continue?
    ensures var t := Step(s, listing, KeyPress(Up)).state;
      && t.leftSelected.Some?
      && (s.leftSelected.value == 0 ==> t.leftSelected.value == |listing| - 1)
      && (s.leftSelected.value > 0 ==> t.leftSelected.value == s.leftSelected.value - 1)
      && t == s.(leftSelected := t.leftSelected, rightSelected := None)
  {
  }

  /** Without a left selection Down and Up do nothing, whatever the listing. */
  lemma MoveWithoutSelection(s: AppState, listing: Listing, ev: Event)
    requires s.leftSelected.None? && IsMove(ev)
    ensures Step(s, listing, ev) == Continue(s)
  {
  }

  /** Down then Up returns to the entry that was selected. */
  lemma DownThenUp(s: AppState, listing: Listing)
    requires s.leftSelected.Some? && s.leftSelected.value < |listing|
    ensures Step(s, listing, KeyPress(Down)).Continue?
    ensures Step(Step(s, listing, KeyPress(Down)).state, listing, KeyPress(Up))
      == Continue(s.(rightSelected := None))
  {
  }

  /** Up then Down returns to the entry that was selected. */
  lemma UpThenDown(s: AppState, listing: Listing)
    requires s.leftSelected.Some? && s.leftSelected.value < |listing|
    ensures Step(s, listing, KeyPress(Up)).Continue?
    ensures Step(Step(s, listing, KeyPress(Up)).state, listing, KeyPress(Down))
      == Continue(s.(rightSelected := None))
  {
    DownStep(Step(s, listing, KeyPress(Up)).state, listing);
  }

  /** The same key pressed `n` times against an unchanging listing, stopping
      at the first step that does not continue. */
  function Presses(s: AppState, listing: Listing, k: Key, n: nat): Outcome
  {
    if n == 0 then Continue(s)
    else
      match Presses(s, listing, k, n - 1)
      case Continue(t) => Step(t, listing, KeyPress(k))
      case other => other
  }

  /** Down from an in-range index, without `%`: the next index, or the first
      entry after the last. */
  lemma DownStep(s: AppState, listing: Listing)
    requires s.leftSelected.Some? && s.leftSelected.value < |listing|
    ensures var i := s.leftSelected.value;
      Step(s, listing, KeyPress(Down))
        == Continue(s.(leftSelected := Some(if i + 1 < |listing| then i + 1 else 0), rightSelected := None))
  {
    NextIndex(s.leftSelected.value, |listing|);
  }

  lemma NextIndex(i: int, n: int)
    requires 0 <= i < n
    ensures (i + 1) % n == if i + 1 < n then i + 1 else 0
  {
    if i + 1 == n {
      assert (i + 1) % n == n % n;
    }
  }

  /** `n` Downs from index `i`, for `n` up to one full turn, count forward
      from `i` and carry on from the first entry after the last. */
  lemma {:induction false} DownPresses(s: AppState, listing: Listing, n: nat)
    requires s.leftSelected.Some? && s.leftSelected.value < |listing| && 1 <= n <= |listing|
    ensures var i := s.leftSelected.value;
      Presses(s, listing, Down, n)
        == Continue(s.(leftSelected := Some(if i + n < |listing| then i + n else i + n - |listing|),
                       rightSelected := None))
  {
    if n > 1 {
      DownPresses(s, listing, n - 1);
      DownStep(Presses(s, listing, Down, n - 1).state, listing);
    } else {
      DownStep(s, listing);
    }
  }

  /** `n` Ups from index `i`, for `n` up to one full turn, count backward
      from `i` and carry on from the last entry before the first. */
  lemma {:induction false} UpPresses(s: AppState, listing: Listing, n: nat)
    requires s.leftSelected.Some? && s.leftSelected.value < |listing| && 1 <= n <= |listing|
    ensures var i := s.leftSelected.value;
      Presses(s, listing, Up, n)
        == Continue(s.(leftSelected := Some(if n <= i then i - n else i - n + |listing|),
                       rightSelected := None))
  {
    if n > 1 {
      UpPresses(s, listing, n - 1);
    }
  }

  /** Pressing Down once per entry brings the selection back where it started. */
  lemma DownCycle(s: AppState, listing: Listing)
    requires s.leftSelected.Some? && s.leftSelected.value < |listing|
    ensures Presses(s, listing, Down, |listing|) == Continue(s.(rightSelected := None))
  {
    DownPresses(s, listing, |listing|);
  }

  /** Pressing Up once per entry brings the selection back where it started. */
  lemma UpCycle(s: AppState, listing: Listing)
    requires s.leftSelected.Some? && s.leftSelected.value < |listing|
    ensures Presses(s, listing, Up, |listing|) == Continue(s.(rightSelected := None))
  {
    UpPresses(s, listing, |listing|);
  }

  // ----- Enter and Backspace -----

  /** Enter on a directory entry goes into it, selects its first entry and
      records it as the selected path. */
  lemma EnterDirectory(s: AppState, listing: Listing)
    requires s.leftSelected.Some? && s.leftSelected.value < |listing|
    requires listing[s.leftSelected.value].isDir
    ensures var child := Push(s.currentDir, listing[s.leftSelected.value].name);
      Step(s, listing, KeyPress(Enter))
        == Continue(AppState(child, Some(0), None, Some(child)))
  {
  }

  /** Enter on a file entry only records it as the selected path. */
  lemma EnterFile(s: AppState, listing: Listing)
    requires s.leftSelected.Some? && s.leftSelected.value < |listing|
    requires !listing[s.leftSelected.value].isDir
    ensures Step(s, listing, KeyPress(Enter))
      == Continue(s.(selectedPath := Some(Push(s.currentDir, listing[s.leftSelected.value].name))))
  {
  }

  /** Enter with no selection, or one past the end of the listing, does nothing. */
  lemma EnterNothing(s: AppState, listing: Listing)
    requires s.leftSelected.None? || s.leftSelected.value >= |listing|
    ensures Step(s, listing, KeyPress(Enter)) == Continue(s)
  {
  }

  /** Backspace goes to the parent and selects its first entry when the
      current path has a last component, and otherwise does nothing. */
  lemma BackspaceGoesUp(s: AppState, listing: Listing)
    ensures |s.currentDir| > 0 ==>
      && Step(s, listing, KeyPress(Backspace)).Continue?
      && var t := Step(s, listing, KeyPress(Backspace)).state;
         && t.currentDir + [s.currentDir[|s.currentDir| - 1]] == s.currentDir
         && t == s.(currentDir := t.currentDir, leftSelected := Some(0), rightSelected := None)
    ensures |s.currentDir| == 0 ==> Step(s, listing, KeyPress(Backspace)) == Continue(s)
  {
  }

  /** Entering a directory and pressing Backspace returns to the directory
      entered from, with the first entry selected. A directory listed under
      the empty name is entered without changing the components, so the
      Backspace after it goes to the parent instead. */
  lemma EnterThenBackspace(s: AppState, listing: Listing, parent: Listing)
    requires s.leftSelected.Some? && s.leftSelected.value < |listing|
    requires listing[s.leftSelected.value].isDir
    ensures Step(s, listing, KeyPress(Enter)).Continue?
    ensures var t := Step(Step(s, listing, KeyPress(Enter)).state, parent, KeyPress(Backspace));
      && t.Continue?
      && (listing[s.leftSelected.value].name != "" ==>
            t.state.currentDir == s.currentDir && t.state.leftSelected == Some(0))
      && (listing[s.leftSelected.value].name == "" ==> t.state.currentDir == Pop(s.currentDir).path)
  {
    PopPush(s.currentDir, listing[s.leftSelected.value].name);
  }

  // ----- The right pane -----

  /** The right pane previews exactly the directory Enter would go into:
      whenever it shows `d`, Enter moves the current directory to `d` and
      records `d` as the selected path; and whenever Enter moves the current
      directory somewhere new, the right pane was showing that directory. */
  lemma PreviewIsEnterTarget(s: AppState, listing: Listing, d: Path)
    ensures RightPane(s, listing) == Preview(d) ==>
      && Step(s, listing, KeyPress(Enter)).Continue?
      && Step(s, listing, KeyPress(Enter)).state.currentDir == d
      && Step(s, listing, KeyPress(Enter)).state.selectedPath == Some(d)
    ensures
      && Step(s, listing, KeyPress(Enter)).Continue?
      && Step(s, listing, KeyPress(Enter)).state.currentDir == d
      && d != s.currentDir
      ==> RightPane(s, listing) == Preview(d)
  {
    var o := Step(s, listing, KeyPress(Enter));
    if o.Continue? && o.state.currentDir == d && d != s.currentDir {
      assert s.leftSelected.Some?;
      assert s.leftSelected.value < |listing|;
      assert listing[s.leftSelected.value].isDir;
    }
  }

  // ----- Panics and the reachable states -----

  /** Exactly when a step of the loop as written panics: Down from an index
      whose successor overflows or on an empty listing, Up on an empty
      listing; nothing else panics. */
  lemma PanicCases(s: AppState, listing: Listing, ev: Event)
    ensures Step(s, listing, ev).Panicked? <==>
      && s.leftSelected.Some?
      && ( (ev == KeyPress(Down) && (|listing| == 0 || s.leftSelected.value == USIZE_MAX))
        || (ev == KeyPress(Up) && |listing| == 0))
  {
  }

  /** Every step keeps the reachable-state invariant, so the right selection
      stays empty; from such a state the as-written step panics exactly on
      Down or Up over an empty listing and the guarded step never panics. */
  lemma StepKeepsValid(b: Variant, s: AppState, listing: Listing, ev: Event)
    requires Valid(s)
    ensures !StepIn(b, s, listing, ev).Panicked? ==> Valid(StepIn(b, s, listing, ev).state)
    ensures StepIn(b, s, listing, ev).Panicked? <==> b == AsWritten && |listing| == 0 && IsMove(ev)
  {
  }

  /** The guarded step differs from the step as written only where the latter panics. */
  lemma GuardedAgrees(s: AppState, listing: Listing, ev: Event)
    ensures !Step(s, listing, ev).Panicked? ==> StepGuarded(s, listing, ev) == Step(s, listing, ev)
    ensures |listing| == 0 && IsMove(ev) ==> StepGuarded(s, listing, ev) == Continue(s)
  {
  }

  /** The state right after entering an empty directory panics on Down and on Up. */
  lemma EmptyDirectoryPanics()
    ensures var inside := Step(Init(), [Entry("empty", true)], KeyPress(Enter));
      && inside == Continue(AppState([".", "empty"], Some(0), None, Some([".", "empty"])))
      && Step(inside.state, [], KeyPress(Down)) == Panicked(DivideByZero)
      && Step(inside.state, [], KeyPress(Up)) == Panicked(SubOverflow)
  {
    assert Push(Dot, "empty") == [".", "empty"];
  }

  // ----- A worked scenario -----

  /** In "." holding a directory then a file: Down selects the file, Up the
      directory again, and Enter goes into the directory with its first
      entry selected. */
  lemma Scenario()
    ensures var listing: Listing := [Entry("a_dir", true), Entry("b_file.txt", false)];
      var down := Step(Init(), listing, KeyPress(Down));
      && down == Continue(Init().(leftSelected := Some(1)))
      && var up := Step(down.state, listing, KeyPress(Up));
      && up == Continue(Init())
      && Step(up.state, listing, KeyPress(Enter)) == Continue(AppState([".", "a_dir"], Some(0), None, Some([".", "a_dir"])))
  {
    var listing: Listing := [Entry("a_dir", true), Entry("b_file.txt", false)];
    DownStep(Init(), listing);
    assert Push(Dot, "a_dir") == [".", "a_dir"];
  }
}
