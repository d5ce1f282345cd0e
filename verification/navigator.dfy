/** The navigation state machine of the two-pane file browser: the state it
    keeps between frames, the effect of one input event on that state, and the
    choice of what the right pane previews.

    The directory listing is an argument: the program lists the current
    directory afresh whenever a key needs it, so the step never stores it.
    Integer arithmetic follows Rust's checked semantics on a 64-bit target:
    an overflowing `+` or `-` and a remainder by zero panic.
 */
module Navigator {
  import opened Paths

  datatype Option<T> = None | Some(value: T)

  const USIZE_MAX: int := 0xFFFF_FFFF_FFFF_FFFF

  type usize = x: int | 0 <= x <= USIZE_MAX

  /** One directory entry: its file name and whether it is a directory. */
  datatype Entry = Entry(name: string, isDir: bool)

  /** A directory listing in enumeration order; its length is a `usize`. */
  type Listing = l: seq<Entry> | |l| <= USIZE_MAX witness []

  datatype AppState = AppState(
    currentDir: Path,
    leftSelected: Option<usize>,
    rightSelected: Option<usize>,
    selectedPath: Option<Path>)

  /** `AppState::new`: in ".", the first entry selected, nothing on the
      right and no path chosen yet. */
  function Init(): (r: AppState)
    ensures Valid(r)
    ensures r.currentDir == Dot && r.leftSelected == Some(0) && r.selectedPath == None
  {
    AppState(Dot, Some(0), None, None)
  }

  /** The shape every state reached from `Init` keeps: a left selection that
      `+ 1` cannot overflow, and no right selection (no key ever sets one). */
  predicate Valid(s: AppState)
  {
    s.leftSelected.Some? && s.leftSelected.value < USIZE_MAX && s.rightSelected.None?
  }

  /** The key codes the loop distinguishes; every other key code is `OtherKey`. */
  datatype Key = Char(c: char) | Down | Up | Enter | Backspace | OtherKey

  /** A terminal event: a key press, or anything else (mouse, resize, focus). */
  datatype Event = KeyPress(code: Key) | OtherEvent

  datatype Panic = DivideByZero | AddOverflow | SubOverflow

  /** What one loop iteration ends in: keep looping in a state, return from
      the loop (the 'q' key) leaving a state, or panic. */
  datatype Outcome = Continue(state: AppState) | Quit(state: AppState) | Panicked(reason: Panic)

  /** Down: `(selected + 1) % contents.len()`, evaluated left to right. */
  function MoveDown(s: AppState, listing: Listing): Outcome
  {
    match s.leftSelected
    case None => Continue(s)
    case Some(i) =>
      if i + 1 > USIZE_MAX then Panicked(AddOverflow)
      else if |listing| == 0 then Panicked(DivideByZero)
      else Continue(s.(leftSelected := Some((i + 1) % |listing|), rightSelected := None))
  }

  /** Up: `selected.checked_sub(1).unwrap_or(contents.len() - 1)`; the
      fallback is an ordinary argument, so `len() - 1` is evaluated first,
      whatever `selected` is. */
  function MoveUp(s: AppState, listing: Listing): Outcome
  {
    match s.leftSelected
    case None => Continue(s)
    case Some(i) =>
      if |listing| == 0 then Panicked(SubOverflow)
      else
        var fallback := |listing| - 1;
        Continue(s.(leftSelected := Some(if i >= 1 then i - 1 else fallback), rightSelected := None))
  }

  /** Enter: a directory entry is entered and recorded as the selected path;
      a file entry is only recorded (and handed to the system opener, which
      is outside this model). No selection, or a stale one, does nothing. */
  function Open(s: AppState, listing: Listing): Outcome
  {
    match s.leftSelected
    case None => Continue(s)
    case Some(i) =>
      if i < |listing| then
        var target := Push(s.currentDir, listing[i].name);
        if listing[i].isDir then
          Continue(s.(currentDir := target, leftSelected := Some(0), rightSelected := None,
                      selectedPath := Some(target)))
        else
          Continue(s.(selectedPath := Some(target)))
      else Continue(s)
  }

  /** Backspace: go to the parent when the current path has a component to drop. */
  function GoUp(s: AppState): Outcome
  {
    var p := Pop(s.currentDir);
    if p.changed then Continue(s.(currentDir := p.path, leftSelected := Some(0), rightSelected := None))
    else Continue(s)
  }

  /** One iteration of the input half of the loop, as written. `listing` is
      what listing the current directory yields when the event arrives.
      Only 'q' leaves the loop, and it leaves the state untouched; only Down
      and Up can panic; only Enter and Backspace change the directory; the
      right selection is either
      kept or cleared, never set; and non-key events change nothing. */
  function Step(s: AppState, listing: Listing, ev: Event): (r: Outcome)
    ensures r.Quit? <==> ev == KeyPress(Char('q'))
    ensures r.Quit? ==> r.state == s
    ensures r.Panicked? ==> IsMove(ev)
    ensures ev == OtherEvent ==> r == Continue(s)
    ensures r.Continue? ==> r.state.rightSelected == s.rightSelected || r.state.rightSelected == None
    ensures r.Continue? && r.state.currentDir != s.currentDir ==>
      ev == KeyPress(Enter) || ev == KeyPress(Backspace)
    ensures r.Continue? && r.state.selectedPath != s.selectedPath ==> ev == KeyPress(Enter)
  {
    match ev
    case OtherEvent => Continue(s)
    case KeyPress(k) =>
      match k
      case Char(c) => if c == 'q' then Quit(s) else Continue(s)
      case Down => MoveDown(s, listing)
      case Up => MoveUp(s, listing)
      case Enter => Open(s, listing)
      case Backspace => GoUp(s)
      case OtherKey => Continue(s)
  }

  /** True for the two keys whose handling divides by or subtracts from the listing length. */
  predicate IsMove(ev: Event)
  {
    ev == KeyPress(Down) || ev == KeyPress(Up)
  }

  /** The step with an empty-directory guard: Down and Up on an empty listing
      leave the state alone instead of panicking. */
  function StepGuarded(s: AppState, listing: Listing, ev: Event): Outcome
  {
    if |listing| == 0 && IsMove(ev) then Continue(s) else Step(s, listing, ev)
  }

  /** Which of the two steps a session runs. */
  datatype Variant = AsWritten | Guarded

  function StepIn(b: Variant, s: AppState, listing: Listing, ev: Event): Outcome
  {
    match b
    case AsWritten => Step(s, listing, ev)
    case Guarded => StepGuarded(s, listing, ev)
  }

  /** What the right pane shows: the contents of a child directory, or nothing. */
  datatype Pane = Preview(dir: Path) | Blank

  /** The right pane previews the highlighted entry when it is a directory of
      the current listing; a file, a stale index or no selection gives an
      empty pane. */
  function RightPane(s: AppState, listing: Listing): (p: Pane)
    ensures p.Preview? <==>
      s.leftSelected.Some? && s.leftSelected.value < |listing| && listing[s.leftSelected.value].isDir
    ensures p.Preview? && listing[s.leftSelected.value].name != "" ==>
      Pop(p.dir) == Popped(s.currentDir, true) && p.dir[|p.dir| - 1] == listing[s.leftSelected.value].name
    ensures p.Preview? && listing[s.leftSelected.value].name == "" ==> p.dir == s.currentDir
  {
    match s.leftSelected
    case None => Blank
    case Some(idx) =>
      if idx < |listing| && listing[idx].isDir then
        PopPush(s.currentDir, listing[idx].name);
        Preview(Push(s.currentDir, listing[idx].name))
      else Blank
  }
}
