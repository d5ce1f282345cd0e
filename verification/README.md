# pls navigator — a Dafny model of the navigation state machine

`pls` is a two-pane terminal file browser. The left pane lists the current
directory with one entry highlighted. The right pane previews the highlighted
entry when it is a directory. The arrow keys move the highlight, Enter goes
into a directory (or opens a file), Backspace goes to the parent, and `q`
quits. The program keeps a small `AppState` between frames:

- the current directory;
- the left and right selection indices;
- the last selected path, which is handed to the shell on exit.

This project models that state and the effect of one input event on it. The
whole model is pure functions over immutable datatypes:

- `paths.dfy` (module `Paths`): a path as a list of components, with `Push`
  and `Pop` behaving like `PathBuf::push` and `PathBuf::pop`. `"."` is `["."]`.
  Popping `"."` gives the empty path and reports true. Popping the empty path
  reports false. Pushing the empty name leaves the components unchanged, as
  `PathBuf::push("")` only adds a trailing separator. The listing reports a
  name that is not valid UTF-8 as the empty name (src/main.rs:41).
- `navigator.dfy` (module `Navigator`):
  - `AppState` and `Init` (`AppState::new`);
  - `Step(state, listing, event)`, the key handling of `run_app` as written;
  - `StepGuarded`, the same step with an empty-directory guard;
  - `RightPane`, the choice of what the right pane shows.

  The directory listing is a parameter of the step. The program lists the
  directory again every time a key needs it, so the step never stores it.
- `navigator_props.dfy` (module `NavigatorProps`): the per-key properties.
  These cover wrap-around and full cycles of Down and Up, Down and Up undoing
  each other, Enter and Backspace, the right pane agreeing with Enter, and
  exactly when a step panics.
- `session.dfy` (module `Session`): the loop over a sequence of
  (listing, event) pairs. `Run` is the recursive definition and `RunApp` is
  the loop method proved equal to it. It also holds the invariants every
  reachable state keeps.

Integer arithmetic follows Rust's checked semantics on a 64-bit target
(`usize` is at most 2^64 − 1). An overflowing `+` or `-` panics, and so does a
remainder by zero. A panic is an outcome of the step (`Panicked`), not a
precondition. Entering an empty directory is an ordinary thing to do, so the
model has to be able to show what happens next.

## Model

| member | source | states |
|---|---|---|
| Paths.Push | src/main.rs:183-186 | a non-empty name becomes the new last component after the old ones; the empty name leaves the path unchanged |
| Paths.Pop | src/main.rs:205 | Pop reports true exactly when the path has a component; the remaining path followed by that last component is the original path, and when nothing is removed the path is unchanged |
| Paths.PopPush | src/main.rs:183-186 | popping after pushing a non-empty name gives back the path it was pushed onto, and reports true; after pushing the empty name a pop goes to the parent |
| Paths.PopDot | src/main.rs:27 | the parent of the starting path "." is the empty path, and the empty path cannot be popped |
| Navigator.Init | src/main.rs:25-32 | the start state is in ".", selects index 0, has no right selection and no selected path, and has the shape every reachable state keeps |
| Navigator.Step | src/main.rs:160-211 | only 'q' leaves the loop and it keeps the state; only Down and Up can panic; only Enter and Backspace change the current directory; only Enter changes the selected path; the right selection is kept or cleared, never set; non-key events change nothing (per-key effects: the NavigatorProps lemmas) |
| Navigator.RightPane | src/main.rs:117-127 | the right pane previews a directory exactly when the left selection is set, lies inside the listing and names a directory; the preview is that entry's name pushed onto the current directory |
| NavigatorProps.QuitKey | src/main.rs:162 | 'q' ends the loop and leaves the state unchanged |
| NavigatorProps.IgnoredInput | src/main.rs:210 | other characters, other key codes and non-key events leave the state unchanged |
| NavigatorProps.DownSelectsNext | src/main.rs:163-168 | on a non-empty listing Down selects (i + 1) mod N for any selected i, which is the next index, or index 0 after the last one; the result is in range, the right selection is cleared and nothing else changes |
| NavigatorProps.UpSelectsPrevious | src/main.rs:170-176 | on a non-empty listing Up selects the previous index, or the last index from index 0; the right selection is cleared and nothing else changes |
| NavigatorProps.MoveWithoutSelection | src/main.rs:165-172 | with no left selection Down and Up change nothing, even on an empty listing |
| NavigatorProps.DownStep | src/main.rs:166 | the wrap-around remainder on an in-range index is the next index, or the first entry after the last |
| NavigatorProps.DownThenUp | src/main.rs:163-176 | Down followed by Up restores an in-range selection |
| NavigatorProps.UpThenDown | src/main.rs:163-176 | Up followed by Down restores an in-range selection |
| NavigatorProps.DownPresses | src/main.rs:163-168 | n Downs (1 ≤ n ≤ N) from index i select i + n, or i + n − N once that passes the end |
| NavigatorProps.UpPresses | src/main.rs:170-176 | n Ups (1 ≤ n ≤ N) from index i select i − n, or i − n + N once that passes the start |
| NavigatorProps.DownCycle | src/main.rs:163-168 | N Downs on a listing of N entries return the selection to where it started |
| NavigatorProps.UpCycle | src/main.rs:170-176 | N Ups on a listing of N entries return the selection to where it started |
| NavigatorProps.EnterDirectory | src/main.rs:178-201 | Enter on an in-range directory entry appends its name to the current directory, selects index 0, clears the right selection and records the new directory as the selected path |
| NavigatorProps.EnterFile | src/main.rs:194-200 | Enter on an in-range file entry only records the file's path as the selected path |
| NavigatorProps.EnterNothing | src/main.rs:180-181 | Enter with no selection or with a selection past the end of the listing changes nothing |
| NavigatorProps.BackspaceGoesUp | src/main.rs:204-209 | Backspace drops the last component of a non-empty path, selects index 0 and clears the right selection; on the empty path it changes nothing |
| NavigatorProps.EnterThenBackspace | src/main.rs:185-207 | entering a directory with a non-empty name and then pressing Backspace returns to the directory that was left, with index 0 selected; for a directory listed under the empty name the Backspace goes to the parent |
| NavigatorProps.PreviewIsEnterTarget | src/main.rs:117-127 | when the right pane previews d, Enter makes d the current directory and the selected path; when Enter moves to a new directory d, the right pane was previewing d |
| NavigatorProps.PanicCases | src/main.rs:163-176 | a step panics exactly when Down meets an empty listing or an index whose successor overflows, or Up meets an empty listing, with a selection set |
| NavigatorProps.StepKeepsValid | src/main.rs:160-211 | from a reachable-shaped state (left selection set and below the usize maximum, no right selection) every step keeps that shape; only the step as written panics, and only on Down or Up over an empty listing |
| NavigatorProps.GuardedAgrees | src/main.rs:163-176 | the guarded step equals the step as written whenever the latter does not panic, and leaves the state alone on Down or Up over an empty listing |
| NavigatorProps.EmptyDirectoryPanics | src/main.rs:166-174 | after entering an empty directory from the start state, Down divides by zero and Up underflows |
| NavigatorProps.Scenario | src/main.rs:163-188 | in "." holding a directory then a file, Down selects 1, Up selects 0 again, Enter moves into "./a_dir" with index 0 selected |
| Session.Run | src/main.rs:82-213 | a session with no Down or Up never panics, and a right selection that starts empty is empty wherever the loop stops (invariants: Session.RunKeepsValid; loop form: Session.RunApp) |
| Session.RunKeepsValid | src/main.rs:160-213 | every state a session reaches keeps the reachable shape; a session panics only with the step as written and only if some Down or Up meets an empty listing |
| Session.RightNeverSelected | src/main.rs:25-32 | starting from AppState::new, the right selection is None in whatever state the loop stops |
| Session.GuardedSessionNeverPanics | src/main.rs:163-176 | with the empty-directory guard, no session from AppState::new panics |
| Session.GuardedRunAgrees | src/main.rs:160-213 | the guarded loop gives the same outcome as the loop as written on every session the latter survives |
| Session.EmptyDirectorySession | src/main.rs:163-168 | Enter into an empty directory followed by Down crashes the loop as written, while the guarded loop stays in the directory |
| Session.RunApp | src/main.rs:160-213 | the loop from AppState::new stops at 'q', a panic or the end of the events, agrees with the recursive definition, and ends with the right selection None and a left selection set |

## Left out

- Terminal lifecycle (src/main.rs:49-65): raw mode, the alternate screen, mouse capture and the cursor are I/O on the terminal.
- Rendering (src/main.rs:83-158): layout, borders, titles, colours, the folder/file prefixes and the list widget's highlight and scrolling belong to the UI library. Only the choice of what the right pane lists is modelled.
- `event::read` (src/main.rs:160): reading an event blocks on the terminal. Events are a parameter. An error from the terminal would end the loop with an error, and that path is not modelled.
- `get_directory_contents` (src/main.rs:35-45): this is filesystem access. That covers the fallback to ".", the panic if "." cannot be listed either, the skipped unreadable entries and the enumeration order. Each step instead takes whatever listing the program would obtain. `RightPane` returns the path to preview, not that path's listing.
- `open::that` (src/main.rs:191, 196): this launches the system's default application, and its failures are only logged to standard error.
- The shell hand-off (src/main.rs:67-76): printing the loop's error and the final `cd` line depend on a filesystem `is_dir` query and on standard output.
- Path semantics beyond pushing and popping one component, or the empty name: absolute names, separators inside a name, and how a trailing separator is printed are not modelled. A directory entry's name is a single file name, so it holds no separator and is never absolute.
- Navigator.MoveUp follows Rust's checked (debug-profile) arithmetic. In a release build without overflow checks, `contents.len() - 1` on an empty listing wraps instead of panicking. Up at index 0 would then select the maximum `usize`, and a later Down would still divide by zero. The members below state the debug-profile behaviour.
- NavigatorProps.PanicCases: it states the debug-profile behaviour. In a release build the overflowing `+` and `-` wrap, and only the remainder by zero panics.
- NavigatorProps.StepKeepsValid: its panic condition includes Up over an empty listing, which panics only in the debug profile. In a release build only Down over an empty listing panics.
- Session.RunKeepsValid: it counts Up over an empty listing as a possible cause of a panic, which holds only in the debug profile.
- NavigatorProps.EmptyDirectoryPanics: its Up half (subtraction underflow) holds only in the debug profile. The Down half (remainder by zero) holds in every build.

## Findings

| source | as written | input that shows it | evidently intended | confidence | as-written member | corrected member |
|---|---|---|---|---|---|---|
| src/main.rs:163-176 | Down takes `(selected + 1) % contents.len()`, and Up evaluates `contents.len() - 1` eagerly, with no check that the listing is non-empty | from the start state, Enter on a directory that turns out to be empty (selection becomes 0), then Down (remainder by zero) or Up (subtraction underflow) | on an empty listing Down and Up leave the selection unchanged, and the loop never panics | high (not executed) | NavigatorProps.EmptyDirectoryPanics | Session.GuardedSessionNeverPanics |

The corrected step is `Navigator.StepGuarded`. `Session.Run` and
`Session.RunApp` take the step variant (`AsWritten` or `Guarded`) as a parameter.
The session invariants are proved for both variants.
`NavigatorProps.GuardedAgrees` shows that the guard changes nothing except the
steps that panic in the code as written.
