# Authbox scheduling core in Dafny

This project models three sequential cores of the authbox appliance software
and proves properties about them.

- **Display** (`display.dfy`) is the diffed character-display renderer.
  - A `CharacterDisplay` holds a line template, the substitution bindings of the current state, and a cache of the lines last sent to the hardware.
  - `Refresh` formats the template. It clears the screen when the update is not a minor one, then rewrites only the lines that differ from the (possibly blanked) cache.
  - The driver is observed as an append-only trace of `Clear | Move(line, col) | Write(text)`, in `TraceDriver`.
  - Text is cut to the 16-character line budget.
  - `str.format` is a function-valued field, `format`, of the display and is otherwise unspecified.
  - A substitution value is either a literal or a provider. A provider's result at each render is an input, `poll`.
- **Timer** (`timer.dfy`) is the deferred-task scheduler.
  - The heap is a binary min-heap of `(deadline, task)` entries in a growable array.
  - Each task has a cancellation flag. The flag is checked only when the task is invoked, so cancelled entries stay in the heap until their deadline (lazy deletion).
  - `Drain` models one pass of the scheduler's inner loop. It pops and invokes every entry due at the current clock reading plus the one-tick fudge, and stops at the first entry that is not due.
  - Time is in integer ticks of one millisecond. The clock reading of each check is an input, `clock`. Whether a task's function raises is an input, `raises`.
- **Dispatcher** (`dispatcher.dfy`) is the authbox dispatcher.
  - Loading a configured peripheral does the following:
    - splits the configured value on colons;
    - takes the first class-registry entry whose name ends with a dot and the class name;
    - splits that entry at its last dot, as `_import` does;
    - appends the new object to `threads`.
  - The main loop is seen over a finite run of queue fetches. It runs the actions in queue order, one call each. It stops at the shutdown sentinel or at Ctrl-C. An action that raises does not stop it.
  - The retry loop of a worker thread is modelled too.

`wrappers.dfy` holds `Option` and `Result`. `seqs.dfy` holds one regrouping fact about concatenation that the other modules call on explicitly.

Behaviour worth noting:

- Entering a state with a `seq` entry starts no sequence. `_startsequence` has an empty body (software/display/display.py:45-47). So such a state makes no driver call and keeps the current template, and no frame advance is modelled.
- `setstate` arms no refresh timers and cancels none.
- `setstate` replaces the bindings before it looks the state up. So an unknown state name fails with the new bindings already installed.

## Model

| member | source | states |
|---|---|---|
| Display.SliceTo | software/display/display.py:85 | Python's `msg[:k]` is a prefix of `msg`. For `k >= 0` its length is `min(k, len(msg))`. For a negative `k` it drops `-k` characters from the end, so its length is `max(0, len(msg) + k)`. |
| Display.Fit | software/display/display.py:83-85 | The written text is a prefix of the message. It is the message itself when the message fits from column `col`. For `0 <= col <= 16` it never runs past the line, and when it had to be cut it ends exactly at the line's end. |
| Display.TraceDriver.Clear | software/display/display.py:74-75 | `clear` appends exactly one clear call to the driver trace. |
| Display.TraceDriver.Move | software/display/display.py:77-78 | `move(line, col)` appends exactly one move call with those coordinates. |
| Display.TraceDriver.Write | software/display/display.py:80-81 | `write(msg)` appends exactly one write call with that text. |
| Display.TraceDriver.WriteAt | software/display/display.py:83-87 | `writeat` makes exactly two calls: a move to `(line, col)`, then one write of the fitted text. |
| Display.TraceDriver.WriteLine | software/display/display.py:89-90 | `writeline` is `writeat` at column 0. |
| Display.RenderShape | software/display/display.py:86-90 | A series of `writeline` calls is two driver calls per line: a move to column 0 at even positions and the fitted write at odd positions. There is never a clear among them. |
| Display.EvaluateAll | software/display/display.py:22 | The keyword arguments of a render have exactly the names of the bindings. |
| Display.Evaluate | software/display/display.py:68-69 | `_refresh(v)` gives a literal as it is, and calls a provider to get its current result. |
| Display.LiteralArgsIgnorePoll | software/display/display.py:68-69 | With only literal bindings, a render's arguments do not depend on when it happens. |
| Display.CharacterDisplay.FormattedLines | software/display/display.py:20-24 | There is one formatted line per template line. Line `i` is `format(template[i], args)`, with every binding evaluated once for the whole render. |
| Display.CharacterDisplay.constructor | software/display/display.py:4-9 | A new display has no template, no bindings and an empty cache. |
| Display.CharacterDisplay.Refresh | software/display/display.py:26-42 | After a refresh the cache is exactly the freshly formatted lines, so its length is the template's. Template and bindings are unchanged. The driver receives exactly `RefreshCalls(new, old cache)`: nothing if the lines are unchanged, otherwise an optional clear followed by the line writes. |
| Display.CharacterDisplay.WriteChangedLines | software/display/display.py:36-40 | The loop of a refresh issues, in index order, one `writeline` for each line that is beyond the cache or differs from it, and nothing else. |
| Display.NeedsClear | software/display/display.py:32 | The full-clear test holds whenever the line count changes. With equal counts it holds exactly when every position shows a different line. When nothing changed it holds only for no lines at all, a case `refresh` has already returned on. |
| Display.Rewrites | software/display/display.py:36-40 | The rewrites over the first `n` lines are at most `n` pairs, one at most per line. Which pairs they are is stated by Display.RewritesExactly. |
| Display.Written | software/display/display.py:28-40 | A refresh that changes nothing writes nothing. Otherwise it writes at most as many pairs as there are new lines, each naming a new line and carrying its text. That no line is written twice follows from the ascending order proved by Display.WritesWithoutClear and Display.WritesAfterClear. |
| Display.RefreshCalls | software/display/display.py:28-40 | A refresh that changes nothing makes no driver call. Otherwise it makes one call for a clear, when the full-clear test holds, plus two calls per written line. |
| Display.ClearIssuedExactly | software/display/display.py:29-34 | A clear is issued if and only if the lines changed and either the line count differs or no position holds equal lines. It is issued at most once, and only as the first call. |
| Display.RewritesExactly | software/display/display.py:36-40 | The lines rewritten over a baseline are exactly the changed ones, each with its new text, in strictly ascending index order. So each line is written at most once. |
| Display.WritesWithoutClear | software/display/display.py:32-40 | Without a clear, the line counts agree. Exactly the lines that differ from the cache are written, in ascending order, and equal lines are never rewritten. |
| Display.WritesAfterClear | software/display/display.py:32-40 | After a clear the cache is blanked to its old length. Every line at or beyond that length is written, and below it exactly the non-empty lines are written, in ascending order. |
| Display.BlankingClearsOnly | software/display/display.py:64-65 | Switching to no lines from a non-empty cache is one clear and nothing else. |
| Display.NextTemplate | software/display/display.py:60-65 | A state's `lines` take priority. A `seq` state keeps the current template. A state with neither key has no lines. |
| Display.CharacterDisplay.SetLines | software/display/display.py:15-18 | Installs the template and then refreshes, with the driver calls of that refresh. |
| Display.CharacterDisplay.SetState | software/display/display.py:49-65 | The bindings are always replaced. The call fails if and only if the state is unknown, and then nothing else changes. A state with `lines`, or with neither key, sets the template and refreshes. A `seq` state changes neither the template nor the cache and makes no driver calls. |
| Display.CharacterDisplay.StartSequence | software/display/display.py:45-47 | Starting a sequence changes nothing. |
| Timer.RootIsLeast | software/display/timer_thread.py:11-12 | In a heap-ordered layout the first entry is at or below every entry. |
| Timer.RootIsMinimum | software/display/timer_thread.py:11-12 | The first entry of a heap is a least element of its contents. |
| Timer.Heap.IsEmpty | software/display/timer_thread.py:61 | The heap is falsy if and only if it holds no entry. |
| Timer.Heap.First | software/display/timer_thread.py:63 | `heap[0]` is held by the heap and is at or below every entry held. |
| Timer.Heap.constructor | software/display/timer_thread.py:58 | `run()` starts from a new, empty heap, which satisfies the heap property. |
| Timer.Heap.Put | software/display/timer_thread.py:9-10 | Adds exactly one entry, so the contents are the old contents plus `e`. It keeps the heap property, growing the array when it is full. |
| Timer.Heap.Pop | software/display/timer_thread.py:11-12 | Returns a least entry of the old contents and removes exactly that one entry. It keeps the heap property. |
| Timer.Heap.SiftUp | software/display/timer_thread.py:10 | Restores the heap property from the state after an append, without changing the contents. |
| Timer.Heap.SiftDown | software/display/timer_thread.py:12 | Restores the heap property from the state after the root was replaced, without changing the contents. |
| Timer.TimerThread.constructor | software/display/timer_thread.py:32-34 | The scheduler starts with an empty intake queue, no tasks and no calls. The heap it also holds is the one `run()` creates, which starts empty (see Timer.Heap.constructor). |
| Timer.TimerThread.Add | software/display/timer_thread.py:36-49 | Creates a new uncancelled task. It queues exactly one entry `(now + timeout, task)` and returns the handle that cancels that task. |
| Timer.TimerThread.Cancel | software/display/timer_thread.py:21-22 | Sets only that task's flag, which makes it idempotent. It leaves the entry where it is. |
| Timer.TimerThread.Invoke | software/display/timer_thread.py:24-26 | Invoking a task calls its function once if it is uncancelled, and not at all otherwise. |
| Timer.Invocation | software/display/timer_thread.py:24-26 | Invoking a task makes at most one call. It makes none exactly when the task is cancelled, and otherwise one call of that task with its own outcome. |
| Timer.InvocationsExactly | software/display/timer_thread.py:24-26 | The calls made for fired entries are exactly those of their uncancelled tasks, each with its own outcome. A cancelled task's function is never called. |
| Timer.CancelIsFinal | software/display/timer_thread.py:21-26 | After `cancel`, no invocation calls that task, and every other task is called as before. |
| Timer.TimerThread.FireFirst | software/display/timer_thread.py:65-67 | Pops a least entry and invokes its task. The entry leaves the heap even when the task raises. |
| Timer.FiredStep | software/display/timer_thread.py:61-68 | Firing a least, due entry extends a pass: the fired entries stay in order and none is above what is left. |
| Timer.Heap.FirstDue | software/display/timer_thread.py:61-64 | The loop goes on exactly when the heap is non-empty and its first deadline is at most the fudged clock reading. When it stops, no entry held is due. |
| Timer.TimerThread.FireDue | software/display/timer_thread.py:62-68 | One iteration fires the due first entry. It keeps the pass invariant: everything fired so far plus the heap is the starting contents, fired entries are due at their own checks, in order, and at or below what is left. The calls grow by exactly that entry's invocation. |
| Timer.FiredBelowRest | software/display/timer_thread.py:61-68 | During a pass, every entry already popped is at or below every entry still in the heap. |
| Timer.TimerThread.Drain | software/display/timer_thread.py:61-70 | One pass pops entries in nondecreasing `(deadline, task)` order, and every popped entry is at or below every entry left in the heap. Each popped entry is due at its own check, so its deadline is at most the clock reading plus the fudge. Together with what is left it makes up exactly the old contents. Everything left is not due at the final check. The calls are exactly those of the uncancelled fired tasks, in order. Raising affects only the calls. |
| Timer.TimerThread.Receive | software/display/timer_thread.py:73-78 | Every entry taken from the intake queue is pushed onto the heap and none is dropped. An empty intake changes nothing. The heap keeps its array or gets a fresh one, so receiving and draining can follow one another as `run()` does. |
| Timer.TimerThread.NextTimeout | software/display/timer_thread.py:61-72 | There is no wait bound if and only if the heap is empty. Otherwise the bound is the least deadline held. |
| Dispatcher.Split | software/authbox/api.py:60 | `str.split(':')` gives at least one piece, no piece holds a colon, and joining the pieces with colons gives the string back. |
| Dispatcher.SplitAtFirst | software/authbox/api.py:60 | Splitting at the first colon gives the text before it as the first piece, followed by the pieces of the text after it. |
| Dispatcher.SplitJoin | software/authbox/api.py:60 | Splitting a colon-joined list of colon-free pieces gives the pieces back. This is the other direction of the round trip. |
| Dispatcher.SplitModule | software/authbox/api.py:139-140 | `rsplit('.', 1)` unpacks only when there is a dot. Module, dot and attribute rebuild the name, and the attribute holds no dot, so the split is at the last dot. |
| Dispatcher.NamedEntrySplits | software/authbox/api.py:62-64 | A registry entry that names a class always splits. When the class name has no dot, the imported attribute is that class name. |
| Dispatcher.EndsWith | software/authbox/api.py:63 | `entry.endswith(suffix)` holds exactly when the suffix is no longer than the entry and the entry is its head followed by the suffix. |
| Dispatcher.FindClass | software/authbox/api.py:62-69 | The loop finds the first registry entry that ends with `'.' + cls`, or reports that no entry does. |
| Dispatcher.Instantiate | software/authbox/api.py:71 | The object is built from the module and class of the entry, with the configured name and the remaining option pieces as arguments. |
| Dispatcher.BaseDispatcher.constructor | software/authbox/api.py:51-54 | A new dispatcher keeps its configuration and has no threads. |
| Dispatcher.BaseDispatcher.LoadConfigObject | software/authbox/api.py:56-73 | A missing section or option fails first. Otherwise the load fails, with `UnknownItem`, if and only if no registry entry names the first piece. On success the object comes from the first entry naming it and takes the remaining pieces as arguments; it is set as an attribute and appended to `threads`, which grows by exactly one at the end. A failure changes nothing. |
| Dispatcher.BaseDispatcher.RunLoop | software/authbox/api.py:75-97 | Starts every loaded object in order. It then makes exactly the calls of `Dispatch(fetches)` and consumes exactly `Consumed(fetches)` fetches. |
| Dispatcher.RunOf | software/authbox/api.py:91-95 | A fetched item yields at most one call. It yields one exactly when it is an action, and that call has the action's function, its arguments and the outcome. |
| Dispatcher.Dispatch | software/authbox/api.py:80-95 | The loop makes at most one call per fetch. Only the last call can be one that Ctrl-C interrupted, because such a call ends the loop. |
| Dispatcher.Consumed | software/authbox/api.py:80-96 | The loop takes fetches up to and including the first that stops it: the sentinel, Ctrl-C, or an action interrupted by Ctrl-C. With no such fetch it takes all of them. |
| Dispatcher.DispatchRunsConsumedActions | software/authbox/api.py:80-95 | The calls are exactly the actions among the consumed fetches, one call each, in queue order. |
| Dispatcher.DispatchAcross | software/authbox/api.py:83-95 | Over fetches none of which stops the loop, every action runs and the loop carries on with the rest. |
| Dispatcher.ShutdownIgnoresRest | software/authbox/api.py:87-88 | Nothing queued after the shutdown sentinel runs, whatever it is. |
| Dispatcher.TimeoutIsInert | software/authbox/api.py:83-86 | An empty-queue timeout runs nothing and does not end the loop. |
| Dispatcher.ActionDoesNotStopLoop | software/authbox/api.py:91-95 | An action that returns or raises runs once. Every later item then runs exactly as if it had not raised. |
| Dispatcher.RunWorker | software/authbox/api.py:112-117 | The inner loop is re-run after every return and every `Exception`, printing one traceback per `Exception`. Only an outcome that escapes `except Exception` ends the thread. Ctrl-C's `KeyboardInterrupt` is delivered to the main thread only, so for a worker that outcome is something like `SystemExit`. |

## Left out

- Threads and blocking: thread start, daemon flags, `Queue.get` and its timeouts, and interleaving between threads. Each loop is seen over a finite, given run of its inputs. For the main loop that is the fetches, for a worker its outcomes, for the scheduler its clock readings.
- Dispatcher.BaseDispatcher.RunLoop: stops when the given fetches run out, where the real loop would block on the queue forever.
- Timer.TimerThread.Drain: models one pass of the inner loop. The outer loop that waits on the intake queue is left out. That wait passes the absolute deadline `heap[0][0]` as a relative timeout (software/display/timer_thread.py:63, timer_thread.py:74).
- `TimerThread.__init__` never calls the thread base initialiser (software/display/timer_thread.py:32-34). This is not modelled.
- Time: wall-clock seconds as floats become integer ticks of one millisecond. The 1e-3 fudge becomes one tick.
- Timer.Le: orders entries with the same deadline by task handle, in order of creation. Python 2 compares the `_Task` objects themselves, in an order that is not specified. Which of two equally-timed tasks fires first can therefore differ from the source.
- Timer.Heap.Pop: uses the textbook sift-down. `heapq.heappop` sifts the hole to a leaf and then back up. The popped entry and the contents agree with the source, but the array layout afterwards can differ.
- Timer.TimerThread.Invoke: a task's function, its arguments and keyword arguments are not modelled. Only whether it raises is modelled, and the bare `except` catches everything.
- Tasks that add or cancel other tasks while the scheduler runs them are not modelled.
- Display: the hardware behind `clear`, `move` and `write` is not modelled. The abstract driver raises `NotImplementedError`, and the trace stands in for a concrete driver.
- Display.CharacterDisplay.FormattedLines: `str.format` is uninterpreted. A template whose formatting raises, for example on a missing name, is not modelled.
- Display.CharacterDisplay.Refresh: a provider binding that raises while `_refresh(v)` evaluates it (software/display/display.py:22, display.py:69) is not modelled. Each provider result is an input. Such a failure, like a formatting failure, escapes `refresh` after `_setlines` has already replaced the template (display.py:17). The cache of shown lines is then left from the previous template, possibly of another length. `CharacterDisplay.Valid()` rules that state out, so the model does not describe the display after either failure.
- Display.CharacterDisplay.SetState: a state's `refresh` entry and the frame advance of a sequence are not modelled, because this code has neither.
- Dispatcher.BaseDispatcher.LoadConfigObject has these omissions:
  - keyword arguments passed from Python;
  - constructor failures of the peripheral classes;
  - the behaviour of the configuration object, whose class is not part of this model. It is modelled as an exact two-level map from section and option name to value. So option-name lower-casing, a `[DEFAULT]` section fallback and value interpolation, as `ConfigParser` would do them, are not modelled;
  - the log line.
  Names that collide with the dispatcher's own attributes (such as `threads`) are kept in a separate attribute map, so such a collision is not modelled.
- Dispatcher.SplitModule: models only the string split of `_import`. The `__import__` and `getattr` steps (software/authbox/api.py:144-145) are foreign calls.
- Dispatcher.BaseDispatcher.RunLoop: items are always actions or the sentinel. A malformed item, which would raise outside the inner `try`, is not modelled, and neither is an exception that is not an `Exception` other than Ctrl-C. The log lines are left out.
- GPIO pin setup in `BasePinThread` (software/authbox/api.py:127-132) and the `FakeRPi` fallback are hardware calls.
- `software/display/cfg.py` (the YAML configuration loader) is not part of this model, and neither is `software/display/openlcd.py`, whose methods all raise `NotImplementedError`.
