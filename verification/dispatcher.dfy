/**
 * The dispatcher of the authbox: choosing a peripheral class for a configured
 * name from the class registry, and the main loop that runs queued actions one
 * at a time until the shutdown sentinel arrives.
 */
module Dispatcher {
  import opened Wrappers
  import opened Seqs

  /** The dotted names of the classes a configuration may instantiate, in lookup order. */
  const ClassRegistry: seq<string> := [
    "authbox.badgereader_hid_keystroking.HIDKeystrokingReader",
    "authbox.gpio_button.Button",
    "authbox.gpio_relay.Relay",
    "authbox.gpio_buzzer.Buzzer",
    "authbox.timer.Timer"
  ]

  /** The configuration section that names the peripherals. */
  const PinsSection: string := "pins"

  // ---------------------------------------------------------------------------
  // Splitting strings
  // ---------------------------------------------------------------------------

  /** The position of the first `c` in `s`. */
  function IndexOf(s: string, c: char): (i: nat)
    requires c in s
    ensures i < |s| && s[i] == c
    ensures forall k :: 0 <= k < i ==> s[k] != c
  {
    if s[0] == c then 0
    else
      assert c in s[1..] by {
        var k :| 0 <= k < |s| && s[k] == c;
        assert s[1..][k - 1] == c;
      }
      IndexOf(s[1..], c) + 1
  }

  /** The position of the last `c` in `s`. */
  function LastIndexOf(s: string, c: char): (i: nat)
    requires c in s
    ensures i < |s| && s[i] == c
    ensures forall k :: i < k < |s| ==> s[k] != c
  {
    var m := |s| - 1;
    if s[m] == c then m
    else
      assert c in s[..m] by {
        var k :| 0 <= k < |s| && s[k] == c;
        assert s[..m][k] == c;
      }
      LastIndexOf(s[..m], c)
  }

  /** The parts of `parts` put back together with `sep` between consecutive ones. */
  function Join(parts: seq<string>, sep: char): string
    requires |parts| >= 1
  {
    if |parts| == 1 then parts[0] else parts[0] + [sep] + Join(parts[1..], sep)
  }

  /**
   * Python's `str.split(sep)`: the pieces of `s` between the separators,
   * empty pieces included. There is always at least one piece, no piece
   * holds the separator, and joining the pieces gives `s` back.
   */
  function Split(s: string, sep: char): (parts: seq<string>)
    ensures |parts| >= 1
    ensures forall k :: 0 <= k < |parts| ==> sep !in parts[k]
    ensures Join(parts, sep) == s
    decreases |s|
  {
    if sep !in s then [s]
    else
      var i := IndexOf(s, sep);
      var rest := Split(s[i + 1..], sep);
      assert ([s[..i]] + rest)[1..] == rest;
      assert s == s[..i] + [sep] + s[i + 1..];
      [s[..i]] + rest
  }

  /** The first separator after a separator-free `head` is the one that follows it. */
  lemma SplitAtFirst(head: string, sep: char, tail: string)
    requires sep !in head
    ensures Split(head + [sep] + tail, sep) == [head] + Split(tail, sep)
  {
    var s := head + [sep] + tail;
    assert s[|head|] == sep;
    assert forall k :: 0 <= k < |head| ==> s[k] == head[k];
    assert IndexOf(s, sep) == |head|;
    assert s[..|head|] == head;
    assert s[|head| + 1..] == tail;
  }

  /** Splitting a joined sequence of separator-free pieces gives the pieces back. */
  lemma {:induction false} SplitJoin(parts: seq<string>, sep: char)
    requires |parts| >= 1
    requires forall k :: 0 <= k < |parts| ==> sep !in parts[k]
    ensures Split(Join(parts, sep), sep) == parts
  {
    if |parts| > 1 {
      SplitAtFirst(parts[0], sep, Join(parts[1..], sep));
      SplitJoin(parts[1..], sep);
      assert parts == [parts[0]] + parts[1..];
    }
  }

  /** Python's `s.endswith(suffix)`. */
  predicate EndsWith(s: string, suffix: string): (r: bool)
    ensures r <==> |suffix| <= |s| && s == s[..|s| - |suffix|] + suffix
  {
    |suffix| <= |s| && s[|s| - |suffix|..] == suffix
  }

  /**
   * The split of `_import`, `name.rsplit('.', 1)` unpacked into a module and
   * an attribute name: `None` when there is no dot, where the unpacking raises.
   * Otherwise the split is at the last dot.
   */
  function SplitModule(name: string): (r: Option<(string, string)>)
    ensures r.None? <==> '.' !in name
    ensures r.Some? ==> r.value.0 + "." + r.value.1 == name && '.' !in r.value.1
  {
    if '.' !in name then None
    else
      var i := LastIndexOf(name, '.');
      assert name == name[..i] + "." + name[i + 1..];
      Some((name[..i], name[i + 1..]))
  }

  // ---------------------------------------------------------------------------
  // Choosing a class
  // ---------------------------------------------------------------------------

  /** A registry entry names class `cls` when it ends with a dot followed by `cls`. */
  predicate Names(entry: string, cls: string)
  {
    EndsWith(entry, "." + cls)
  }

  /** Entry `i` of `registry` is the first one that names `cls`. */
  predicate FirstNaming(registry: seq<string>, cls: string, i: int)
  {
    && 0 <= i < |registry|
    && Names(registry[i], cls)
    && forall j :: 0 <= j < i ==> !Names(registry[j], cls)
  }

  /**
   * An entry that names a class always has a module part, so importing it
   * never fails on the split; and when the class name holds no dot, the
   * attribute imported is that very class name.
   */
  lemma NamedEntrySplits(entry: string, cls: string)
    requires Names(entry, cls)
    ensures SplitModule(entry).Some?
    ensures '.' !in cls ==> SplitModule(entry) == Some((entry[..|entry| - |cls| - 1], cls))
  {
    var d := |entry| - |cls| - 1;
    assert entry[d] == ("." + cls)[0];
    if '.' !in cls {
      assert forall k :: d < k < |entry| ==> entry[k] == cls[k - d - 1];
      var i := LastIndexOf(entry, '.');
      assert i == d;
      assert entry[i + 1..] == cls;
    }
  }

  /** A peripheral object: the module and class it was built from, its configured name and its arguments. */
  datatype Worker = Worker(moduleName: string, className: string, name: string, args: seq<string>)

  /** Why loading a configured object failed. */
  datatype LoadError =
    | NoSection(section: string)
    | NoOption(section: string, option: string)
    | UnknownItem(name: string)
    | BadClassName(entry: string)

  /**
   * The `for ... else` over the registry: the first entry naming `cls`, or
   * `None` when no entry does.
   */
  method FindClass(cls: string) returns (found: Option<nat>)
    ensures found.Some? ==> FirstNaming(ClassRegistry, cls, found.value)
    ensures found.None? ==> forall j :: 0 <= j < |ClassRegistry| ==> !Names(ClassRegistry[j], cls)
  {
    for i := 0 to |ClassRegistry|
      invariant forall j :: 0 <= j < i ==> !Names(ClassRegistry[j], cls)
    {
      if EndsWith(ClassRegistry[i], "." + cls) {
        return Some(i);
      }
    }
    return None;
  }

  /** The object built for configured name `name` from registry entry `entry`. */
  function Instantiate(entry: string, name: string, args: seq<string>): (w: Worker)
    requires '.' in entry
    ensures w.moduleName + "." + w.className == entry && '.' !in w.className
    ensures w.name == name && w.args == args
  {
    var parts := SplitModule(entry).value;
    Worker(parts.0, parts.1, name, args)
  }

  /** The dispatcher: its configuration, the objects it loaded, and the attributes it set for them. */
  class BaseDispatcher {
    const config: map<string, map<string, string>>
    var threads: seq<Worker>
    var attributes: map<string, Worker>

    constructor (config: map<string, map<string, string>>)
      ensures this.config == config && threads == [] && attributes == map[]
    {
      this.config := config;
      threads := [];
      attributes := map[];
    }

    /**
     * Loads the object configured under `name` in the pins section: the value
     * is split on colons, the first piece chooses the class (the first
     * registry entry naming it) and the other pieces are its arguments. On
     * success the object becomes an attribute and is appended to `threads`;
     * on any failure nothing changes.
     */
    method LoadConfigObject(name: string) returns (r: Result<Worker, LoadError>)
      modifies this
      ensures PinsSection !in config ==> r == Failure(NoSection(PinsSection))
      ensures PinsSection in config && name !in config[PinsSection] ==> r == Failure(NoOption(PinsSection, name))
      ensures PinsSection in config && name in config[PinsSection] ==>
        var options := Split(config[PinsSection][name], ':');
        && (r.Failure? <==> forall j :: 0 <= j < |ClassRegistry| ==> !Names(ClassRegistry[j], options[0]))
        && (r.Failure? ==> r.error == UnknownItem(name))
        && (r.Success? ==>
              exists i :: FirstNaming(ClassRegistry, options[0], i) && '.' in ClassRegistry[i] &&
                r.value == Instantiate(ClassRegistry[i], name, options[1..]))
      ensures r.Failure? ==> threads == old(threads) && attributes == old(attributes)
      ensures r.Success? ==> threads == old(threads) + [r.value] && attributes == old(attributes)[name := r.value]
    {
      if PinsSection !in config {
        return Failure(NoSection(PinsSection));
      }
      if name !in config[PinsSection] {
        return Failure(NoOption(PinsSection, name));
      }
      var options := Split(config[PinsSection][name], ':');
      var found := FindClass(options[0]);
      if found.None? {
        return Failure(UnknownItem(name));
      }
      var entry := ClassRegistry[found.value];
      NamedEntrySplits(entry, options[0]);
      var parts := SplitModule(entry);
      if parts.None? {
        return Failure(BadClassName(entry));
      }
      var obj := Worker(parts.value.0, parts.value.1, name, options[1..]);
      attributes := attributes[name := obj];
      threads := threads + [obj];
      return Success(obj);
    }

    /**
     * The main loop over a finite run of queue fetches: starts every loaded
     * object, then runs fetched actions one at a time, in order, until the
     * shutdown sentinel or an interrupt, or until the fetches run out.
     * Returns the objects started, the calls made and how many fetches were
     * consumed.
     */
    method RunLoop(fetches: seq<Fetch>) returns (started: seq<Worker>, runs: seq<Run>, consumed: nat)
      ensures started == threads
      ensures runs == Dispatch(fetches) && consumed == Consumed(fetches)
    {
      started := [];
      for k := 0 to |threads|
        invariant started == threads[..k]
      {
        started := started + [threads[k]];
      }
      runs := [];
      consumed := 0;
      while consumed < |fetches|
        invariant consumed <= |fetches|
        invariant Dispatch(fetches) == runs + Dispatch(fetches[consumed..])
        invariant Consumed(fetches) == consumed + Consumed(fetches[consumed..])
      {
        var rest := fetches[consumed..];
        assert rest[1..] == fetches[consumed + 1..];
        consumed := consumed + 1;
        match rest[0] {
          case Empty =>
          case Interrupt =>
            return;
          case Got(item, outcome) =>
            if item.Shutdown? {
              return;
            }
            AppendAssoc(runs, [Run(item.func, item.args, outcome)], Dispatch(rest[1..]));
            runs := runs + [Run(item.func, item.args, outcome)];
            if outcome == Interrupted {
              return;
            }
        }
      }
    }
  }

  // ---------------------------------------------------------------------------
  // The dispatch loop
  // ---------------------------------------------------------------------------

  /**
   * What calling a function does: it returns, raises an `Exception`, or raises
   * something that is not an `Exception` and so escapes `except Exception`.
   * In the main loop that last case is Ctrl-C's `KeyboardInterrupt`. A worker
   * thread never receives that, so there it stands for, say, `SystemExit`.
   */
  datatype Outcome = Returned | Raised | Interrupted

  /** A queued item: an action (a function and its arguments) or the shutdown sentinel. */
  datatype Item = Action(func: nat, args: seq<string>) | Shutdown

  /**
   * One wait on the event queue: an item together with what running it does
   * this time (ignored for the sentinel), an empty-queue timeout, or Ctrl-C
   * during the wait.
   */
  datatype Fetch = Got(item: Item, outcome: Outcome) | Empty | Interrupt

  /** One call made by the loop. */
  datatype Run = Run(func: nat, args: seq<string>, outcome: Outcome)

  /** Whether the loop ends once it has taken `f`. */
  predicate Stops(f: Fetch)
  {
    f.Interrupt? || (f.Got? && (f.item.Shutdown? || f.outcome == Interrupted))
  }

  /** The calls the loop makes over `fetches`. */
  function Dispatch(fetches: seq<Fetch>): (r: seq<Run>)
    ensures |r| <= |fetches|
    ensures forall k :: 0 <= k < |r| - 1 ==> r[k].outcome != Interrupted
  {
    if fetches == [] then []
    else
      match fetches[0]
      case Empty => Dispatch(fetches[1..])
      case Interrupt => []
      case Got(Shutdown, _) => []
      case Got(Action(func, args), outcome) =>
        [Run(func, args, outcome)] + (if outcome == Interrupted then [] else Dispatch(fetches[1..]))
  }

  /**
   * How many fetches the loop takes: all of them up to and including the
   * first that stops it, or all of them when none does.
   */
  function Consumed(fetches: seq<Fetch>): (n: nat)
    ensures n <= |fetches|
    ensures forall j :: 0 <= j < n - 1 ==> !Stops(fetches[j])
    ensures n < |fetches| ==> 0 < n && Stops(fetches[n - 1])
  {
    if fetches == [] then 0
    else if Stops(fetches[0]) then 1
    else
      var m := Consumed(fetches[1..]);
      assert forall j :: 1 <= j < |fetches| ==> fetches[j] == fetches[1..][j - 1];
      1 + m
  }

  /** The call a fetch makes if it is an action, whatever its outcome. */
  function RunOf(f: Fetch): (r: seq<Run>)
    ensures |r| <= 1
    ensures r != [] <==> f.Got? && f.item.Action?
    ensures r != [] ==> r[0] == Run(f.item.func, f.item.args, f.outcome)
  {
    match f
    case Got(Action(func, args), outcome) => [Run(func, args, outcome)]
    case _ => []
  }

  /** The call every action among `fetches` would make, in order: a reference for `Dispatch`. */
  function Actions(fetches: seq<Fetch>): seq<Run>
  {
    if fetches == [] then [] else RunOf(fetches[0]) + Actions(fetches[1..])
  }

  /** A fetch that does not stop the loop makes its call, if any, and the loop goes on. */
  lemma DispatchStep(fetches: seq<Fetch>)
    requires fetches != [] && !Stops(fetches[0])
    ensures Dispatch(fetches) == RunOf(fetches[0]) + Dispatch(fetches[1..])
  {
  }

  /**
   * The loop runs exactly the actions among the fetches it consumes, in
   * queue order, one call each: none before the first fetch, none after the
   * one that stops it.
   */
  lemma {:induction false} DispatchRunsConsumedActions(fetches: seq<Fetch>)
    ensures Dispatch(fetches) == Actions(fetches[..Consumed(fetches)])
    decreases |fetches|
  {
    if fetches != [] {
      var n := Consumed(fetches);
      if Stops(fetches[0]) {
        assert fetches[..n] == [fetches[0]];
      } else {
        DispatchRunsConsumedActions(fetches[1..]);
        assert fetches[..n][1..] == fetches[1..][..n - 1];
      }
    }
  }

  /** Over a stretch of fetches none of which stops the loop, the loop runs every action of the stretch and carries on. */
  lemma {:induction false} DispatchAcross(a: seq<Fetch>, b: seq<Fetch>)
    requires forall j :: 0 <= j < |a| ==> !Stops(a[j])
    ensures Dispatch(a + b) == Actions(a) + Dispatch(b)
    decreases |a|
  {
    if a == [] {
      assert a + b == b;
    } else {
      var ab := a + b;
      assert ab[1..] == a[1..] + b && ab[0] == a[0];
      DispatchStep(ab);
      DispatchAcross(a[1..], b);
      AppendAssoc(RunOf(a[0]), Actions(a[1..]), Dispatch(b));
    }
  }

  /** Once the shutdown sentinel is taken nothing after it runs, whatever follows. */
  lemma ShutdownIgnoresRest(a: seq<Fetch>, o: Outcome, b: seq<Fetch>)
    requires forall j :: 0 <= j < |a| ==> !Stops(a[j])
    ensures Dispatch(a + [Got(Shutdown, o)] + b) == Actions(a)
  {
    assert a + [Got(Shutdown, o)] + b == a + ([Got(Shutdown, o)] + b);
    DispatchAcross(a, [Got(Shutdown, o)] + b);
  }

  /** An empty-queue timeout runs nothing and does not end the loop. */
  lemma TimeoutIsInert(a: seq<Fetch>, b: seq<Fetch>)
    requires forall j :: 0 <= j < |a| ==> !Stops(a[j])
    ensures Dispatch(a + [Empty] + b) == Dispatch(a + b)
  {
    assert a + [Empty] + b == a + ([Empty] + b);
    DispatchAcross(a, [Empty] + b);
    DispatchAcross(a, b);
    assert ([Empty] + b)[1..] == b;
  }

  /**
   * An action that returns or raises is run once and the loop goes on to the
   * rest of the queue: what follows runs the same whether it raised or not.
   */
  lemma ActionDoesNotStopLoop(a: seq<Fetch>, func: nat, args: seq<string>, o: Outcome, b: seq<Fetch>)
    requires forall j :: 0 <= j < |a| ==> !Stops(a[j])
    requires o != Interrupted
    ensures Dispatch(a + [Got(Action(func, args), o)] + b) == Actions(a) + [Run(func, args, o)] + Dispatch(b)
  {
    var f := Got(Action(func, args), o);
    assert a + [f] + b == a + ([f] + b);
    DispatchAcross(a, [f] + b);
    assert ([f] + b)[1..] == b;
    AppendAssoc(Actions(a), [Run(func, args, o)], Dispatch(b));
  }

  // ---------------------------------------------------------------------------
  // Worker threads
  // ---------------------------------------------------------------------------

  /**
   * The body of a worker thread: calls its inner loop again and again, over a
   * finite run of outcomes. A return or an `Exception` (after its traceback
   * is printed) starts the next attempt; only an outcome that escapes
   * `except Exception` (such as `SystemExit`) ends the thread.
   */
  method RunWorker(outcomes: seq<Outcome>) returns (attempts: nat, tracebacks: nat)
    ensures attempts <= |outcomes|
    ensures forall k :: 0 <= k < attempts - 1 ==> outcomes[k] != Interrupted
    ensures attempts < |outcomes| ==> 0 < attempts && outcomes[attempts - 1] == Interrupted
    ensures Interrupted !in outcomes ==> attempts == |outcomes|
    ensures tracebacks == multiset(outcomes[..attempts])[Raised]
  {
    attempts, tracebacks := 0, 0;
    while attempts < |outcomes|
      invariant attempts <= |outcomes|
      invariant forall k :: 0 <= k < attempts ==> outcomes[k] != Interrupted
      invariant tracebacks == multiset(outcomes[..attempts])[Raised]
    {
      var outcome := outcomes[attempts];
      assert outcomes[..attempts + 1] == outcomes[..attempts] + [outcome];
      attempts := attempts + 1;
      if outcome == Raised {
        tracebacks := tracebacks + 1;
      } else if outcome == Interrupted {
        return;
      }
    }
  }
}
