/**
 * The diffed character-display renderer.
 *
 * A `CharacterDisplay` keeps a line template, the substitution bindings of
 * the current state, and a cache of the lines it last sent to the hardware.
 * `Refresh` formats the template and sends the driver only what differs from
 * the cache, clearing the screen first when the update is not a minor one.
 * The driver is observed as an append-only trace of its calls.
 */
module Display {
  import opened Wrappers
  import opened Seqs

  /** Characters per display line (the driver's line budget). */
  const LineLen: int := 16

  /** One call made on the display driver. */
  datatype DriverCall = Clear | Move(line: int, col: int) | Write(text: string)

  function Min(a: int, b: int): (r: int)
    ensures r <= a && r <= b && (r == a || r == b)
  {
    if a <= b then a else b
  }

  function Max(a: int, b: int): (r: int)
    ensures a <= r && b <= r && (r == a || r == b)
  {
    if a <= b then b else a
  }

  /** Python's `msg[:k]`, where a negative `k` counts back from the end of `msg`. */
  function SliceTo(msg: string, k: int): (r: string)
    ensures |r| <= |msg| && r == msg[..|r|]
    ensures 0 <= k ==> |r| == Min(k, |msg|)
    ensures k < 0 ==> |r| == Max(0, |msg| + k)
  {
    if 0 <= k then msg[..Min(k, |msg|)] else msg[..Max(0, |msg| + k)]
  }

  /** The text `writeat(line, col, msg)` sends: `msg`, cut to the room left on the line. */
  function Fit(msg: string, col: int): (r: string)
    ensures |r| <= |msg| && r == msg[..|r|]
    ensures |msg| + col <= LineLen ==> r == msg
    ensures 0 <= col <= LineLen ==> |r| + col <= LineLen
    ensures 0 <= col <= LineLen && LineLen < |msg| + col ==> |r| + col == LineLen
  {
    if |msg| + col > LineLen then SliceTo(msg, LineLen - col) else msg
  }

  /** The calls `writeline(line, msg)` makes: `writeat(line, 0, msg)`, a move and then a write. */
  function LineCalls(line: int, msg: string): seq<DriverCall>
  {
    [Move(line, 0), Write(Fit(msg, 0))]
  }

  /**
   * The display driver, seen through the calls made on it: `calls` is the
   * append-only trace of clear, move and write.
   */
  class TraceDriver {
    var calls: seq<DriverCall>

    constructor ()
      ensures calls == []
    {
      calls := [];
    }

    method Clear()
      modifies this
      ensures calls == old(calls) + [DriverCall.Clear]
    {
      calls := calls + [DriverCall.Clear];
    }

    method Move(line: int, col: int)
      modifies this
      ensures calls == old(calls) + [DriverCall.Move(line, col)]
    {
      calls := calls + [DriverCall.Move(line, col)];
    }

    method Write(msg: string)
      modifies this
      ensures calls == old(calls) + [DriverCall.Write(msg)]
    {
      calls := calls + [DriverCall.Write(msg)];
    }

    /** Positions the cursor, then writes `msg` cut to the line budget. */
    method WriteAt(line: int, col: int, msg: string)
      modifies this
      ensures calls == old(calls) + [DriverCall.Move(line, col), DriverCall.Write(Fit(msg, col))]
      ensures 0 <= col <= LineLen ==> |Fit(msg, col)| + col <= LineLen
    {
      var text := msg;
      if |text| + col > LineLen {
        text := SliceTo(text, LineLen - col);
      }
      Move(line, col);
      Write(text);
    }

    method WriteLine(line: int, msg: string)
      modifies this
      ensures calls == old(calls) + LineCalls(line, msg)
    {
      WriteAt(line, 0, msg);
    }
  }

  /** A substitution value: a literal, or a callable evaluated afresh on every render. */
  datatype Binding = Literal(text: string) | Provider(source: nat)

  /** What each provider returns when it is called during one render. */
  type Poll = nat -> string

  /** Python's `str.format` on a template line and its keyword arguments, left uninterpreted. */
  type Formatter = (string, map<string, string>) -> string

  /** The value a binding contributes to one render: a literal as is, a provider's current result. */
  function Evaluate(b: Binding, poll: Poll): (r: string)
    ensures b.Literal? ==> r == b.text
    ensures b.Provider? ==> r == poll(b.source)
  {
    match b
    case Literal(t) => t
    case Provider(s) => poll(s)
  }

  /** The keyword arguments of one render: every binding evaluated once, under the same name. */
  function EvaluateAll(args: map<string, Binding>, poll: Poll): (r: map<string, string>)
    ensures r.Keys == args.Keys
  {
    map k | k in args :: Evaluate(args[k], poll)
  }

  /** The full-clear test of a refresh: the line count changed, or no position shows the same line. */
  predicate NeedsClear(lines: seq<string>, cache: seq<string>): (r: bool)
    ensures |lines| != |cache| ==> r
    ensures |lines| == |cache| ==> (r <==> forall i :: 0 <= i < |lines| ==> lines[i] != cache[i])
    ensures lines == cache ==> (r <==> lines == [])
  {
    assert lines == cache && lines != [] ==> lines[0] == cache[0];
    |lines| != |cache| || !exists i :: 0 <= i < |lines| && i < |cache| && lines[i] == cache[i]
  }

  function Blank(n: nat): (r: seq<string>)
    ensures |r| == n && forall i :: 0 <= i < n ==> r[i] == ""
  {
    seq(n, _ => "")
  }

  /** What a refresh compares the new lines with: the cache, blanked to its own length after a clear. */
  function Baseline(lines: seq<string>, cache: seq<string>): seq<string>
  {
    if NeedsClear(lines, cache) then Blank(|cache|) else cache
  }

  /** Whether line `i` must be rewritten over `base`: `base` has no line there, or a different one. */
  predicate Changed(lines: seq<string>, base: seq<string>, i: nat)
    requires i < |lines|
  {
    i >= |base| || lines[i] != base[i]
  }

  /** The `(index, text)` pairs a refresh passes to `writeline`, over the first `n` lines. */
  function Rewrites(lines: seq<string>, base: seq<string>, n: nat): (r: seq<(nat, string)>)
    requires n <= |lines|
    ensures |r| <= n
  {
    if n == 0 then []
    else Rewrites(lines, base, n - 1) + (if Changed(lines, base, n - 1) then [(n - 1, lines[n - 1])] else [])
  }

  /** The driver calls that a series of `writeline` calls makes. */
  function Render(ws: seq<(nat, string)>): seq<DriverCall>
  {
    if ws == [] then [] else Render(ws[..|ws| - 1]) + LineCalls(ws[|ws| - 1].0, ws[|ws| - 1].1)
  }

  /** The `(index, text)` pairs that a refresh from `cache` to `lines` writes. */
  function Written(lines: seq<string>, cache: seq<string>): (r: seq<(nat, string)>)
    ensures lines == cache ==> r == []
    ensures |r| <= |lines|
    ensures forall p :: p in r ==> p.0 < |lines| && p.1 == lines[p.0]
  {
    RewritesExactly(lines, Baseline(lines, cache), |lines|);
    if lines == cache then [] else Rewrites(lines, Baseline(lines, cache), |lines|)
  }

  /** All driver calls of a refresh from `cache` to `lines`. */
  function RefreshCalls(lines: seq<string>, cache: seq<string>): (r: seq<DriverCall>)
    ensures lines == cache ==> r == []
    ensures |r| == (if lines != cache && NeedsClear(lines, cache) then 1 else 0) + 2 * |Written(lines, cache)|
  {
    RenderShape(Written(lines, cache));
    if lines == cache then []
    else (if NeedsClear(lines, cache) then [Clear] else []) + Render(Written(lines, cache))
  }

  lemma RenderSnoc(ws: seq<(nat, string)>, w: (nat, string))
    ensures Render(ws + [w]) == Render(ws) + LineCalls(w.0, w.1)
  {
    assert (ws + [w])[..|ws|] == ws;
  }

  /** Writing a changed line extends the calls of the rewrites before it to those of the rewrites up to it. */
  lemma WriteStep(before: seq<DriverCall>, calls: seq<DriverCall>, lines: seq<string>, base: seq<string>, i: nat)
    requires i < |lines| && Changed(lines, base, i)
    requires calls == before + Render(Rewrites(lines, base, i))
    ensures calls + LineCalls(i, lines[i]) == before + Render(Rewrites(lines, base, i + 1))
  {
    RewritesStep(lines, base, i);
    AppendAssoc(before, Render(Rewrites(lines, base, i)), LineCalls(i, lines[i]));
  }

  lemma RewritesSkip(lines: seq<string>, base: seq<string>, i: nat)
    requires i < |lines| && !Changed(lines, base, i)
    ensures Rewrites(lines, base, i + 1) == Rewrites(lines, base, i)
  {
  }

  lemma RewritesStep(lines: seq<string>, base: seq<string>, i: nat)
    requires i < |lines| && Changed(lines, base, i)
    ensures Render(Rewrites(lines, base, i + 1)) == Render(Rewrites(lines, base, i)) + LineCalls(i, lines[i])
  {
    assert Rewrites(lines, base, i + 1) == Rewrites(lines, base, i) + [(i, lines[i])];
    RenderSnoc(Rewrites(lines, base, i), (i, lines[i]));
  }

  /** Every `writeline` becomes a move to column 0 followed by one write of the fitted text; there is no clear among them. */
  lemma {:induction false} RenderShape(ws: seq<(nat, string)>)
    ensures |Render(ws)| == 2 * |ws|
    ensures forall k :: 0 <= k < |ws| ==> Render(ws)[2 * k] == Move(ws[k].0, 0)
    ensures forall k :: 0 <= k < |ws| ==> Render(ws)[2 * k + 1] == Write(Fit(ws[k].1, 0))
    ensures Clear !in Render(ws)
  {
    if ws != [] {
      var init := ws[..|ws| - 1];
      RenderShape(init);
      assert ws == init + [ws[|ws| - 1]];
      RenderSnoc(init, ws[|ws| - 1]);
    }
  }

  /**
   * The rewrites over `base` are exactly the changed lines among the first
   * `n`, each with its new text, in strictly ascending index order.
   */
  lemma {:induction false} RewritesExactly(lines: seq<string>, base: seq<string>, n: nat)
    requires n <= |lines|
    ensures forall k :: 0 <= k < |Rewrites(lines, base, n)| ==>
      var (i, v) := Rewrites(lines, base, n)[k]; i < n && v == lines[i] && Changed(lines, base, i)
    ensures forall i :: 0 <= i < n && Changed(lines, base, i) ==> (i, lines[i]) in Rewrites(lines, base, n)
    ensures forall j, k :: 0 <= j < k < |Rewrites(lines, base, n)| ==>
      Rewrites(lines, base, n)[j].0 < Rewrites(lines, base, n)[k].0
  {
    if n > 0 {
      RewritesExactly(lines, base, n - 1);
    }
  }

  /** A clear is issued exactly when the lines changed and the full-clear test holds, and then only as the first call. */
  lemma ClearIssuedExactly(lines: seq<string>, cache: seq<string>)
    ensures Clear in RefreshCalls(lines, cache) <==> lines != cache && NeedsClear(lines, cache)
    ensures forall k :: 0 <= k < |RefreshCalls(lines, cache)| && RefreshCalls(lines, cache)[k] == Clear ==> k == 0
  {
    RenderShape(Written(lines, cache));
    if lines != cache {
      var calls := RefreshCalls(lines, cache);
      var prefix := if NeedsClear(lines, cache) then [Clear] else [];
      assert calls == prefix + Render(Written(lines, cache));
      forall k | 0 <= k < |calls| && calls[k] == Clear
        ensures k == 0
      {
      }
    }
  }

  /**
   * Without a clear, a refresh writes exactly the lines that differ from the
   * cache, each with its new text, in ascending line order: equal lines are
   * never rewritten.
   */
  lemma WritesWithoutClear(lines: seq<string>, cache: seq<string>)
    requires lines != cache && !NeedsClear(lines, cache)
    ensures |lines| == |cache|
    ensures forall k :: 0 <= k < |Written(lines, cache)| ==>
      var (i, v) := Written(lines, cache)[k]; i < |lines| && v == lines[i] && v != cache[i]
    ensures forall i :: 0 <= i < |lines| && lines[i] != cache[i] ==> (i, lines[i]) in Written(lines, cache)
    ensures forall j, k :: 0 <= j < k < |Written(lines, cache)| ==> Written(lines, cache)[j].0 < Written(lines, cache)[k].0
  {
    RewritesExactly(lines, cache, |lines|);
    forall i | 0 <= i < |lines| && lines[i] != cache[i]
      ensures (i, lines[i]) in Written(lines, cache)
    {
      assert Changed(lines, cache, i);
    }
  }

  /**
   * After a clear, a refresh writes every line at or beyond the old cache
   * length and, below it, exactly the non-empty lines, in ascending line order.
   */
  lemma WritesAfterClear(lines: seq<string>, cache: seq<string>)
    requires lines != cache && NeedsClear(lines, cache)
    ensures forall k :: 0 <= k < |Written(lines, cache)| ==>
      var (i, v) := Written(lines, cache)[k]; i < |lines| && v == lines[i] && (i >= |cache| || v != "")
    ensures forall i :: |cache| <= i < |lines| ==> (i, lines[i]) in Written(lines, cache)
    ensures forall i :: 0 <= i < |lines| && i < |cache| && lines[i] != "" ==> (i, lines[i]) in Written(lines, cache)
    ensures forall j, k :: 0 <= j < k < |Written(lines, cache)| ==> Written(lines, cache)[j].0 < Written(lines, cache)[k].0
  {
    var base := Blank(|cache|);
    assert Baseline(lines, cache) == base;
    var w := Rewrites(lines, base, |lines|);
    assert Written(lines, cache) == w;
    RewritesExactly(lines, base, |lines|);
    forall k | 0 <= k < |w|
      ensures w[k].0 < |lines| && w[k].1 == lines[w[k].0] && (w[k].0 >= |cache| || w[k].1 != "")
    {
      assert Changed(lines, base, w[k].0);
    }
    forall i | 0 <= i < |lines| && (i >= |cache| || lines[i] != "")
      ensures (i, lines[i]) in w
    {
      assert Changed(lines, base, i);
    }
  }

  /** Switching to no lines at all from a non-empty cache is one clear and nothing else. */
  lemma BlankingClearsOnly(cache: seq<string>)
    requires cache != []
    ensures RefreshCalls([], cache) == [Clear]
  {
    assert NeedsClear([], cache);
    assert Written([], cache) == Rewrites([], Blank(|cache|), 0) == [];
    assert Render([]) == [];
  }

  /** With only literal bindings, the formatted lines do not depend on when they are rendered. */
  lemma LiteralArgsIgnorePoll(args: map<string, Binding>, p1: Poll, p2: Poll)
    requires forall k :: k in args ==> args[k].Literal?
    ensures EvaluateAll(args, p1) == EvaluateAll(args, p2)
  {
    var m1, m2 := EvaluateAll(args, p1), EvaluateAll(args, p2);
    forall k | k in args
      ensures m1[k] == m2[k]
    {
    }
  }

  /** One frame of a sequence state. */
  datatype Frame = Frame(lines: seq<string>, duration: nat, refresh: nat)

  /** A named display state as configured: its optional `lines` and `seq` entries. */
  datatype StateDef = StateDef(lines: Option<seq<string>>, frames: Option<seq<Frame>>)

  /** Whether entering `def` replaces the template and renders it (a sequence does neither). */
  predicate Renders(def: StateDef)
  {
    def.lines.Some? || def.frames.None?
  }

  /** The template after entering `def`: its lines, else unchanged for a sequence, else none. */
  function NextTemplate(def: StateDef, current: seq<string>): (r: seq<string>)
    ensures def.lines.Some? ==> r == def.lines.value
    ensures def.lines.None? && def.frames.Some? ==> r == current
    ensures def.lines.None? && def.frames.None? ==> r == []
  {
    match def.lines
    case Some(ls) => ls
    case None => if def.frames.Some? then current else []
  }

  /** The state machine of the display; `driver` receives its hardware calls. */
  class CharacterDisplay {
    const driver: TraceDriver
    const states: map<string, StateDef>
    const format: Formatter
    var lines: seq<string>
    var stateArgs: map<string, Binding>
    var nowLines: seq<string>

    /** After every render, the cache holds as many lines as the template. */
    ghost predicate Valid()
      reads this
    {
      |nowLines| == |lines|
    }

    constructor (driver: TraceDriver, states: map<string, StateDef>, format: Formatter)
      ensures Valid()
      ensures this.driver == driver && this.states == states && this.format == format
      ensures lines == [] && stateArgs == map[] && nowLines == []
    {
      this.driver := driver;
      this.states := states;
      this.format := format;
      lines := [];
      stateArgs := map[];
      nowLines := [];
    }

    /** The template with the substitutions of one render applied, line by line. */
    function FormattedLines(poll: Poll): (r: seq<string>)
      reads this
      ensures |r| == |lines|
      ensures forall i :: 0 <= i < |r| ==> r[i] == format(lines[i], EvaluateAll(stateArgs, poll))
    {
      var args, template, fmt := EvaluateAll(stateArgs, poll), lines, format;
      seq(|template|, i requires 0 <= i < |template| => fmt(template[i], args))
    }

    /** Re-renders the template, sending the driver only what differs from the cache. */
    method Refresh(poll: Poll)
      modifies this, driver
      ensures Valid()
      ensures lines == old(lines) && stateArgs == old(stateArgs)
      ensures nowLines == FormattedLines(poll)
      ensures driver.calls == old(driver.calls) + RefreshCalls(nowLines, old(nowLines))
    {
      var next := FormattedLines(poll);
      if next == nowLines {
        return;
      }
      ghost var start, cache := driver.calls, nowLines;
      ghost var cleared: seq<DriverCall> := [];
      if NeedsClear(next, nowLines) {
        driver.Clear();
        nowLines := Blank(|nowLines|);
        cleared := [DriverCall.Clear];
      }
      assert nowLines == Baseline(next, cache);
      WriteChangedLines(next);
      AppendAssoc(start, cleared, Render(Rewrites(next, nowLines, |next|)));
      nowLines := next;
    }

    /** The loop of a refresh: rewrites, in order, every line of `next` that differs from the cache. */
    method WriteChangedLines(next: seq<string>)
      modifies driver
      ensures driver.calls == old(driver.calls) + Render(Rewrites(next, nowLines, |next|))
    {
      var cache := nowLines;
      var i := 0;
      while i < |next|
        invariant 0 <= i <= |next|
        invariant driver.calls == old(driver.calls) + Render(Rewrites(next, cache, i))
      {
        if i >= |cache| || next[i] != cache[i] {
          WriteStep(old(driver.calls), driver.calls, next, cache, i);
          driver.WriteLine(i, next[i]);
        } else {
          RewritesSkip(next, cache, i);
        }
        i := i + 1;
      }
    }

    /** Installs a new template and renders it. */
    method SetLines(template: seq<string>, poll: Poll)
      modifies this, driver
      ensures Valid()
      ensures lines == template && stateArgs == old(stateArgs)
      ensures nowLines == FormattedLines(poll)
      ensures driver.calls == old(driver.calls) + RefreshCalls(nowLines, old(nowLines))
    {
      lines := template;
      Refresh(poll);
    }

    /**
     * Enters the named state with new bindings. An unknown name fails after
     * the bindings were already replaced; a sequence state changes nothing
     * else, since starting a sequence does nothing.
     */
    method SetState(name: string, args: map<string, Binding>, poll: Poll) returns (ok: bool)
      requires Valid()
      modifies this, driver
      ensures Valid()
      ensures stateArgs == args
      ensures ok <==> name in states
      ensures !ok ==> lines == old(lines) && nowLines == old(nowLines) && driver.calls == old(driver.calls)
      ensures ok ==> lines == NextTemplate(states[name], old(lines))
      ensures ok && Renders(states[name]) ==>
        nowLines == FormattedLines(poll) && driver.calls == old(driver.calls) + RefreshCalls(nowLines, old(nowLines))
      ensures ok && !Renders(states[name]) ==> nowLines == old(nowLines) && driver.calls == old(driver.calls)
    {
      stateArgs := args;
      if name !in states {
        return false;
      }
      ok := true;
      var def := states[name];
      if def.lines.Some? {
        SetLines(def.lines.value, poll);
      } else if def.frames.Some? {
        StartSequence(def.frames.value);
      } else {
        SetLines([], poll);
      }
    }

    /** Starting a sequence does nothing: no frame is shown and no timer is armed. */
    method StartSequence(frames: seq<Frame>)
      ensures unchanged(this) && unchanged(driver)
    {
    }
  }
}
