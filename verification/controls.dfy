/**
  The main loop's event handling as pure transitions on one explicit state
  value. Mouse positions, key presses and the clock reading are parameters;
  the save file is modelled as what it holds (nothing, or a saved grid).
 */
module Controls {
  import opened Board
  import opened Life

  /** Window size in pixels. */
  const ScreenWidth: int := 800
  const ScreenHeight: int := 600

  /** Pixel size of one cell (integer division, as in the source). */
  const CellWidth: int := ScreenWidth / Width
  const CellHeight: int := ScreenHeight / Height

  /** The "Next Generation" button: centred horizontally, 10 pixels above the bottom edge. */
  const ButtonWidth: int := 200
  const ButtonHeight: int := 50
  const ButtonX: int := (ScreenWidth - ButtonWidth) / 2
  const ButtonY: int := ScreenHeight - ButtonHeight - 10

  /** Milliseconds that must strictly pass before the timer advances a generation. */
  const TickInterval: int := 300

  datatype Key = Space | KeyS | KeyL | OtherKey

  datatype Event =
    | Quit
    | MouseDown(px: int, py: int)
    | KeyDown(key: Key)
    | OtherEvent

  /** Contents of the fixed save file. */
  datatype SaveFile = Missing | Present(contents: Grid)

  /** Everything the loop keeps between frames. */
  datatype State = State(grid: Grid, paused: bool, lastTick: int, running: bool, saveFile: SaveFile)

  /** Enough shape for every handler to index the grid. */
  ghost predicate Sized(s: State) {
    Shaped(s.grid) && (s.saveFile.Present? ==> Shaped(s.saveFile.contents))
  }

  /** The loop invariant: the board, and any board on disk, is a well-formed 0/1 grid. */
  ghost predicate Valid(s: State) {
    WellFormed(s.grid) && (s.saveFile.Present? ==> WellFormed(s.saveFile.contents))
  }

  predicate InWindow(px: int, py: int) {
    0 <= px < ScreenWidth && 0 <= py < ScreenHeight
  }

  /** Every click of the batch lies inside the window, as the window system delivers it. */
  ghost predicate ClicksInWindow(events: seq<Event>) {
    forall k :: 0 <= k < |events| && events[k].MouseDown? ==> InWindow(events[k].px, events[k].py)
  }

  /** The state at start-up: running, not paused, timer started at `t0`. */
  function Start(g0: Grid, t0: int, file: SaveFile): (s: State)
    requires WellFormed(g0) && (file.Present? ==> WellFormed(file.contents))
    ensures Valid(s) && s.running && !s.paused
  {
    State(g0, false, t0, true, file)
  }

  /** The button hit test; both edges are inclusive. */
  predicate InButton(px: int, py: int) {
    ButtonX <= px <= ButtonX + ButtonWidth && ButtonY <= py <= ButtonY + ButtonHeight
  }

  /** The cell under a pixel of the window: the unique cell whose rectangle holds it. */
  function CellOf(px: int, py: int): (c: (int, int))
    requires InWindow(px, py)
    ensures InBounds(c.0, c.1)
    ensures c.0 * CellWidth <= px < (c.0 + 1) * CellWidth
    ensures c.1 * CellHeight <= py < (c.1 + 1) * CellHeight
    ensures forall x, y ::
              (InBounds(x, y) && x * CellWidth <= px < (x + 1) * CellWidth &&
               y * CellHeight <= py < (y + 1) * CellHeight) ==> c == (x, y)
  {
    CellSizes();
    (px / CellWidth, py / CellHeight)
  }

  /** Both cell sides are 20 pixels. */
  lemma CellSizes()
    ensures CellWidth == 20 && CellHeight == 20
  {
  }

  /** Flips one cell: `not v` stored back into the integer grid is 1 for 0 and 0 otherwise. */
  function Toggle(g: Grid, x: int, y: int): (r: Grid)
    requires Shaped(g) && InBounds(x, y)
    ensures Shaped(r)
    ensures g[x][y] == 0 ==> r[x][y] == 1
    ensures g[x][y] != 0 ==> r[x][y] == 0
    ensures forall i, j :: InBounds(i, j) && (i, j) != (x, y) ==> r[i][j] == g[i][j]
    ensures WellFormed(g) ==> WellFormed(r)
  {
    Set(g, x, y, if g[x][y] == 0 then 1 else 0)
  }

  /** On a 0/1 grid, toggling the same cell twice gives the grid back. */
  lemma ToggleTwiceRestores(g: Grid, x: int, y: int)
    requires WellFormed(g) && InBounds(x, y)
    ensures Toggle(Toggle(g, x, y), x, y) == g
  {
    SameCells(Toggle(Toggle(g, x, y), x, y), g);
  }

  /** A mouse press: inside the button it advances one generation, elsewhere it
      toggles the cell under the pointer. */
  function Click(s: State, px: int, py: int): State
    requires Shaped(s.grid) && InWindow(px, py)
  {
    if InButton(px, py) then s.(grid := Step(s.grid))
    else
      var c := CellOf(px, py);
      s.(grid := Toggle(s.grid, c.0, c.1))
  }

  /** Key `s`: the file now holds the current grid. */
  function Save(s: State): State {
    s.(saveFile := Present(s.grid))
  }

  /** Key `l`: a missing file changes nothing; otherwise its grid replaces the board. */
  function Load(s: State): State {
    match s.saveFile
    case Missing => s
    case Present(g) => s.(grid := g)
  }

  /** One event of the batch. A quit only clears `running`: the rest of the
      batch and the timer check of this frame still happen. */
  function HandleEvent(s: State, e: Event): (t: State)
    requires Sized(s)
    requires e.MouseDown? ==> InWindow(e.px, e.py)
    ensures Sized(t)
    ensures Valid(s) ==> Valid(t)
  {
    match e
    case Quit => s.(running := false)
    case MouseDown(px, py) => Click(s, px, py)
    case KeyDown(k) =>
      (match k
       case Space => s.(paused := !s.paused)
       case KeyS => Save(s)
       case KeyL => Load(s)
       case OtherKey => s)
    case OtherEvent => s
  }

  /** The events of one frame, handled in arrival order. */
  function HandleEvents(s: State, events: seq<Event>): (t: State)
    requires Sized(s) && ClicksInWindow(events)
    ensures Sized(t)
    decreases |events|
  {
    if |events| == 0 then s
    else HandleEvents(HandleEvent(s, events[0]), events[1..])
  }

  /** The timer check at the end of a frame. */
  function Tick(s: State, now: int): (t: State)
    requires Shaped(s.grid)
    ensures Sized(s) ==> Sized(t)
    ensures Valid(s) ==> Valid(t)
    ensures t.paused == s.paused && t.running == s.running && t.saveFile == s.saveFile
    ensures t.lastTick == s.lastTick || t.lastTick == now
    ensures t.grid == s.grid || t.grid == Step(s.grid)
  {
    if !s.paused && now - s.lastTick > TickInterval then
      s.(grid := Step(s.grid), lastTick := now)
    else s
  }

  /** One iteration of the main loop, given its event batch and the clock reading. */
  function Frame(s: State, events: seq<Event>, now: int): (t: State)
    requires Sized(s) && ClicksInWindow(events)
    ensures Sized(t)
    ensures Valid(s) ==> Valid(t)
  {
    var h := HandleEvents(s, events);
    assert Valid(s) ==> Valid(h) by {
      if Valid(s) { HandleEventsPreservesValid(s, events); }
    }
    Tick(h, now)
  }

  /** The main loop over a sequence of frames; it stops once `running` is cleared. */
  function Run(s: State, frames: seq<(seq<Event>, int)>): (t: State)
    requires Sized(s)
    requires forall k :: 0 <= k < |frames| ==> ClicksInWindow(frames[k].0)
    decreases |frames|
  {
    if |frames| == 0 || !s.running then s
    else Run(Frame(s, frames[0].0, frames[0].1), frames[1..])
  }

  /** A click outside the button flips exactly the cell under the pointer and
      changes nothing else. */
  lemma ClickOutsideButtonTogglesOneCell(s: State, px: int, py: int)
    requires Sized(s) && InWindow(px, py) && !InButton(px, py)
    ensures var t := HandleEvent(s, MouseDown(px, py));
            var x, y := px / CellWidth, py / CellHeight;
            && InBounds(x, y)
            && (s.grid[x][y] == 0 ==> t.grid[x][y] == 1)
            && (s.grid[x][y] == 1 ==> t.grid[x][y] == 0)
            && (forall i, j :: InBounds(i, j) && (i, j) != (x, y) ==> t.grid[i][j] == s.grid[i][j])
            && t.paused == s.paused && t.lastTick == s.lastTick
            && t.running == s.running && t.saveFile == s.saveFile
  {
  }

  /** A click inside the button runs one generation and toggles nothing. */
  lemma ClickInButtonAdvances(s: State, px: int, py: int)
    requires Sized(s) && InWindow(px, py) && InButton(px, py)
    ensures HandleEvent(s, MouseDown(px, py)) == s.(grid := Step(s.grid))
  {
  }

  /** The cells lying wholly under the button (columns 15-24, rows 27-28) can
      never be toggled by a click: every pixel of them hits the button. */
  lemma CellsUnderButtonCannotBeToggled(px: int, py: int)
    requires InWindow(px, py)
    requires 15 <= CellOf(px, py).0 <= 24 && 27 <= CellOf(px, py).1 <= 28
    ensures InButton(px, py)
  {
  }

  /** The space key flips `paused` and leaves the grid and everything else alone. */
  lemma SpaceTogglesPause(s: State)
    requires Sized(s)
    ensures HandleEvent(s, KeyDown(Space)) == s.(paused := !s.paused)
  {
  }

  /** Loading with no save file on disk leaves the state unchanged. */
  lemma LoadMissingKeepsState(s: State)
    requires Sized(s) && s.saveFile.Missing?
    ensures HandleEvent(s, KeyDown(KeyL)) == s
  {
  }

  /** Events other than the save key never change the save file. */
  lemma {:induction false} HandleEventsKeepFile(s: State, events: seq<Event>)
    requires Sized(s) && ClicksInWindow(events)
    requires forall k :: 0 <= k < |events| ==> events[k] != KeyDown(KeyS)
    ensures HandleEvents(s, events).saveFile == s.saveFile
    decreases |events|
  {
    if |events| > 0 {
      HandleEventsKeepFile(HandleEvent(s, events[0]), events[1..]);
    }
  }

  /** Save, then any events without another save, then load: the saved grid is back. */
  lemma SaveThenLoadRestores(s: State, events: seq<Event>)
    requires Sized(s) && ClicksInWindow(events)
    requires forall k :: 0 <= k < |events| ==> events[k] != KeyDown(KeyS)
    ensures HandleEvents(s, [KeyDown(KeyS)] + events + [KeyDown(KeyL)]).grid == s.grid
  {
    var all := [KeyDown(KeyS)] + events + [KeyDown(KeyL)];
    assert ClicksInWindow(all);
    HandleEventsAppend(s, [KeyDown(KeyS)] + events, [KeyDown(KeyL)]);
    HandleEventsAppend(s, [KeyDown(KeyS)], events);
    var saved := HandleEvents(s, [KeyDown(KeyS)]);
    assert saved == Save(s);
    HandleEventsKeepFile(saved, events);
  }

  /** Handling a batch in two parts is handling it at once. */
  lemma {:induction false} HandleEventsAppend(s: State, a: seq<Event>, b: seq<Event>)
    requires Sized(s) && ClicksInWindow(a) && ClicksInWindow(b)
    ensures ClicksInWindow(a + b)
    ensures HandleEvents(s, a + b) == HandleEvents(HandleEvents(s, a), b)
    decreases |a|
  {
    if |a| > 0 {
      assert (a + b)[0] == a[0];
      assert (a + b)[1..] == a[1..] + b;
      assert ClicksInWindow(a[1..]);
      HandleEventsAppend(HandleEvent(s, a[0]), a[1..], b);
    } else {
      assert a + b == b;
    }
  }

  /** Handling a batch keeps the loop invariant. */
  lemma {:induction false} HandleEventsPreservesValid(s: State, events: seq<Event>)
    requires Sized(s) && Valid(s) && ClicksInWindow(events)
    ensures Valid(HandleEvents(s, events))
    decreases |events|
  {
    if |events| > 0 {
      HandleEventsPreservesValid(HandleEvent(s, events[0]), events[1..]);
    }
  }

  /** Every frame of the loop keeps the board a well-formed 0/1 grid. */
  lemma {:induction false} RunPreservesValid(s: State, frames: seq<(seq<Event>, int)>)
    requires Sized(s) && Valid(s)
    requires forall k :: 0 <= k < |frames| ==> ClicksInWindow(frames[k].0)
    ensures Valid(Run(s, frames))
    decreases |frames|
  {
    if |frames| > 0 && s.running {
      RunPreservesValid(Frame(s, frames[0].0, frames[0].1), frames[1..]);
    }
  }

  /** No event sets `running` again once it is cleared. */
  lemma {:induction false} HandleEventsNeverRestart(s: State, events: seq<Event>)
    requires Sized(s) && ClicksInWindow(events) && !s.running
    ensures !HandleEvents(s, events).running
    decreases |events|
  {
    if |events| > 0 {
      HandleEventsNeverRestart(HandleEvent(s, events[0]), events[1..]);
    }
  }

  /** A quit in a frame's batch ends the loop after that frame: its remaining
      events and its timer check still apply, and no later frame runs. */
  lemma QuitEndsRun(s: State, frames: seq<(seq<Event>, int)>, k: int)
    requires Sized(s) && s.running
    requires forall i :: 0 <= i < |frames| ==> ClicksInWindow(frames[i].0)
    requires |frames| > 0 && 0 <= k < |frames[0].0| && frames[0].0[k] == Quit
    ensures Run(s, frames) == Frame(s, frames[0].0, frames[0].1)
    ensures !Run(s, frames).running
  {
    var events := frames[0].0;
    assert events == events[..k] + events[k..];
    assert events[k..] == [Quit] + events[k + 1..];
    HandleEventsAppend(s, events[..k], events[k..]);
    var before := HandleEvents(s, events[..k]);
    HandleEventsAppend(before, [Quit], events[k + 1..]);
    HandleEventsNeverRestart(HandleEvents(before, [Quit]), events[k + 1..]);
  }

  /** While paused, a frame with no click, no load and no space key leaves the
      grid as it was: the timer does not advance it. */
  lemma {:induction false} PausedFrameKeepsGrid(s: State, events: seq<Event>, now: int)
    requires Sized(s) && s.paused && ClicksInWindow(events)
    requires forall k :: 0 <= k < |events| ==>
               !events[k].MouseDown? && events[k] != KeyDown(KeyL) && events[k] != KeyDown(Space)
    ensures Frame(s, events, now).grid == s.grid
    ensures Frame(s, events, now).lastTick == s.lastTick
    decreases |events|
  {
    if |events| > 0 {
      var t := HandleEvent(s, events[0]);
      PausedFrameKeepsGrid(t, events[1..], now);
    }
  }

  /** Handling events never touches the timer: only the tick sets `lastTick`. */
  lemma {:induction false} HandleEventsKeepLastTick(s: State, events: seq<Event>)
    requires Sized(s) && ClicksInWindow(events)
    ensures HandleEvents(s, events).lastTick == s.lastTick
    decreases |events|
  {
    if |events| > 0 {
      HandleEventsKeepLastTick(HandleEvent(s, events[0]), events[1..]);
    }
  }

  /** The timer fires at most once for one clock reading: a second check at the
      same `now` changes nothing. */
  lemma TickOnceAtAReading(s: State, now: int)
    requires Shaped(s.grid)
    ensures Tick(Tick(s, now), now) == Tick(s, now)
  {
  }

  /** When the timer fires in one frame and again in the next, the two clock
      readings are more than TickInterval apart, and each advance stamps its
      own reading into `lastTick`. */
  lemma FramesSpaced(s: State, e1: seq<Event>, t1: int, e2: seq<Event>, t2: int)
    requires Sized(s) && ClicksInWindow(e1) && ClicksInWindow(e2)
    requires Frame(s, e1, t1).lastTick != s.lastTick
    requires Frame(Frame(s, e1, t1), e2, t2).lastTick != Frame(s, e1, t1).lastTick
    ensures Frame(s, e1, t1).lastTick == t1
    ensures Frame(Frame(s, e1, t1), e2, t2).lastTick == t2
    ensures t2 - t1 > TickInterval
  {
    var s1 := Frame(s, e1, t1);
    HandleEventsKeepLastTick(s, e1);
    HandleEventsKeepLastTick(s1, e2);
    var h2 := HandleEvents(s1, e2);
    assert h2.lastTick == t1;
    assert Tick(h2, t2).lastTick != h2.lastTick;
  }

  /** The timer fires exactly when it is due: not paused after the frame's
      events, and strictly more than TickInterval since the last stamp. */
  lemma FrameFiresIffDue(s: State, events: seq<Event>, now: int)
    requires Sized(s) && ClicksInWindow(events) && now != s.lastTick
    ensures var h := HandleEvents(s, events);
            Frame(s, events, now).lastTick == now <==>
              !h.paused && now - s.lastTick > TickInterval
    ensures var h := HandleEvents(s, events);
            Frame(s, events, now).lastTick == now ==>
              Frame(s, events, now).grid == Step(h.grid)
  {
    HandleEventsKeepLastTick(s, events);
  }

  /** A frame advances only when the timer is due, at any clock reading: when it
      is not due the frame is exactly its events, grid and `lastTick` included;
      when it is due the events are followed by one generation stamped `now`. */
  lemma FrameAdvancesOnlyWhenDue(s: State, events: seq<Event>, now: int)
    requires Sized(s) && ClicksInWindow(events)
    ensures var h := HandleEvents(s, events);
            !(!h.paused && now - s.lastTick > TickInterval) ==> Frame(s, events, now) == h
    ensures var h := HandleEvents(s, events);
            !h.paused && now - s.lastTick > TickInterval ==>
              Frame(s, events, now) == h.(grid := Step(h.grid), lastTick := now)
  {
    HandleEventsKeepLastTick(s, events);
  }
}
