/** The desktop shell's window manager (script.js): a set of `.window`
    elements, the global stacking counter `windowZIndex`, the focused window
    `activeWindow`, the panel's "current application" label, the dock, and a
    titlebar drag session.  Every handler is a pure function from the
    desktop before the event to the desktop after it; pointer coordinates
    and `getBoundingClientRect` results are parameters. */
module Desktop {
  import opened Common

  /** The part of the element id before `-window` (`about`, `terminal`, ...). */
  type WindowId = string

  /** One `.window` element: its `active` and `maximized` classes, its inline
      `left`/`top`/`width`/`height` (in pixels) and `z-index` style, and the
      text of its `.window-title`.  Each style is `None` while it is unset:
      the page sets none of them until `openWindow` or a drag writes them. */
  datatype Window = Window(
    title: string,
    active: bool,
    maximized: bool,
    left: Option<int>,
    top: Option<int>,
    width: Option<int>,
    height: Option<int>,
    zIndex: Option<int>)

  /** `isDragging` and `dragOffset`: the pointer position relative to the
      dragged window's top-left corner when the drag began. */
  datatype Drag = Drag(isDragging: bool, offX: int, offY: int)

  /** The whole desktop.  `dock` maps each dock item's `data-window` to
      whether the item carries the `active` class; a dock item may name a
      window that does not exist. */
  datatype Desktop = Desktop(
    windows: map<WindowId, Window>,
    counter: int,
    activeWindow: Option<WindowId>,
    currentApp: string,
    dock: map<WindowId, bool>,
    drag: Drag)

  /** Initial value of `windowZIndex`. */
  const InitialCounter := 1000
  /** The top panel's height: no window is dragged above it. */
  const PanelHeight := 32
  /** Where the first opened window is placed, and the cascade step. */
  const CascadeOrigin := 100
  const CascadeStep := 30
  /** Size every freshly opened window gets. */
  const OpenWidth := 700
  const OpenHeight := 500
  /** What `parseInt(zIndex) || 100` yields for an unset or zero z-index. */
  const FallbackZ := 100

  /** The page as loaded, before `init` opens the About window: one
      window per entry of `titles` (its `.window-title` text) with no class
      and no inline style set, the counter at 1000, no focused window, no
      drag, the dock items named by `dockIds` not highlighted, and `app` the
      panel's label as written in the markup. */
  function Initial(titles: map<WindowId, string>, dockIds: set<WindowId>, app: string): (d: Desktop)
    ensures d.windows.Keys == titles.Keys && d.dock.Keys == dockIds
  {
    Desktop(map k | k in titles :: Window(titles[k], false, false, None, None, None, None, None),
            InitialCounter, None, app, map k | k in dockIds :: false, Drag(false, 0, 0))
  }

  /** The stacking level `focusWindow` reads: an unset style parses to NaN
      and a zero is falsy, so both fall back to 100. */
  function EffectiveZ(z: Option<int>): int {
    match z
    case Some(v) => if v != 0 then v else FallbackZ
    case None => FallbackZ
  }

  /** The windows carrying the `active` class (`.window.active`). */
  function ActiveIds(ws: map<WindowId, Window>): set<WindowId> {
    set k | k in ws && ws[k].active
  }

  /** Each dock item is highlighted exactly when its window exists and is
      open. */
  ghost predicate DockConsistent(d: Desktop) {
    forall k :: k in d.dock ==> (d.dock[k] <==> k in d.windows && d.windows[k].active)
  }

  /** The focus pointer, when set, names an existing window. */
  ghost predicate WellFormed(d: Desktop) {
    d.activeWindow.Some? ==> d.activeWindow.value in d.windows
  }

  /** The focused window holds the counter's value and every other window
      is strictly below it; the counter never went below its start. */
  ghost predicate Stacked(d: Desktop) {
    && d.counter >= InitialCounter
    && WellFormed(d)
    && (d.activeWindow.Some? ==>
          && d.windows[d.activeWindow.value].zIndex == Some(d.counter)
          && forall k :: k in d.windows && k != d.activeWindow.value ==>
               d.windows[k].zIndex.Some? && EffectiveZ(d.windows[k].zIndex) < d.counter)
  }

  /** No window whose top edge is set has it above the panel. */
  ghost predicate BelowPanel(d: Desktop) {
    forall k :: k in d.windows && d.windows[k].top.Some? ==> d.windows[k].top.value >= PanelHeight
  }

  /** The desktop invariant every handler keeps. */
  ghost predicate Inv(d: Desktop) {
    Stacked(d) && DockConsistent(d) && BelowPanel(d)
  }

  /** `focusWindow`: every other window (open or not) is lowered to at most
      the old counter minus one, the counter is incremented and given to
      this window, which becomes `activeWindow` and names the panel's
      current application. */
  function Focus(d: Desktop, id: WindowId): (r: Desktop)
    requires id in d.windows
    ensures r.windows.Keys == d.windows.Keys
    ensures r.counter == d.counter + 1
    ensures r.windows[id].zIndex == Some(d.counter + 1)
    ensures forall k :: k in d.windows && k != id ==>
              && r.windows[k].zIndex.Some?
              && r.windows[k].zIndex.value <= d.counter - 1
              && (EffectiveZ(d.windows[k].zIndex) <= d.counter - 1 ==>
                    r.windows[k].zIndex.value == EffectiveZ(d.windows[k].zIndex))
              && (EffectiveZ(d.windows[k].zIndex) > d.counter - 1 ==>
                    r.windows[k].zIndex.value == d.counter - 1)
    ensures forall k :: k in d.windows ==>
              r.windows[k] == d.windows[k].(zIndex := r.windows[k].zIndex)
    ensures r.activeWindow == Some(id)
    ensures r.currentApp == d.windows[id].title
    ensures r.dock == d.dock && r.drag == d.drag
  {
    var ws := map k | k in d.windows ::
      if k == id then d.windows[k].(zIndex := Some(d.counter + 1))
      else d.windows[k].(zIndex := Some(Min(EffectiveZ(d.windows[k].zIndex), d.counter - 1)));
    d.(windows := ws, counter := d.counter + 1, activeWindow := Some(id),
       currentApp := d.windows[id].title)
  }

  /** `updateDock`: recompute every dock item's highlight from its window's
      `active` class. */
  function UpdateDock(d: Desktop): (r: Desktop)
    ensures DockConsistent(r)
    ensures r.dock.Keys == d.dock.Keys
    ensures r.windows == d.windows && r.counter == d.counter
    ensures r.activeWindow == d.activeWindow && r.currentApp == d.currentApp
    ensures r.drag == d.drag
  {
    d.(dock := map k | k in d.dock :: k in d.windows && d.windows[k].active)
  }

  /** `openWindow`: an unknown id does nothing; an open window is only
      focused; a closed or minimized one is cascaded by 30 pixels per open
      window, resized to 700x500, opened, focused, and the dock refreshed. */
  function Open(d: Desktop, id: WindowId): (r: Desktop)
    ensures r.windows.Keys == d.windows.Keys
    ensures r.dock.Keys == d.dock.Keys && r.drag == d.drag
    ensures id !in d.windows ==> r == d
    ensures id in d.windows && d.windows[id].active ==>
              && r == Focus(d, id)
              && r.windows[id].left == d.windows[id].left
              && r.windows[id].top == d.windows[id].top
              && r.windows[id].width == d.windows[id].width
              && r.windows[id].height == d.windows[id].height
    ensures id in d.windows && !d.windows[id].active ==>
              && r.windows[id].left == Some(CascadeOrigin + CascadeStep * |ActiveIds(d.windows)|)
              && r.windows[id].top == Some(CascadeOrigin + CascadeStep * |ActiveIds(d.windows)|)
              && r.windows[id].width == Some(OpenWidth)
              && r.windows[id].height == Some(OpenHeight)
              && r.windows[id].active
              && r.windows[id].maximized == d.windows[id].maximized
              && r.windows[id].zIndex == Some(d.counter + 1)
              && r.counter == d.counter + 1
              && r.activeWindow == Some(id)
              && r.currentApp == d.windows[id].title
              && r.windows[id].title == d.windows[id].title
              && DockConsistent(r)
              && (forall k :: k in d.windows && k != id ==>
                    r.windows[k].zIndex == Some(Min(EffectiveZ(d.windows[k].zIndex), d.counter - 1)))
    ensures forall k :: k in d.windows && k != id ==>
              r.windows[k] == d.windows[k].(zIndex := r.windows[k].zIndex)
  {
    if id !in d.windows then d
    else if d.windows[id].active then Focus(d, id)
    else
      var offset := CascadeStep * |ActiveIds(d.windows)|;
      var w := d.windows[id].(left := Some(CascadeOrigin + offset), top := Some(CascadeOrigin + offset),
                              width := Some(OpenWidth), height := Some(OpenHeight), active := true);
      UpdateDock(Focus(d.(windows := d.windows[id := w]), id))
  }

  /** `closeWindow`: drop both the `active` and `maximized` classes and
      refresh the dock; focus, counter and stacking are left alone. */
  function Close(d: Desktop, id: WindowId): (r: Desktop)
    requires id in d.windows
    ensures r.windows.Keys == d.windows.Keys
    ensures !r.windows[id].active && !r.windows[id].maximized
    ensures r.windows[id] == d.windows[id].(active := r.windows[id].active,
                                             maximized := r.windows[id].maximized)
    ensures forall k :: k in d.windows && k != id ==> r.windows[k] == d.windows[k]
    ensures r.counter == d.counter && r.activeWindow == d.activeWindow
    ensures r.currentApp == d.currentApp && r.drag == d.drag
    ensures DockConsistent(r) && r.dock.Keys == d.dock.Keys
  {
    UpdateDock(d.(windows := d.windows[id := d.windows[id].(active := false, maximized := false)]))
  }

  /** `minimizeWindow`: drop only the `active` class and refresh the dock;
      `maximized`, the z-index and `activeWindow` stay, and nothing else is
      focused. */
  function Minimize(d: Desktop, id: WindowId): (r: Desktop)
    requires id in d.windows
    ensures r.windows.Keys == d.windows.Keys
    ensures !r.windows[id].active
    ensures r.windows[id] == d.windows[id].(active := r.windows[id].active)
    ensures forall k :: k in d.windows && k != id ==> r.windows[k] == d.windows[k]
    ensures r.counter == d.counter && r.activeWindow == d.activeWindow
    ensures r.currentApp == d.currentApp && r.drag == d.drag
    ensures DockConsistent(r) && r.dock.Keys == d.dock.Keys
  {
    UpdateDock(d.(windows := d.windows[id := d.windows[id].(active := false)]))
  }

  /** `maximizeWindow`: flip the `maximized` class and nothing else. */
  function Maximize(d: Desktop, id: WindowId): (r: Desktop)
    requires id in d.windows
    ensures r.windows.Keys == d.windows.Keys
    ensures r.windows[id].maximized == !d.windows[id].maximized
    ensures r.windows[id] == d.windows[id].(maximized := r.windows[id].maximized)
    ensures forall k :: k in d.windows && k != id ==> r.windows[k] == d.windows[k]
    ensures r == d.(windows := r.windows)
  {
    var w := d.windows[id];
    d.(windows := d.windows[id := w.(maximized := !w.maximized)])
  }

  /** Maximizing twice gives back the desktop exactly. */
  lemma MaximizeInvolution(d: Desktop, id: WindowId)
    requires id in d.windows
    ensures Maximize(Maximize(d, id), id) == d
  {
    var once := Maximize(d, id);
    var twice := Maximize(once, id);
    assert twice.windows == d.windows;
  }

  /** A dock item's click handler: the item's `data-window` is looked up
      with `getElementById`; an open window is minimized and any other is
      opened.  When no window has that id the handler throws on the missing
      element before changing anything, so the desktop stays as it was. */
  function DockClick(d: Desktop, id: WindowId): (r: Desktop)
    ensures r.windows.Keys == d.windows.Keys && r.dock.Keys == d.dock.Keys
    ensures id !in d.windows ==> r == d
    ensures id in d.windows && d.windows[id].active ==> r == Minimize(d, id)
    ensures id in d.windows && !d.windows[id].active ==> r == Open(d, id)
    ensures id in d.windows ==>
              && r.windows[id].active == !d.windows[id].active
              && (d.windows[id].active ==> r.windows[id].maximized == d.windows[id].maximized)
              && (d.windows[id].active ==> r.activeWindow == d.activeWindow && r.counter == d.counter)
              && (!d.windows[id].active ==> r.activeWindow == Some(id) && r.counter == d.counter + 1)
              && DockConsistent(r)
    ensures forall k :: k in d.windows && k != id ==> r.windows[k].active == d.windows[k].active
  {
    if id !in d.windows then d
    else if d.windows[id].active then Minimize(d, id) else Open(d, id)
  }

  /** The titlebar's mousedown handler.  A press on a control button or on
      a maximized window is ignored; otherwise a drag starts, the window is
      focused, and the pointer's offset inside the window's bounding box
      (`rectLeft`, `rectTop`) is remembered. */
  function TitlebarMouseDown(d: Desktop, id: WindowId, onButton: bool,
                             clientX: int, clientY: int,
                             rectLeft: int, rectTop: int): (r: Desktop)
    requires id in d.windows
    ensures r.windows.Keys == d.windows.Keys
    ensures onButton || d.windows[id].maximized ==> r == d
    ensures !onButton && !d.windows[id].maximized ==>
              && r.drag.isDragging
              && rectLeft + r.drag.offX == clientX
              && rectTop + r.drag.offY == clientY
              && r.activeWindow == Some(id)
              && r.counter == d.counter + 1
              && r.windows[id].zIndex == Some(r.counter)
              && r.windows[id].left == d.windows[id].left
              && r.windows[id].top == d.windows[id].top
              && (forall k :: k in d.windows ==>
                    r.windows[k] == d.windows[k].(zIndex := r.windows[k].zIndex))
              && (forall k :: k in d.windows && k != id ==>
                    r.windows[k].zIndex == Some(Min(EffectiveZ(d.windows[k].zIndex), d.counter - 1)))
              && r.dock == d.dock
              && r.currentApp == d.windows[id].title
  {
    if onButton || d.windows[id].maximized then d
    else
      var started := d.(drag := Drag(true, clientX - rectLeft, clientY - rectTop),
                        activeWindow := Some(id));
      Focus(started, id)
  }

  /** The document's mousemove handler: without a drag in progress (or
      without a focused window) nothing happens; otherwise the focused
      window follows the pointer, its top edge held at or below the panel,
      its left edge not clamped at all. */
  function MouseMove(d: Desktop, clientX: int, clientY: int): (r: Desktop)
    requires WellFormed(d)
    ensures !d.drag.isDragging || d.activeWindow.None? ==> r == d
    ensures d.drag.isDragging && d.activeWindow.Some? ==>
              var a := d.activeWindow.value;
              && r.windows.Keys == d.windows.Keys
              && r.windows[a].left.Some? && r.windows[a].top.Some?
              && r.windows[a].left.value + d.drag.offX == clientX
              && r.windows[a].top.value >= PanelHeight
              && (clientY - d.drag.offY >= PanelHeight ==> r.windows[a].top.value + d.drag.offY == clientY)
              && (clientY - d.drag.offY < PanelHeight ==> r.windows[a].top.value == PanelHeight)
              && r.windows[a] == d.windows[a].(left := r.windows[a].left, top := r.windows[a].top)
              && (forall k :: k in d.windows && k != a ==> r.windows[k] == d.windows[k])
              && r == d.(windows := r.windows)
  {
    if !d.drag.isDragging || d.activeWindow.None? then d
    else
      var a := d.activeWindow.value;
      var x := clientX - d.drag.offX;
      var y := Max(PanelHeight, clientY - d.drag.offY);
      d.(windows := d.windows[a := d.windows[a].(left := Some(x), top := Some(y))])
  }

  /** The document's mouseup handler ends the drag session. */
  function MouseUp(d: Desktop): (r: Desktop)
    ensures !r.drag.isDragging
    ensures r.drag.offX == d.drag.offX && r.drag.offY == d.drag.offY
    ensures r == d.(drag := r.drag)
  {
    if d.drag.isDragging then d.(drag := d.drag.(isDragging := false)) else d
  }

  /** After the button is released, moving the pointer moves nothing. */
  lemma MoveAfterUpIsNoOp(d: Desktop, clientX: int, clientY: int)
    requires WellFormed(d)
    ensures MouseMove(MouseUp(d), clientX, clientY) == MouseUp(d)
  {
  }

  /** A press on the titlebar also reaches the window's own mousedown
      listener, which focuses it again: a press that starts a drag bumps the
      counter twice, an ignored one once, and either way the window ends on
      top. */
  function TitlebarPress(d: Desktop, id: WindowId, onButton: bool,
                         clientX: int, clientY: int,
                         rectLeft: int, rectTop: int): (r: Desktop)
    requires id in d.windows
    ensures r.windows.Keys == d.windows.Keys
    ensures r.activeWindow == Some(id)
    ensures r.windows[id].zIndex == Some(r.counter)
    ensures onButton || d.windows[id].maximized ==> r.counter == d.counter + 1 && r.drag == d.drag
    ensures !onButton && !d.windows[id].maximized ==> r.counter == d.counter + 2 && r.drag.isDragging
    ensures r.drag == TitlebarMouseDown(d, id, onButton, clientX, clientY, rectLeft, rectTop).drag
    ensures forall k :: k in d.windows ==> r.windows[k] == d.windows[k].(zIndex := r.windows[k].zIndex)
    ensures forall k :: k in d.windows && k != id ==>
              r.windows[k].zIndex.Some? && r.windows[k].zIndex.value <= r.counter - 1
    ensures onButton || d.windows[id].maximized ==>
              forall k :: k in d.windows && k != id ==>
                r.windows[k].zIndex == Some(Min(EffectiveZ(d.windows[k].zIndex), d.counter - 1))
    ensures !onButton && !d.windows[id].maximized ==>
              forall k :: k in d.windows && k != id ==>
                var once := TitlebarMouseDown(d, id, onButton, clientX, clientY, rectLeft, rectTop);
                r.windows[k].zIndex == Some(Min(EffectiveZ(once.windows[k].zIndex), d.counter))
    ensures r.dock == d.dock && r.currentApp == d.windows[id].title
  {
    Focus(TitlebarMouseDown(d, id, onButton, clientX, clientY, rectLeft, rectTop), id)
  }

  /** A user action, as the event listeners deliver them. */
  datatype Event =
    | OpenEv(id: WindowId)          // desktop icon double-click, activities tile, Ctrl+Alt+T
    | CloseEv(id: WindowId)         // close button
    | MinimizeEv(id: WindowId)      // minimize button
    | MaximizeEv(id: WindowId)      // maximize button
    | WindowPressEv(id: WindowId)   // mousedown anywhere in a window
    | DockClickEv(id: WindowId)
    | TitlebarDownEv(id: WindowId, onButton: bool, clientX: int, clientY: int,
                     rectLeft: int, rectTop: int)
    | MoveEv(clientX: int, clientY: int)
    | UpEv

  /** Events that hand a window element to their handler need that window
      to exist; `openWindow` and the dock look their id up themselves. */
  predicate Targets(keys: set<WindowId>, e: Event) {
    match e
    case OpenEv(_) => true
    case DockClickEv(_) => true
    case MoveEv(_, _) => true
    case UpEv => true
    case _ => e.id in keys
  }

  function Apply(d: Desktop, e: Event): (r: Desktop)
    requires WellFormed(d) && Targets(d.windows.Keys, e)
    ensures WellFormed(r)
    ensures r.windows.Keys == d.windows.Keys
    ensures r.dock.Keys == d.dock.Keys
  {
    match e
    case OpenEv(id) => Open(d, id)
    case CloseEv(id) => Close(d, id)
    case MinimizeEv(id) => Minimize(d, id)
    case MaximizeEv(id) => Maximize(d, id)
    case WindowPressEv(id) => Focus(d, id)
    case DockClickEv(id) => DockClick(d, id)
    case TitlebarDownEv(id, b, cx, cy, rl, rt) => TitlebarMouseDown(d, id, b, cx, cy, rl, rt)
    case MoveEv(cx, cy) => MouseMove(d, cx, cy)
    case UpEv => MouseUp(d)
  }

  /** Focusing keeps the invariant: the new counter tops every window. */
  lemma FocusKeepsInv(d: Desktop, id: WindowId)
    requires Inv(d) && id in d.windows
    ensures Inv(Focus(d, id))
  {
  }

  /** Opening keeps the invariant: a cascaded window lands below the panel. */
  lemma OpenKeepsInv(d: Desktop, id: WindowId)
    requires Inv(d)
    ensures Inv(Open(d, id)) && Open(d, id).counter >= d.counter
  {
    if id in d.windows && d.windows[id].active {
      FocusKeepsInv(d, id);
    }
  }

  /** Closing and minimizing touch no stacking or position. */
  lemma CloseKeepsInv(d: Desktop, id: WindowId)
    requires Inv(d) && id in d.windows
    ensures Inv(Close(d, id)) && Inv(Minimize(d, id))
  {
  }

  /** Flipping `maximized` keeps the invariant, though the dock is not
      refreshed: the `active` class does not change. */
  lemma MaximizeKeepsInv(d: Desktop, id: WindowId)
    requires Inv(d) && id in d.windows
    ensures Inv(Maximize(d, id))
  {
  }

  /** A drag start focuses the window, an ignored press changes nothing. */
  lemma TitlebarMouseDownKeepsInv(d: Desktop, id: WindowId, onButton: bool,
                                  clientX: int, clientY: int, rectLeft: int, rectTop: int)
    requires Inv(d) && id in d.windows
    ensures var r := TitlebarMouseDown(d, id, onButton, clientX, clientY, rectLeft, rectTop);
            Inv(r) && r.counter >= d.counter
  {
  }

  /** A drag moves one window and keeps its top edge below the panel. */
  lemma MouseMoveKeepsInv(d: Desktop, clientX: int, clientY: int)
    requires Inv(d)
    ensures Inv(MouseMove(d, clientX, clientY))
  {
  }

  /** Every handler keeps the invariant and never lowers the counter. */
  lemma ApplyKeepsInv(d: Desktop, e: Event)
    requires Inv(d) && Targets(d.windows.Keys, e)
    ensures Inv(Apply(d, e))
    ensures Apply(d, e).counter >= d.counter
  {
    match e
    case OpenEv(id) => OpenKeepsInv(d, id);
    case CloseEv(id) => CloseKeepsInv(d, id);
    case MinimizeEv(id) => CloseKeepsInv(d, id);
    case MaximizeEv(id) => MaximizeKeepsInv(d, id);
    case WindowPressEv(id) => FocusKeepsInv(d, id);
    case DockClickEv(id) =>
      if id !in d.windows {
      } else if d.windows[id].active {
        CloseKeepsInv(d, id);
      } else {
        OpenKeepsInv(d, id);
      }
    case TitlebarDownEv(id, b, cx, cy, rl, rt) => TitlebarMouseDownKeepsInv(d, id, b, cx, cy, rl, rt);
    case MoveEv(cx, cy) => MouseMoveKeepsInv(d, cx, cy);
    case UpEv => {}
  }

  /** A whole session of events, each reaching an existing window. */
  function Run(d: Desktop, events: seq<Event>): (r: Desktop)
    requires WellFormed(d)
    requires forall i :: 0 <= i < |events| ==> Targets(d.windows.Keys, events[i])
    ensures WellFormed(r) && r.windows.Keys == d.windows.Keys
    decreases |events|
  {
    if |events| == 0 then d else Run(Apply(d, events[0]), events[1..])
  }

  /** Over any session the invariant holds throughout and the counter is
      monotone. */
  lemma {:induction false} RunKeepsInv(d: Desktop, events: seq<Event>)
    requires Inv(d)
    requires forall i :: 0 <= i < |events| ==> Targets(d.windows.Keys, events[i])
    ensures Inv(Run(d, events))
    ensures Run(d, events).counter >= d.counter
    decreases |events|
  {
    if |events| > 0 {
      ApplyKeepsInv(d, events[0]);
      var next := Apply(d, events[0]);
      assert forall i :: 0 <= i < |events[1..]| ==> Targets(next.windows.Keys, events[1..][i]) by {
        forall i | 0 <= i < |events[1..]| ensures Targets(next.windows.Keys, events[1..][i]) {
          assert events[1..][i] == events[i + 1];
        }
      }
      RunKeepsInv(next, events[1..]);
    }
  }

  /** The page as loaded satisfies the invariant: nothing is focused, no
      window is open or has a top edge, and no dock item is lit. */
  lemma InitialInv(titles: map<WindowId, string>, dockIds: set<WindowId>, app: string)
    ensures Inv(Initial(titles, dockIds, app))
  {
  }

  /** From page load, over any session (the first event being `init`'s
      `openWindow('about')` or anything else), the invariant holds and the
      counter never drops below its start. */
  lemma SessionKeepsInv(titles: map<WindowId, string>, dockIds: set<WindowId>, app: string,
                        events: seq<Event>)
    requires forall i :: 0 <= i < |events| ==> Targets(titles.Keys, events[i])
    ensures Inv(Run(Initial(titles, dockIds, app), events))
    ensures Run(Initial(titles, dockIds, app), events).counter >= InitialCounter
  {
    InitialInv(titles, dockIds, app);
    RunKeepsInv(Initial(titles, dockIds, app), events);
  }

  /** Right after focusing, the focused window is strictly above every
      other window as `focusWindow` would read it next time, whatever the
      stacking was before (the counter starts at 1000, far above the
      fallback of 100). */
  lemma FocusIsTopmost(d: Desktop, id: WindowId)
    requires id in d.windows && d.counter >= FallbackZ
    ensures forall k :: k in d.windows && k != id ==>
              EffectiveZ(Focus(d, id).windows[k].zIndex) < EffectiveZ(Focus(d, id).windows[id].zIndex)
  {
  }
}
