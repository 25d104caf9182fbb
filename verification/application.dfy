/**
  The `Application` state machine of `web/new-api/src/lib.rs`. Windows,
  graphics contexts and the event-loop proxy are tokens; the effects the
  handlers have outside the state (spawning the graphics build, asking the
  event loop to exit) are recorded alongside it.
 */
module Application {
  import opened Wrappers
  import opened GraphicsContext

  /** A window created by the event loop, with its inner size at the time it is read. */
  datatype Window = Window(id: nat, innerWidth: u32, innerHeight: u32)

  /** An `EventLoopProxy`, through which a finished build is delivered as a user event. */
  datatype Proxy = Proxy(id: nat)

  /** `Application`: building (holding the proxy until the build is spawned) or running. */
  datatype App = Building(proxy: Option<Proxy>) | Running(window: Window, graphics: Graphics)

  /** A graphics build spawned by `resumed`: the window it draws to and the proxy it reports through. */
  datatype Build = Build(window: Window, proxy: Proxy)

  /** The application together with the effects of its handlers so far. */
  datatype Machine = Machine(app: App, spawned: seq<Build>, exitRequested: bool)

  /** The window events `window_event` tells apart; all others fall into `OtherWindowEvent`. */
  datatype WindowEvent = WindowResized(width: u32, height: u32) | RedrawRequested | CloseRequested | OtherWindowEvent

  /** What the event loop delivers to the handler. */
  datatype Event =
    | Resumed(created: Window)
    | UserEvent(window: Window, graphics: Graphics)
    | FromWindow(event: WindowEvent)

  /** `Application::new`: building, holding the proxy of the event loop. */
  function New(proxy: Proxy): (m: Machine)
    ensures m.app.Building? && m.app.proxy == Some(proxy)
    ensures m.spawned == [] && !m.exitRequested
  {
    Machine(Building(Some(proxy)), [], false)
  }

  /** `Application::render`: draws only when running. */
  function RenderApp(app: App): (r: App)
    ensures !app.Running? ==> r == app
    ensures app.Running? ==> r == app.(graphics := Render(app.graphics))
  {
    match app
    case Running(window, graphics) => Running(window, Render(graphics))
    case Building(_) => app
  }

  /** `Application::resized`: resizes the surface only when running. */
  function ResizeApp(app: App, width: u32, height: u32): (r: App)
    ensures !app.Running? ==> r == app
    ensures app.Running? ==> r == app.(graphics := Resized(app.graphics, width, height))
  {
    match app
    case Running(window, graphics) => Running(window, Resized(graphics, width, height))
    case Building(_) => app
  }

  /** `window_event`: resize, redraw or exit; every other event is ignored. */
  function OnWindowEvent(m: Machine, event: WindowEvent): (r: Machine)
    ensures r.spawned == m.spawned
    ensures event.WindowResized? ==> r.app == ResizeApp(m.app, event.width, event.height)
    ensures event.RedrawRequested? ==> r.app == RenderApp(m.app)
    ensures event.CloseRequested? ==> r.exitRequested && r.app == m.app
    ensures event.OtherWindowEvent? ==> r == m
    ensures !event.CloseRequested? ==> r.exitRequested == m.exitRequested
  {
    match event
    case WindowResized(width, height) => m.(app := ResizeApp(m.app, width, height))
    case RedrawRequested => m.(app := RenderApp(m.app))
    case CloseRequested => m.(exitRequested := true)
    case OtherWindowEvent => m
  }

  /**
    `resumed`: while building and still holding the proxy, take it and spawn
    the one graphics build for the window the event loop created; in every
    other state nothing happens.
   */
  function OnResumed(m: Machine, created: Window): (r: Machine)
    ensures m.app == Building(None) || m.app.Running? ==> r == m
    ensures m.app.Building? && m.app.proxy.Some? ==>
              r == m.(app := Building(None), spawned := m.spawned + [Build(created, m.app.proxy.value)])
  {
    match m.app
    case Building(Some(proxy)) => m.(app := Building(None), spawned := m.spawned + [Build(created, proxy)])
    case _ => m
  }

  /**
    `user_event`: a graphics context delivered while running is dropped;
    otherwise it is resized to the window's inner size and the application
    runs with that window and context.
   */
  function OnUserEvent(m: Machine, window: Window, graphics: Graphics): (r: Machine)
    ensures m.app.Running? ==> r == m
    ensures m.app.Building? ==>
              r == m.(app := Running(window, Resized(graphics, window.innerWidth, window.innerHeight)))
  {
    if m.app.Running? then m
    else m.(app := Running(window, Resized(graphics, window.innerWidth, window.innerHeight)))
  }

  function Step(m: Machine, event: Event): Machine
  {
    match event
    case Resumed(created) => OnResumed(m, created)
    case UserEvent(window, graphics) => OnUserEvent(m, window, graphics)
    case FromWindow(e) => OnWindowEvent(m, e)
  }

  /** The machine after handling `events` in order. */
  function Run(m: Machine, events: seq<Event>): Machine
    decreases |events|
  {
    if |events| == 0 then m else Run(Step(m, events[0]), events[1..])
  }

  // ---------------------------------------------------------------------------
  // Properties

  /**
    The reachable states: at most one build has been spawned, none while the
    proxy is still held, and a running surface always has a usable size.
   */
  predicate Inv(m: Machine)
  {
    && |m.spawned| <= 1
    && (m.app.Building? && m.app.proxy.Some? ==> |m.spawned| == 0)
    && (m.app.Running? ==> Valid(m.app.graphics))
  }

  lemma StepPreservesInv(m: Machine, event: Event)
    requires Inv(m)
    ensures Inv(Step(m, event))
  {
  }

  lemma {:induction false} RunPreservesInv(m: Machine, events: seq<Event>)
    requires Inv(m)
    ensures Inv(Run(m, events))
    decreases |events|
  {
    if |events| > 0 {
      StepPreservesInv(m, events[0]);
      RunPreservesInv(Step(m, events[0]), events[1..]);
    }
  }

  /**
    Whatever events arrive, the application spawns at most one graphics build,
    and a running surface is never zero-sized.
   */
  lemma AtMostOneBuild(proxy: Proxy, events: seq<Event>)
    ensures |Run(New(proxy), events).spawned| <= 1
    ensures Run(New(proxy), events).app.Running? ==> Valid(Run(New(proxy), events).app.graphics)
  {
    RunPreservesInv(New(proxy), events);
  }

  /** A spawned build reports through the proxy created with the application. */
  lemma {:induction false} BuildUsesOwnProxy(m: Machine, proxy: Proxy, events: seq<Event>)
    requires m.app.Building? && (m.app.proxy.Some? ==> m.app.proxy.value == proxy)
    requires forall i :: 0 <= i < |m.spawned| ==> m.spawned[i].proxy == proxy
    ensures forall i :: 0 <= i < |Run(m, events).spawned| ==> Run(m, events).spawned[i].proxy == proxy
    decreases |events|
  {
    if |events| > 0 {
      var next := Step(m, events[0]);
      if next.app.Running? {
        RunningKeepsBuilds(next, events[1..]);
      } else {
        BuildUsesOwnProxy(next, proxy, events[1..]);
      }
    }
  }

  /**
    The start-up sequence: `resumed` spawns the one build for the created
    window, and when that build delivers the context `Graphics::new` made at
    the window's inner size, the application runs with that window and a
    surface of the inner size clamped to one, configured once and not yet drawn.
   */
  lemma StartUp(proxy: Proxy, window: Window, context: nat)
    ensures var m := Run(New(proxy), [Resumed(window), UserEvent(window, NewGraphics(context, window.innerWidth, window.innerHeight))]);
            && m.app.Running? && m.app.window == window
            && PhysicalSize(m.app.graphics) == (AtLeastOne(window.innerWidth), AtLeastOne(window.innerHeight))
            && m.app.graphics.context == context
            && m.app.graphics.configures == 1 && m.app.graphics.frames == 0
            && m.spawned == [Build(window, proxy)] && !m.exitRequested
  {
    var g := NewGraphics(context, window.innerWidth, window.innerHeight);
    var events := [Resumed(window), UserEvent(window, g)];
    var m1 := Step(New(proxy), Resumed(window));
    assert m1 == Machine(Building(None), [Build(window, proxy)], false);
    assert events[1..] == [UserEvent(window, g)] && events[1..][1..] == [];
    assert Run(New(proxy), events) == Run(m1, events[1..]);
    assert Run(m1, events[1..]) == Step(m1, UserEvent(window, g));
  }

  /** Once running, no further build is spawned. */
  lemma {:induction false} RunningKeepsBuilds(m: Machine, events: seq<Event>)
    requires m.app.Running?
    ensures Run(m, events).spawned == m.spawned
    decreases |events|
  {
    if |events| > 0 {
      RunningKeepsBuilds(Step(m, events[0]), events[1..]);
    }
  }

  /**
    `Running` is absorbing: no event returns the application to `Building`,
    and the window and graphics context it runs with are never replaced.
   */
  lemma {:induction false} RunningIsAbsorbing(m: Machine, events: seq<Event>)
    requires m.app.Running?
    ensures Run(m, events).app.Running?
    ensures Run(m, events).app.window == m.app.window
    ensures Run(m, events).app.graphics.context == m.app.graphics.context
    decreases |events|
  {
    if |events| > 0 {
      RunningIsAbsorbing(Step(m, events[0]), events[1..]);
    }
  }

  /** A second graphics context is ignored: the state is left exactly as it was. */
  lemma SecondContextIgnored(m: Machine, window: Window, graphics: Graphics)
    requires m.app.Running?
    ensures Step(m, UserEvent(window, graphics)) == m
  {
  }

  /** Before running, resize and redraw requests change nothing. */
  lemma NoDrawingBeforeRunning(m: Machine, event: WindowEvent)
    requires !m.app.Running? && !event.CloseRequested?
    ensures Step(m, FromWindow(event)) == m
  {
  }

  /** The number of redraw requests in `events`. */
  function Redraws(events: seq<Event>): nat
  {
    if |events| == 0 then 0
    else (if events[0] == FromWindow(RedrawRequested) then 1 else 0) + Redraws(events[1..])
  }

  /** The number of resize events in `events`. */
  function Resizes(events: seq<Event>): nat
  {
    if |events| == 0 then 0
    else (if events[0].FromWindow? && events[0].event.WindowResized? then 1 else 0) + Resizes(events[1..])
  }

  /**
    While running, every redraw request renders one frame and every resize
    configures the surface once; nothing else draws or reconfigures.
   */
  lemma {:induction false} RunningCountsWork(m: Machine, events: seq<Event>)
    requires m.app.Running?
    ensures Run(m, events).app.Running?
    ensures Run(m, events).app.graphics.frames == m.app.graphics.frames + Redraws(events)
    ensures Run(m, events).app.graphics.configures == m.app.graphics.configures + Resizes(events)
    decreases |events|
  {
    if |events| > 0 {
      RunningCountsWork(Step(m, events[0]), events[1..]);
    }
  }
}
