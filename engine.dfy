/**
 * The embedded browser engine, seen from the browser library: a view handle
 * per tab (a `ChromiumWebBrowser`) and the engine's process-wide state (`Cef`).
 * Rendering, networking and history are outside the model; a view only
 * records the addresses it was asked to load, whether it is shown and whether
 * it was disposed.
 */
module Engine {

  /** An engine-backed navigable view. */
  class View {
    /** Every address this view was asked to load, the construction address first. */
    var requested: seq<string>
    /** The view's `Visibility` is `Visible` (otherwise `Hidden`). */
    var visible: bool
    var disposed: bool

    /** A new view starts loading `url` and is hidden. */
    constructor (url: string)
      ensures requested == [url] && !visible && !disposed
    {
      requested := [url];
      visible := false;
      disposed := false;
    }

    /** Asks the view to navigate to `url`. */
    method Load(url: string)
      modifies this`requested
      ensures requested == old(requested) + [url]
    {
      requested := requested + [url];
    }

    method Dispose()
      modifies this`disposed
      ensures disposed
    {
      disposed := true;
    }
  }

  datatype LogSeverity = Default | Verbose | Info | Warning | Error | Fatal | Disable

  /**
   * The settings handed to the engine at start-up. Paths are kept as the list
   * of segments that are joined into the path.
   */
  datatype CefSettings = CefSettings(
    cachePath: seq<string>,
    logSeverity: LogSeverity,
    logFile: seq<string>,
    commandLineArgs: seq<(string, string)>)

  /** How a `Cef.Initialize` call ends: `true`, `false`, or an exception. */
  datatype StartOutcome = Started | ReturnedFalse | Threw(message: string)

  /**
   * The engine's global state. The engine can be started once per process,
   * by this library or by the host application before it.
   */
  class Cef {
    /** `Cef.IsInitialized`. */
    var isInitialized: bool
    /** The settings of every `Cef.Initialize` call, in order. */
    ghost var attempts: seq<CefSettings>
    /** How many `Cef.Initialize` calls succeeded. */
    ghost var starts: nat

    ghost predicate Valid()
      reads this
    {
      starts <= 1 && (starts == 1 ==> isInitialized)
    }

    /** The engine as the library finds it: possibly started by the host already. */
    constructor (initializedByHost: bool)
      ensures Valid()
      ensures isInitialized == initializedByHost && attempts == [] && starts == 0
    {
      isInitialized := initializedByHost;
      attempts := [];
      starts := 0;
    }

    /**
     * `Cef.Initialize(settings)`: its outcome is decided by the engine and is
     * a parameter here. Calling it on a started engine is the error the
     * precondition rules out. A call that throws is taken to leave the
     * engine stopped.
     */
    method Initialize(settings: CefSettings, outcome: StartOutcome) returns (result: StartOutcome)
      requires Valid() && !isInitialized
      modifies this
      ensures Valid()
      ensures result == outcome && isInitialized == outcome.Started?
      ensures attempts == old(attempts) + [settings]
      ensures starts == old(starts) + (if outcome.Started? then 1 else 0)
    {
      attempts := attempts + [settings];
      if outcome.Started? {
        starts := starts + 1;
      }
      isInitialized := outcome.Started?;
      result := outcome;
    }
  }
}
