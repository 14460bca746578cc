/**
 * The process-wide guard around engine start-up and shutdown. The lock of the
 * original is left out: the model is sequential.
 */
module Initializer {
  import opened Wrappers
  import opened Engine

  const AppFolder: string := "RevitInternalBrowser"
  const InitFailureMessage: string :=
    "CefSharp initialization failed. Check that all CefSharp dependencies are present."

  /** `Initialize` returns, or rethrows the start-up failure. */
  datatype InitResult = Ready | Failed(message: string)

  /**
   * The settings the guard starts the engine with: cache and log under the
   * per-user application-data folder, and sandboxing switched off.
   */
  function EngineSettings(localAppData: string): (s: CefSettings)
    ensures s.cachePath == [localAppData, AppFolder, "Cache"]
    ensures s.logFile == [localAppData, AppFolder, "Logs", "cef.log"]
    ensures s.logSeverity == Info
    ensures ("--no-sandbox", "1") in s.commandLineArgs
    ensures ("--disable-web-security", "1") in s.commandLineArgs
    ensures ("--disable-features", "VizDisplayCompositor") in s.commandLineArgs
  {
    CefSettings(
      [localAppData, AppFolder, "Cache"],
      Info,
      [localAppData, AppFolder, "Logs", "cef.log"],
      [("--no-sandbox", "1"), ("--disable-web-security", "1"), ("--disable-features", "VizDisplayCompositor")])
  }

  /** The static class: one flag, `_isInitialized`, beside the engine it guards. */
  class CefSharpInitializer {
    var isInitialized: bool
    const cef: Cef

    /** The flag is only ever set while the engine is up. */
    ghost predicate Valid()
      reads this, cef
    {
      cef.Valid() && (isInitialized ==> cef.isInitialized)
    }

    constructor (cef: Cef)
      requires cef.Valid()
      ensures Valid() && this.cef == cef && !isInitialized
    {
      this.cef := cef;
      isInitialized := false;
    }

    /**
     * Starts the engine unless this guard or the host already did. Before the
     * start-up call the cache and log directories are created; `dirError` is
     * the message of the exception that creation throws, if it does. The
     * engine's own outcome is `engine`. Every failure is shown and rethrown,
     * which `Failed` stands for, with the exception's message.
     */
    method Initialize(localAppData: string, dirError: Option<string>, engine: StartOutcome)
      returns (r: InitResult)
      requires Valid()
      modifies this, cef
      ensures Valid()
      // already done: nothing happens
      ensures old(isInitialized) ==> r == Ready && isInitialized && unchanged(cef)
      // started by the host: adopt it without calling the engine
      ensures !old(isInitialized) && old(cef.isInitialized) ==> r == Ready && isInitialized && unchanged(cef)
      // the directories cannot be created: the engine is not called
      ensures !old(isInitialized) && !old(cef.isInitialized) && dirError.Some? ==>
        r == Failed(dirError.value) && !isInitialized && unchanged(cef)
      // otherwise one start-up call, with the library's settings
      ensures !old(isInitialized) && !old(cef.isInitialized) && dirError.None? ==>
        && cef.attempts == old(cef.attempts) + [EngineSettings(localAppData)]
        && (r == Ready <==> engine.Started?)
        && (isInitialized <==> engine.Started?)
        && (engine.ReturnedFalse? ==> r == Failed(InitFailureMessage))
        && (engine.Threw? ==> r == Failed(engine.message))
      ensures r.Failed? ==> !isInitialized
      // the engine is called at most once per call, and never started twice
      ensures |cef.attempts| <= |old(cef.attempts)| + 1
      ensures cef.starts <= 1
    {
      if isInitialized {
        return Ready;
      }
      if cef.isInitialized {
        isInitialized := true;
        return Ready;
      }
      if dirError.Some? {
        return Failed(dirError.value);
      }
      var result := cef.Initialize(EngineSettings(localAppData), engine);
      match result
      case Threw(message) =>
        r := Failed(message);
      case ReturnedFalse =>
        r := Failed(InitFailureMessage);
      case Started =>
        isInitialized := true;
        r := Ready;
    }

    /**
     * Forgets the flag when both it and the engine say "initialised"; the
     * engine itself is never torn down.
     */
    method Shutdown()
      requires Valid()
      modifies this`isInitialized
      ensures Valid()
      ensures isInitialized == (old(isInitialized) && !cef.isInitialized)
      ensures !isInitialized
      ensures unchanged(cef)
    {
      if isInitialized && cef.isInitialized {
        isInitialized := false;
      }
    }
  }

  /**
   * Start-up, shutdown and start-up again, from any state of the guard and
   * the engine: the engine is started at most once, and after a successful
   * first start-up the second adopts the running engine.
   */
  method InitializeShutdownInitialize(guard: CefSharpInitializer, localAppData: string, dirError: Option<string>, engine: StartOutcome)
    returns (first: InitResult, second: InitResult)
    requires guard.Valid()
    modifies guard, guard.cef
    ensures guard.Valid() && guard.cef.starts <= 1
    ensures first == Ready ==> second == Ready && |guard.cef.attempts| <= |old(guard.cef.attempts)| + 1
    ensures first == Ready && !old(guard.isInitialized) && !old(guard.cef.isInitialized) ==>
      |guard.cef.attempts| == |old(guard.cef.attempts)| + 1
  {
    first := guard.Initialize(localAppData, dirError, engine);
    guard.Shutdown();
    second := guard.Initialize(localAppData, dirError, engine);
  }
}
