/**
 * The host's window commands (`src-tauri/src/commands/window.rs` and the
 * older `src-tauri/src/commands.rs`): which window `load_window` opens for
 * the persisted `is_initialized` flag, and how `show_main` and
 * `initialize_app` swap the setup window for the main one. The app's
 * windows are a map from name to window; opening the settings store and
 * building a window are calls into the framework, so their outcomes are
 * parameters.
 */
module HostWindows {
  import opened Wrappers
  import opened JsonValue

  /** How a window is sized: a minimum size it may grow from, or a fixed inner size. */
  datatype Size = MinSize(width: int, height: int) | InnerSize(width: int, height: int)

  /** A window as its builder configures it. */
  datatype Window = Window(url: string, title: string, size: Size, resizable: bool)

  /** The main window: centred, 800 by 600 at least, resizable. */
  const MainWindow := Window("windows/main.html", "Open 2E: Open Ended Evaluation", MinSize(800, 600), true)

  /** The setup window: centred, 800 by 600, not resizable. */
  const SetupWindow := Window("windows/setup.html", "Open2E: Initialization", InnerSize(800, 600), false)

  /** The window `load_window` opens for the stored `is_initialized` value: main only for JSON `true`. */
  function Target(initialized: Option<Json>): (r: string)
    ensures r == "main" <==> initialized == Some(JBool(true))
    ensures r == "setup" <==> initialized != Some(JBool(true))
  {
    match initialized
    case Some(JBool(true)) => "main"
    case _ => "setup"
  }

  /** The configuration of the window with name `name` that `load_window` builds. */
  function TargetWindow(name: string): Window {
    if name == "main" then MainWindow else SetupWindow
  }

  /** A missing flag, `false`, the text "true", a number, `null`: each opens the setup window. */
  lemma OtherValuesOpenSetup()
    ensures Target(None) == "setup"
    ensures Target(Some(JBool(false))) == "setup"
    ensures Target(Some(JStr("true"))) == "setup"
    ensures Target(Some(JNum(1.0))) == "setup"
    ensures Target(Some(JNull)) == "setup"
  {
  }

  /** The value of a key in a store's top-level object, as `store.get` returns it. */
  function Get(store: map<string, Json>, key: string): (r: Option<Json>)
    ensures r.Some? <==> key in store
    ensures r.Some? ==> r.value == store[key]
  {
    if key in store then Some(store[key]) else None
  }

  /** The file the settings store is kept in. */
  const StoreFile := "store.json"

  /** The application as the window commands see it: its windows and the resources it holds. */
  class App {
    var windows: map<string, Window>
    var resources: set<string>

    /** An app with the given windows open and no store held. */
    constructor(windows: map<string, Window>)
      ensures this.windows == windows && resources == {}
    {
      this.windows := windows;
      resources := {};
    }

    /** Closes the window with name `name` when there is one. */
    method Close(name: string)
      modifies this
      ensures windows == old(windows) - {name} && resources == old(resources)
    {
      if name in windows {
        windows := windows - {name};
      }
    }

    /**
     * `load_window`: opens the store (`store`, its contents or the error),
     * builds the main window when `is_initialized` is JSON `true` and the
     * setup window otherwise (`buildError`, the builder's error if it
     * fails), closes "index", releases the store and answers Ok. Any error
     * returns at once: a failed build leaves "index" open and the store held.
     */
    method LoadWindow(store: Result<map<string, Json>, string>, buildError: Option<string>)
      returns (r: Result<(), string>)
      modifies this
      ensures store.Err? ==> r == Err(store.error) && windows == old(windows) && resources == old(resources)
      ensures store.Ok? && buildError.Some? ==>
        r == Err(buildError.value) && windows == old(windows) && resources == old(resources) + {StoreFile}
      ensures store.Ok? && buildError.None? ==>
        var name := Target(Get(store.value, "is_initialized"));
        r == Ok(()) && resources == old(resources) - {StoreFile} &&
        windows == old(windows)[name := TargetWindow(name)] - {"index"}
    {
      if store.Err? {
        return Err(store.error);
      }
      resources := resources + {StoreFile};
      var name := Target(Get(store.value, "is_initialized"));
      if buildError.Some? {
        return Err(buildError.value);
      }
      windows := windows[name := TargetWindow(name)];
      Close("index");
      resources := resources - {StoreFile};
      r := Ok(());
    }

    /** The older `load_window` of `commands.rs`: the same steps in the same order. */
    method LoadWindowCommand(store: Result<map<string, Json>, string>, buildError: Option<string>)
      returns (r: Result<(), string>)
      modifies this
      ensures store.Err? ==> r == Err(store.error) && windows == old(windows) && resources == old(resources)
      ensures store.Ok? && buildError.Some? ==>
        r == Err(buildError.value) && windows == old(windows) && resources == old(resources) + {StoreFile}
      ensures store.Ok? && buildError.None? ==>
        var name := Target(Get(store.value, "is_initialized"));
        r == Ok(()) && resources == old(resources) - {StoreFile} &&
        windows == old(windows)[name := TargetWindow(name)] - {"index"}
    {
      r := LoadWindow(store, buildError);
    }

    /**
     * `show_main`: builds the main window and closes "setup"; "index" is
     * left alone. A failed build returns its error and changes nothing.
     */
    method ShowMain(buildError: Option<string>) returns (r: Result<(), string>)
      modifies this
      ensures resources == old(resources)
      ensures buildError.Some? ==> r == Err(buildError.value) && windows == old(windows)
      ensures buildError.None? ==> r == Ok(()) && windows == old(windows)["main" := MainWindow] - {"setup"}
    {
      if buildError.Some? {
        return Err(buildError.value);
      }
      windows := windows["main" := MainWindow];
      Close("setup");
      r := Ok(());
    }

    /** `initialize_app` of `commands.rs`: the same as `show_main`; it closes "setup", not "index". */
    method InitializeApp(buildError: Option<string>) returns (r: Result<(), string>)
      modifies this
      ensures resources == old(resources)
      ensures buildError.Some? ==> r == Err(buildError.value) && windows == old(windows)
      ensures buildError.None? ==> r == Ok(()) && windows == old(windows)["main" := MainWindow] - {"setup"}
    {
      r := ShowMain(buildError);
    }
  }

  /**
   * At start the app shows only the splash window "index" (configured
   * outside the commands, so given as `splash`). After a successful
   * `load_window` exactly one of "main" and "setup" is open, the one the
   * flag chooses, "index" is closed and the store is released.
   */
  method StartUp(splash: Window, store: map<string, Json>) returns (app: App)
    ensures fresh(app)
    ensures var name := Target(Get(store, "is_initialized"));
      app.windows == map[name := TargetWindow(name)]
    ensures ("main" in app.windows) != ("setup" in app.windows)
    ensures "index" !in app.windows && app.resources == {}
  {
    app := new App(map["index" := splash]);
    var r := app.LoadWindow(Ok(store), None);
    var name := Target(Get(store, "is_initialized"));
    assert app.windows == map["index" := splash][name := TargetWindow(name)] - {"index"};
  }
}
