/** The script engine of src/script.cpp: the state the Lua scripts build
    through the `Get`, `Post` and `Mount` callbacks, how the script
    directory is loaded, and how requests are tried against it. The Lua
    interpreter is not modelled: a script is the sequence of callback
    calls it makes, possibly ending in a runtime error. */
module Script {
  import opened Wrappers
  import opened Types
  import Router
  import Mountpoint
  import Paths

  /** One thing a script does while it executes. */
  datatype Call =
    /** `Get(path, required_fields, func)`. */
    | GetCall(pattern: string, fields: Router.Fields, func: nat)
    /** `Post(path, required_fields, func)`. */
    | PostCall(pattern: string, fields: Router.Fields, func: nat)
    /** `Mount(path, fs_path)`. */
    | MountCall(path: string, fsPath: string)
    /** A Lua runtime error raised by the script itself. */
    | Raise

  /** A script file: whether it compiles, and what running it does. */
  datatype ScriptFile = ScriptFile(compiles: bool, body: seq<Call>)

  /** What `directory_iterator` gives for a directory: its entries in
      listing order, or a `filesystem_error` because the directory is
      missing, is not a directory, or cannot be read. */
  datatype Listing = Listed(entries: seq<Node>) | Unlistable

  /** A directory entry as `directory_iterator` lists it. */
  datatype Node =
    | RegularFile(name: string, script: ScriptFile)
    | Directory(name: string, listing: Listing)
    /** Anything that is neither a regular file nor a directory. */
    | OtherFile(name: string)

  /** The state of `script_engine`: `path_`, `router_` and `mountpoints_`. */
  datatype Engine = Engine(root: string, routes: Router.Routes, mounts: seq<Mountpoint.Mount>)

  /** The exceptions `load_extensions` throws, each naming the path it
      failed on. */
  datatype LoadError =
    | CompilationFailed(path: string)
    | ExecutionFailed(path: string)
    /** The `filesystem_error` of a directory that cannot be listed. */
    | ListingFailed(path: string)

  /** The engine after a load, which is kept even when loading threw, and
      the exception, if any. */
  datatype Loaded = Loaded(engine: Engine, error: Option<LoadError>)

  ghost predicate IsPrefixOf<T>(a: seq<T>, b: seq<T>)
  {
    |a| <= |b| && b[..|a|] == a
  }

  /** `after` holds everything `before` held, with more appended: what
      registration without rollback leaves behind. */
  ghost predicate Extends(before: Engine, after: Engine)
  {
    && after.root == before.root
    && IsPrefixOf(before.mounts, after.mounts)
    && forall m :: IsPrefixOf(Router.TableOf(before.routes, m), Router.TableOf(after.routes, m))
  }

  lemma ExtendsTransitive(a: Engine, b: Engine, c: Engine)
    requires Extends(a, b) && Extends(b, c)
    ensures Extends(a, c)
  {
    assert c.mounts[..|a.mounts|] == c.mounts[..|b.mounts|][..|a.mounts|];
    forall m
      ensures IsPrefixOf(Router.TableOf(a.routes, m), Router.TableOf(c.routes, m))
    {
      var ta, tb, tc := Router.TableOf(a.routes, m), Router.TableOf(b.routes, m), Router.TableOf(c.routes, m);
      assert IsPrefixOf(ta, tb) && IsPrefixOf(tb, tc);
      assert tc[..|ta|] == tc[..|tb|][..|ta|];
    }
  }

  lemma AppendedExtends(e: Engine, routes: Router.Routes, verb: string, entry: Router.Entry)
    requires Router.Appended(e.routes, routes, verb, entry)
    ensures Extends(e, e.(routes := routes))
  {
    forall m
      ensures IsPrefixOf(Router.TableOf(e.routes, m), Router.TableOf(routes, m))
    {
      if m == verb {
        assert Router.TableOf(routes, m) == Router.TableOf(e.routes, m) + [entry];
      }
    }
  }

  /** The `Get` callback: registers the Lua function as a GET route. The
      router hands it the match results unchanged. */
  function GetCallback(e: Engine, rx: Router.Regex, pattern: string, fields: Router.Fields,
                       func: nat): (r: Result<Engine, Router.RouterError>)
    ensures r.Success? <==> rx.compiles(pattern)
    ensures r.Success? ==> r.value.root == e.root && r.value.mounts == e.mounts
    ensures r.Success? ==> Router.Appended(e.routes, r.value.routes, "GET", Router.Entry(pattern, Router.Handler(func), fields))
  {
    match Router.Get(e.routes, rx, pattern, Router.Handler(func), fields)
    case Success(routes) => Success(e.(routes := routes))
    case Failure(err) => Failure(err)
  }

  /** The `Post` callback: registers the Lua function as a POST route. */
  function PostCallback(e: Engine, rx: Router.Regex, pattern: string, fields: Router.Fields,
                        func: nat): (r: Result<Engine, Router.RouterError>)
    ensures r.Success? <==> rx.compiles(pattern)
    ensures r.Success? ==> r.value.root == e.root && r.value.mounts == e.mounts
    ensures r.Success? ==> Router.Appended(e.routes, r.value.routes, "POST", Router.Entry(pattern, Router.Handler(func), fields))
  {
    match Router.Post(e.routes, rx, pattern, Router.Handler(func), fields)
    case Success(routes) => Success(e.(routes := routes))
    case Failure(err) => Failure(err)
  }

  /** The `Mount` callback: one mountpoint at the end of the list, its
      directory resolved against the script root. */
  function MountCallback(e: Engine, path: string, fsPath: string): (r: Engine)
    ensures r.root == e.root && r.routes == e.routes
    ensures |r.mounts| == |e.mounts| + 1 && r.mounts[..|e.mounts|] == e.mounts
    ensures r.mounts[|e.mounts|] == Mountpoint.Mount(path, Paths.Join(e.root, fsPath))
  {
    e.(mounts := e.mounts + [Mountpoint.Mount(path, Paths.Join(e.root, fsPath))])
  }

  /** Whether a call goes through: a route pattern must compile (the
      router's exception becomes a Lua error), and `Raise` never does. */
  predicate CallOk(rx: Router.Regex, c: Call)
  {
    match c
    case GetCall(p, _, _) => rx.compiles(p)
    case PostCall(p, _, _) => rx.compiles(p)
    case MountCall(_, _) => true
    case Raise => false
  }

  /** The engine after running some calls, and whether none failed. */
  datatype Executed = Executed(engine: Engine, ok: bool)

  /** Runs a script body: calls take effect in order up to the first one
      that fails. */
  function RunCalls(e: Engine, rx: Router.Regex, calls: seq<Call>): (r: Executed)
    ensures r.ok <==> forall i :: 0 <= i < |calls| ==> CallOk(rx, calls[i])
    ensures Extends(e, r.engine)
    decreases |calls|
  {
    if calls == [] then Executed(e, true)
    else
      var rest := calls[1..];
      assert forall i :: 1 <= i < |calls| ==> calls[i] == rest[i - 1];
      match calls[0]
      case GetCall(p, f, fn) =>
        (match GetCallback(e, rx, p, f, fn)
         case Success(e') =>
           AppendedExtends(e, e'.routes, "GET", Router.Entry(p, Router.Handler(fn), f));
           var r := RunCalls(e', rx, rest);
           ExtendsTransitive(e, e', r.engine);
           r
         case Failure(_) => Executed(e, false))
      case PostCall(p, f, fn) =>
        (match PostCallback(e, rx, p, f, fn)
         case Success(e') =>
           AppendedExtends(e, e'.routes, "POST", Router.Entry(p, Router.Handler(fn), f));
           var r := RunCalls(e', rx, rest);
           ExtendsTransitive(e, e', r.engine);
           r
         case Failure(_) => Executed(e, false))
      case MountCall(path, fs) =>
        var e' := MountCallback(e, path, fs);
        var r := RunCalls(e', rx, rest);
        ExtendsTransitive(e, e', r.engine);
        r
      case Raise => Executed(e, false)
  }

  /** The route registrations a list of calls makes, in call order. */
  function CallRegistrations(calls: seq<Call>): seq<Router.Registration>
    decreases |calls|
  {
    if calls == [] then []
    else
      (match calls[0]
       case GetCall(p, f, fn) => [Router.Registration("GET", p, Router.Handler(fn), f)]
       case PostCall(p, f, fn) => [Router.Registration("POST", p, Router.Handler(fn), f)]
       case _ => [])
      + CallRegistrations(calls[1..])
  }

  /** The mountpoints a list of calls adds for the script root `root`, in
      call order. */
  function CallMounts(root: string, calls: seq<Call>): seq<Mountpoint.Mount>
    decreases |calls|
  {
    if calls == [] then []
    else
      (match calls[0]
       case MountCall(path, fs) => [Mountpoint.Mount(path, Paths.Join(root, fs))]
       case _ => [])
      + CallMounts(root, calls[1..])
  }

  /** How many calls go through before the first that fails. */
  function OkPrefix(rx: Router.Regex, calls: seq<Call>): (k: nat)
    ensures k <= |calls|
    ensures forall i :: 0 <= i < k ==> CallOk(rx, calls[i])
    ensures k < |calls| ==> !CallOk(rx, calls[k])
    decreases |calls|
  {
    if calls == [] || !CallOk(rx, calls[0]) then 0
    else
      var k := OkPrefix(rx, calls[1..]);
      assert forall i :: 1 <= i < |calls| ==> calls[i] == calls[1..][i - 1];
      k + 1
  }

  lemma TakeCons(calls: seq<Call>, k: nat)
    requires 0 < k <= |calls|
    ensures calls[..k] != [] && calls[..k][0] == calls[0] && calls[..k][1..] == calls[1..][..k - 1]
  {
  }

  /** The engine after one call that goes through: what that call
      registers, and nothing else. */
  function ApplyCall(e: Engine, rx: Router.Regex, c: Call): (r: Engine)
    requires CallOk(rx, c)
    ensures r.root == e.root
    ensures r.mounts == e.mounts + CallMounts(e.root, [c])
    ensures Router.RegisterAll(e.routes, rx, CallRegistrations([c])) == Success(r.routes)
  {
    assert [c][1..] == [];
    match c
    case GetCall(p, f, fn) => GetCallback(e, rx, p, f, fn).value
    case PostCall(p, f, fn) => PostCallback(e, rx, p, f, fn).value
    case MountCall(path, fs) => MountCallback(e, path, fs)
  }

  lemma RunCallsUnfold(e: Engine, rx: Router.Regex, calls: seq<Call>)
    requires calls != [] && CallOk(rx, calls[0])
    ensures RunCalls(e, rx, calls) == RunCalls(ApplyCall(e, rx, calls[0]), rx, calls[1..])
  {
  }

  /** The first `k` calls contribute the first call's part, then the next
      `k - 1` calls' part. */
  lemma CallPartsCons(root: string, calls: seq<Call>, k: nat)
    requires 0 < k <= |calls|
    ensures CallMounts(root, calls[..k]) == CallMounts(root, [calls[0]]) + CallMounts(root, calls[1..][..k - 1])
    ensures CallRegistrations(calls[..k]) == CallRegistrations([calls[0]]) + CallRegistrations(calls[1..][..k - 1])
  {
    TakeCons(calls, k);
    assert [calls[0]][1..] == [];
  }

  lemma RegisterAllCons(routes: Router.Routes, rx: Router.Regex, g: seq<Router.Registration>,
                        rest: seq<Router.Registration>, next: Router.Routes)
    requires |g| <= 1 && Router.RegisterAll(routes, rx, g) == Success(next)
    ensures Router.RegisterAll(routes, rx, g + rest) == Router.RegisterAll(next, rx, rest)
  {
    if g == [] {
      assert g + rest == rest;
    } else {
      assert g[1..] == [];
      assert (g + rest)[0] == g[0] && (g + rest)[1..] == rest;
    }
  }

  /** The routes a script body leaves are those of registering, in order,
      the `Get`/`Post` calls before the first failing call. */
  lemma {:induction false} RunCallsRoutes(e: Engine, rx: Router.Regex, calls: seq<Call>)
    ensures var regs := CallRegistrations(calls[..OkPrefix(rx, calls)]);
      && Router.RegisterAll(e.routes, rx, regs).Success?
      && RunCalls(e, rx, calls).engine.routes == Router.RegisterAll(e.routes, rx, regs).value
    decreases |calls|
  {
    var k := OkPrefix(rx, calls);
    if k == 0 {
      assert calls[..k] == [];
    } else {
      var rest := calls[1..];
      assert OkPrefix(rx, rest) == k - 1;
      var e' := ApplyCall(e, rx, calls[0]);
      var head, tail := CallRegistrations([calls[0]]), CallRegistrations(rest[..k - 1]);
      RunCallsUnfold(e, rx, calls);
      CallPartsCons(e.root, calls, k);
      assert CallRegistrations(calls[..k]) == head + tail;
      RegisterAllCons(e.routes, rx, head, tail, e'.routes);
      RunCallsRoutes(e', rx, rest);
      assert RunCalls(e', rx, rest).engine.routes == Router.RegisterAll(e'.routes, rx, tail).value;
    }
  }

  lemma AppendAssoc<T>(a: seq<T>, b: seq<T>, c: seq<T>)
    ensures a + b + c == a + (b + c)
  {
  }

  /** The mountpoints a script body leaves are the earlier ones followed by
      its `Mount` calls before the first failing call. */
  lemma {:induction false} RunCallsMounts(e: Engine, rx: Router.Regex, calls: seq<Call>)
    ensures RunCalls(e, rx, calls).engine.mounts == e.mounts + CallMounts(e.root, calls[..OkPrefix(rx, calls)])
    decreases |calls|
  {
    var k := OkPrefix(rx, calls);
    if k == 0 {
      assert calls[..k] == [];
    } else {
      var rest := calls[1..];
      assert OkPrefix(rx, rest) == k - 1;
      var e' := ApplyCall(e, rx, calls[0]);
      RunCallsUnfold(e, rx, calls);
      CallPartsCons(e.root, calls, k);
      RunCallsMounts(e', rx, rest);
      var head, tail := CallMounts(e.root, [calls[0]]), CallMounts(e.root, rest[..k - 1]);
      AppendAssoc(e.mounts, head, tail);
    }
  }

  /** What a script registers: up to its first failing call, its `Get` and
      `Post` calls become route entries at the end of their verbs' tables,
      and its `Mount` calls become mountpoints at the end of the list, all
      in call order. Stated for the table of any one verb. */
  lemma RunCallsEffect(e: Engine, rx: Router.Regex, calls: seq<Call>, verb: string)
    ensures var k := OkPrefix(rx, calls);
      var x := RunCalls(e, rx, calls);
      && x.engine.root == e.root
      && x.engine.mounts == e.mounts + CallMounts(e.root, calls[..k])
      && Router.TableOf(x.engine.routes, verb)
         == Router.TableOf(e.routes, verb) + Router.EntriesFor(CallRegistrations(calls[..k]), verb)
      && (x.ok <==> k == |calls|)
  {
    var regs := CallRegistrations(calls[..OkPrefix(rx, calls)]);
    RunCallsRoutes(e, rx, calls);
    RunCallsMounts(e, rx, calls);
    Router.RegisterAllTable(e.routes, rx, regs, verb);
  }


  /** A script file that loads without an exception. */
  predicate FileOk(rx: Router.Regex, sf: ScriptFile)
  {
    sf.compiles && forall i :: 0 <= i < |sf.body| ==> CallOk(rx, sf.body[i])
  }

  /** Loads and runs one `.lua` file at `path`. */
  function RunFile(e: Engine, rx: Router.Regex, path: string, sf: ScriptFile): (r: Loaded)
    ensures r.error.None? <==> FileOk(rx, sf)
    ensures r.error.Some? ==> r.error.value.path == path && !r.error.value.ListingFailed?
    ensures !sf.compiles ==> r == Loaded(e, Some(CompilationFailed(path)))
    ensures sf.compiles ==> r.engine == RunCalls(e, rx, sf.body).engine
    ensures sf.compiles && r.error.Some? ==> r.error.value == ExecutionFailed(path)
    ensures Extends(e, r.engine)
  {
    if !sf.compiles then Loaded(e, Some(CompilationFailed(path)))
    else
      var x := RunCalls(e, rx, sf.body);
      if x.ok then Loaded(x.engine, None) else Loaded(x.engine, Some(ExecutionFailed(path)))
  }

  /** The file names `load_extensions` runs: extension exactly ".lua". */
  predicate IsScriptName(name: string)
  {
    Paths.Extension(name) == ".lua"
  }

  /** One thing a load does, in the order the traversal reaches it: run a
      `.lua` file, or fail to list a directory. */
  datatype LoadStep = RunScript(path: string, script: ScriptFile) | BadDirectory(path: string)

  /** A step that completes without an exception. */
  predicate StepOk(rx: Router.Regex, s: LoadStep)
  {
    s.RunScript? && FileOk(rx, s.script)
  }

  /** Performs one step. */
  function RunStep(e: Engine, rx: Router.Regex, s: LoadStep): (r: Loaded)
    ensures r.error.None? <==> StepOk(rx, s)
    ensures r.error.Some? ==> r.error.value.path == s.path
    ensures s.RunScript? ==> r == RunFile(e, rx, s.path, s.script)
    ensures s.BadDirectory? ==> r == Loaded(e, Some(ListingFailed(s.path)))
    ensures Extends(e, r.engine)
  {
    match s
    case RunScript(path, sf) => RunFile(e, rx, path, sf)
    case BadDirectory(path) => Loaded(e, Some(ListingFailed(path)))
  }

  /** The steps for the entries `nodes` of directory `dir`, depth first
      in listing order: each regular `.lua` file, and each subdirectory
      that cannot be listed. */
  function Steps(dir: string, nodes: seq<Node>): seq<LoadStep>
    decreases nodes
  {
    if nodes == [] then []
    else
      var here := match nodes[0]
        case RegularFile(name, sf) => if IsScriptName(name) then [RunScript(Paths.Join(dir, name), sf)] else []
        case Directory(name, Listed(kids)) => Steps(Paths.Join(dir, name), kids)
        case Directory(name, Unlistable) => [BadDirectory(Paths.Join(dir, name))]
        case OtherFile(_) => [];
      here + Steps(dir, nodes[1..])
  }

  /** The steps of loading the directory `dir` itself. */
  function DirSteps(dir: string, l: Listing): seq<LoadStep>
  {
    match l
    case Listed(nodes) => Steps(dir, nodes)
    case Unlistable => [BadDirectory(dir)]
  }

  /** The index of the first step that throws. */
  function FirstFailing(rx: Router.Regex, steps: seq<LoadStep>): (k: Option<nat>)
    ensures k.None? <==> forall i :: 0 <= i < |steps| ==> StepOk(rx, steps[i])
    ensures k.Some? ==> k.value < |steps| && !StepOk(rx, steps[k.value])
    ensures k.Some? ==> forall i :: 0 <= i < k.value ==> StepOk(rx, steps[i])
    decreases |steps|
  {
    if steps == [] then None
    else if !StepOk(rx, steps[0]) then Some(0)
    else
      var rest := FirstFailing(rx, steps[1..]);
      assert forall i :: 1 <= i < |steps| ==> steps[i] == steps[1..][i - 1];
      match rest
      case None => None
      case Some(j) => Some(j + 1)
  }

  /** Performs the steps in order and stops at the first that throws. */
  function RunSteps(e: Engine, rx: Router.Regex, steps: seq<LoadStep>): (r: Loaded)
    ensures r.error.None? <==> FirstFailing(rx, steps).None?
    ensures r.error.Some? ==> r.error.value.path == steps[FirstFailing(rx, steps).value].path
    ensures Extends(e, r.engine)
    decreases |steps|
  {
    if steps == [] then Loaded(e, None)
    else
      var l := RunStep(e, rx, steps[0]);
      if l.error.Some? then l
      else
        var r := RunSteps(l.engine, rx, steps[1..]);
        ExtendsTransitive(e, l.engine, r.engine);
        r
  }

  /** Fail-fast without rollback: a load that throws at step `k` has done
      the steps before it completely, then part of step `k`, and nothing
      after it. */
  lemma {:induction false} NoRollback(e: Engine, rx: Router.Regex, steps: seq<LoadStep>)
    requires FirstFailing(rx, steps).Some?
    ensures var k := FirstFailing(rx, steps).value;
      RunSteps(e, rx, steps) == RunStep(RunSteps(e, rx, steps[..k]).engine, rx, steps[k])
    ensures RunSteps(e, rx, steps[..FirstFailing(rx, steps).value]).error.None?
    decreases |steps|
  {
    var k := FirstFailing(rx, steps).value;
    if k > 0 {
      var l := RunStep(e, rx, steps[0]);
      assert steps[1..][..k - 1] == steps[..k][1..];
      assert FirstFailing(rx, steps[1..]) == Some(k - 1);
      NoRollback(l.engine, rx, steps[1..]);
      assert steps[1..][k - 1] == steps[k];
    }
  }

  /** The loop of `load_extensions` over the entries `nodes` of `dir`:
      regular `.lua` files are compiled and run as they are met,
      directories are descended into, anything else is skipped; the first
      exception, including a subdirectory that cannot be listed, ends the
      whole load. */
  function LoadEntries(e: Engine, rx: Router.Regex, dir: string, nodes: seq<Node>): (r: Loaded)
    ensures Extends(e, r.engine)
    decreases nodes
  {
    if nodes == [] then Loaded(e, None)
    else
      match nodes[0]
      case RegularFile(name, sf) =>
        if IsScriptName(name) then
          var l := RunFile(e, rx, Paths.Join(dir, name), sf);
          if l.error.Some? then l
          else
            var r := LoadEntries(l.engine, rx, dir, nodes[1..]);
            ExtendsTransitive(e, l.engine, r.engine);
            r
        else LoadEntries(e, rx, dir, nodes[1..])
      case Directory(name, Listed(kids)) =>
        var l := LoadEntries(e, rx, Paths.Join(dir, name), kids);
        if l.error.Some? then l
        else
          var r := LoadEntries(l.engine, rx, dir, nodes[1..]);
          ExtendsTransitive(e, l.engine, r.engine);
          r
      case Directory(name, Unlistable) => Loaded(e, Some(ListingFailed(Paths.Join(dir, name))))
      case OtherFile(_) => LoadEntries(e, rx, dir, nodes[1..])
  }

  /** `load_extensions(dir)`: a directory that cannot be listed throws at
      once; otherwise its entries are loaded in listing order. */
  function LoadExtensions(e: Engine, rx: Router.Regex, dir: string, l: Listing): (r: Loaded)
    ensures l.Unlistable? ==> r == Loaded(e, Some(ListingFailed(dir)))
    ensures Extends(e, r.engine)
  {
    match l
    case Listed(nodes) => LoadEntries(e, rx, dir, nodes)
    case Unlistable => Loaded(e, Some(ListingFailed(dir)))
  }

  lemma {:induction false} RunStepsAppend(e: Engine, rx: Router.Regex, a: seq<LoadStep>, b: seq<LoadStep>)
    ensures RunSteps(e, rx, a + b) ==
      var l := RunSteps(e, rx, a);
      if l.error.Some? then l else RunSteps(l.engine, rx, b)
    decreases |a|
  {
    if a == [] {
      assert a + b == b;
    } else {
      assert (a + b)[1..] == a[1..] + b;
      assert (a + b)[0] == a[0];
      var l := RunStep(e, rx, a[0]);
      if l.error.None? {
        RunStepsAppend(l.engine, rx, a[1..], b);
      }
    }
  }

  /** The traversal is the same as performing the flat list of steps it
      reaches, in order. */
  lemma {:induction false} LoadIsRunOfSteps(e: Engine, rx: Router.Regex, dir: string, nodes: seq<Node>)
    ensures LoadEntries(e, rx, dir, nodes) == RunSteps(e, rx, Steps(dir, nodes))
    decreases nodes
  {
    if nodes != [] {
      var rest := nodes[1..];
      match nodes[0]
      case RegularFile(name, sf) =>
        if IsScriptName(name) {
          var f := RunScript(Paths.Join(dir, name), sf);
          assert Steps(dir, nodes) == [f] + Steps(dir, rest);
          RunStepsAppend(e, rx, [f], Steps(dir, rest));
          var l := RunFile(e, rx, f.path, sf);
          if l.error.None? {
            LoadIsRunOfSteps(l.engine, rx, dir, rest);
          }
        } else {
          assert Steps(dir, nodes) == Steps(dir, rest);
          LoadIsRunOfSteps(e, rx, dir, rest);
        }
      case Directory(name, Listed(kids)) =>
        var sub := Steps(Paths.Join(dir, name), kids);
        assert Steps(dir, nodes) == sub + Steps(dir, rest);
        LoadIsRunOfSteps(e, rx, Paths.Join(dir, name), kids);
        RunStepsAppend(e, rx, sub, Steps(dir, rest));
        var l := RunSteps(e, rx, sub);
        if l.error.None? {
          LoadIsRunOfSteps(l.engine, rx, dir, rest);
        }
      case Directory(name, Unlistable) =>
        var f := BadDirectory(Paths.Join(dir, name));
        assert Steps(dir, nodes) == [f] + Steps(dir, rest);
        RunStepsAppend(e, rx, [f], Steps(dir, rest));
      case OtherFile(_) =>
        assert Steps(dir, nodes) == Steps(dir, rest);
        LoadIsRunOfSteps(e, rx, dir, rest);
    }
  }

  lemma LoadExtensionsIsRun(e: Engine, rx: Router.Regex, dir: string, l: Listing)
    ensures LoadExtensions(e, rx, dir, l) == RunSteps(e, rx, DirSteps(dir, l))
  {
    match l
    case Listed(nodes) => LoadIsRunOfSteps(e, rx, dir, nodes);
    case Unlistable =>
      assert RunSteps(e, rx, [BadDirectory(dir)]) == RunStep(e, rx, BadDirectory(dir));
  }

  /** A load succeeds exactly when every directory it reaches can be
      listed and every `.lua` file in them compiles and runs without error;
      otherwise the error names the first step that throws. */
  lemma LoadSucceedsIffAllStepsOk(e: Engine, rx: Router.Regex, dir: string, l: Listing)
    ensures var steps := DirSteps(dir, l);
      var r := LoadExtensions(e, rx, dir, l);
      && (r.error.None? <==> forall i :: 0 <= i < |steps| ==> StepOk(rx, steps[i]))
      && (r.error.Some? ==> r.error.value.path == steps[FirstFailing(rx, steps).value].path)
  {
    LoadExtensionsIsRun(e, rx, dir, l);
  }

  /** `reload`: the routes are cleared, the mountpoints are kept, and the
      script directory is loaded into the same engine. It throws exactly
      when some step under the root throws, naming the first. */
  function Reload(e: Engine, rx: Router.Regex, tree: Listing): (r: Loaded)
    ensures r.engine.root == e.root
    ensures IsPrefixOf(e.mounts, r.engine.mounts)
    ensures var steps := DirSteps(e.root, tree);
      && (r.error.None? <==> forall i :: 0 <= i < |steps| ==> StepOk(rx, steps[i]))
      && (r.error.Some? ==> r.error.value.path == steps[FirstFailing(rx, steps).value].path)
    ensures r == LoadExtensions(Engine(e.root, map[], e.mounts), rx, e.root, tree)
  {
    LoadSucceedsIffAllStepsOk(e.(routes := Router.Clear(e.routes)), rx, e.root, tree);
    LoadExtensions(e.(routes := Router.Clear(e.routes)), rx, e.root, tree)
  }

  /** The constructor: an empty engine for the root, then `reload`. It
      throws exactly when the root or a directory under it cannot be
      listed, or some script fails. */
  function Construct(root: string, rx: Router.Regex, tree: Listing): (r: Loaded)
    ensures r.engine.root == root
    ensures var steps := DirSteps(root, tree);
      r.error.None? <==> forall i :: 0 <= i < |steps| ==> StepOk(rx, steps[i])
    ensures r == Reload(Engine(root, map[], []), rx, tree)
  {
    var e := Engine(root, map[], []);
    LoadSucceedsIffAllStepsOk(e, rx, root, tree);
    Reload(e, rx, tree)
  }

  // Mountpoints do not influence what the scripts register.

  function WithMountsBefore(e: Engine, pre: seq<Mountpoint.Mount>): Engine
  {
    e.(mounts := pre + e.mounts)
  }

  lemma {:induction false} RunCallsShift(e: Engine, rx: Router.Regex, calls: seq<Call>, pre: seq<Mountpoint.Mount>)
    ensures var x := RunCalls(e, rx, calls);
      RunCalls(WithMountsBefore(e, pre), rx, calls) == Executed(WithMountsBefore(x.engine, pre), x.ok)
    decreases |calls|
  {
    if calls != [] {
      var rest := calls[1..];
      match calls[0]
      case GetCall(p, f, fn) =>
        if rx.compiles(p) {
          RunCallsShift(GetCallback(e, rx, p, f, fn).value, rx, rest, pre);
        }
      case PostCall(p, f, fn) =>
        if rx.compiles(p) {
          RunCallsShift(PostCallback(e, rx, p, f, fn).value, rx, rest, pre);
        }
      case MountCall(path, fs) =>
        var e' := MountCallback(e, path, fs);
        assert MountCallback(WithMountsBefore(e, pre), path, fs) == WithMountsBefore(e', pre);
        RunCallsShift(e', rx, rest, pre);
      case Raise =>
    }
  }

  lemma {:induction false} RunStepsShift(e: Engine, rx: Router.Regex, steps: seq<LoadStep>, pre: seq<Mountpoint.Mount>)
    ensures var l := RunSteps(e, rx, steps);
      RunSteps(WithMountsBefore(e, pre), rx, steps) == Loaded(WithMountsBefore(l.engine, pre), l.error)
    decreases |steps|
  {
    if steps != [] && steps[0].RunScript? {
      var sf := steps[0].script;
      if sf.compiles {
        RunCallsShift(e, rx, sf.body, pre);
        var l := RunStep(e, rx, steps[0]);
        if l.error.None? {
          RunStepsShift(l.engine, rx, steps[1..], pre);
        }
      }
    }
  }

  /** Reloading twice: the routes come out the same, but the mountpoints
      the scripts add are appended a second time, since `reload` never
      clears them. */
  lemma ReloadTwice(e: Engine, rx: Router.Regex, tree: Listing)
    requires Reload(e, rx, tree).error.None?
    ensures var once := Reload(e, rx, tree).engine;
      var twice := Reload(once, rx, tree);
      var added := once.mounts[|e.mounts|..];
      && twice.error.None?
      && twice.engine.routes == once.routes
      && twice.engine.mounts == once.mounts + added
  {
    var steps := DirSteps(e.root, tree);
    var base := Engine(e.root, map[], []);
    var l0 := RunSteps(base, rx, steps);
    LoadExtensionsIsRun(Engine(e.root, map[], e.mounts), rx, e.root, tree);
    assert Engine(e.root, map[], e.mounts) == WithMountsBefore(base, e.mounts);
    RunStepsShift(base, rx, steps, e.mounts);
    var once := Reload(e, rx, tree).engine;
    assert once == WithMountsBefore(l0.engine, e.mounts);
    assert l0.engine.mounts == once.mounts[|e.mounts|..];
    LoadExtensionsIsRun(Engine(once.root, map[], once.mounts), rx, once.root, tree);
    assert Engine(once.root, map[], once.mounts) == WithMountsBefore(base, once.mounts);
    RunStepsShift(base, rx, steps, once.mounts);
  }

  /** The index of the first mountpoint whose prefix matches. */
  function FirstMount(mounts: seq<Mountpoint.Mount>, path: string): (k: Option<nat>)
    ensures k.None? <==> forall i :: 0 <= i < |mounts| ==> !Mountpoint.IsPrefix(mounts[i].point, path)
    ensures k.Some? ==> k.value < |mounts| && Mountpoint.IsPrefix(mounts[k.value].point, path)
    ensures k.Some? ==> forall i :: 0 <= i < k.value ==> !Mountpoint.IsPrefix(mounts[i].point, path)
    decreases |mounts|
  {
    if mounts == [] then None
    else if Mountpoint.IsPrefix(mounts[0].point, path) then Some(0)
    else
      var rest := FirstMount(mounts[1..], path);
      assert forall i :: 1 <= i < |mounts| ==> mounts[i] == mounts[1..][i - 1];
      match rest
      case None => None
      case Some(j) => Some(j + 1)
  }

  /** `handle_mountpoint`: mountpoints are tried in insertion order and
      the first whose prefix matches handles the request, whatever the
      outcome of its file read; with none, nothing is written. */
  function HandleMountpoint(mounts: seq<Mountpoint.Mount>, files: Mountpoint.Files, path: string): (r: Mountpoint.Served)
    ensures r == match FirstMount(mounts, path)
      case None => Mountpoint.Served(false, [])
      case Some(i) => Mountpoint.Handle(mounts[i], files, path)
    ensures !r.handled <==> forall i :: 0 <= i < |mounts| ==> !Mountpoint.IsPrefix(mounts[i].point, path)
    decreases |mounts|
  {
    if mounts == [] then Mountpoint.Served(false, [])
    else
      var s := Mountpoint.Handle(mounts[0], files, path);
      if s.handled then s else HandleMountpoint(mounts[1..], files, path)
  }

  /** `handle_route`: exactly the router's answer. */
  function HandleRoute(e: Engine, rx: Router.Regex, verb: string, path: string, params: KvMap): (r: Router.Outcome)
    ensures r == Router.Handle(e.routes, rx, verb, path, params)
  {
    Router.Handle(e.routes, rx, verb, path, params)
  }
}
