/** The router of src/router.cpp and include/router.hpp: per HTTP method
    an ordered table of (pattern, handler, mandatory fields) entries,
    dispatched by first full match. */
module Router {
  import opened Wrappers
  import opened Types
  import Lexical

  /** `fields_t`: the mandatory query fields of a route; a set, so
      duplicates collapse. */
  type Fields = set<string>

  /** A `route_t` callback. It is opaque: dispatch records that it would be
      invoked, with the client, the match results and the parameters. */
  datatype Handler = Handler(id: nat)

  /** The `std::regex` operations the router uses: whether a pattern
      constructs without throwing, and `regex_match` of a whole path,
      giving the match results (whole match first, then the groups). */
  datatype Regex = Regex(compiles: string -> bool, fullMatch: (string, string) -> Option<seq<string>>)

  /** `regex_match` puts the whole matched text, here the whole path, at
      index 0 of the match results. */
  ghost predicate WellFormed(rx: Regex)
  {
    forall p, s :: rx.fullMatch(p, s).Some? ==>
      |rx.fullMatch(p, s).value| >= 1 && rx.fullMatch(p, s).value[0] == s
  }

  /** One element of a `route_table_t`: the pattern and the `route`. */
  datatype Entry = Entry(pattern: string, handler: Handler, mandatory: Fields)

  /** `routes_`: tables keyed by method string. */
  type Routes = map<string, seq<Entry>>

  /** The exception `std::regex` throws for an invalid pattern. */
  datatype RouterError = PatternError(pattern: string)

  /** The table of a method, empty when the method has none. */
  function TableOf(routes: Routes, verb: string): (t: seq<Entry>)
    ensures verb !in routes ==> t == []
    ensures verb in routes ==> t == routes[verb]
  {
    if verb in routes then routes[verb] else []
  }

  /** `after` is `before` with `e` appended to the table of `verb`, every
      other table untouched. */
  ghost predicate Appended(before: Routes, after: Routes, verb: string, e: Entry)
  {
    && after.Keys == before.Keys + {verb}
    && after[verb] == TableOf(before, verb) + [e]
    && forall m :: m in before && m != verb ==> after[m] == before[m]
  }

  /** `add_route`: the pattern is compiled before any table is touched, so
      an invalid one throws and leaves `routes_` as it was; otherwise the
      entry goes at the end of its verb's table, which is created on
      first use. */
  function AddRoute(routes: Routes, rx: Regex, verb: string, pattern: string, handler: Handler,
                    mandatory: Fields): (r: Result<Routes, RouterError>)
    ensures r.Success? <==> rx.compiles(pattern)
    ensures r.Failure? ==> r.error == PatternError(pattern)
    ensures r.Success? ==> Appended(routes, r.value, verb, Entry(pattern, handler, mandatory))
  {
    if !rx.compiles(pattern) then Failure(PatternError(pattern))
    else Success(routes[verb := TableOf(routes, verb) + [Entry(pattern, handler, mandatory)]])
  }

  /* The registration wrappers. Each C++ wrapper has two overloads, one
     taking the handler before the fields (with the fields defaulting to
     the empty set) and one taking the fields first; with Dafny's named
     arguments both are the one function below. */

  /** `get`: registers under "GET". */
  function Get(routes: Routes, rx: Regex, pattern: string, handler: Handler,
               mandatory: Fields := {}): (r: Result<Routes, RouterError>)
    ensures r.Success? <==> rx.compiles(pattern)
    ensures r.Success? ==> Appended(routes, r.value, "GET", Entry(pattern, handler, mandatory))
  {
    AddRoute(routes, rx, "GET", pattern, handler, mandatory)
  }

  /** `post`: registers under "POST". */
  function Post(routes: Routes, rx: Regex, pattern: string, handler: Handler,
                mandatory: Fields := {}): (r: Result<Routes, RouterError>)
    ensures r.Success? <==> rx.compiles(pattern)
    ensures r.Success? ==> Appended(routes, r.value, "POST", Entry(pattern, handler, mandatory))
  {
    AddRoute(routes, rx, "POST", pattern, handler, mandatory)
  }

  /** `delet`: registers under "DELETE". */
  function Delete(routes: Routes, rx: Regex, pattern: string, handler: Handler,
                  mandatory: Fields := {}): (r: Result<Routes, RouterError>)
    ensures r.Success? <==> rx.compiles(pattern)
    ensures r.Success? ==> Appended(routes, r.value, "DELETE", Entry(pattern, handler, mandatory))
  {
    AddRoute(routes, rx, "DELETE", pattern, handler, mandatory)
  }

  /** `put`: registers under "PUT". */
  function Put(routes: Routes, rx: Regex, pattern: string, handler: Handler,
               mandatory: Fields := {}): (r: Result<Routes, RouterError>)
    ensures r.Success? <==> rx.compiles(pattern)
    ensures r.Success? ==> Appended(routes, r.value, "PUT", Entry(pattern, handler, mandatory))
  {
    AddRoute(routes, rx, "PUT", pattern, handler, mandatory)
  }

  /** `patch`: registers under "PATCH". */
  function Patch(routes: Routes, rx: Regex, pattern: string, handler: Handler,
                 mandatory: Fields := {}): (r: Result<Routes, RouterError>)
    ensures r.Success? <==> rx.compiles(pattern)
    ensures r.Success? ==> Appended(routes, r.value, "PATCH", Entry(pattern, handler, mandatory))
  {
    AddRoute(routes, rx, "PATCH", pattern, handler, mandatory)
  }

  predicate Matches(rx: Regex, e: Entry, path: string)
  {
    rx.fullMatch(e.pattern, path).Some?
  }

  /** The first entry at or after `k` whose pattern matches the whole path. */
  function FirstMatchFrom(table: seq<Entry>, rx: Regex, path: string, k: nat): (r: Option<nat>)
    requires k <= |table|
    ensures r.Some? ==> k <= r.value < |table| && Matches(rx, table[r.value], path)
    ensures r.Some? ==> forall j :: k <= j < r.value ==> !Matches(rx, table[j], path)
    ensures r.None? ==> forall j :: k <= j < |table| ==> !Matches(rx, table[j], path)
    decreases |table| - k
  {
    if k == |table| then None
    else if Matches(rx, table[k], path) then Some(k)
    else FirstMatchFrom(table, rx, path, k + 1)
  }

  /** The first entry, in registration order, whose pattern matches. */
  function FirstMatch(table: seq<Entry>, rx: Regex, path: string): (r: Option<nat>)
    ensures r.Some? ==> r.value < |table| && Matches(rx, table[r.value], path)
    ensures r.Some? ==> forall j :: 0 <= j < r.value ==> !Matches(rx, table[j], path)
    ensures r.None? ==> forall j :: 0 <= j < |table| ==> !Matches(rx, table[j], path)
  {
    FirstMatchFrom(table, rx, path, 0)
  }

  /** The mandatory field the validation loop trips over first: the loop walks
      the `std::set` in ascending order, so it is the least missing one. */
  function FirstMissing(mandatory: Fields, params: KvMap): (r: Option<string>)
    ensures r.None? <==> mandatory <= params.Keys
    ensures r.Some? ==> r.value in mandatory && r.value !in params
    ensures r.Some? ==> forall f :: f in mandatory && f !in params ==> !Lexical.StrLess(f, r.value)
  {
    var missing := set f | f in mandatory && f !in params;
    MissingEmpty(mandatory, params);
    if missing == {} then None else Some(Lexical.Least(missing))
  }

  lemma MissingEmpty(mandatory: Fields, params: KvMap)
    ensures (set f | f in mandatory && f !in params) == {} <==> mandatory <= params.Keys
  {
    var missing := set f | f in mandatory && f !in params;
    if !(mandatory <= params.Keys) {
      var f :| f in mandatory && f !in params;
      assert f in missing;
    }
  }

  /** What one call of `handle` does. */
  datatype Outcome =
    /** `handle` returns false; no handler runs. */
    | Unhandled
    /** The handler runs once with these match results and parameters;
        `handle` returns true. */
    | Invoked(handler: Handler, groups: seq<string>, params: KvMap)
    /** `handle` throws because a mandatory field is absent. */
    | MissingField(field: string)

  /** The text of the exception for a missing mandatory field. */
  function MissingFieldMessage(field: string): (m: string)
    ensures m == "field '" + field + "' is mandatory"
    ensures |m| == |field| + 21
  {
    "field '" + field + "' is mandatory"
  }

  /** `handle`: only the first matching entry of the verb's table is
      considered. A missing mandatory field throws before the handler
      runs and no later entry is tried; only the presence of a key
      matters. */
  function Handle(routes: Routes, rx: Regex, verb: string, path: string, params: KvMap): (r: Outcome)
    ensures r.Unhandled? <==>
      forall j :: 0 <= j < |TableOf(routes, verb)| ==> !Matches(rx, TableOf(routes, verb)[j], path)
    ensures verb !in routes ==> r.Unhandled?
    ensures !r.Unhandled? ==>
      var t := TableOf(routes, verb);
      var i := FirstMatch(t, rx, path).value;
      && (r.MissingField? <==> !(t[i].mandatory <= params.Keys))
      && (r.MissingField? ==> r.field in t[i].mandatory && r.field !in params
                              && r.field == FirstMissing(t[i].mandatory, params).value)
      && (r.Invoked? ==> r.handler == t[i].handler && r.params == params
                         && Some(r.groups) == rx.fullMatch(t[i].pattern, path))
  {
    var t := TableOf(routes, verb);
    match FirstMatch(t, rx, path)
    case None => Unhandled
    case Some(i) =>
      match FirstMissing(t[i].mandatory, params)
      case Some(f) => MissingField(f)
      case None => Invoked(t[i].handler, rx.fullMatch(t[i].pattern, path).value, params)
  }

  /** `clear`: every table is gone. */
  function Clear(routes: Routes): (r: Routes)
    ensures forall m :: TableOf(r, m) == []
  {
    map[]
  }

  /** After `clear` no request is handled. */
  lemma ClearHandlesNothing(routes: Routes, rx: Regex, verb: string, path: string, params: KvMap)
    ensures Handle(Clear(routes), rx, verb, path, params) == Unhandled
  {
  }

  /** With `regex_match`'s conventions, the handler's first match result
      is the whole path. */
  /** This only carries the `std::regex` property `WellFormed` through
      `Handle`: krabby itself passes the match results on unchanged. */
  lemma GroupsStartWithPath(routes: Routes, rx: Regex, verb: string, path: string, params: KvMap)
    requires WellFormed(rx)
    ensures var r := Handle(routes, rx, verb, path, params);
      r.Invoked? ==> |r.groups| >= 1 && r.groups[0] == path
  {
  }

  lemma {:induction false} FirstMatchFromAppend(t: seq<Entry>, e: Entry, rx: Regex, path: string, k: nat)
    requires k <= |t|
    ensures FirstMatchFrom(t + [e], rx, path, k) ==
      match FirstMatchFrom(t, rx, path, k)
      case Some(i) => Some(i)
      case None => if Matches(rx, e, path) then Some(|t|) else None
    decreases |t| - k
  {
    var t' := t + [e];
    assert t'[..|t|] == t;
    if k < |t| {
      assert t'[k] == t[k];
      if !Matches(rx, t[k], path) {
        FirstMatchFromAppend(t, e, rx, path, k + 1);
      }
    }
  }

  /** Appending an entry cannot change how an already handled request is
      dispatched: later entries never run. A request nothing handled
      before reaches the new entry exactly when its pattern matches. */
  lemma LaterEntriesNeverRun(routes: Routes, rx: Regex, verb: string, pattern: string,
                             handler: Handler, mandatory: Fields, path: string, params: KvMap)
    requires AddRoute(routes, rx, verb, pattern, handler, mandatory).Success?
    ensures var after := AddRoute(routes, rx, verb, pattern, handler, mandatory).value;
      var before := Handle(routes, rx, verb, path, params);
      var now := Handle(after, rx, verb, path, params);
      && (!before.Unhandled? ==> now == before)
      && (before.Unhandled? ==> (now.Unhandled? <==> rx.fullMatch(pattern, path).None?))
  {
    var e := Entry(pattern, handler, mandatory);
    var after := AddRoute(routes, rx, verb, pattern, handler, mandatory).value;
    FirstMatchFromAppend(TableOf(routes, verb), e, rx, path, 0);
    assert TableOf(after, verb) == TableOf(routes, verb) + [e];
  }

  /** Registering under one verb leaves every other verb's dispatch as
      it was. */
  lemma OtherMethodsUnaffected(routes: Routes, rx: Regex, verb: string, pattern: string,
                               handler: Handler, mandatory: Fields, other: string, path: string, params: KvMap)
    requires other != verb
    requires AddRoute(routes, rx, verb, pattern, handler, mandatory).Success?
    ensures Handle(AddRoute(routes, rx, verb, pattern, handler, mandatory).value, rx, other, path, params)
         == Handle(routes, rx, other, path, params)
  {
    var after := AddRoute(routes, rx, verb, pattern, handler, mandatory).value;
    assert TableOf(after, other) == TableOf(routes, other);
  }

  /** The mandatory check looks at keys only: parameter maps with the same
      keys are dispatched alike. */
  lemma PresenceOnly(routes: Routes, rx: Regex, verb: string, path: string, p1: KvMap, p2: KvMap)
    requires p1.Keys == p2.Keys
    ensures var r1 := Handle(routes, rx, verb, path, p1);
      var r2 := Handle(routes, rx, verb, path, p2);
      && (r1.Unhandled? <==> r2.Unhandled?)
      && (r1.MissingField? ==> r2 == r1)
      && (r1.Invoked? ==> r2 == r1.(params := p2))
  {
    var t := TableOf(routes, verb);
    match FirstMatch(t, rx, path)
    case None =>
    case Some(i) =>
      var missing1 := set f | f in t[i].mandatory && f !in p1;
      var missing2 := set f | f in t[i].mandatory && f !in p2;
      assert missing1 == missing2;
  }

  /** One registration call, as a script or the program makes it. */
  datatype Registration = Registration(verb: string, pattern: string, handler: Handler, mandatory: Fields)

  /** Runs registrations in order, stopping at the first that throws. */
  function RegisterAll(routes: Routes, rx: Regex, regs: seq<Registration>): Result<Routes, RouterError>
    decreases |regs|
  {
    if regs == [] then Success(routes)
    else
      var g := regs[0];
      match AddRoute(routes, rx, g.verb, g.pattern, g.handler, g.mandatory)
      case Failure(e) => Failure(e)
      case Success(next) => RegisterAll(next, rx, regs[1..])
  }

  /** The entries the registrations for `verb` contribute, in order. */
  function EntriesFor(regs: seq<Registration>, verb: string): seq<Entry>
    decreases |regs|
  {
    if regs == [] then []
    else
      var g := regs[0];
      (if g.verb == verb then [Entry(g.pattern, g.handler, g.mandatory)] else []) + EntriesFor(regs[1..], verb)
  }

  /** A run of registrations throws exactly when some pattern does not
      compile. */
  lemma {:induction false} RegisterAllSucceeds(routes: Routes, rx: Regex, regs: seq<Registration>)
    ensures RegisterAll(routes, rx, regs).Success? <==> forall i :: 0 <= i < |regs| ==> rx.compiles(regs[i].pattern)
    decreases |regs|
  {
    if regs != [] {
      var g := regs[0];
      var a := AddRoute(routes, rx, g.verb, g.pattern, g.handler, g.mandatory);
      if a.Success? {
        RegisterAllSucceeds(a.value, rx, regs[1..]);
        assert forall i :: 1 <= i < |regs| ==> regs[i] == regs[1..][i - 1];
      }
    }
  }

  lemma AddRouteTable(routes: Routes, rx: Regex, g: Registration, m: string)
    requires AddRoute(routes, rx, g.verb, g.pattern, g.handler, g.mandatory).Success?
    ensures TableOf(AddRoute(routes, rx, g.verb, g.pattern, g.handler, g.mandatory).value, m)
         == TableOf(routes, m) + EntriesFor([g], m)
  {
    assert EntriesFor([g], m) == (if g.verb == m then [Entry(g.pattern, g.handler, g.mandatory)] else []) + EntriesFor([], m);
  }

  lemma EntriesForCons(regs: seq<Registration>, m: string)
    requires regs != []
    ensures EntriesFor(regs, m) == EntriesFor([regs[0]], m) + EntriesFor(regs[1..], m)
  {
    assert EntriesFor([regs[0]], m) == (if regs[0].verb == m then [Entry(regs[0].pattern, regs[0].handler, regs[0].mandatory)] else []) + EntriesFor([], m);
  }

  lemma {:induction false} RegisterAllTable(routes: Routes, rx: Regex, regs: seq<Registration>, m: string)
    requires RegisterAll(routes, rx, regs).Success?
    ensures TableOf(RegisterAll(routes, rx, regs).value, m) == TableOf(routes, m) + EntriesFor(regs, m)
    decreases |regs|
  {
    if regs != [] {
      var g := regs[0];
      var next := AddRoute(routes, rx, g.verb, g.pattern, g.handler, g.mandatory).value;
      assert RegisterAll(routes, rx, regs) == RegisterAll(next, rx, regs[1..]);
      RegisterAllTable(next, rx, regs[1..], m);
      AddRouteTable(routes, rx, g, m);
      EntriesForCons(regs, m);
    }
  }

  /** Registration only ever appends: after a run that does not throw,
      each table is as it was plus its verb's registrations in call
      order. */
  lemma RegisterAllTables(routes: Routes, rx: Regex, regs: seq<Registration>)
    requires RegisterAll(routes, rx, regs).Success?
    ensures forall m :: TableOf(RegisterAll(routes, rx, regs).value, m) == TableOf(routes, m) + EntriesFor(regs, m)
  {
    forall m
      ensures TableOf(RegisterAll(routes, rx, regs).value, m) == TableOf(routes, m) + EntriesFor(regs, m)
    {
      RegisterAllTable(routes, rx, regs, m);
    }
  }

  /** Dispatch depends only on the tables. */
  lemma HandleByTables(r1: Routes, r2: Routes, rx: Regex, verb: string, path: string, params: KvMap)
    requires forall m :: TableOf(r1, m) == TableOf(r2, m)
    ensures Handle(r1, rx, verb, path, params) == Handle(r2, rx, verb, path, params)
  {
    assert TableOf(r1, verb) == TableOf(r2, verb);
  }

  /** `clear` followed by the same registrations in the same order
      reproduces the dispatch those registrations give on their own,
      whatever routes `current` held before: every request is answered as
      `original` answers it, and each table is exactly its verb's
      registrations. */
  lemma ClearThenReRegister(current: Routes, original: Routes, rx: Regex, regs: seq<Registration>,
                            verb: string, path: string, params: KvMap)
    requires RegisterAll(map[], rx, regs) == Success(original)
    ensures var again := RegisterAll(Clear(current), rx, regs);
      && again.Success?
      && Handle(again.value, rx, verb, path, params) == Handle(original, rx, verb, path, params)
      && forall m :: TableOf(again.value, m) == EntriesFor(regs, m)
  {
    RegisterAllSucceeds(map[], rx, regs);
    RegisterAllSucceeds(Clear(current), rx, regs);
    var again := RegisterAll(Clear(current), rx, regs).value;
    RegisterAllTables(Clear(current), rx, regs);
    RegisterAllTables(map[], rx, regs);
    HandleByTables(again, original, rx, verb, path, params);
  }
}
