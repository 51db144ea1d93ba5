/** The Application Auto Scaling store over whole runs: calls whose writes may fail, and restarts. */
module AutoScalingRuns {
  import opened Common
  import opened AutoScaling

  // --- runs ---

  datatype Event = Call(env: Env, req: Request, writeOk: bool) | Restart(readOk: bool)

  /** A server with a storage path: its memory, its file, and whether it failed to read the file. */
  datatype System = System(memory: State, disk: Option<State>, failed: bool)

  const FIRST: System := System(EMPTY, None, false)

  function Persisted(sys: System): State {
    if sys.disk.Some? then sys.disk.value else EMPTY
  }

  /** What `Server.Process` guarantees of one call, and the constructor of a restart. */
  function After(sys: System, e: Event): System {
    match e
    case Restart(readOk) => System(if readOk then Persisted(sys) else EMPTY, sys.disk, !readOk)
    case Call(env, req, writeOk) =>
      var effect := EffectOf(env, sys.memory, req);
      if sys.failed || effect.Answer? || !writeOk then sys else System(effect.state, Some(effect.state), false)
  }

  function Run(sys: System, events: seq<Event>): System {
    if events == [] then sys else After(Run(sys, events[..|events| - 1]), events[|events| - 1])
  }

  /** The class does what `After` says. */
  method CallOnServer(server: Server, env: Env, req: Request, writeOk: bool) returns (r: Outcome)
    requires server.hasStorage
    modifies server
    ensures System(server.Memory(), server.disk, server.loadFailed)
            == After(System(old(server.Memory()), old(server.disk), server.loadFailed), Call(env, req, writeOk))
    ensures r == LoadFailed <==> server.loadFailed
    ensures r == PersistFailed || r == LoadFailed ==>
              server.Memory() == old(server.Memory()) && server.disk == old(server.disk)
  {
    hide EffectOf;
    EffectNeverFailsToPersist(env, server.Memory(), req);
    r := server.Process(env, req, writeOk);
  }

  lemma EffectNeverFailsToPersist(env: Env, s: State, req: Request)
    ensures EffectOf(env, s, req).outcome !in {PersistFailed, LoadFailed}
  {
    hide NewTarget, NewPolicy, NewAction;
  }

  // --- every key is the join of its value's fields ---

  predicate TargetFits(key: string, t: Target) {
    key == TargetKey(t.ns, t.resource, t.dimension) && t.ns == "dynamodb" && t.resource != "" && t.dimension != ""
  }

  predicate PolicyFits(key: string, p: Policy) {
    && key == ItemKey(p.ns, p.resource, p.dimension, p.name)
    && p.ns == "dynamodb" && p.resource != "" && p.dimension != "" && p.name != ""
  }

  predicate ActionFits(key: string, a: Action) {
    && key == ItemKey(a.ns, a.resource, a.dimension, a.name)
    && a.ns == "dynamodb" && a.resource != "" && a.dimension != "" && a.name != ""
  }

  predicate KeysFit(s: State) {
    && (forall k :: k in s.targets ==> TargetFits(k, s.targets[k]))
    && (forall k :: k in s.policies ==> PolicyFits(k, s.policies[k]))
    && (forall k :: k in s.actions ==> ActionFits(k, s.actions[k]))
  }

  lemma EffectKeepsKeys(env: Env, s: State, req: Request)
    requires KeysFit(s) && EffectOf(env, s, req).Change?
    ensures KeysFit(EffectOf(env, s, req).state)
  {
    hide TargetKey, ItemKey, PolicyArn;
  }

  /** After every event of every run, whether reads and writes succeed or fail and however often the server
      is restarted: memory is what is persisted, or empty where the file could not be read, and every key, in
      memory and in the file, is the join of its value's fields. */
  lemma {:induction false} MemoryIsPersistedAndKeysFit(events: seq<Event>)
    ensures var sys := Run(FIRST, events);
            && sys.memory == (if sys.failed then EMPTY else Persisted(sys))
            && KeysFit(Persisted(sys)) && KeysFit(sys.memory)
  {
    hide EffectOf, KeysFit;
    if events == [] {
      EmptyFits();
    } else {
      var n := |events| - 1;
      MemoryIsPersistedAndKeysFit(events[..n]);
      var (sys, e) := (Run(FIRST, events[..n]), events[n]);
      EmptyFits();
      if e.Call? && EffectOf(e.env, sys.memory, e.req).Change? { EffectKeepsKeys(e.env, sys.memory, e.req); }
    }
  }

  lemma EmptyFits()
    ensures KeysFit(EMPTY)
  {
  }

  /** A server that could not read its file leaves the file alone whatever it is asked: the next one that can
      read it has everything that was stored. */
  lemma {:induction false} FailedLoadLosesNothing(sys: System, events: seq<Event>)
    requires forall i :: 0 <= i < |events| && events[i].Restart? ==> !events[i].readOk
    ensures var after := Run(After(sys, Restart(false)), events);
            && after.failed && after.disk == sys.disk
            && After(after, Restart(true)).memory == Persisted(sys)
  {
    hide EffectOf;
    if events != [] { FailedLoadLosesNothing(sys, events[..|events| - 1]); }
  }

  // --- what was put is what is found ---

  /** The four maps. */
  datatype Store = TargetStore | PolicyStore | ActionStore | TagStore

  predicate IsUnder(ns: string, resource: string, dimension: string, key: string) {
    ns + "|" + resource + "|" + dimension + "|" <= key
  }

  /** The request is for the entry at this key: it puts it, removes it, or removes what it belongs to. */
  predicate Touches(store: Store, req: Request, key: string) {
    match (store, req)
    case (TargetStore, Register(ns, resource, dimension, _, _, _, _)) => ns + "|" + resource + "|" + dimension == key
    case (TargetStore, Deregister(ns, resource, dimension)) => ns + "|" + resource + "|" + dimension == key
    case (PolicyStore, PutPolicy(ns, resource, dimension, name, _, _, _)) =>
      ns + "|" + resource + "|" + dimension + "|" + name == key
    case (PolicyStore, DeletePolicy(ns, resource, dimension, name)) =>
      ns + "|" + resource + "|" + dimension + "|" + name == key
    case (PolicyStore, Deregister(ns, resource, dimension)) => IsUnder(ns, resource, dimension, key)
    case (ActionStore, PutAction(ns, resource, dimension, name, _, _, _, _, _)) =>
      ns + "|" + resource + "|" + dimension + "|" + name == key
    case (ActionStore, DeleteAction(ns, resource, dimension, name)) =>
      ns + "|" + resource + "|" + dimension + "|" + name == key
    case (ActionStore, Deregister(ns, resource, dimension)) => IsUnder(ns, resource, dimension, key)
    case (TagStore, TagResource(arn, _)) => arn == key
    case (TagStore, UntagResource(arn, _)) => arn == key
    case _ => false
  }

  /** The same entry at the key, or none in either. */
  ghost predicate SameAt<T>(a: map<string, T>, b: map<string, T>, key: string) {
    (key in a <==> key in b) && (key in a ==> a[key] == b[key])
  }

  ghost predicate SameEntry(store: Store, s: State, t: State, key: string) {
    match store
    case TargetStore => SameAt(s.targets, t.targets, key)
    case PolicyStore => SameAt(s.policies, t.policies, key)
    case ActionStore => SameAt(s.actions, t.actions, key)
    case TagStore => SameAt(s.tags, t.tags, key)
  }

  lemma ObeyedLeavesTheRest(env: Env, req: Request, s: State, t: State, r: Outcome, store: Store, key: string)
    requires Obeys(env, req, s, t, r) && !Touches(store, req, key)
    ensures SameEntry(store, s, t, key)
  {
  }

  ghost predicate InStep(sys: System) {
    sys.memory == (if sys.failed then EMPTY else Persisted(sys)) && KeysFit(Persisted(sys)) && KeysFit(sys.memory)
  }

  lemma EventLeavesTheRest(sys: System, e: Event, store: Store, key: string)
    requires InStep(sys) && (e.Call? ==> !Touches(store, e.req, key))
    ensures SameEntry(store, Persisted(sys), Persisted(After(sys, e)), key) && InStep(After(sys, e))
  {
    hide EffectOf, Obeys, Touches, KeysFit;
    EmptyFits();
    if e.Call? {
      EffectObeys(e.env, e.req, sys.memory);
      var effect := EffectOf(e.env, sys.memory, e.req);
      var after := if effect.Answer? then sys.memory else effect.state;
      if effect.Change? { EffectKeepsKeys(e.env, sys.memory, e.req); }
      ObeyedLeavesTheRest(e.env, e.req, sys.memory, after, effect.outcome, store, key);
    }
  }

  predicate Untouched(store: Store, events: seq<Event>, key: string) {
    forall i :: 0 <= i < |events| && events[i].Call? ==> !Touches(store, events[i].req, key)
  }

  /** Until it is put again or removed, what the file holds at a key is what it was: over any calls, with
      failing writes, failing loads and restarts. */
  lemma {:induction false} HeldUntilTouched(sys: System, events: seq<Event>, store: Store, key: string)
    requires InStep(sys) && Untouched(store, events, key)
    ensures SameEntry(store, Persisted(sys), Persisted(Run(sys, events)), key) && InStep(Run(sys, events))
  {
    hide Touches, After, InStep;
    if events != [] {
      var n := |events| - 1;
      HeldUntilTouched(sys, events[..n], store, key);
      EventLeavesTheRest(Run(sys, events[..n]), events[n], store, key);
    }
  }

  /** The widest question about a map. */
  function Question(store: Store, key: string): Request {
    match store
    case TargetStore => DescribeTargets("dynamodb", {}, "")
    case PolicyStore => DescribePolicies("dynamodb", "", "", {})
    case ActionStore => DescribeActions("dynamodb", "", "", {})
    case TagStore => ListTags(key)
  }

  /** The answer has exactly this state's entry at the key. */
  ghost predicate Shows(store: Store, r: Outcome, s: State, key: string) {
    match store
    case TargetStore => r.Targets? && SameAt(r.targets, s.targets, key)
    case PolicyStore => r.Policies? && SameAt(r.policies, s.policies, key)
    case ActionStore => r.Actions? && SameAt(r.actions, s.actions, key)
    case TagStore => r == Tags(if key in s.tags then s.tags[key] else map[])
  }

  lemma ShowsTargets(env: Env, s: State, key: string, t: State, r: Outcome)
    requires KeysFit(s) && Obeys(env, Question(TargetStore, key), s, t, r)
    ensures Shows(TargetStore, r, s, key)
  {
    hide TargetKey;
    assert forall k :: k in s.targets ==> TargetFits(k, s.targets[k]);
  }

  lemma ShowsPolicies(env: Env, s: State, key: string, t: State, r: Outcome)
    requires KeysFit(s) && Obeys(env, Question(PolicyStore, key), s, t, r)
    ensures Shows(PolicyStore, r, s, key)
  {
    hide ItemKey;
    assert forall k :: k in s.policies ==> PolicyFits(k, s.policies[k]);
  }

  lemma ShowsActions(env: Env, s: State, key: string, t: State, r: Outcome)
    requires KeysFit(s) && Obeys(env, Question(ActionStore, key), s, t, r)
    ensures Shows(ActionStore, r, s, key)
  {
    hide ItemKey;
    assert forall k :: k in s.actions ==> ActionFits(k, s.actions[k]);
  }

  lemma AnswersShowTheState(env: Env, s: State, store: Store, key: string, t: State, r: Outcome)
    requires KeysFit(s) && Obeys(env, Question(store, key), s, t, r) && (store == TagStore ==> key != "")
    ensures Shows(store, r, s, key)
  {
    match store
    case TargetStore => ShowsTargets(env, s, key, t, r);
    case PolicyStore => ShowsPolicies(env, s, key, t, r);
    case ActionStore => ShowsActions(env, s, key, t, r);
    case TagStore => hide KeysFit;
  }

  /** What a request left at a key is what is found there, by a server that could load its file, until another
      request is for that key; whatever else happens in between. */
  lemma WhatWasPutIsFound(sys: System, env: Env, req: Request, events: seq<Event>, store: Store, key: string,
      asker: Env,
      t: State, r: Outcome)
    requires InStep(sys) && Untouched(store, events, key) && (store == TagStore ==> key != "")
    requires var last := Run(After(sys, Call(env, req, true)), events);
             !sys.failed && !last.failed && Obeys(asker, Question(store, key), last.memory, t, r)
    ensures exists left: State, answer :: Obeys(env, req, sys.memory, left, answer) && Shows(store, r, left, key)
  {
    hide Obeys, Touches, KeysFit, EffectOf, Run, SameEntry, Shows;
    EffectObeys(env, req, sys.memory);
    var effect := EffectOf(env, sys.memory, req);
    var left := if effect.Answer? then sys.memory else effect.state;
    var first := After(sys, Call(env, req, true));
    assert first.memory == left && Persisted(first) == left;
    if effect.Change? { EffectKeepsKeys(env, sys.memory, req); }
    HeldUntilTouched(first, events, store, key);
    var last := Run(first, events);
    AnswersShowTheState(asker, last.memory, store, key, t, r);
    ShowsTheSame(store, r, left, last.memory, key);
  }

  lemma ShowsTheSame(store: Store, r: Outcome, s: State, t: State, key: string)
    requires SameEntry(store, s, t, key) && Shows(store, r, t, key)
    ensures Shows(store, r, s, key)
  {
  }

  // --- what Deregister removes ---

  predicate NoBar(s: string) {
    '|' !in s
  }

  lemma {:induction false} FirstPiece(a: string, x: string, b: string, y: string)
    requires NoBar(a) && NoBar(b)
    ensures a + "|" + x <= b + "|" + y <==> a == b && x <= y
  {
    var (s, t) := (a + "|" + x, b + "|" + y);
    if a == "" || b == "" {
      if a == b {
        assert s[1..] == x && t[1..] == y;
        assert s == "|" + x && t == "|" + y;
      } else {
        assert s[0] != t[0];
      }
    } else {
      FirstPiece(a[1..], x, b[1..], y);
      assert s == [a[0]] + (a[1..] + "|" + x) && t == [b[0]] + (b[1..] + "|" + y);
      assert a == [a[0]] + a[1..] && b == [b[0]] + b[1..];
      ConsPrefix(a[0], a[1..] + "|" + x, b[0], b[1..] + "|" + y);
    }
  }

  lemma ConsPrefix(c: char, s: string, d: char, t: string)
    ensures [c] + s <= [d] + t <==> c == d && s <= t
  {
    if [c] + s <= [d] + t {
      assert ([c] + s)[0] == ([d] + t)[0];
      forall i | 0 <= i < |s| ensures s[i] == t[i] {
        assert ([c] + s)[i + 1] == ([d] + t)[i + 1];
      }
    }
    if c == d && s <= t {
      forall i | 0 <= i < |s| + 1 ensures ([c] + s)[i] == ([d] + t)[i] {
      }
    }
  }

  lemma KeyText(ns: string, resource: string, dimension: string, name: string)
    ensures TargetKey(ns, resource, dimension) + "|" == ns + "|" + (resource + "|" + (dimension + "|" + ""))
    ensures ItemKey(ns, resource, dimension, name) == ns + "|" + (resource + "|" + (dimension + "|" + name))
  {
  }

  /** Between identifiers without a bar, an item's key continues a target's key exactly when it is the
      same target. */
  lemma ItemKeyContinuesItsTargetOnly(ns: string, r1: string, d1: string, r2: string, d2: string, name: string)
    requires NoBar(ns) && NoBar(r1) && NoBar(d1) && NoBar(r2) && NoBar(d2)
    ensures TargetKey(ns, r1, d1) + "|" <= ItemKey(ns, r2, d2, name) <==> r1 == r2 && d1 == d2
  {
    KeyText(ns, r1, d1, "");
    KeyText(ns, r2, d2, name);
    FirstPiece(ns, r1 + "|" + (d1 + "|" + ""), ns, r2 + "|" + (d2 + "|" + name));
    FirstPiece(r1, d1 + "|" + "", r2, d2 + "|" + name);
    FirstPiece(d1, "", d2, name);
  }

  predicate BarFree(s: State) {
    && (forall k :: k in s.policies ==> NoBar(s.policies[k].resource) && NoBar(s.policies[k].dimension))
    && (forall k :: k in s.actions ==> NoBar(s.actions[k].resource) && NoBar(s.actions[k].dimension))
  }

  /** Deregistering a target removes that target, exactly its policies and exactly its scheduled actions,
      and leaves everything else as it was, when no identifier contains the separator. */
  lemma DeregisterRemovesExactlyItsOwn(env: Env, s: State, resource: string, dimension: string)
    requires KeysFit(s) && BarFree(s) && NoBar(resource) && NoBar(dimension)
    requires resource != "" && dimension != "" && TargetKey("dynamodb", resource, dimension) in s.targets
    ensures var e := EffectOf(env, s, Deregister("dynamodb", resource, dimension));
            && e.Change?
            && e.state.targets == s.targets - {TargetKey("dynamodb", resource, dimension)}
            && e.state.policies == (map k | k in s.policies
                 && !(s.policies[k].resource == resource && s.policies[k].dimension == dimension) :: s.policies[k])
            && e.state.actions == (map k | k in s.actions
                 && !(s.actions[k].resource == resource && s.actions[k].dimension == dimension) :: s.actions[k])
            && e.state.tags == s.tags
  {
    hide TargetKey, ItemKey;
    var prefix := TargetKey("dynamodb", resource, dimension) + "|";
    forall k | k in s.policies
      ensures prefix <= k <==> s.policies[k].resource == resource && s.policies[k].dimension == dimension
    {
      var p := s.policies[k];
      assert PolicyFits(k, p);
      ItemKeyContinuesItsTargetOnly("dynamodb", resource, dimension, p.resource, p.dimension, p.name);
    }
    forall k | k in s.actions
      ensures prefix <= k <==> s.actions[k].resource == resource && s.actions[k].dimension == dimension
    {
      var a := s.actions[k];
      assert ActionFits(k, a);
      ItemKeyContinuesItsTargetOnly("dynamodb", resource, dimension, a.resource, a.dimension, a.name);
    }
  }

  // --- and when an identifier contains the separator ---

  function Before(s: string): string {
    if s == "" || s[0] == '|' then "" else [s[0]] + Before(s[1..])
  }

  function Behind(s: string): string {
    if s == "" then "" else if s[0] == '|' then s[1..] else Behind(s[1..])
  }

  lemma {:induction false} CutOne(s: string)
    ensures NoBar(Before(s)) && (NoBar(s) ==> Before(s) == s)
    ensures !NoBar(s) ==> s == Before(s) + "|" + Behind(s)
  {
    if s != "" && s[0] != '|' {
      CutOne(s[1..]);
      assert s == [s[0]] + s[1..];
    } else if s != "" {
      assert s == "|" + s[1..];
    }
  }

  lemma {:induction false} CutLonger(s: string, x: string)
    ensures Before(s + "|" + x) == Before(s)
    ensures Behind(s + "|" + x) == if NoBar(s) then x else Behind(s) + "|" + x
  {
    var t := s + "|" + x;
    if s == "" {
      assert t == "|" + x && t[1..] == x;
    } else {
      assert t[0] == s[0] && t[1..] == s[1..] + "|" + x;
      assert s == [s[0]] + s[1..];
      if s[0] != '|' { CutLonger(s[1..], x); }
    }
  }

  lemma CutAtBar(s: string, x: string)
    ensures NoBar(Before(s)) && (NoBar(s) ==> Before(s) == s)
    ensures !NoBar(s) ==> s == Before(s) + "|" + Behind(s)
    ensures Before(s + "|" + x) == Before(s)
    ensures Behind(s + "|" + x) == if NoBar(s) then x else Behind(s) + "|" + x
  {
    hide *;
    CutOne(s);
    CutLonger(s, x);
  }

  /** The first two pieces of a target's identifiers, read at their bars. */
  function Piece1(resource: string, dimension: string): string {
    Before(resource + "|" + dimension)
  }

  function Piece2(resource: string, dimension: string): string {
    Before(Behind(resource + "|" + dimension))
  }

  /** Some item of the target `(r2, d2)` has a key that continues the target key of `(r, d)`. */
  ghost predicate Reaches(r: string, d: string, r2: string, d2: string) {
    exists name :: name != "" && TargetKey("dynamodb", r, d) + "|" <= ItemKey("dynamodb", r2, d2, name)
  }

  lemma PieceOne(r: string, d: string)
    ensures NoBar(Piece1(r, d)) && (Piece1(r, d) == r <==> NoBar(r))
    ensures r + "|" + d == Piece1(r, d) + "|" + Behind(r + "|" + d)
    ensures NoBar(r) ==> Behind(r + "|" + d) == d
  {
    hide Before, Behind;
    CutAtBar(r + "|" + d, "");
    CutAtBar(r, d);
  }

  lemma PieceTwo(t: string)
    returns (more: string)
    ensures NoBar(Before(t)) && (Before(t) == t <==> NoBar(t))
    ensures t + "|" == Before(t) + "|" + more
  {
    hide Before, Behind;
    CutAtBar(t, "");
    more := if NoBar(t) then "" else Behind(t) + "|";
  }

  lemma PiecesDecide(r: string, d: string)
    returns (more: string)
    ensures NoBar(Piece1(r, d)) && NoBar(Piece2(r, d))
    ensures TargetKey("dynamodb", r, d) + "|" == "dynamodb" + "|" + (Piece1(r, d) + "|" + (Piece2(r, d) + "|" + more))
    ensures (Piece1(r, d) == r && Piece2(r, d) == d) <==> NoBar(r) && NoBar(d)
  {
    hide Before, Behind, NoBar;
    PieceOne(r, d);
    var t := Behind(r + "|" + d);
    more := PieceTwo(t);
    KeyText("dynamodb", r, d, "");
    Regroup(r, d, Piece1(r, d), t, Piece2(r, d), more);
  }

  lemma Regroup(r: string, d: string, p1: string, t: string, p2: string, more: string)
    requires r + "|" + d == p1 + "|" + t && t + "|" == p2 + "|" + more
    ensures r + "|" + (d + "|" + "") == p1 + "|" + (p2 + "|" + more)
  {
    assert r + "|" + (d + "|" + "") == (r + "|" + d) + "|";
    assert p1 + "|" + (p2 + "|" + more) == (p1 + "|" + t) + "|";
  }

  /** Among targets with bar-free, non-empty identifiers, exactly those deregistrations can reach another
      one's items that have a bar in an identifier of their own and a non-empty piece before the first and
      before the second bar.  Items of targets with bars in their identifiers are in
      `ReachesExactlyWhenOneTextContinuesTheOther`. */
  lemma DeregisterReachesOthersExactlyThroughBars(r: string, d: string)
    ensures (exists r2, d2 ::
               NoBar(r2) && NoBar(d2) && r2 != "" && d2 != "" && (r2 != r || d2 != d) && Reaches(r, d, r2, d2))
            <==> (!NoBar(r) || !NoBar(d)) && Piece1(r, d) != "" && Piece2(r, d) != ""
  {
    hide TargetKey, ItemKey, Piece1, Piece2, NoBar;
    var more := PiecesDecide(r, d);
    var (p1, p2) := (Piece1(r, d), Piece2(r, d));
    forall r2, d2, name | NoBar(r2) && NoBar(d2)
      ensures TargetKey("dynamodb", r, d) + "|" <= ItemKey("dynamodb", r2, d2, name)
              <==> r2 == p1 && d2 == p2 && more <= name
    {
      ContinuesAtPieces(r, d, p1, p2, more, r2, d2, name);
    }
    if p1 != "" && p2 != "" {
      var name := more + "x";
      assert TargetKey("dynamodb", r, d) + "|" <= ItemKey("dynamodb", p1, p2, name);
      assert Reaches(r, d, p1, p2);
    }
  }

  lemma ContinuesAtPieces(r: string, d: string, p1: string, p2: string, more: string, r2: string, d2: string,
      name: string)
    requires NoBar(p1) && NoBar(p2) && NoBar(r2) && NoBar(d2)
    requires TargetKey("dynamodb", r, d) + "|" == "dynamodb" + "|" + (p1 + "|" + (p2 + "|" + more))
    ensures TargetKey("dynamodb", r, d) + "|" <= ItemKey("dynamodb", r2, d2, name)
            <==> r2 == p1 && d2 == p2 && more <= name
  {
    KeyText("dynamodb", r2, d2, name);
    FirstPiece("dynamodb", p1 + "|" + (p2 + "|" + more), "dynamodb", r2 + "|" + (d2 + "|" + name));
    FirstPiece(p1, p2 + "|" + more, r2, d2 + "|" + name);
    FirstPiece(p2, more, d2, name);
  }

  // --- any two targets ---

  /** The part of a key that a target's identifiers make up, with the bar after it. */
  function IdText(resource: string, dimension: string): string {
    resource + "|" + dimension + "|"
  }

  lemma KeysAreIdTexts(r: string, d: string, r2: string, d2: string, name: string)
    ensures TargetKey("dynamodb", r, d) + "|" <= ItemKey("dynamodb", r2, d2, name)
            <==> IdText(r, d) <= IdText(r2, d2) + name
  {
    KeyText("dynamodb", r, d, "");
    KeyText("dynamodb", r2, d2, name);
    assert r + "|" + (d + "|" + "") == IdText(r, d);
    assert r2 + "|" + (d2 + "|" + name) == IdText(r2, d2) + name;
    var ns := "dynamodb|";
    assert TargetKey("dynamodb", r, d) + "|" == ns + IdText(r, d);
    assert ItemKey("dynamodb", r2, d2, name) == ns + (IdText(r2, d2) + name);
    SameHead(ns, IdText(r, d), IdText(r2, d2) + name);
  }

  lemma SameHead(h: string, s: string, t: string)
    ensures h + s <= h + t <==> s <= t
  {
    if h + s <= h + t {
      forall i | 0 <= i < |s| ensures s[i] == t[i] {
        assert (h + s)[|h| + i] == (h + t)[|h| + i];
      }
    }
  }

  /** Deregistering one target can reach items of another, whatever bars their identifiers hold, exactly
      when one target's text continues the other's. */
  lemma ReachesExactlyWhenOneTextContinuesTheOther(r: string, d: string, r2: string, d2: string)
    ensures Reaches(r, d, r2, d2) <==> IdText(r, d) <= IdText(r2, d2) || IdText(r2, d2) <= IdText(r, d)
  {
    hide TargetKey, ItemKey, IdText;
    var (p, q) := (IdText(r, d), IdText(r2, d2));
    forall name ensures TargetKey("dynamodb", r, d) + "|" <= ItemKey("dynamodb", r2, d2, name) <==> p <= q + name {
      KeysAreIdTexts(r, d, r2, d2, name);
    }
    if p <= q {
      assert p <= q + "x";
      assert TargetKey("dynamodb", r, d) + "|" <= ItemKey("dynamodb", r2, d2, "x");
    } else if q <= p {
      var name := p[|q|..] + "x";
      assert q + name == p + "x";
      assert TargetKey("dynamodb", r, d) + "|" <= ItemKey("dynamodb", r2, d2, name);
    }
    forall name | p <= q + name ensures p <= q || q <= p {
      assert q <= q + name;
    }
  }

  /** In any state whose keys fit, deregistering a registered target removes the target, exactly the
      policies and exactly the actions whose text continues the target's, and nothing else. */
  lemma DeregisterRemovesWhatContinues(env: Env, s: State, resource: string, dimension: string)
    requires KeysFit(s) && resource != "" && dimension != "" && TargetKey("dynamodb", resource, dimension) in s.targets
    ensures var e := EffectOf(env, s, Deregister("dynamodb", resource, dimension));
            var text := IdText(resource, dimension);
            && e.Change?
            && e.state.targets == s.targets - {TargetKey("dynamodb", resource, dimension)}
            && e.state.policies == (map k | k in s.policies
                 && !(text <= IdText(s.policies[k].resource, s.policies[k].dimension) + s.policies[k].name) ::
                   s.policies[k])
            && e.state.actions == (map k | k in s.actions
                 && !(text <= IdText(s.actions[k].resource, s.actions[k].dimension) + s.actions[k].name) ::
                   s.actions[k])
            && e.state.tags == s.tags
  {
    hide TargetKey, ItemKey, IdText;
    var (prefix, text) := (TargetKey("dynamodb", resource, dimension) + "|", IdText(resource, dimension));
    forall k | k in s.policies
      ensures prefix <= k <==> text <= IdText(s.policies[k].resource, s.policies[k].dimension) + s.policies[k].name
    {
      var p := s.policies[k];
      assert PolicyFits(k, p);
      KeysAreIdTexts(resource, dimension, p.resource, p.dimension, p.name);
    }
    forall k | k in s.actions
      ensures prefix <= k <==> text <= IdText(s.actions[k].resource, s.actions[k].dimension) + s.actions[k].name
    {
      var a := s.actions[k];
      assert ActionFits(k, a);
      KeysAreIdTexts(resource, dimension, a.resource, a.dimension, a.name);
    }
  }

  /** An item of another target whose text continues the target's. */
  predicate Stray(resource: string, dimension: string, r2: string, d2: string, name: string) {
    (r2 != resource || d2 != dimension) && IdText(resource, dimension) <= IdText(r2, d2) + name
  }

  /** Exactly the target's own policies and actions go if and only if none stored is a stray. */
  lemma RemovesItsOwnOnlyExactlyWithoutStrays(env: Env, s: State, resource: string, dimension: string)
    requires KeysFit(s) && resource != "" && dimension != "" && TargetKey("dynamodb", resource, dimension) in s.targets
    ensures var e := EffectOf(env, s, Deregister("dynamodb", resource, dimension)).state;
            (forall k :: k in s.policies ==>
               (k !in e.policies <==> s.policies[k].resource == resource && s.policies[k].dimension == dimension))
            && (forall k :: k in s.actions ==>
               (k !in e.actions <==> s.actions[k].resource == resource && s.actions[k].dimension == dimension))
            <==>
            (forall k :: k in s.policies ==>
               !Stray(resource, dimension, s.policies[k].resource, s.policies[k].dimension, s.policies[k].name))
            && (forall k :: k in s.actions ==>
               !Stray(resource, dimension, s.actions[k].resource, s.actions[k].dimension, s.actions[k].name))
  {
    hide IdText, TargetKey, EffectOf;
    DeregisterRemovesWhatContinues(env, s, resource, dimension);
    var text := IdText(resource, dimension);
    forall name: string ensures text <= text + name {
    }
  }

  /** Two targets whose texts continue one another in neither direction. */
  predicate Apart(r: string, d: string, r2: string, d2: string) {
    !(IdText(r, d) <= IdText(r2, d2)) && !(IdText(r2, d2) <= IdText(r, d))
  }

  /** Bar-free identifiers of two targets are always apart: the texts then agree only for one target. */
  lemma BarFreeTargetsAreApart(r: string, d: string, r2: string, d2: string)
    requires NoBar(r) && NoBar(d) && NoBar(r2) && NoBar(d2)
    ensures Apart(r, d, r2, d2) <==> r != r2 || d != d2
  {
    FirstPiece(r, d + "|" + "", r2, d2 + "|" + "");
    FirstPiece(d, "", d2, "");
    FirstPiece(r2, d2 + "|" + "", r, d + "|" + "");
    FirstPiece(d2, "", d, "");
    assert r + "|" + (d + "|" + "") == IdText(r, d) && r2 + "|" + (d2 + "|" + "") == IdText(r2, d2);
  }

  /** Between targets that are apart no item is ever lost to the other's deregistration. */
  lemma ApartTargetsKeepTheirItems(env: Env, s: State, resource: string, dimension: string, k: string)
    requires KeysFit(s) && resource != "" && dimension != "" && TargetKey("dynamodb", resource, dimension) in s.targets
    ensures k in s.policies && Apart(resource, dimension, s.policies[k].resource, s.policies[k].dimension)
            ==> k in EffectOf(env, s, Deregister("dynamodb", resource, dimension)).state.policies
    ensures k in s.actions && Apart(resource, dimension, s.actions[k].resource, s.actions[k].dimension)
            ==> k in EffectOf(env, s, Deregister("dynamodb", resource, dimension)).state.actions
  {
    hide IdText, TargetKey, EffectOf;
    DeregisterRemovesWhatContinues(env, s, resource, dimension);
    var p := IdText(resource, dimension);
    forall q, name ensures !(p <= q) && !(q <= p) ==> !(p <= q + name) {
      if p <= q + name { Comparable(p, q, name); }
    }
  }

  lemma Comparable(p: string, q: string, name: string)
    requires p <= q + name
    ensures p <= q || q <= p
  {
    assert q <= q + name;
  }

  /** A bar-free target can lose the policies of another: `("a", "b")` takes those of `("a", "b|c")` along. */
  lemma BarredTargetLosesItsPolicy(env: Env, s: State, policy: Policy)
    requires KeysFit(s) && TargetKey("dynamodb", "a", "b") in s.targets
    requires policy.ns == "dynamodb" && policy.resource == "a" && policy.dimension == "b|c"
    requires ItemKey("dynamodb", "a", "b|c", policy.name) in s.policies
    requires s.policies[ItemKey("dynamodb", "a", "b|c", policy.name)] == policy
    ensures var e := EffectOf(env, s, Deregister("dynamodb", "a", "b"));
            e.Change? && ItemKey("dynamodb", "a", "b|c", policy.name) !in e.state.policies
    ensures !Apart("a", "b", "a", "b|c")
  {
    assert IdText("a", "b|c") == IdText("a", "b") + "c|";
    hide ItemKey, TargetKey, EffectOf, IdText;
    DeregisterRemovesWhatContinues(env, s, "a", "b");
  }
}
