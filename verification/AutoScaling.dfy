/** The Application Auto Scaling store: four maps in memory, the file that mirrors them, and the
    handlers that change both or neither. */
module AutoScaling {
  import opened Common

  // --- what is stored ---

  datatype Suspended = Suspended(dynamicIn: Option<bool>, dynamicOut: Option<bool>, scheduled: Option<bool>)

  datatype Target = Target(ns: string, resource: string, dimension: string, minCapacity: int, maxCapacity: int,
                           role: string, suspended: Suspended, created: string)

  /** JSON configurations are kept as their text. */
  datatype Policy = Policy(ns: string, resource: string, dimension: string, name: string, arn: string,
                           policyType: string, step: Option<string>, tracking: Option<string>, created: string)

  datatype Action = Action(ns: string, resource: string, dimension: string, name: string, schedule: string,
                           timezone: string, start: Option<string>, end: Option<string>,
                           capacity: Option<string>, created: string)

  datatype State = State(targets: map<string, Target>, policies: map<string, Policy>,
                         actions: map<string, Action>, tags: map<string, map<string, string>>)

  const EMPTY := State(map[], map[], map[], map[])

  // --- requests and answers ---

  datatype Request =
    | Register(ns: string, resource: string, dimension: string, role: string,
               minCapacity: Option<int>, maxCapacity: Option<int>, suspended: Option<Suspended>)
    | Deregister(ns: string, resource: string, dimension: string)
    | PutPolicy(ns: string, resource: string, dimension: string, name: string, policyType: string,
                step: Option<string>, tracking: Option<string>)
    | DeletePolicy(ns: string, resource: string, dimension: string, name: string)
    | PutAction(ns: string, resource: string, dimension: string, name: string, schedule: string, timezone: string,
                start: Option<string>, end: Option<string>, capacity: Option<string>)
    | DeleteAction(ns: string, resource: string, dimension: string, name: string)
    | TagResource(arn: string, added: map<string, string>)
    | UntagResource(arn: string, keys: set<string>)
    | DescribeTargets(ns: string, resources: set<string>, dimension: string)
    | DescribePolicies(ns: string, resource: string, dimension: string, names: set<string>)
    | DescribeActions(ns: string, resource: string, dimension: string, names: set<string>)
    | DescribeActivities(ns: string)
    | ListTags(arn: string)
    | Undecodable
    | UnknownOperation

  /** What is found is listed in the order of the keys. */
  datatype Outcome =
    | Done | PolicyStored(arn: string)
    | Targets(targets: map<string, Target>) | Policies(policies: map<string, Policy>)
    | Actions(actions: map<string, Action>) | Tags(tags: map<string, string>)
    | Invalid | NotFound | NotJson | Unknown | PersistFailed | LoadFailed

  /** What a handler takes from its surroundings: the clock, a fresh uuid, region and account. */
  datatype Env = Env(now: string, uuid: string, region: string, account: string)

  // --- keys ---

  function Join3(a: string, b: string, c: string): string {
    a + "|" + b + "|" + c
  }

  function TargetKey(ns: string, resource: string, dimension: string): string {
    Join3(ns, resource, dimension)
  }

  /** Policies and scheduled actions alike. */
  function ItemKey(ns: string, resource: string, dimension: string, name: string): string {
    Join3(ns, resource, dimension) + "|" + name
  }

  predicate NamespaceOk(ns: string) {
    ns == "dynamodb"
  }

  function PolicyArn(env: Env, ns: string, resource: string, name: string): string {
    "arn:aws:autoscaling:" + DefaultString(env.region, "us-east-1") + ":" + DefaultString(env.account, "000000000000")
    + ":scalingPolicy:" + env.uuid + ":resource/" + ns + "/" + resource + ":policyName/" + name
  }

  // --- what a request asks for: an answer at once, or a new state and the answer once it is stored ---

  datatype Effect = Answer(outcome: Outcome) | Change(state: State, outcome: Outcome)

  function NewTarget(env: Env, req: Request, existing: Option<Target>): Target
    requires req.Register?
  {
    var base := match existing
      case None => Target(req.ns, req.resource, req.dimension, 0, 0, req.role, Suspended(None, None, None), env.now)
      case Some(e) =>
        Target(req.ns, req.resource, req.dimension, e.minCapacity, e.maxCapacity,
               if req.role == "" then e.role else req.role, e.suspended, e.created);
    base.(minCapacity := if req.minCapacity.Some? then req.minCapacity.value else base.minCapacity,
          maxCapacity := if req.maxCapacity.Some? then req.maxCapacity.value else base.maxCapacity,
          suspended := if req.suspended.Some? then req.suspended.value else base.suspended)
  }

  function Lookup<T>(m: map<string, T>, key: string): Option<T> {
    if key in m then Some(m[key]) else None
  }

  function NewPolicy(env: Env, req: Request, policyType: string, existing: Option<Policy>): Policy
    requires req.PutPolicy?
  {
    match existing
    case Some(e) =>
      Policy(req.ns, req.resource, req.dimension, req.name, e.arn, policyType, req.step, req.tracking, e.created)
    case None =>
      Policy(req.ns, req.resource, req.dimension, req.name, PolicyArn(env, req.ns, req.resource, req.name),
             policyType, req.step, req.tracking, env.now)
  }

  function NewAction(env: Env, req: Request, existing: Option<Action>): Action
    requires req.PutAction?
  {
    Action(req.ns, req.resource, req.dimension, req.name, req.schedule, req.timezone, req.start, req.end, req.capacity,
           if existing.Some? then existing.value.created else env.now)
  }

  function Without<T>(m: map<string, T>, prefix: string): (r: map<string, T>)
    ensures forall k :: k in r <==> k in m && !(prefix <= k)
    ensures forall k :: k in r ==> r[k] == m[k]
  {
    map k | k in m && !(prefix <= k) :: m[k]
  }

  function Untagged(tags: map<string, map<string, string>>, arn: string,
      keys: set<string>): map<string, map<string, string>> {
    if arn !in tags then tags
    else if tags[arn] - keys == map[] then tags - {arn}
    else tags[arn := tags[arn] - keys]
  }

  /** The entries with a value that passes. */
  function Chosen<T>(m: map<string, T>, passes: T -> bool): map<string, T> {
    map k | k in m && passes(m[k]) :: m[k]
  }

  lemma ChosenIs<T>(m: map<string, T>, passes: T -> bool, r: map<string, T>)
    requires forall k :: k in r <==> k in m && passes(m[k])
    requires forall k :: k in r ==> r[k] == m[k]
    ensures r == Chosen(m, passes)
  {
  }

  /** An empty part of a filter lets everything through. */
  function TargetFilter(ns: string, resources: set<string>, dimension: string): Target -> bool {
    (t: Target) => && t.ns == ns && (resources == {} || t.resource in resources)
                   && (dimension == "" || t.dimension == dimension)
  }

  function PolicyFilter(ns: string, resource: string, dimension: string, names: set<string>): Policy -> bool {
    (p: Policy) => && p.ns == ns && (resource == "" || p.resource == resource)
                   && (dimension == "" || p.dimension == dimension) && (names == {} || p.name in names)
  }

  function ActionFilter(ns: string, resource: string, dimension: string, names: set<string>): Action -> bool {
    (a: Action) => && a.ns == ns && (resource == "" || a.resource == resource)
                   && (dimension == "" || a.dimension == dimension) && (names == {} || a.name in names)
  }

  predicate IsDescribe(req: Request) {
    req.DescribeTargets? || req.DescribePolicies? || req.DescribeActions?
  }

  /** The entries a question asks for. */
  function Findings(s: State, req: Request): Outcome
    requires IsDescribe(req)
  {
    match req
    case DescribeTargets(ns, resources, dimension) =>
      Targets(Chosen(s.targets, TargetFilter(ns, resources, dimension)))
    case DescribePolicies(ns, resource, dimension, names) =>
      Policies(Chosen(s.policies, PolicyFilter(ns, resource, dimension, names)))
    case DescribeActions(ns, resource, dimension, names) =>
      Actions(Chosen(s.actions, ActionFilter(ns, resource, dimension, names)))
  }

  function EffectOf(env: Env, s: State, req: Request): Effect {
    match req
    case Register(ns, resource, dimension, _, _, _, _) =>
      if !NamespaceOk(ns) || resource == "" || dimension == "" then Answer(Invalid)
      else
        var key := TargetKey(ns, resource, dimension);
        Change(s.(targets := s.targets[key := NewTarget(env, req, Lookup(s.targets, key))]), Done)
    case Deregister(ns, resource, dimension) =>
      if !NamespaceOk(ns) || resource == "" || dimension == "" then Answer(Invalid)
      else
        var key := TargetKey(ns, resource, dimension);
        if key !in s.targets then Answer(NotFound)
        else
          Change(s.(targets := s.targets - {key}, policies := Without(s.policies, key + "|"),
                    actions := Without(s.actions, key + "|")), Done)
    case PutPolicy(ns, resource, dimension, name, policyType, _, _) =>
      var kind := DefaultString(policyType, "StepScaling");
      if !NamespaceOk(ns) || name == "" || resource == "" || dimension == ""
         || (kind != "StepScaling" && kind != "TargetTrackingScaling") then Answer(Invalid)
      else
        var key := ItemKey(ns, resource, dimension, name);
        var policy := NewPolicy(env, req, kind, Lookup(s.policies, key));
        Change(s.(policies := s.policies[key := policy]), PolicyStored(policy.arn))
    case DeletePolicy(ns, resource, dimension, name) =>
      if !NamespaceOk(ns) || name == "" || resource == "" || dimension == "" then Answer(Invalid)
      else
        var key := ItemKey(ns, resource, dimension, name);
        if key !in s.policies then Answer(NotFound) else Change(s.(policies := s.policies - {key}), Done)
    case PutAction(ns, resource, dimension, name, _, _, _, _, _) =>
      if !NamespaceOk(ns) || name == "" || resource == "" || dimension == "" then Answer(Invalid)
      else
        var key := ItemKey(ns, resource, dimension, name);
        Change(s.(actions := s.actions[key := NewAction(env, req, Lookup(s.actions, key))]), Done)
    case DeleteAction(ns, resource, dimension, name) =>
      if !NamespaceOk(ns) || name == "" || resource == "" || dimension == "" then Answer(Invalid)
      else
        var key := ItemKey(ns, resource, dimension, name);
        if key !in s.actions then Answer(NotFound) else Change(s.(actions := s.actions - {key}), Done)
    case TagResource(arn, added) =>
      if arn == "" then Answer(Invalid)
      else
        var bucket := if arn in s.tags then s.tags[arn] else map[];
        Change(s.(tags := s.tags[arn := bucket + added]), Done)
    case UntagResource(arn, keys) =>
      if arn == "" then Answer(Invalid) else Change(s.(tags := Untagged(s.tags, arn, keys)), Done)
    case DescribeTargets(ns, _, _) => Answer(if NamespaceOk(ns) then Findings(s, req) else Invalid)
    case DescribePolicies(ns, _, _, _) => Answer(if NamespaceOk(ns) then Findings(s, req) else Invalid)
    case DescribeActions(ns, _, _, _) => Answer(if NamespaceOk(ns) then Findings(s, req) else Invalid)
    case DescribeActivities(ns) => if !NamespaceOk(ns) then Answer(Invalid) else Answer(Done)
    case ListTags(arn) => Answer(if arn == "" then Invalid else Tags(if arn in s.tags then s.tags[arn] else map[]))
    case Undecodable => Answer(NotJson)
    case UnknownOperation => Answer(Unknown)
  }

  lemma DeregisterEffect(env: Env, s: State, req: Request)
    requires req.Deregister?
    ensures var key := TargetKey(req.ns, req.resource, req.dimension);
            EffectOf(env, s, req)
            == if !NamespaceOk(req.ns) || req.resource == "" || req.dimension == "" then Answer(Invalid)
               else if key !in s.targets then Answer(NotFound)
               else Change(s.(targets := s.targets - {key}, policies := Without(s.policies, key + "|"),
                              actions := Without(s.actions, key + "|")), Done)
  {
    hide Without, TargetKey;
  }

  // --- what each request does, said entry by entry ---

  /** Nothing is different at any other key. */
  ghost predicate SameBut<T>(before: map<string, T>, after: map<string, T>, key: string) {
    forall k :: k != key ==> (k in before <==> k in after) && (k in before ==> before[k] == after[k])
  }

  /** What was given, or what was there, or what a new one begins with. */
  function Choose<T>(given: Option<T>, former: Option<T>, initial: T): T {
    if given.Some? then given.value else if former.Some? then former.value else initial
  }

  ghost predicate Registers(env: Env, req: Request, before: map<string, Target>, after: map<string, Target>)
    requires req.Register?
  {
    var key := req.ns + "|" + req.resource + "|" + req.dimension;
    && SameBut(before, after, key) && key in after
    && var (t, former) := (after[key], if key in before then Some(before[key]) else None);
    && t.ns == req.ns && t.resource == req.resource && t.dimension == req.dimension
    && t.minCapacity == Choose(req.minCapacity, if former.Some? then Some(former.value.minCapacity) else None, 0)
    && t.maxCapacity == Choose(req.maxCapacity, if former.Some? then Some(former.value.maxCapacity) else None, 0)
    && t.suspended == Choose(req.suspended, if former.Some? then Some(former.value.suspended) else None,
                             Suspended(None, None, None))
    && t.role == Choose(if req.role != "" then Some(req.role) else None,
                        if former.Some? then Some(former.value.role) else None, "")
    && t.created == (if former.Some? then former.value.created else env.now)
  }

  ghost predicate PutsPolicy(env: Env, req: Request, before: map<string, Policy>, after: map<string, Policy>,
      r: Outcome)
    requires req.PutPolicy?
  {
    var key := req.ns + "|" + req.resource + "|" + req.dimension + "|" + req.name;
    && SameBut(before, after, key) && key in after
    && var p := after[key];
    && p.ns == req.ns && p.resource == req.resource && p.dimension == req.dimension && p.name == req.name
    && p.policyType == (if req.policyType == "" then "StepScaling" else req.policyType)
    && p.step == req.step && p.tracking == req.tracking
    && (if key in before then p.arn == before[key].arn && p.created == before[key].created
        else
          && p.created == env.now
          && p.arn == "arn:aws:autoscaling:" + (if env.region == "" then "us-east-1" else env.region) + ":"
                      + (if env.account == "" then "000000000000" else env.account) + ":scalingPolicy:" + env.uuid
                      + ":resource/" + req.ns + "/" + req.resource + ":policyName/" + req.name)
    && r == PolicyStored(p.arn)
  }

  ghost predicate PutsAction(env: Env, req: Request, before: map<string, Action>, after: map<string, Action>)
    requires req.PutAction?
  {
    var key := req.ns + "|" + req.resource + "|" + req.dimension + "|" + req.name;
    && SameBut(before, after, key) && key in after
    && var a := after[key];
    && a.ns == req.ns && a.resource == req.resource && a.dimension == req.dimension && a.name == req.name
    && a.schedule == req.schedule && a.timezone == req.timezone
    && a.start == req.start && a.end == req.end && a.capacity == req.capacity
    && a.created == (if key in before then before[key].created else env.now)
  }

  /** The entries that are gone are those at the key, of which there was one. */
  ghost predicate Deletes<T>(before: map<string, T>, after: map<string, T>, key: string, r: Outcome) {
    && SameBut(before, after, key) && key !in after
    && r == if key in before then Done else NotFound
  }

  /** The entries that are gone are those whose keys start so. */
  ghost predicate DeletesUnder<T>(before: map<string, T>, after: map<string, T>, prefix: string) {
    && (forall k :: k in after <==> k in before && !(prefix <= k))
    && (forall k :: k in after ==> after[k] == before[k])
  }

  /** The tag names of a resource after it was tagged and untagged. */
  ghost predicate Retags(before: map<string, map<string, string>>, after: map<string, map<string, string>>, arn: string,
      added: map<string, string>, removed: set<string>) {
    var was := if arn in before then before[arn] else map[];
    var bucket := if arn in after then after[arn] else map[];
    && SameBut(before, after, arn)
    && (forall n :: n in bucket <==> n in added || (n in was && n !in removed))
    && (forall n :: n in bucket ==> bucket[n] == if n in added then added[n] else was[n])
  }

  predicate IdsGiven(ns: string, resource: string, dimension: string) {
    ns == "dynamodb" && resource != "" && dimension != ""
  }

  /** The request's effect on the store and its answer, once it could be stored. */
  ghost predicate Obeys(env: Env, req: Request, s: State, t: State, r: Outcome) {
    match req
    case Register(ns, resource, dimension, _, _, _, _) =>
      if IdsGiven(ns, resource, dimension)
      then r == Done && t == s.(targets := t.targets) && Registers(env, req, s.targets, t.targets)
      else r == Invalid && t == s
    case Deregister(ns, resource, dimension) =>
      if IdsGiven(ns, resource, dimension) && ns + "|" + resource + "|" + dimension in s.targets then
        var key := ns + "|" + resource + "|" + dimension;
        && r == Done && t.tags == s.tags && Deletes(s.targets, t.targets, key, r)
        && DeletesUnder(s.policies, t.policies, key + "|") && DeletesUnder(s.actions, t.actions, key + "|")
      else t == s && r == if IdsGiven(ns, resource, dimension) then NotFound else Invalid
    case PutPolicy(ns, resource, dimension, name, policyType, _, _) =>
      if IdsGiven(ns, resource, dimension) && name != "" && policyType in {"", "StepScaling", "TargetTrackingScaling"}
      then t == s.(policies := t.policies) && PutsPolicy(env, req, s.policies, t.policies, r)
      else r == Invalid && t == s
    case DeletePolicy(ns, resource, dimension, name) =>
      if IdsGiven(ns, resource, dimension) && name != "" then
        && t == s.(policies := t.policies)
        && Deletes(s.policies, t.policies, ns + "|" + resource + "|" + dimension + "|" + name, r)
      else r == Invalid && t == s
    case PutAction(ns, resource, dimension, name, _, _, _, _, _) =>
      if IdsGiven(ns, resource, dimension) && name != ""
      then r == Done && t == s.(actions := t.actions) && PutsAction(env, req, s.actions, t.actions)
      else r == Invalid && t == s
    case DeleteAction(ns, resource, dimension, name) =>
      if IdsGiven(ns, resource, dimension) && name != "" then
        && t == s.(actions := t.actions)
        && Deletes(s.actions, t.actions, ns + "|" + resource + "|" + dimension + "|" + name, r)
      else r == Invalid && t == s
    case TagResource(arn, added) =>
      if arn != "" then r == Done && t == s.(tags := t.tags) && arn in t.tags && Retags(s.tags, t.tags, arn, added, {})
      else r == Invalid && t == s
    case UntagResource(arn, keys) =>
      if arn != "" then
        && r == Done && t == s.(tags := t.tags) && Retags(s.tags, t.tags, arn, map[], keys)
        && (arn in t.tags ==> t.tags[arn] != map[])
      else r == Invalid && t == s
    case DescribeTargets(ns, resources, dimension) =>
      && t == s
      && if ns != "dynamodb" then r == Invalid
         else
           && r.Targets?
           && (forall k :: k in r.targets <==>
                 && k in s.targets && s.targets[k].ns == ns && (resources != {} ==> s.targets[k].resource in resources)
                 && (dimension != "" ==> s.targets[k].dimension == dimension))
           && (forall k :: k in r.targets ==> r.targets[k] == s.targets[k])
    case DescribePolicies(ns, resource, dimension, names) =>
      && t == s
      && if ns != "dynamodb" then r == Invalid
         else
           && r.Policies?
           && (forall k :: k in r.policies <==>
                 && k in s.policies && s.policies[k].ns == ns && (resource != "" ==> s.policies[k].resource == resource)
                 && (dimension != "" ==> s.policies[k].dimension == dimension)
                 && (names != {} ==> s.policies[k].name in names))
           && (forall k :: k in r.policies ==> r.policies[k] == s.policies[k])
    case DescribeActions(ns, resource, dimension, names) =>
      && t == s
      && if ns != "dynamodb" then r == Invalid
         else
           && r.Actions?
           && (forall k :: k in r.actions <==>
                 && k in s.actions && s.actions[k].ns == ns && (resource != "" ==> s.actions[k].resource == resource)
                 && (dimension != "" ==> s.actions[k].dimension == dimension)
                 && (names != {} ==> s.actions[k].name in names))
           && (forall k :: k in r.actions ==> r.actions[k] == s.actions[k])
    case DescribeActivities(ns) => t == s && r == if ns == "dynamodb" then Done else Invalid
    case ListTags(arn) =>
      t == s && if arn == "" then r == Invalid else r == Tags(if arn in s.tags then s.tags[arn] else map[])
    case Undecodable => t == s && r == NotJson
    case UnknownOperation => t == s && r == Unknown
  }

  lemma KeysAreJoined(ns: string, resource: string, dimension: string, name: string)
    ensures TargetKey(ns, resource, dimension) == ns + "|" + resource + "|" + dimension
    ensures ItemKey(ns, resource, dimension, name) == ns + "|" + resource + "|" + dimension + "|" + name
  {
  }

  lemma NewTargetRegisters(env: Env, req: Request, s: State)
    requires req.Register?
    ensures var key := TargetKey(req.ns, req.resource, req.dimension);
            Registers(env, req, s.targets, s.targets[key := NewTarget(env, req, Lookup(s.targets, key))])
  {
    hide TargetKey;
    KeysAreJoined(req.ns, req.resource, req.dimension, "");
  }

  lemma NewPolicyPuts(env: Env, req: Request, s: State)
    requires req.PutPolicy?
    ensures var key := ItemKey(req.ns, req.resource, req.dimension, req.name);
            var p := NewPolicy(env, req, DefaultString(req.policyType, "StepScaling"), Lookup(s.policies, key));
            PutsPolicy(env, req, s.policies, s.policies[key := p], PolicyStored(p.arn))
  {
    hide ItemKey;
    KeysAreJoined(req.ns, req.resource, req.dimension, req.name);
  }

  lemma NewActionPuts(env: Env, req: Request, s: State)
    requires req.PutAction?
    ensures var key := ItemKey(req.ns, req.resource, req.dimension, req.name);
            PutsAction(env, req, s.actions, s.actions[key := NewAction(env, req, Lookup(s.actions, key))])
  {
    hide ItemKey;
    KeysAreJoined(req.ns, req.resource, req.dimension, req.name);
  }

  lemma UntaggedRetags(tags: map<string, map<string, string>>, arn: string, keys: set<string>)
    ensures var after := Untagged(tags, arn, keys);
            Retags(tags, after, arn, map[], keys) && (arn in after ==> after[arn] != map[])
  {
    if arn in tags && tags[arn] - keys == map[] {
      assert forall n :: n in tags[arn] && n !in keys ==> n in tags[arn] - keys;
    }
  }

  ghost predicate EffectIsRight(env: Env, req: Request, s: State) {
    var e := EffectOf(env, s, req);
    Obeys(env, req, s, if e.Answer? then s else e.state, e.outcome)
  }

  lemma PutsAreRight(env: Env, req: Request, s: State)
    requires req.Register? || req.PutPolicy? || req.PutAction? || req.TagResource?
    ensures EffectIsRight(env, req, s)
  {
    hide NewTarget, NewPolicy, NewAction, Registers, PutsPolicy, PutsAction, TargetKey, ItemKey;
    if req.Register? { NewTargetRegisters(env, req, s); }
    if req.PutPolicy? { NewPolicyPuts(env, req, s); }
    if req.PutAction? { NewActionPuts(env, req, s); }
  }

  lemma DeletesAreRight(env: Env, req: Request, s: State)
    requires req.Deregister? || req.DeletePolicy? || req.DeleteAction? || req.UntagResource?
    ensures EffectIsRight(env, req, s)
  {
    hide Retags, Untagged, TargetKey, ItemKey;
    if req.Deregister? { KeysAreJoined(req.ns, req.resource, req.dimension, ""); }
    if req.DeletePolicy? { KeysAreJoined(req.ns, req.resource, req.dimension, req.name); }
    if req.DeleteAction? { KeysAreJoined(req.ns, req.resource, req.dimension, req.name); }
    if req.UntagResource? { UntaggedRetags(s.tags, req.arn, req.keys); }
  }

  lemma FindsAreRight(env: Env, req: Request, s: State)
    requires IsDescribe(req)
    ensures EffectIsRight(env, req, s)
  {
  }

  /** What the handlers' common specification says is what each request is to do. */
  lemma EffectObeys(env: Env, req: Request, s: State)
    ensures EffectIsRight(env, req, s)
  {
    if req.Register? || req.PutPolicy? || req.PutAction? || req.TagResource? {
      PutsAreRight(env, req, s);
    } else if req.Deregister? || req.DeletePolicy? || req.DeleteAction? || req.UntagResource? {
      DeletesAreRight(env, req, s);
    } else if IsDescribe(req) {
      FindsAreRight(env, req, s);
    }
  }

  // --- the server ---

  class Server {
    const hasStorage: bool
    /** `load_err`: the file was there and could not be read. */
    const loadFailed: bool
    var targets: map<string, Target>
    var policies: map<string, Policy>
    var actions: map<string, Action>
    var tags: map<string, map<string, string>>
    /** `state.json`, once it has been written. */
    var disk: Option<State>

    ghost function Memory(): State
      reads this
    {
      State(targets, policies, actions, tags)
    }

    /** What a server started now would load. */
    ghost function Persisted(): State
      reads this
    {
      if disk.Some? then disk.value else EMPTY
    }

    /** With a storage path, memory and file hold the same state, unless the file could not be read. */
    ghost predicate InSync()
      reads this
    {
      hasStorage && !loadFailed ==> Memory() == Persisted()
    }

    /** `new`, on what a former server left; `readOk` says whether the file can be read and decoded. */
    constructor (hasStorage: bool, disk: Option<State>, readOk: bool)
      ensures this.hasStorage == hasStorage && this.disk == disk && loadFailed == (hasStorage && !readOk)
      ensures Memory() == if hasStorage && readOk then Persisted() else EMPTY
      ensures InSync()
    {
      this.hasStorage := hasStorage;
      this.loadFailed := hasStorage && !readOk;
      this.disk := disk;
      var loaded := if hasStorage && readOk && disk.Some? then disk.value else EMPTY;
      targets, policies, actions, tags := loaded.targets, loaded.policies, loaded.actions, loaded.tags;
    }

    /** `persist`; `writeOk` says whether the file system lets the new file be written and renamed. */
    method Persist(writeOk: bool) returns (ok: bool)
      modifies this`disk
      ensures ok == (!hasStorage || writeOk)
      ensures disk == if hasStorage && writeOk then Some(Memory()) else old(disk)
    {
      if !hasStorage { return true; }
      if !writeOk { return false; }
      disk := Some(State(targets, policies, actions, tags));
      return true;
    }

    /** The handler's contract: the effect of the request if it could be stored, nothing otherwise. */
    twostate predicate Did(env: Env, req: Request, writeOk: bool, r: Outcome)
      reads this
    {
      var e := EffectOf(env, old(Memory()), req);
      if e.Answer? then r == e.outcome && Memory() == old(Memory()) && disk == old(disk)
      else if hasStorage && !writeOk then r == PersistFailed && Memory() == old(Memory()) && disk == old(disk)
      else r == e.outcome && Memory() == e.state && disk == if hasStorage then Some(e.state) else old(disk)
    }

    /** The request is obeyed, in memory and in the file; or, if it would have changed something that cannot be
        stored, it is refused and nothing is different. */
    twostate predicate Serves(env: Env, req: Request, writeOk: bool, r: Outcome)
      reads this
    {
      || (Obeys(env, req, old(Memory()), Memory(), r) && (disk == old(disk) || disk == Some(Memory())))
      || (hasStorage && !writeOk && r == PersistFailed && Memory() == old(Memory()) && disk == old(disk))
    }

    /** `register_scalable_target`. */
    method RegisterTarget(env: Env, req: Request, writeOk: bool) returns (r: Outcome)
      requires req.Register?
      modifies this
      ensures Did(env, req, writeOk, r)
    {
      hide NewTarget, Findings;
      if !NamespaceOk(req.ns) || req.resource == "" || req.dimension == "" { return Invalid; }
      var key := TargetKey(req.ns, req.resource, req.dimension);
      var previous := Lookup(targets, key);
      targets := targets[key := NewTarget(env, req, previous)];
      var ok := Persist(writeOk);
      if !ok {
        RestoreIsExact(old(targets), targets, key);
        targets := RestoreEntry(targets, key, previous);
        return PersistFailed;
      }
      return Done;
    }

    /** `deregister_scalable_target`: the target, and everything whose key continues the target's. */
    method DeregisterTarget(env: Env, req: Request, writeOk: bool) returns (r: Outcome)
      requires req.Deregister?
      modifies this
      ensures Did(env, req, writeOk, r)
    {
      DeregisterEffect(env, Memory(), req);
      hide Without, TargetKey, Extended, EffectOf, RestoreEntry;
      if !NamespaceOk(req.ns) || req.resource == "" || req.dimension == "" { return Invalid; }
      var key := TargetKey(req.ns, req.resource, req.dimension);
      if key !in targets { return NotFound; }
      ghost var before := Memory();
      var removedTarget := targets[key];
      targets := targets - {key};
      var removedPolicies, removedActions;
      policies, removedPolicies := DrainMatching(policies, key + "|");
      actions, removedActions := DrainMatching(actions, key + "|");
      assert Memory() == EffectOf(env, before, req).state;
      var ok := Persist(writeOk);
      if !ok {
        PutBack(before.targets, key);
        targets := targets[key := removedTarget];
        policies := Extend(policies, removedPolicies);
        actions := Extend(actions, removedActions);
        assert Memory() == before;
        return PersistFailed;
      }
      return Done;
    }

    /** `put_scaling_policy`. */
    method PutScalingPolicy(env: Env, req: Request, writeOk: bool) returns (r: Outcome)
      requires req.PutPolicy?
      modifies this
      ensures Did(env, req, writeOk, r)
    {
      hide NewPolicy, Findings;
      var kind := DefaultString(req.policyType, "StepScaling");
      if !NamespaceOk(req.ns) || req.name == "" || req.resource == "" || req.dimension == "" { return Invalid; }
      if kind != "StepScaling" && kind != "TargetTrackingScaling" { return Invalid; }
      var key := ItemKey(req.ns, req.resource, req.dimension, req.name);
      var previous := Lookup(policies, key);
      var policy := NewPolicy(env, req, kind, previous);
      policies := policies[key := policy];
      var ok := Persist(writeOk);
      if !ok {
        RestoreIsExact(old(policies), policies, key);
        policies := RestoreEntry(policies, key, previous);
        return PersistFailed;
      }
      return PolicyStored(policy.arn);
    }

    /** `delete_scaling_policy`. */
    method DeleteScalingPolicy(env: Env, req: Request, writeOk: bool) returns (r: Outcome)
      requires req.DeletePolicy?
      modifies this
      ensures Did(env, req, writeOk, r)
    {
      if !NamespaceOk(req.ns) || req.name == "" || req.resource == "" || req.dimension == "" { return Invalid; }
      var key := ItemKey(req.ns, req.resource, req.dimension, req.name);
      if key !in policies { return NotFound; }
      var removed := policies[key];
      policies := policies - {key};
      var ok := Persist(writeOk);
      if !ok {
        policies := policies[key := removed];
        assert policies == old(policies);
        return PersistFailed;
      }
      return Done;
    }

    /** `put_scheduled_action`. */
    method PutScheduledAction(env: Env, req: Request, writeOk: bool) returns (r: Outcome)
      requires req.PutAction?
      modifies this
      ensures Did(env, req, writeOk, r)
    {
      hide NewAction, Findings;
      if !NamespaceOk(req.ns) || req.name == "" || req.resource == "" || req.dimension == "" { return Invalid; }
      var key := ItemKey(req.ns, req.resource, req.dimension, req.name);
      var previous := Lookup(actions, key);
      actions := actions[key := NewAction(env, req, previous)];
      var ok := Persist(writeOk);
      if !ok {
        RestoreIsExact(old(actions), actions, key);
        actions := RestoreEntry(actions, key, previous);
        return PersistFailed;
      }
      return Done;
    }

    /** `delete_scheduled_action`. */
    method DeleteScheduledAction(env: Env, req: Request, writeOk: bool) returns (r: Outcome)
      requires req.DeleteAction?
      modifies this
      ensures Did(env, req, writeOk, r)
    {
      if !NamespaceOk(req.ns) || req.name == "" || req.resource == "" || req.dimension == "" { return Invalid; }
      var key := ItemKey(req.ns, req.resource, req.dimension, req.name);
      if key !in actions { return NotFound; }
      var removed := actions[key];
      actions := actions - {key};
      var ok := Persist(writeOk);
      if !ok {
        actions := actions[key := removed];
        assert actions == old(actions);
        return PersistFailed;
      }
      return Done;
    }

    /** `tag_resource`. */
    method AddTags(env: Env, req: Request, writeOk: bool) returns (r: Outcome)
      requires req.TagResource?
      modifies this
      ensures Did(env, req, writeOk, r)
    {
      if req.arn == "" { return Invalid; }
      var previousBucket := Lookup(tags, req.arn);
      var bucket := if req.arn in tags then tags[req.arn] else map[];
      tags := tags[req.arn := bucket + req.added];
      var ok := Persist(writeOk);
      if !ok {
        RestoreIsExact(old(tags), tags, req.arn);
        tags := RestoreEntry(tags, req.arn, previousBucket);
        return PersistFailed;
      }
      return Done;
    }

    /** `untag_resource`: a bucket that becomes empty goes away. */
    method RemoveTags(env: Env, req: Request, writeOk: bool) returns (r: Outcome)
      requires req.UntagResource?
      modifies this
      ensures Did(env, req, writeOk, r)
    {
      if req.arn == "" { return Invalid; }
      var previousBucket := Lookup(tags, req.arn);
      if req.arn in tags {
        var bucket := tags[req.arn] - req.keys;
        tags := tags[req.arn := bucket];
        if bucket == map[] {
          tags := tags - {req.arn};
          assert tags == old(tags) - {req.arn};
        }
      }
      var ok := Persist(writeOk);
      if !ok {
        RestoreIsExact(old(tags), tags, req.arn);
        tags := RestoreEntry(tags, req.arn, previousBucket);
        return PersistFailed;
      }
      return Done;
    }

    /** `describe_scalable_targets`: a loop over the values with the tests of its filter. */
    method FindTargets(req: Request) returns (r: Outcome)
      requires req.DescribeTargets?
      ensures r == if !NamespaceOk(req.ns) then Invalid
                   else Targets(Chosen(targets, TargetFilter(req.ns, req.resources, req.dimension)))
    {
      if !NamespaceOk(req.ns) { return Invalid; }
      ghost var passes := TargetFilter(req.ns, req.resources, req.dimension);
      var (left, results) := (targets.Keys, map[]);
      while left != {}
        invariant left <= targets.Keys
        invariant forall k :: k in results <==> k in targets && k !in left && passes(targets[k])
        invariant forall k :: k in results ==> results[k] == targets[k]
        decreases left
      {
        var k :| k in left;
        var target := targets[k];
        left := left - {k};
        if target.ns != req.ns { continue; }
        if req.resources != {} && target.resource !in req.resources { continue; }
        if req.dimension != "" && target.dimension != req.dimension { continue; }
        results := results[k := target];
      }
      ChosenIs(targets, passes, results);
      return Targets(results);
    }

    /** `describe_scaling_policies`. */
    method FindPolicies(req: Request) returns (r: Outcome)
      requires req.DescribePolicies?
      ensures r == if !NamespaceOk(req.ns) then Invalid
                   else Policies(Chosen(policies, PolicyFilter(req.ns, req.resource, req.dimension, req.names)))
    {
      if !NamespaceOk(req.ns) { return Invalid; }
      ghost var passes := PolicyFilter(req.ns, req.resource, req.dimension, req.names);
      var (left, results) := (policies.Keys, map[]);
      while left != {}
        invariant left <= policies.Keys
        invariant forall k :: k in results <==> k in policies && k !in left && passes(policies[k])
        invariant forall k :: k in results ==> results[k] == policies[k]
        decreases left
      {
        var k :| k in left;
        var policy := policies[k];
        left := left - {k};
        if policy.ns != req.ns { continue; }
        if req.resource != "" && policy.resource != req.resource { continue; }
        if req.dimension != "" && policy.dimension != req.dimension { continue; }
        if req.names != {} && policy.name !in req.names { continue; }
        results := results[k := policy];
      }
      ChosenIs(policies, passes, results);
      return Policies(results);
    }

    /** `describe_scheduled_actions`. */
    method FindActions(req: Request) returns (r: Outcome)
      requires req.DescribeActions?
      ensures r == if !NamespaceOk(req.ns) then Invalid
                   else Actions(Chosen(actions, ActionFilter(req.ns, req.resource, req.dimension, req.names)))
    {
      if !NamespaceOk(req.ns) { return Invalid; }
      ghost var passes := ActionFilter(req.ns, req.resource, req.dimension, req.names);
      var (left, results) := (actions.Keys, map[]);
      while left != {}
        invariant left <= actions.Keys
        invariant forall k :: k in results <==> k in actions && k !in left && passes(actions[k])
        invariant forall k :: k in results ==> results[k] == actions[k]
        decreases left
      {
        var k :| k in left;
        var action := actions[k];
        left := left - {k};
        if action.ns != req.ns { continue; }
        if req.resource != "" && action.resource != req.resource { continue; }
        if req.dimension != "" && action.dimension != req.dimension { continue; }
        if req.names != {} && action.name !in req.names { continue; }
        results := results[k := action];
      }
      ChosenIs(actions, passes, results);
      return Actions(results);
    }

    /** `dispatch`. */
    method Dispatch(env: Env, req: Request, writeOk: bool) returns (r: Outcome)
      modifies this
      ensures Did(env, req, writeOk, r)
      ensures Serves(env, req, writeOk, r)
      ensures old(InSync()) ==> InSync()
    {
      hide NewTarget, NewPolicy, NewAction, Obeys, TargetFilter, PolicyFilter, ActionFilter, Chosen, Untagged;
      EffectObeys(env, req, Memory());
      match req
      case Register(_, _, _, _, _, _, _) => r := RegisterTarget(env, req, writeOk);
      case Deregister(_, _, _) => r := DeregisterTarget(env, req, writeOk);
      case PutPolicy(_, _, _, _, _, _, _) => r := PutScalingPolicy(env, req, writeOk);
      case DeletePolicy(_, _, _, _) => r := DeleteScalingPolicy(env, req, writeOk);
      case PutAction(_, _, _, _, _, _, _, _, _) => r := PutScheduledAction(env, req, writeOk);
      case DeleteAction(_, _, _, _) => r := DeleteScheduledAction(env, req, writeOk);
      case TagResource(_, _) => r := AddTags(env, req, writeOk);
      case UntagResource(_, _) => r := RemoveTags(env, req, writeOk);
      case DescribeTargets(_, _, _) => r := FindTargets(req);
      case DescribePolicies(_, _, _, _) => r := FindPolicies(req);
      case DescribeActions(_, _, _, _) => r := FindActions(req);
      case DescribeActivities(ns) => r := if NamespaceOk(ns) then Done else Invalid;
      case ListTags(arn) =>
        r := if arn == "" then Invalid else Tags(if arn in tags then tags[arn] else map[]);
      case Undecodable => r := NotJson;
      case UnknownOperation => r := Unknown;
    }

    /** `process`: nothing is dispatched by a server that could not load its file. */
    method Process(env: Env, req: Request, writeOk: bool) returns (r: Outcome)
      modifies this
      ensures if loadFailed then r == LoadFailed && Memory() == old(Memory()) && disk == old(disk)
              else Did(env, req, writeOk, r) && Serves(env, req, writeOk, r)
      ensures old(InSync()) ==> InSync()
    {
      if loadFailed { return LoadFailed; }
      r := Dispatch(env, req, writeOk);
    }
  }

  /** `restore_entry`. */
  function RestoreEntry<T>(m: map<string, T>, key: string, previous: Option<T>): map<string, T> {
    if previous.Some? then m[key := previous.value] else m - {key}
  }

  /** It undoes any change that was made at that key only. */
  lemma RestoreIsExact<T>(was: map<string, T>, m: map<string, T>, key: string)
    requires forall k :: k != key ==> (k in was <==> k in m) && (k in was ==> was[k] == m[k])
    ensures RestoreEntry(m, key, Lookup(was, key)) == was
  {
  }

  lemma PutBack<T>(m: map<string, T>, key: string)
    requires key in m
    ensures (m - {key})[key := m[key]] == m
  {
  }

  /** `drain_matching`: takes out every entry whose key starts with `prefix`. */
  method DrainMatching<T>(m: map<string, T>, prefix: string) returns (kept: map<string, T>, removed: seq<(string, T)>)
    ensures kept == Without(m, prefix)
    ensures Extended(kept, removed) == m
  {
    var keys := set k | k in m && prefix <= k;
    kept, removed := m, [];
    while keys != {}
      invariant forall k :: k in keys ==> k in m && prefix <= k
      invariant kept == map k | k in m && (!(prefix <= k) || k in keys) :: m[k]
      invariant Extended(kept, removed) == m
      decreases keys
    {
      var k :| k in keys;
      ExtendedWithout(kept, removed, k, kept[k]);
      removed := [(k, kept[k])] + removed;
      kept := kept - {k};
      keys := keys - {k};
    }
  }

  /** `extend` with a list of entries. */
  function Extended<T>(m: map<string, T>, entries: seq<(string, T)>): map<string, T>
    decreases entries
  {
    if entries == [] then m else Extended(m[entries[0].0 := entries[0].1], entries[1..])
  }

  lemma ExtendedWithout<T>(m: map<string, T>, entries: seq<(string, T)>, k: string, v: T)
    requires k in m && m[k] == v
    ensures Extended(m - {k}, [(k, v)] + entries) == Extended(m, entries)
  {
    assert (m - {k})[k := v] == m;
    assert ([(k, v)] + entries)[1..] == entries;
  }

  method Extend<T>(m: map<string, T>, entries: seq<(string, T)>) returns (r: map<string, T>)
    ensures r == Extended(m, entries)
  {
    r := m;
    for i := 0 to |entries|
      invariant Extended(r, entries[i..]) == Extended(m, entries)
    {
      assert entries[i..][1..] == entries[i + 1..];
      r := r[entries[i].0 := entries[i].1];
    }
  }
}
