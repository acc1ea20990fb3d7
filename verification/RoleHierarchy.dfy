/** Role hierarchy of `src/middleware/rbac.ts`: a memoised depth-first search that turns the
    declared implications into the set of effective roles of every role. */
module RoleHierarchy {
  import opened FiniteSets
  import opened Results
  import JsText

  // ---------------------------------------------------------------- configuration

  /** The value of one key of `roles.json`. */
  datatype Implications = NotAList | List(names: seq<string>)

  /** `Object.entries(config.roles)`, in order. */
  type RolesConfig = seq<(string, Implications)>

  datatype BuildError =
    | EmptyRoleName
    | MustListImplied(role: string)
    | UnknownRole(role: string, implied: string)
    | CyclicDefinition(path: seq<string>)

  function NormalizeRole(s: string): string {
    JsText.Lower(JsText.Trim(s))
  }

  function NormalizeRoleList(names: seq<string>): seq<string> {
    if names == [] then []
    else
      var role := NormalizeRole(names[0]);
      (if role == [] then [] else [role]) + NormalizeRoleList(names[1..])
  }

  function EntryError(entry: (string, Implications)): Option<BuildError> {
    var role := NormalizeRole(entry.0);
    if role == [] then Some(EmptyRoleName)
    else if entry.1.NotAList? then Some(MustListImplied(role))
    else None
  }

  ghost predicate HasEntryError(config: RolesConfig, e: BuildError) {
    exists i :: 0 <= i < |config| && EntryError(config[i]) == Some(e)
  }

  lemma EntryErrorKind(config: RolesConfig, e: BuildError)
    requires HasEntryError(config, e)
    ensures e.EmptyRoleName? || e.MustListImplied?
  {
  }

  predicate EntriesOk(config: RolesConfig) {
    forall i :: 0 <= i < |config| ==> EntryError(config[i]).None?
  }

  /** Declared role to the roles it implies directly; a later entry replaces an earlier one. */
  type Graph = map<string, seq<string>>

  function AddEntry(g: Graph, entry: (string, Implications)): Graph {
    match entry.1
    case List(names) => g[NormalizeRole(entry.0) := NormalizeRoleList(names)]
    case NotAList => g
  }

  /** The implications after reading the first `n` entries. */
  function GraphUpTo(config: RolesConfig, n: nat): Graph
    requires n <= |config|
  {
    if n == 0 then map[] else AddEntry(GraphUpTo(config, n - 1), config[n - 1])
  }

  /** `Map.set` keeps the position of a key that is already there and appends a new one. */
  function InsertKey(order: seq<string>, g: Graph, entry: (string, Implications)): seq<string> {
    var role := NormalizeRole(entry.0);
    if entry.1.NotAList? || role in g then order else order + [role]
  }

  function KeysUpTo(config: RolesConfig, n: nat): seq<string>
    requires n <= |config|
  {
    if n == 0 then []
    else InsertKey(KeysUpTo(config, n - 1), GraphUpTo(config, n - 1), config[n - 1])
  }

  lemma {:induction false} KeysAreKeys(config: RolesConfig, n: nat)
    requires n <= |config|
    ensures forall x :: x in KeysUpTo(config, n) <==> x in GraphUpTo(config, n)
  {
    if n > 0 {
      KeysAreKeys(config, n - 1);
    }
  }

  function GraphOf(config: RolesConfig): Graph {
    GraphUpTo(config, |config|)
  }

  // ---------------------------------------------------------------- reachability

  /** Every implied role is declared. */
  ghost predicate Closed(g: Graph) {
    forall r, c :: r in g && c in g[r] ==> c in g
  }

  /** A non-empty sequence of declared roles in which each one implies the next. */
  ghost predicate IsWalk(g: Graph, p: seq<string>) {
    && |p| > 0
    && (forall i :: 0 <= i < |p| ==> p[i] in g)
    && (forall i, j :: 0 <= i < j < |p| && j == i + 1 ==> p[j] in g[p[i]])
  }

  ghost predicate WalkFromTo(g: Graph, p: seq<string>, a: string, b: string) {
    IsWalk(g, p) && p[0] == a && p[|p| - 1] == b
  }

  /** `a` implies `b` in zero or more steps. */
  ghost predicate Reach(g: Graph, a: string, b: string) {
    exists p :: WalkFromTo(g, p, a, b)
  }

  ghost predicate Acyclic(g: Graph) {
    forall p :: IsWalk(g, p) && |p| > 1 ==> p[0] != p[|p| - 1]
  }

  /** A walk that comes back to a role it has already passed. */
  ghost predicate IsLasso(g: Graph, p: seq<string>) {
    IsWalk(g, p) && p[|p| - 1] in p[..|p| - 1]
  }

  lemma LassoIsCycle(g: Graph, p: seq<string>)
    requires IsLasso(g, p)
    ensures !Acyclic(g)
  {
    var i :| 0 <= i < |p| - 1 && p[i] == p[|p| - 1];
    var q := p[i..];
    forall j | 0 <= j < |q| - 1
      ensures q[j + 1] in g[q[j]]
    {
      assert q[j] == p[i + j] && q[j + 1] == p[i + j + 1];
    }
    assert IsWalk(g, q) && q[0] == q[|q| - 1];
  }

  lemma ReachTransitive(g: Graph, a: string, b: string, c: string)
    requires Reach(g, a, b) && Reach(g, b, c)
    ensures Reach(g, a, c)
  {
    var p :| WalkFromTo(g, p, a, b);
    var q :| WalkFromTo(g, q, b, c);
    Join(g, p, q);
    assert WalkFromTo(g, p + q[1..], a, c);
  }

  lemma Join(g: Graph, p: seq<string>, q: seq<string>)
    requires IsWalk(g, p) && IsWalk(g, q) && p[|p| - 1] == q[0]
    ensures IsWalk(g, p + q[1..])
    ensures (p + q[1..])[|p + q[1..]| - 1] == q[|q| - 1]
  {
    var r := p + q[1..];
    forall i | 0 <= i < |r| - 1
      ensures r[i + 1] in g[r[i]]
    {
      if i >= |p| - 1 {
        var j := i - (|p| - 1);
        assert r[i] == q[j] && r[i + 1] == q[j + 1];
      }
    }
  }

  /** Reachability unfolds at its first step, which is how the search computes it. */
  lemma ReachUnfold(g: Graph, a: string, b: string)
    requires a in g && Closed(g)
    ensures Reach(g, a, b) <==> a == b || exists c :: c in g[a] && Reach(g, c, b)
  {
    if Reach(g, a, b) && a != b {
      var p :| WalkFromTo(g, p, a, b);
      var q := p[1..];
      forall j | 0 <= j < |q| - 1
        ensures q[j + 1] in g[q[j]]
      {
        assert q[j] == p[j + 1] && q[j + 1] == p[j + 2];
      }
      assert p[0 + 1] in g[p[0]];
      assert WalkFromTo(g, q, p[1], b);
    }
    if a == b {
      assert WalkFromTo(g, [a], a, b);
    }
    if c :| c in g[a] && Reach(g, c, b) {
      assert WalkFromTo(g, [a, c], a, c);
      ReachTransitive(g, a, c, b);
    }
  }

  // ---------------------------------------------------------------- completion order

  /** Roles in an order in which everything a role implies comes before it. */
  ghost predicate Topological(g: Graph, order: seq<string>) {
    forall i, c :: 0 <= i < |order| && order[i] in g && c in g[order[i]] ==> c in order[..i]
  }

  /** Along a walk the completion position strictly falls, so no walk can close. */
  lemma {:induction false} WalkGoesBack(g: Graph, order: seq<string>, p: seq<string>, i: nat)
    requires Topological(g, order) && IsWalk(g, p)
    requires i < |order| && order[i] == p[0]
    ensures |p| > 1 ==> p[|p| - 1] in order[..i]
  {
    if |p| > 1 {
      assert p[0 + 1] in g[p[0]];
      var j :| 0 <= j < i && order[j] == p[1];
      var q := p[1..];
      forall k | 0 <= k < |q| - 1
        ensures q[k + 1] in g[q[k]]
      {
        assert q[k] == p[k + 1] && q[k + 1] == p[k + 2];
      }
      WalkGoesBack(g, order, q, j);
    }
  }

  lemma TopologicalIsAcyclic(g: Graph, order: seq<string>)
    requires Topological(g, order)
    requires forall r :: r in g ==> r in order
    ensures Acyclic(g)
  {
    forall p | IsWalk(g, p) && |p| > 1
      ensures p[0] != p[|p| - 1]
    {
      // the first position at which p[0] was completed
      var i := FirstIndex(order, p[0]);
      WalkGoesBack(g, order, p, i);
    }
  }

  lemma {:induction false} FirstIndex(s: seq<string>, x: string) returns (i: nat)
    requires x in s
    ensures i < |s| && s[i] == x && x !in s[..i]
  {
    i := 0;
    while s[i] != x
      invariant i < |s| && x in s[i..] && x !in s[..i]
      decreases |s| - i
    {
      i := i + 1;
    }
  }

  // ---------------------------------------------------------------- the search

  /** The closure state of `buildRoleHierarchy`. */
  class Resolver {
    const g: Graph
    var visiting: set<string>
    var visited: set<string>
    var effective: map<string, set<string>>
    ghost var completed: seq<string>

    ghost predicate Valid()
      reads this
    {
      && Closed(g)
      && visiting <= g.Keys && visited <= g.Keys && visiting !! visited
      && effective.Keys == visited
      && (forall r :: r in visited <==> r in completed)
      && Topological(g, completed)
      && (forall r, b :: r in effective ==> (b in effective[r] <==> Reach(g, r, b)))
    }

    constructor (g: Graph)
      requires Closed(g)
      ensures Valid() && this.g == g && visiting == {} && visited == {}
    {
      this.g := g;
      visiting := {};
      visited := {};
      effective := map[];
      completed := [];
    }

    /** `resolve(role, path)`; the measure is the number of roles not yet on the path. */
    method Resolve(role: string, path: seq<string>) returns (r: Result<set<string>, BuildError>)
      requires Valid() && role in g && IsWalk(g, path + [role]) && OnPath(visiting, path)
      modifies this
      ensures Valid()
      ensures r.Ok? ==> && visiting == old(visiting) && old(visited) <= visited
                        && role in effective && r.value == effective[role]
      ensures r.Err? ==> r.error.CyclicDefinition? && IsLasso(g, r.error.path)
      decreases |g.Keys - visiting|, 0
    {
      if role in effective {
        return Ok(effective[role]);
      }
      PathGrows(g, visiting, path, role);
      if role in visiting {
        return Err(CyclicDefinition(path + [role]));
      }
      visiting := visiting + {role};
      r := ResolveImplied(role, path + [role]);
      if r.Ok? {
        Complete(role, r.value);
      }
    }

    /** The loop of `resolve` over the roles that `role`, now last on the path, implies. */
    method ResolveImplied(role: string, path: seq<string>) returns (r: Result<set<string>, BuildError>)
      requires Valid() && IsWalk(g, path) && path[|path| - 1] == role && OnPath(visiting, path)
      modifies this
      ensures Valid()
      ensures r.Ok? ==> && visiting == old(visiting) && old(visited) <= visited
                        && (forall c :: c in g[role] ==> c in visited)
                        && (forall b :: b in r.value <==> Reach(g, role, b))
      ensures r.Err? ==> r.error.CyclicDefinition? && IsLasso(g, r.error.path)
      decreases |g.Keys - visiting|, 1
    {
      var roles := {role};
      for i := 0 to |g[role]|
        invariant Valid() && visiting == old(visiting) && old(visited) <= visited
        invariant forall k :: 0 <= k < i ==> g[role][k] in visited
        invariant Gathered(g, role, g[role], i, roles)
      {
        WalkGrows(g, path, g[role][i]);
        var sub := Resolve(g[role][i], path);
        if sub.Err? {
          return sub;
        }
        GatherOne(g, role, g[role], i, roles, sub.value);
        roles := roles + sub.value;
      }
      GatheredIsReach(g, role, roles);
      return Ok(roles);
    }

    /** The memo write at the end of `resolve`. */
    method Complete(role: string, roles: set<string>)
      requires Valid() && role in visiting
      requires forall c :: c in g[role] ==> c in visited
      requires forall b :: b in roles <==> Reach(g, role, b)
      modifies this
      ensures Valid()
      ensures visiting == old(visiting) - {role} && visited == old(visited) + {role}
      ensures effective == old(effective)[role := roles]
    {
      visiting := visiting - {role};
      visited := visited + {role};
      effective := effective[role := roles];
      TopologicalGrows(g, completed, role);
      completed := completed + [role];
    }
  }

  /** One step down the search: a role already on the path closes a cycle, any other brings the
      search closer to its end. */
  lemma PathGrows(g: Graph, visiting: set<string>, path: seq<string>, role: string)
    requires role in g && IsWalk(g, path + [role]) && OnPath(visiting, path)
    ensures role in visiting ==> IsLasso(g, path + [role])
    ensures role !in visiting ==>
              OnPath(visiting + {role}, path + [role]) && |g.Keys - (visiting + {role})| < |g.Keys - visiting|
  {
    assert (path + [role])[..|path|] == path;
    if role !in visiting {
      assert role in g.Keys - visiting;
      SubsetSize(g.Keys - (visiting + {role}), g.Keys - visiting);
    }
  }

  ghost predicate OnPath(visiting: set<string>, path: seq<string>) {
    forall x :: x in visiting <==> x in path
  }

  /** `roles` is `role` together with everything the first `n` listed roles reach. */
  ghost predicate Gathered(g: Graph, role: string, listed: seq<string>, n: nat, roles: set<string>)
    requires n <= |listed|
  {
    forall b :: b in roles <==> b == role || ReachedFrom(g, listed, n, b)
  }

  ghost predicate ReachedFrom(g: Graph, starts: seq<string>, n: nat, b: string)
    requires n <= |starts|
  {
    exists k :: 0 <= k < n && Reach(g, starts[k], b)
  }

  lemma GatherOne(g: Graph, role: string, listed: seq<string>, n: nat, roles: set<string>, more: set<string>)
    requires n < |listed| && Gathered(g, role, listed, n, roles)
    requires forall b :: b in more <==> Reach(g, listed[n], b)
    ensures Gathered(g, role, listed, n + 1, roles + more)
  {
    forall b
      ensures ReachedFrom(g, listed, n + 1, b) <==> ReachedFrom(g, listed, n, b) || Reach(g, listed[n], b)
    {
    }
  }

  lemma GatheredIsReach(g: Graph, role: string, roles: set<string>)
    requires role in g && Closed(g) && Gathered(g, role, g[role], |g[role]|, roles)
    ensures forall b :: b in roles <==> Reach(g, role, b)
  {
    forall b
      ensures b in roles <==> Reach(g, role, b)
    {
      ReachUnfold(g, role, b);
      if c :| c in g[role] && Reach(g, c, b) {
        var k :| 0 <= k < |g[role]| && g[role][k] == c;
        assert ReachedFrom(g, g[role], |g[role]|, b);
      }
    }
  }

  lemma WalkGrows(g: Graph, p: seq<string>, c: string)
    requires IsWalk(g, p) && Closed(g) && c in g[p[|p| - 1]]
    ensures IsWalk(g, p + [c])
  {
    var q := p + [c];
    forall i | 0 <= i < |q| - 1
      ensures q[i + 1] in g[q[i]]
    {
    }
  }

  lemma TopologicalGrows(g: Graph, order: seq<string>, role: string)
    requires Topological(g, order) && role in g
    requires forall c :: c in g[role] ==> c in order
    ensures Topological(g, order + [role])
  {
    var bigger := order + [role];
    forall i, c | 0 <= i < |bigger| && bigger[i] in g && c in g[bigger[i]]
      ensures c in bigger[..i]
    {
      assert bigger[..i] == order[..i];
    }
  }

  // ---------------------------------------------------------------- the whole build

  /** What `buildRoleHierarchy` returns. */
  datatype Hierarchy = Hierarchy(roles: set<string>, effective: map<string, set<string>>)

  /** The result maps every declared role to exactly the roles it reaches. */
  ghost predicate Describes(h: Hierarchy, g: Graph) {
    && h.roles == g.Keys && h.effective.Keys == g.Keys
    && forall r, b :: r in g ==> (b in h.effective[r] <==> Reach(g, r, b))
  }

  /** The error names something that is really wrong with the configuration. */
  ghost predicate Justified(e: BuildError, config: RolesConfig) {
    match e
    case EmptyRoleName => HasEntryError(config, e)
    case MustListImplied(_) => HasEntryError(config, e)
    case UnknownRole(r, c) => EntriesOk(config) && r in GraphOf(config) && c in GraphOf(config)[r] &&
        c !in GraphOf(config)
    case CyclicDefinition(p) => EntriesOk(config) && Closed(GraphOf(config)) && IsLasso(GraphOf(config), p)
  }

  /** The reading loop after `n` entries: it stops at the first bad one. */
  function ReadUpTo(config: RolesConfig, n: nat): Option<BuildError>
    requires n <= |config|
  {
    if n == 0 then None
    else if ReadUpTo(config, n - 1).Some? then ReadUpTo(config, n - 1)
    else EntryError(config[n - 1])
  }

  lemma {:induction false} ReadUpToStops(config: RolesConfig, n: nat)
    requires n <= |config|
    ensures ReadUpTo(config, n).None? <==> forall i :: 0 <= i < n ==> EntryError(config[i]).None?
    ensures ReadUpTo(config, n).Some? ==> HasEntryError(config, ReadUpTo(config, n).value)
  {
    if n > 0 {
      ReadUpToStops(config, n - 1);
    }
  }

  lemma {:induction false} ErrorStays(config: RolesConfig, i: nat, n: nat)
    requires i <= n <= |config| && ReadUpTo(config, i).Some?
    ensures ReadUpTo(config, n) == ReadUpTo(config, i)
  {
    if i < n {
      ErrorStays(config, i, n - 1);
    }
  }

  ghost predicate HasRead(config: RolesConfig, n: nat, g: Graph, order: seq<string>)
    requires n <= |config|
  {
    ReadUpTo(config, n).None? && g == GraphUpTo(config, n) && order == KeysUpTo(config, n)
  }

  lemma ReadOneMore(config: RolesConfig, n: nat, g: Graph, order: seq<string>)
    requires n < |config| && HasRead(config, n, g, order) && EntryError(config[n]).None?
    ensures HasRead(config, n + 1, AddEntry(g, config[n]), InsertKey(order, g, config[n]))
  {
  }

  /** Reads the entries in order into the implication map and its key order. */
  method ReadEntries(config: RolesConfig) returns (error: Option<BuildError>, g: Graph, order: seq<string>)
    ensures error == ReadUpTo(config, |config|)
    ensures error.None? ==> g == GraphOf(config) && order == KeysUpTo(config, |config|)
  {
    g, order := map[], [];
    for i := 0 to |config|
      invariant HasRead(config, i, g, order)
    {
      error := EntryError(config[i]);
      if error.Some? {
        ErrorStays(config, i + 1, |config|);
        return;
      }
      ReadOneMore(config, i, g, order);
      order, g := InsertKey(order, g, config[i]), AddEntry(g, config[i]);
    }
    error := None;
  }

  /** Looks for an implied role that was never declared. */
  method FindUndeclared(g: Graph, order: seq<string>) returns (e: Option<BuildError>)
    requires forall x :: x in order <==> x in g
    ensures e.None? <==> Closed(g)
    ensures e.Some? ==> && e.value.UnknownRole? && e.value.role in g
                        && e.value.implied in g[e.value.role] && e.value.implied !in g
  {
    for i := 0 to |order|
      invariant forall k, c :: 0 <= k < i && c in g[order[k]] ==> c in g
    {
      var implied := g[order[i]];
      for j := 0 to |implied|
        invariant forall k :: 0 <= k < j ==> implied[k] in g
      {
        if implied[j] !in g {
          return Some(UnknownRole(order[i], implied[j]));
        }
      }
    }
    return None;
  }

  /** Resolves every declared role in key order. */
  method ResolveAll(g: Graph, order: seq<string>) returns (r: Result<Hierarchy, BuildError>)
    requires Closed(g) && forall x :: x in order <==> x in g
    ensures r.Ok? <==> Acyclic(g)
    ensures r.Ok? ==> Describes(r.value, g)
    ensures r.Err? ==> r.error.CyclicDefinition? && IsLasso(g, r.error.path)
  {
    var resolver := new Resolver(g);
    for i := 0 to |order|
      invariant fresh(resolver) && resolver.Valid() && resolver.g == g && resolver.visiting == {}
      invariant forall k :: 0 <= k < i ==> order[k] in resolver.visited
    {
      if order[i] !in resolver.visited {
        assert [] + [order[i]] == [order[i]];
        var sub := resolver.Resolve(order[i], []);
        if sub.Err? {
          LassoIsCycle(g, sub.error.path);
          return Err(sub.error);
        }
      }
    }
    assert resolver.visited == g.Keys;
    TopologicalIsAcyclic(g, resolver.completed);
    return Ok(Hierarchy(g.Keys, resolver.effective));
  }

  /** The build succeeds exactly on closed acyclic configurations, and then computes the closure. */
  method BuildRoleHierarchy(config: RolesConfig) returns (r: Result<Hierarchy, BuildError>)
    ensures r.Ok? <==> EntriesOk(config) && Closed(GraphOf(config)) && Acyclic(GraphOf(config))
    ensures r.Ok? ==> Describes(r.value, GraphOf(config))
    ensures r.Err? ==> Justified(r.error, config)
  {
    var error, g, order := ReadEntries(config);
    ReadUpToStops(config, |config|);
    if error.Some? {
      EntryErrorKind(config, error.value);
      return Err(error.value);
    }
    KeysAreKeys(config, |config|);
    var undeclared := FindUndeclared(g, order);
    if undeclared.Some? {
      return Err(undeclared.value);
    }
    r := ResolveAll(g, order);
  }

  // ---------------------------------------------------------------- look-ups

  function GetEffectiveRoles(h: Hierarchy, role: string): set<string> {
    if role in h.effective then h.effective[role] else {}
  }

  predicate RoleSatisfies(h: Hierarchy, role: string, required: string) {
    required in GetEffectiveRoles(h, role)
  }

  /** On a built hierarchy `roleSatisfies` is a partial order on the declared roles:
      reflexive, transitive, and, because the graph is acyclic, antisymmetric. */
  lemma RoleSatisfiesIsPartialOrder(h: Hierarchy, g: Graph, a: string, b: string, c: string)
    requires Closed(g) && Acyclic(g) && Describes(h, g)
    ensures RoleSatisfies(h, a, a) <==> a in h.roles
    ensures RoleSatisfies(h, a, b) ==> a in h.roles && b in h.roles
    ensures RoleSatisfies(h, a, b) && RoleSatisfies(h, b, c) ==> RoleSatisfies(h, a, c)
    ensures RoleSatisfies(h, a, b) && RoleSatisfies(h, b, a) ==> a == b
  {
    if a in g {
      assert WalkFromTo(g, [a], a, a);
    }
    if RoleSatisfies(h, a, b) {
      var p :| WalkFromTo(g, p, a, b);
      if RoleSatisfies(h, b, c) {
        ReachTransitive(g, a, b, c);
      }
      if RoleSatisfies(h, b, a) && a != b {
        var q :| WalkFromTo(g, q, b, a);
        Join(g, p, q);
        assert false;
      }
    }
  }
}
