/**
 * The session object: the logged-in user's name, the names of the teams the
 * user belongs to, and the team objects spawned in this session, keyed by
 * team name. Answers of the Keybase service (team creation, deletion,
 * membership listings, the user's team list) are parameters.
 */
class Keybase {
  const username: string
  var teams: seq<string>
  var activeTeams: map<string, Team>

  /** Each spawned team object is registered under one name only. */
  predicate Valid()
    reads this
  {
    Registry.Injective(activeTeams)
  }

  /** `__init__`: the user's name and team list come from the service; nothing is spawned yet. */
  constructor(username: string, memberships: seq<string>)
    ensures this.username == username && teams == memberships && activeTeams == map[]
    ensures Valid()
  {
    this.username := username;
    teams := memberships;
    activeTeams := map[];
  }

  /** update_team_list: the team list is replaced by the service's current answer. */
  method UpdateTeamList(memberships: seq<string>)
    modifies this`teams
    ensures teams == memberships
  {
    teams := memberships;
  }

  /**
   * create_team: on an error response nothing changes. Otherwise the name
   * joins the sorted team list and a team object is spawned; if its first
   * update fails no object is returned, and the list keeps the new name.
   */
  method CreateTeam(name: string, created: bool, listing: Wrappers.Option<Membership.Memberships>)
    returns (t: Wrappers.Option<Team>)
    requires Valid()
    modifies this
    ensures Valid()
    ensures teams == if created then Lists.Sort(old(teams) + [name]) else old(teams)
    ensures t.Some? <==> created && listing.Some?
    ensures t.Some? ==>
      && fresh(t.value) && t.value.name == name && t.value.keybase == this
      && t.value.byRole == Membership.Classify(listing.value)
      && t.value.role == Membership.OwnRole(listing.value, username, Wrappers.None)
      && activeTeams == old(activeTeams)[name := t.value]
    ensures t.None? ==> activeTeams == old(activeTeams)
  {
    if !created {
      return Wrappers.None;
    }
    teams := Lists.Sort(teams + [name]);
    t := OpenTeam(name, listing);
  }

  /**
   * delete_team: a name with a character outside letters, digits, `_`, `-`
   * and `.`, or one that is not in the team list, is refused without a call.
   * Otherwise every listed team starting with the name is deleted, longest
   * name first, stopping at the first refusal; each deleted team leaves the
   * team list and the registry. `answers` holds the service's answer to each
   * delete call of that order.
   */
  method DeleteTeam(name: string, answers: seq<bool>) returns (ok: bool)
    requires Valid()
    requires |answers| == |Registry.DeletionOrder(teams, name)|
    modifies this
    ensures Valid()
    ensures !Names.AllowedName(name) || name !in old(teams) ==>
      (!ok && teams == old(teams) && activeTeams == old(activeTeams))
    ensures Names.AllowedName(name) && name in old(teams) ==>
      (var order := Registry.DeletionOrder(old(teams), name);
       var k := Registry.Accepted(answers);
       && (ok <==> k == |order|)
       && teams == Lists.RemoveEach(old(teams), order[..k])
       && activeTeams == old(activeTeams) - Registry.FirstNames(order, k))
  {
    if !Names.AllowedName(name) {
      return false;
    }
    var candidates := Registry.Candidates(teams, name);
    if name !in candidates {
      return false;
    }
    teams, activeTeams, ok := DeleteInOrder(teams, activeTeams, name, answers);
  }

  /**
   * The deletion loop of delete_team, over the list and registry it is given:
   * one delete call per team of the order until the first refusal; each
   * accepted call drops the team's list entry and its registry entry.
   */
  method DeleteInOrder(list0: seq<string>, registry0: map<string, Team>, name: string, answers: seq<bool>)
    returns (list: seq<string>, registry: map<string, Team>, ok: bool)
    requires Registry.Injective(registry0)
    requires |answers| == |Registry.DeletionOrder(list0, name)|
    ensures var order := Registry.DeletionOrder(list0, name);
      var k := Registry.Accepted(answers);
      && (ok <==> k == |order|)
      && list == Lists.RemoveEach(list0, order[..k])
      && registry == registry0 - Registry.FirstNames(order, k)
      && Registry.Injective(registry)
  {
    var order := Registry.DeletionOrder(list0, name);
    ghost var k := Registry.Accepted(answers);
    list, registry := list0, registry0;
    var i := 0;
    // A refused delete call ends the loop and the method.
    while i < |order| && answers[i]
      invariant 0 <= i <= k
      invariant list == Lists.RemoveEach(list0, order[..i])
      invariant registry == registry0 - Registry.FirstNames(order, i)
      invariant Registry.Injective(registry)
    {
      var team := order[i];
      Registry.ListDeletionStep(list0, name, i, list);
      Registry.RegistryDeletionStep(registry0, order, i, registry);
      list := Lists.RemoveFirst(list, team);
      // Popping the key when present; dropping an absent key changes nothing.
      registry := registry - {team};
      Registry.AcceptedStep(answers, i);
      i := i + 1;
    }
    Registry.AcceptedExit(answers, i);
    return list, registry, i == |order|;
  }

  /** team(): spawns a team object and registers it under its name, provided its first update succeeds. */
  method OpenTeam(name: string, listing: Wrappers.Option<Membership.Memberships>) returns (t: Wrappers.Option<Team>)
    requires Valid()
    modifies this`activeTeams
    ensures Valid()
    ensures t.Some? <==> listing.Some?
    ensures t.Some? ==>
      && fresh(t.value) && t.value.name == name && t.value.keybase == this
      && t.value.byRole == Membership.Classify(listing.value)
      && t.value.role == Membership.OwnRole(listing.value, username, Wrappers.None)
      && activeTeams == old(activeTeams)[name := t.value]
    ensures t.None? ==> activeTeams == old(activeTeams)
  {
    var team := new Team(name, this);
    var ok := team.Update(listing);
    if !ok {
      return Wrappers.None;
    }
    Registry.PutNewInjective(activeTeams, name, team);
    activeTeams := activeTeams[name := team];
    t := Wrappers.Some(team);
  }

  /**
   * update_team_name: rewrites the team list entry by entry, moves the old
   * name's registry entry to the new name, then tells every registered team
   * whose key (after that move) contains the old name to rename its parent,
   * and re-keys those teams.
   * The answer is whether the new name is now listed.
   */
  method UpdateTeamName(oldName: string, newName: string) returns (ok: bool)
    requires Valid()
    modifies this, activeTeams.Values`name
    ensures Valid()
    ensures activeTeams.Values <= old(activeTeams.Values)
    ensures teams == Registry.RenameTeams(old(teams), oldName, newName)
    ensures ok <==> newName in teams
    ensures var moved := Registry.MoveKey(old(activeTeams), oldName, newName);
      var touched := Registry.TeamsAt(moved, Registry.Affected(moved, oldName));
      forall t :: t in old(activeTeams.Values) ==>
        t.name == if t in touched then Names.Replace(old(t.name), oldName, newName) else old(t.name)
    ensures var moved := Registry.MoveKey(old(activeTeams), oldName, newName);
      Registry.RekeyClean(moved, oldName, newName) ==>
        Registry.RekeyedUpTo(moved, oldName, newName, Registry.Affected(moved, oldName), activeTeams)
  {
    var list := Registry.RenameList(teams, oldName, newName);

    // The old name's own registry entry moves to the new name.
    var moved := activeTeams;
    if oldName in moved {
      Registry.PopPutInjective(moved, oldName, newName);
      moved := Registry.PopPut(moved, oldName, newName);
    }
    assert moved == Registry.MoveKey(old(activeTeams), oldName, newName);
    assert moved.Values <= old(activeTeams.Values);

    var affected := Registry.Affected(moved, oldName);
    RenameParents(moved, affected, oldName, newName);
    var registry := Registry.Rekey(moved, oldName, newName);

    teams := list;
    activeTeams := registry;
    return newName in teams;
  }

  /** The parent-update loop of update_team_name: each team registered under one of the keys renames its parent once. */
  method RenameParents(registry: map<string, Team>, keys: set<string>, oldName: string, newName: string)
    requires Registry.Injective(registry)
    modifies Registry.TeamsAt(registry, keys)`name
    ensures forall t :: t in Registry.TeamsAt(registry, keys) ==> t.name == Names.Replace(old(t.name), oldName, newName)
  {
    var todo := keys;
    ghost var done: set<string> := {};
    while todo != {}
      invariant todo <= keys && done == keys - todo
      invariant forall t :: t in Registry.TeamsAt(registry, done) ==> t.name == Names.Replace(old(t.name), oldName, newName)
      invariant forall t :: t in Registry.TeamsAt(registry, keys) && t !in Registry.TeamsAt(registry, done) ==> t.name == old(t.name)
      decreases |todo|
    {
      var key :| key in todo;
      if key in registry {
        var team := registry[key];
        Registry.TeamsAtStep(registry, done, key);
        team.UpdateParentTeamName(oldName, newName);
      }
      todo := todo - {key};
      done := done + {key};
    }
    assert done == keys;
  }
}
