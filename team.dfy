/**
 * A Keybase team as seen from one session: its name, the session user's role
 * in it and its members by role. Every operation that talks to the team API
 * takes the API's answer as a parameter (`accepted`, or the membership
 * listing), standing for a response with or without an error.
 */
class Team {
  var name: string
  var role: Wrappers.Option<Membership.Role>
  var byRole: Membership.Roster
  const keybase: Keybase

  /** A team object before its first update: no members known, no role recorded. */
  constructor(name: string, parent: Keybase)
    ensures this.name == name && keybase == parent
    ensures role.None? && byRole == Membership.Empty
  {
    this.name := name;
    keybase := parent;
    role := Wrappers.None;
    byRole := Membership.Empty;
  }

  /** add_member: add_members with a single name. */
  method AddMember(username: string, accepted: bool, role: Membership.Role := Membership.Reader) returns (ok: bool)
    modifies this`byRole
    ensures ok == accepted
    ensures byRole == if accepted then Membership.Added(old(byRole), [username], role) else old(byRole)
  {
    ok := AddMembers([username], accepted, role);
  }

  /** add_members: on success the names are appended to the role's list. */
  method AddMembers(usernames: seq<string>, accepted: bool, role: Membership.Role := Membership.Reader) returns (ok: bool)
    modifies this`byRole
    ensures ok == accepted
    ensures byRole == if accepted then Membership.Added(old(byRole), usernames, role) else old(byRole)
  {
    if !accepted {
      return false;
    }
    byRole := byRole.Set(role, byRole.Get(role) + usernames);
    return true;
  }

  /**
   * change_member_role: on success each active list is visited in role order;
   * the user is dropped from every other role's list and appended to the new
   * role's list unless already there.
   */
  method ChangeMemberRole(username: string, role: Membership.Role, accepted: bool) returns (ok: bool)
    modifies this`byRole
    ensures ok == accepted
    ensures byRole == if accepted then Membership.ChangeRole(old(byRole), username, role) else old(byRole)
  {
    if !accepted {
      return false;
    }
    var start := byRole;
    var roster := start;
    var order := Membership.RoleOrder;
    var i := 0;
    while i < |order|
      invariant 0 <= i <= |order|
      invariant roster == Membership.ChangeRoleUpTo(start, username, role, i)
    {
      var r := order[i];
      var members := roster.Get(r);
      Membership.RetargetCases(members, username, r == role);
      if role != r && username in members {
        members := Lists.RemoveFirst(members, username);
      } else if role == r && username !in members {
        members := members + [username];
      }
      Membership.ChangeRoleUpToStep(start, username, role, i, roster, members);
      roster := roster.Set(r, members);
      i := i + 1;
    }
    Membership.ChangeRoleUpToAll(start, username, role);
    byRole := roster;
    return true;
  }

  /** create_sub_team: creates `<name>.<child>` through the session. */
  method CreateSubTeam(child: string, created: bool, listing: Wrappers.Option<Membership.Memberships>)
    returns (t: Wrappers.Option<Team>)
    requires keybase.Valid()
    modifies keybase
    ensures keybase.Valid()
    ensures var full := old(name) + "." + child;
      && keybase.teams == (if created then Lists.Sort(old(keybase.teams) + [full]) else old(keybase.teams))
      && (t.Some? <==> created && listing.Some?)
      && (t.Some? ==>
            && fresh(t.value) && t.value.name == full && t.value.keybase == keybase
            && t.value.byRole == Membership.Classify(listing.value)
            && t.value.role == Membership.OwnRole(listing.value, keybase.username, Wrappers.None)
            && keybase.activeTeams == old(keybase.activeTeams)[full := t.value])
      && (t.None? ==> keybase.activeTeams == old(keybase.activeTeams))
  {
    t := keybase.CreateTeam(name + "." + child, created, listing);
  }

  /**
   * members(): the active lists concatenated in role order, then
   * `sorted(set(...))`; the result is the strictly sorted list of everyone
   * holding an active role.
   */
  method Members() returns (ms: seq<string>)
    ensures ms == Membership.ActiveMembers(byRole)
    ensures Lists.StrictlySorted(ms)
    ensures forall u :: u in ms <==> Membership.HasActiveRole(byRole, u)
  {
    var order := Membership.RoleOrder;
    var all: seq<string> := [];
    var i := 0;
    while i < |order|
      invariant 0 <= i <= |order|
      invariant all == Membership.ActiveUpTo(byRole, i)
    {
      all := all + byRole.Get(order[i]);
      i := i + 1;
    }
    Membership.ActiveUpToAll(byRole);
    ms := Lists.SortedSet(all);
  }

  /**
   * purge_deleted: tries to remove every user listed as deleted; the active
   * lists lose the users whose removal succeeded and the deleted list keeps
   * exactly the failures.
   */
  method PurgeDeleted(answers: seq<bool>) returns (failures: seq<string>)
    requires |answers| == |byRole.deleted|
    modifies this`byRole
    ensures failures == Membership.Failures(old(byRole.deleted), answers)
    ensures byRole == Membership.StripEach(old(byRole), old(byRole.deleted), answers).(deleted := failures)
  {
    failures := RemoveListed(byRole.deleted, answers);
    byRole := byRole.(deleted := failures);
  }

  /** purge_reset: the same for users whose accounts were reset. */
  method PurgeReset(answers: seq<bool>) returns (failures: seq<string>)
    requires |answers| == |byRole.reset|
    modifies this`byRole
    ensures failures == Membership.Failures(old(byRole.reset), answers)
    ensures byRole == Membership.StripEach(old(byRole), old(byRole.reset), answers).(reset := failures)
  {
    failures := RemoveListed(byRole.reset, answers);
    byRole := byRole.(reset := failures);
  }

  /** The loop shared by the purges: one remove-member call per name, failures collected in order. */
  method RemoveListed(names: seq<string>, answers: seq<bool>) returns (failures: seq<string>)
    requires |answers| == |names|
    modifies this`byRole
    ensures failures == Membership.Failures(names, answers)
    ensures byRole == Membership.StripEach(old(byRole), names, answers)
  {
    ghost var start := byRole;
    failures := [];
    var i := 0;
    while i < |names|
      invariant 0 <= i <= |names|
      invariant failures == Membership.Failures(names[..i], answers[..i])
      invariant byRole == Membership.StripEach(start, names[..i], answers[..i])
    {
      var ok := RemoveMember(names[i], answers[i]);
      if !ok {
        failures := failures + [names[i]];
      }
      Membership.StripEachStep(start, names, answers, i);
      i := i + 1;
    }
    assert names[..i] == names && answers[..i] == answers;
  }

  /** remove_member: on success the first occurrence of the user leaves every active list. */
  method RemoveMember(username: string, accepted: bool) returns (ok: bool)
    modifies this`byRole
    ensures ok == accepted
    ensures byRole == if accepted then Membership.Strip(old(byRole), username) else old(byRole)
  {
    if !accepted {
      return false;
    }
    var start := byRole;
    var roster := start;
    var order := Membership.RoleOrder;
    var i := 0;
    while i < |order|
      invariant 0 <= i <= |order|
      invariant roster == Membership.StripUpTo(start, username, i)
    {
      var r := order[i];
      var members := roster.Get(r);
      if username in members {
        members := Lists.RemoveFirst(members, username);
      }
      Membership.StripUpToStep(start, username, i, roster, members);
      roster := roster.Set(r, members);
      i := i + 1;
    }
    Membership.StripUpToAll(start, username);
    byRole := roster;
    return true;
  }

  /**
   * rename: only a sub-team can be renamed; the new name keeps the parent and
   * replaces the last segment. On success the session's records are renamed
   * first, then this team takes the new name.
   */
  method Rename(leaf: string, accepted: bool) returns (ok: bool)
    requires keybase.Valid()
    modifies this`name, keybase, keybase.activeTeams.Values`name
    ensures keybase.Valid()
    ensures byRole == old(byRole) && role == old(role)
    ensures ok <==> '.' in old(name) && accepted
    ensures !ok ==> name == old(name) && unchanged(keybase)
    ensures !ok ==> forall t :: t in old(keybase.activeTeams.Values) ==> t.name == old(t.name)
    ensures ok ==> name == Names.SiblingName(old(name), leaf)
    ensures ok ==> keybase.teams == Registry.RenameTeams(old(keybase.teams), old(name), name)
    ensures ok ==> keybase.activeTeams.Values <= old(keybase.activeTeams.Values)
    ensures ok ==>
      var moved := Registry.MoveKey(old(keybase.activeTeams), old(name), name);
      var touched := Registry.TeamsAt(moved, Registry.Affected(moved, old(name)));
      forall t :: t in old(keybase.activeTeams.Values) && t != this ==>
        t.name == if t in touched then Names.Replace(old(t.name), old(name), name) else old(t.name)
    ensures ok ==>
      var moved := Registry.MoveKey(old(keybase.activeTeams), old(name), name);
      Registry.RekeyClean(moved, old(name), name) ==>
        Registry.RekeyedUpTo(moved, old(name), name, Registry.Affected(moved, old(name)), keybase.activeTeams)
  {
    if '.' !in name {
      return false;
    }
    var sibling := Names.SiblingName(name, leaf);
    if !accepted {
      return false;
    }
    var _ := keybase.UpdateTeamName(name, sibling);
    name := sibling;
    return true;
  }

  /**
   * update(): on a listing, files every member by role and status and records
   * the session user's role; on an error response nothing changes.
   */
  method Update(listing: Wrappers.Option<Membership.Memberships>) returns (ok: bool)
    modifies this`role, this`byRole
    ensures ok == listing.Some?
    ensures !ok ==> byRole == old(byRole) && role == old(role)
    ensures ok ==> byRole == Membership.Classify(listing.value)
    ensures ok ==> role == Membership.OwnRole(listing.value, keybase.username, old(role))
  {
    if listing.None? {
      return false;
    }
    var resp := listing.value;
    var me := keybase.username;
    var order := Membership.RoleOrder;
    var acc := Membership.Empty;
    var i := 0;
    while i < |order|
      invariant 0 <= i <= |order|
      invariant acc == Membership.ClassifyUpTo(resp, i)
      invariant role == Membership.OwnRoleUpTo(resp, me, old(role), i)
    {
      var r := order[i];
      var base := acc.Set(r, []);
      var members := Membership.Listed(resp.Get(r));
      var before := role;
      acc := base;
      var j := 0;
      while j < |members|
        invariant 0 <= j <= |members|
        invariant acc == Membership.PlaceAll(base, r, members[..j])
        invariant role == if Membership.ListsUser(members[..j], me) then Wrappers.Some(r) else before
      {
        var m := members[j];
        if m.username == me {
          role := Wrappers.Some(r);
        }
        if m.status == 2 {
          acc := acc.(deleted := acc.deleted + [m.username]);
        } else if m.status == 1 {
          acc := acc.(reset := acc.reset + [m.username]);
        } else {
          acc := acc.Set(r, acc.Get(r) + [m.username]);
        }
        Membership.PlaceAllStep(base, r, members, j);
        Membership.ListsUserStep(members, j, me);
        j := j + 1;
      }
      assert members[..j] == members;
      i := i + 1;
    }
    byRole := acc;
    return true;
  }

  /** update_parent_team_name: every occurrence of the old parent name in this name is replaced. */
  method UpdateParentTeamName(oldName: string, newName: string)
    modifies this`name
    ensures name == Names.Replace(old(name), oldName, newName)
  {
    name := Names.Replace(name, oldName, newName);
  }
}
