/**
 * The membership bookkeeping of a team, as values: the four active roles plus
 * the reset and deleted pseudo-roles, how a membership listing is sorted into
 * them, and what each successful mutation does to them.
 */
module Membership {
  import opened Wrappers
  import opened Lists

  datatype Role = Owner | Admin | Writer | Reader

  /** The order in which the team code walks the four active roles. */
  const RoleOrder: seq<Role> := [Owner, Admin, Writer, Reader]

  function RoleIndex(r: Role): (i: nat)
    ensures i < |RoleOrder| && RoleOrder[i] == r
  {
    match r
    case Owner => 0
    case Admin => 1
    case Writer => 2
    case Reader => 3
  }

  /** The walk visits each role once: the role at position k has index k. */
  lemma RoleOrderIndex()
    ensures forall k :: 0 <= k < |RoleOrder| ==> RoleIndex(RoleOrder[k]) == k
  {
    assert RoleOrder[0] == Owner && RoleOrder[1] == Admin && RoleOrder[2] == Writer && RoleOrder[3] == Reader;
  }

  /** `members_by_role`: one list of usernames per role and pseudo-role. */
  datatype Roster = Roster(
    owner: seq<string>, admin: seq<string>, writer: seq<string>, reader: seq<string>,
    reset: seq<string>, deleted: seq<string>)
  {
    function Get(r: Role): seq<string>
    {
      match r
      case Owner => owner
      case Admin => admin
      case Writer => writer
      case Reader => reader
    }

    function Set(r: Role, l: seq<string>): (t: Roster)
      ensures t.Get(r) == l
      ensures forall o :: o != r ==> t.Get(o) == Get(o)
      ensures t.reset == reset && t.deleted == deleted
    {
      match r
      case Owner => this.(owner := l)
      case Admin => this.(admin := l)
      case Writer => this.(writer := l)
      case Reader => this.(reader := l)
    }

    /** The four active lists, concatenated in role order. */
    function Active(): seq<string>
    {
      owner + admin + writer + reader
    }
  }

  const Empty: Roster := Roster([], [], [], [], [], [])

  /** Two rosters that agree on every role and pseudo-role are equal. */
  lemma RosterEq(a: Roster, b: Roster)
    requires forall r :: a.Get(r) == b.Get(r)
    requires a.reset == b.reset && a.deleted == b.deleted
    ensures a == b
  {
    assert a.Get(Owner) == b.Get(Owner) && a.Get(Admin) == b.Get(Admin);
    assert a.Get(Writer) == b.Get(Writer) && a.Get(Reader) == b.Get(Reader);
  }

  predicate HasActiveRole(r: Roster, u: string)
  {
    u in r.owner || u in r.admin || u in r.writer || u in r.reader
  }

  /** How often each username occurs across the four active lists. */
  function ActiveBag(r: Roster): multiset<string>
  {
    multiset(r.owner) + multiset(r.admin) + multiset(r.writer) + multiset(r.reader)
  }

  /**
   * The invariant a roster is meant to keep: each active list is free of
   * duplicates and nobody holds two active roles at once.
   */
  predicate WellFormed(r: Roster)
  {
    forall u :: u in ActiveBag(r) ==> ActiveBag(r)[u] <= 1
  }

  // ---------------------------------------------------------------------
  // Team.members()

  /** `sorted(set(owner + admin + writer + reader))`. */
  function ActiveMembers(r: Roster): (ms: seq<string>)
    ensures StrictlySorted(ms)
    ensures forall u :: u in ms <==> HasActiveRole(r, u)
  {
    SortedSet(r.Active())
  }

  /** The first n active lists, concatenated in role order: what members() has gathered after n lists. */
  function ActiveUpTo(r: Roster, n: nat): seq<string>
    requires n <= |RoleOrder|
  {
    if n == 0 then [] else ActiveUpTo(r, n - 1) + r.Get(RoleOrder[n - 1])
  }

  lemma ActiveUpToAll(r: Roster)
    ensures ActiveUpTo(r, |RoleOrder|) == r.Active()
  {
    assert ActiveUpTo(r, 1) == r.owner;
    assert ActiveUpTo(r, 2) == r.owner + r.admin;
    assert ActiveUpTo(r, 3) == r.owner + r.admin + r.writer;
  }

  /** The member list is the only strictly sorted list of the active usernames. */
  lemma ActiveMembersUnique(r: Roster, ms: seq<string>)
    requires StrictlySorted(ms)
    requires forall u :: u in ms <==> HasActiveRole(r, u)
    ensures ms == ActiveMembers(r)
  {
    StrictlySortedUnique(ms, ActiveMembers(r));
  }

  // ---------------------------------------------------------------------
  // add_members

  /** The roster after a successful add-members call: the names appended to the role's list. */
  function Added(r: Roster, usernames: seq<string>, role: Role): Roster
  {
    r.Set(role, r.Get(role) + usernames)
  }

  lemma AddedBag(r: Roster, usernames: seq<string>, role: Role)
    ensures ActiveBag(Added(r, usernames, role)) == ActiveBag(r) + multiset(usernames)
  {
    match role
    case Owner =>
    case Admin =>
    case Writer =>
    case Reader =>
  }

  lemma DistinctBag(s: seq<string>, u: string)
    requires Distinct(s)
    ensures multiset(s)[u] <= 1
  {
    if s != [] {
      var n := |s| - 1;
      assert s == s[..n] + [s[n]];
      DistinctBag(s[..n], u);
      if s[n] == u { assert u !in s[..n]; }
    }
  }

  /** Adding names that are new and distinct keeps the roster well formed and makes them members. */
  lemma AddedWellFormed(r: Roster, usernames: seq<string>, role: Role)
    requires WellFormed(r) && Distinct(usernames)
    requires forall u :: u in usernames ==> !HasActiveRole(r, u)
    ensures WellFormed(Added(r, usernames, role))
    ensures forall u :: u in usernames ==> u in ActiveMembers(Added(r, usernames, role))
  {
    var t := Added(r, usernames, role);
    AddedBag(r, usernames, role);
    forall u ensures ActiveBag(t)[u] <= 1 {
      DistinctBag(usernames, u);
      if u in usernames { assert ActiveBag(r)[u] == 0; }
    }
    forall u | u in usernames ensures HasActiveRole(t, u) {
      assert u in ActiveBag(t);
    }
  }

  // ---------------------------------------------------------------------
  // change_member_role

  /** One step of change_member_role's loop on one role's list. */
  function Retarget(l: seq<string>, u: string, isTarget: bool): seq<string>
  {
    if !isTarget then RemoveFirst(l, u)
    else if u in l then l
    else l + [u]
  }

  /** The three cases of the loop body: drop from another role, append to the new role, or leave alone. */
  lemma RetargetCases(l: seq<string>, u: string, isTarget: bool)
    ensures !isTarget && u in l ==> Retarget(l, u, isTarget) == RemoveFirst(l, u)
    ensures isTarget && u !in l ==> Retarget(l, u, isTarget) == l + [u]
    ensures (isTarget == (u in l)) ==> Retarget(l, u, isTarget) == l
  {
  }

  function ChangeRole(r: Roster, u: string, role: Role): Roster
  {
    Roster(
      Retarget(r.owner, u, role == Owner), Retarget(r.admin, u, role == Admin),
      Retarget(r.writer, u, role == Writer), Retarget(r.reader, u, role == Reader),
      r.reset, r.deleted)
  }

  /** The roster after change_member_role's loop has visited the first n role lists. */
  function ChangeRoleUpTo(r: Roster, u: string, role: Role, n: nat): Roster
    requires n <= |RoleOrder|
  {
    if n == 0 then r
    else
      var t := ChangeRoleUpTo(r, u, role, n - 1);
      var o := RoleOrder[n - 1];
      t.Set(o, Retarget(t.Get(o), u, o == role))
  }

  /** One visit of change_member_role's loop: the list of the role at position i is retargeted. */
  lemma ChangeRoleUpToStep(r: Roster, u: string, role: Role, i: nat, cur: Roster, l: seq<string>)
    requires i < |RoleOrder| && cur == ChangeRoleUpTo(r, u, role, i)
    requires l == Retarget(cur.Get(RoleOrder[i]), u, RoleOrder[i] == role)
    ensures cur.Set(RoleOrder[i], l) == ChangeRoleUpTo(r, u, role, i + 1)
  {
  }

  lemma ChangeRoleUpToAll(r: Roster, u: string, role: Role)
    ensures ChangeRoleUpTo(r, u, role, |RoleOrder|) == ChangeRole(r, u, role)
  {
    assert RoleOrder[0] == Owner && RoleOrder[1] == Admin && RoleOrder[2] == Writer && RoleOrder[3] == Reader;
    var t1 := r.Set(Owner, Retarget(r.owner, u, role == Owner));
    ChangeRoleUpToStep(r, u, role, 0, r, Retarget(r.owner, u, role == Owner));
    var t2 := t1.Set(Admin, Retarget(r.admin, u, role == Admin));
    ChangeRoleUpToStep(r, u, role, 1, t1, Retarget(r.admin, u, role == Admin));
    var t3 := t2.Set(Writer, Retarget(r.writer, u, role == Writer));
    ChangeRoleUpToStep(r, u, role, 2, t2, Retarget(r.writer, u, role == Writer));
    var t4 := t3.Set(Reader, Retarget(r.reader, u, role == Reader));
    ChangeRoleUpToStep(r, u, role, 3, t3, Retarget(r.reader, u, role == Reader));
    RosterEq(t4, ChangeRole(r, u, role));
  }

  lemma ChangeRoleGet(r: Roster, u: string, role: Role, o: Role)
    ensures ChangeRole(r, u, role).Get(o) == Retarget(r.Get(o), u, o == role)
  {
  }

  /**
   * After a role change the user is in the new role's list (appended if it was
   * not there), every other active list has lost one occurrence of the user,
   * and reset and deleted are untouched.
   */
  lemma ChangeRoleMoves(r: Roster, u: string, role: Role)
    ensures var t := ChangeRole(r, u, role);
      && u in t.Get(role)
      && t.Get(role) == (if u in r.Get(role) then r.Get(role) else r.Get(role) + [u])
      && (forall o :: o != role ==> multiset(t.Get(o)) == multiset(r.Get(o)) - multiset{u})
      && t.reset == r.reset && t.deleted == r.deleted
  {
    forall o ensures ChangeRole(r, u, role).Get(o) == Retarget(r.Get(o), u, o == role) {
      ChangeRoleGet(r, u, role, o);
    }
  }

  lemma RemoveFirstCount(s: seq<string>, x: string, v: string)
    ensures multiset(RemoveFirst(s, x))[v] == if v == x && v in s then multiset(s)[v] - 1 else multiset(s)[v]
  {
  }

  lemma RetargetCount(l: seq<string>, u: string, isTarget: bool, v: string)
    ensures multiset(Retarget(l, u, isTarget))[v] ==
      if v != u then multiset(l)[v]
      else if isTarget then (if u in l then multiset(l)[u] else 1)
      else (if u in l then multiset(l)[u] - 1 else 0)
  {
    RemoveFirstCount(l, u, v);
  }

  lemma BagByRole(r: Roster, v: string)
    ensures ActiveBag(r)[v] == multiset(r.Get(Owner))[v] + multiset(r.Get(Admin))[v]
      + multiset(r.Get(Writer))[v] + multiset(r.Get(Reader))[v]
  {
  }

  lemma RoleCount(r: Roster, o: Role, v: string)
    ensures multiset(r.Get(o))[v] <= ActiveBag(r)[v]
  {
    match o
    case Owner =>
    case Admin =>
    case Writer =>
    case Reader =>
  }

  lemma ChangeRoleUserCount(r: Roster, u: string, role: Role, o: Role)
    requires ActiveBag(r)[u] <= 1
    ensures multiset(ChangeRole(r, u, role).Get(o))[u] == if o == role then 1 else 0
  {
    ChangeRoleGet(r, u, role, o);
    RetargetCount(r.Get(o), u, o == role, u);
    RoleCount(r, o, u);
  }

  lemma ChangeRoleOtherCount(r: Roster, u: string, role: Role, v: string)
    requires v != u
    ensures ActiveBag(ChangeRole(r, u, role))[v] == ActiveBag(r)[v]
  {
    var t := ChangeRole(r, u, role);
    BagByRole(t, v);
    BagByRole(r, v);
    forall o ensures multiset(t.Get(o))[v] == multiset(r.Get(o))[v] {
      ChangeRoleGet(r, u, role, o);
      RetargetCount(r.Get(o), u, o == role, v);
    }
  }

  /** On a well-formed roster a role change leaves the user in exactly the new role. */
  lemma ChangeRoleWellFormed(r: Roster, u: string, role: Role)
    requires WellFormed(r)
    ensures WellFormed(ChangeRole(r, u, role))
    ensures forall o :: u in ChangeRole(r, u, role).Get(o) <==> o == role
  {
    var t := ChangeRole(r, u, role);
    assert ActiveBag(r)[u] <= 1 by {
      if u in ActiveBag(r) { }
    }
    forall o ensures multiset(t.Get(o))[u] == if o == role then 1 else 0 {
      ChangeRoleUserCount(r, u, role, o);
    }
    forall v ensures ActiveBag(t)[v] <= 1 {
      if v == u {
        BagByRole(t, u);
      } else {
        ChangeRoleOtherCount(r, u, role, v);
        assert ActiveBag(r)[v] <= 1 by {
          if v in ActiveBag(r) { }
        }
      }
    }
  }

  // ---------------------------------------------------------------------
  // remove_member

  /** The roster after a successful remove-member call: one occurrence dropped from each active list. */
  function Strip(r: Roster, u: string): Roster
  {
    Roster(
      RemoveFirst(r.owner, u), RemoveFirst(r.admin, u),
      RemoveFirst(r.writer, u), RemoveFirst(r.reader, u),
      r.reset, r.deleted)
  }

  /** The roster after remove_member's loop has visited the first n role lists. */
  function StripUpTo(r: Roster, u: string, n: nat): Roster
    requires n <= |RoleOrder|
  {
    if n == 0 then r
    else
      var t := StripUpTo(r, u, n - 1);
      t.Set(RoleOrder[n - 1], RemoveFirst(t.Get(RoleOrder[n - 1]), u))
  }

  /** One visit of remove_member's loop: the list of the role at position i loses the user, if there. */
  lemma StripUpToStep(r: Roster, u: string, i: nat, cur: Roster, l: seq<string>)
    requires i < |RoleOrder| && cur == StripUpTo(r, u, i)
    requires l == RemoveFirst(cur.Get(RoleOrder[i]), u)
    ensures cur.Set(RoleOrder[i], l) == StripUpTo(r, u, i + 1)
  {
  }

  lemma StripUpToAll(r: Roster, u: string)
    ensures StripUpTo(r, u, |RoleOrder|) == Strip(r, u)
  {
    assert RoleOrder[0] == Owner && RoleOrder[1] == Admin && RoleOrder[2] == Writer && RoleOrder[3] == Reader;
    var t1 := r.Set(Owner, RemoveFirst(r.owner, u));
    StripUpToStep(r, u, 0, r, RemoveFirst(r.owner, u));
    var t2 := t1.Set(Admin, RemoveFirst(r.admin, u));
    StripUpToStep(r, u, 1, t1, RemoveFirst(r.admin, u));
    var t3 := t2.Set(Writer, RemoveFirst(r.writer, u));
    StripUpToStep(r, u, 2, t2, RemoveFirst(r.writer, u));
    var t4 := t3.Set(Reader, RemoveFirst(r.reader, u));
    StripUpToStep(r, u, 3, t3, RemoveFirst(r.reader, u));
    RosterEq(t4, Strip(r, u));
  }

  /**
   * Removal on one active list: a list holding the user loses its first
   * occurrence of the user and keeps everything else in order; a list
   * without the user is unchanged; reset and deleted stay.
   */
  lemma StripDropsFirst(r: Roster, u: string, o: Role)
    ensures u !in r.Get(o) ==> Strip(r, u).Get(o) == r.Get(o)
    ensures u in r.Get(o) ==>
      exists i :: 0 <= i < |r.Get(o)| && r.Get(o)[i] == u && u !in r.Get(o)[..i]
        && Strip(r, u).Get(o) == r.Get(o)[..i] + r.Get(o)[i + 1..]
    ensures Strip(r, u).reset == r.reset && Strip(r, u).deleted == r.deleted
  {
    var l, t := r.Get(o), Strip(r, u).Get(o);
    assert t == RemoveFirst(l, u);
    DropsFirst(l, u, t);
  }

  lemma DropsFirst(l: seq<string>, u: string, t: seq<string>)
    requires t == RemoveFirst(l, u)
    ensures u !in l ==> t == l
    ensures u in l ==> exists i :: 0 <= i < |l| && l[i] == u && u !in l[..i] && t == l[..i] + l[i + 1..]
  {
  }

  /** Removal never adds an occurrence, keeps everyone else's, and clears a user held at most once. */
  lemma StripCount(r: Roster, u: string, v: string)
    ensures ActiveBag(Strip(r, u))[v] <= ActiveBag(r)[v]
    ensures v != u ==> ActiveBag(Strip(r, u))[v] == ActiveBag(r)[v]
  {
    RemoveFirstCount(r.owner, u, v);
    RemoveFirstCount(r.admin, u, v);
    RemoveFirstCount(r.writer, u, v);
    RemoveFirstCount(r.reader, u, v);
  }

  lemma StripClears(r: Roster, u: string)
    requires WellFormed(r)
    ensures ActiveBag(Strip(r, u))[u] == 0
  {
    assert ActiveBag(r)[u] <= 1 by {
      if u in ActiveBag(r) { }
    }
    RemoveFirstCount(r.owner, u, u);
    RemoveFirstCount(r.admin, u, u);
    RemoveFirstCount(r.writer, u, u);
    RemoveFirstCount(r.reader, u, u);
  }

  /**
   * On a well-formed roster, removal takes the user out of every active role
   * (so out of the member list), keeps everyone else, and keeps the roster well formed.
   */
  lemma StripWellFormed(r: Roster, u: string)
    requires WellFormed(r)
    ensures WellFormed(Strip(r, u))
    ensures u !in ActiveMembers(Strip(r, u))
    ensures forall v :: v != u ==> ActiveBag(Strip(r, u))[v] == ActiveBag(r)[v]
  {
    var t := Strip(r, u);
    forall v ensures ActiveBag(t)[v] <= ActiveBag(r)[v] && (v != u ==> ActiveBag(t)[v] == ActiveBag(r)[v]) {
      StripCount(r, u, v);
    }
    StripClears(r, u);
    assert !HasActiveRole(t, u) by {
      assert u !in multiset(t.owner) && u !in multiset(t.admin);
      assert u !in multiset(t.writer) && u !in multiset(t.reader);
    }
  }

  /** Adding a new user and then removing them leaves them out of the member list. */
  lemma AddThenRemove(r: Roster, u: string, role: Role)
    requires WellFormed(r) && !HasActiveRole(r, u)
    ensures u in ActiveMembers(Added(r, [u], role))
    ensures u !in ActiveMembers(Strip(Added(r, [u], role), u))
  {
    AddedWellFormed(r, [u], role);
    StripWellFormed(Added(r, [u], role), u);
  }

  // ---------------------------------------------------------------------
  // purge_deleted / purge_reset

  /** The names whose removal failed, in attempt order: the `failures` list. */
  function Failures(names: seq<string>, oks: seq<bool>): seq<string>
    requires |oks| == |names|
  {
    if names == [] then []
    else
      var n := |names| - 1;
      Failures(names[..n], oks[..n]) + (if oks[n] then [] else [names[n]])
  }

  /** The roster after the successful removals among the attempts, made in order. */
  function StripEach(r: Roster, names: seq<string>, oks: seq<bool>): Roster
    requires |oks| == |names|
  {
    if names == [] then r
    else
      var n := |names| - 1;
      var t := StripEach(r, names[..n], oks[..n]);
      if oks[n] then Strip(t, names[n]) else t
  }

  /**
   * The failures are exactly the names whose removal failed: each failure is
   * an attempted name with a failed answer, and every failed attempt is listed.
   */
  lemma {:induction false} FailuresExact(names: seq<string>, oks: seq<bool>)
    requires |oks| == |names|
    ensures |Failures(names, oks)| <= |names|
    ensures forall u :: u in Failures(names, oks) <==> exists i :: 0 <= i < |names| && names[i] == u && !oks[i]
  {
    if names != [] {
      var n := |names| - 1;
      FailuresExact(names[..n], oks[..n]);
      forall u ensures u in Failures(names, oks) <==> exists i :: 0 <= i < |names| && names[i] == u && !oks[i] {
        if u in Failures(names[..n], oks[..n]) {
          var i :| 0 <= i < n && names[..n][i] == u && !oks[..n][i];
          assert names[i] == u && !oks[i];
        }
        if exists i :: 0 <= i < |names| && names[i] == u && !oks[i] {
          var i :| 0 <= i < |names| && names[i] == u && !oks[i];
          if i < n { assert names[..n][i] == u && !oks[..n][i]; }
        }
      }
    }
  }

  /** When every removal succeeds nothing is left over. */
  lemma {:induction false} FailuresNone(names: seq<string>, oks: seq<bool>)
    requires |oks| == |names| && forall i :: 0 <= i < |oks| ==> oks[i]
    ensures Failures(names, oks) == []
  {
    if names != [] {
      var n := |names| - 1;
      assert forall i :: 0 <= i < n ==> oks[..n][i] == oks[i];
      FailuresNone(names[..n], oks[..n]);
    }
  }

  /** When every removal fails, every attempted name is left over, in order. */
  lemma {:induction false} FailuresAll(names: seq<string>, oks: seq<bool>)
    requires |oks| == |names| && forall i :: 0 <= i < |oks| ==> !oks[i]
    ensures Failures(names, oks) == names
  {
    if names != [] {
      var n := |names| - 1;
      assert forall i :: 0 <= i < n ==> oks[..n][i] == oks[i];
      FailuresAll(names[..n], oks[..n]);
      assert names == names[..n] + [names[n]];
    }
  }

  /** Purging touches only the active lists and keeps a well-formed roster well formed. */
  lemma {:induction false} StripEachWellFormed(r: Roster, names: seq<string>, oks: seq<bool>)
    requires |oks| == |names| && WellFormed(r)
    ensures WellFormed(StripEach(r, names, oks))
    ensures StripEach(r, names, oks).reset == r.reset && StripEach(r, names, oks).deleted == r.deleted
  {
    if names != [] {
      var n := |names| - 1;
      StripEachWellFormed(r, names[..n], oks[..n]);
      if oks[n] { StripWellFormed(StripEach(r, names[..n], oks[..n]), names[n]); }
    }
  }

  /** One more attempt of the purge loop: the fold over the first i + 1 names, unfolded once. */
  lemma StripEachStep(r: Roster, names: seq<string>, oks: seq<bool>, i: nat)
    requires |oks| == |names| && i < |names|
    ensures var t := StripEach(r, names[..i], oks[..i]);
      StripEach(r, names[..i + 1], oks[..i + 1]) == (if oks[i] then Strip(t, names[i]) else t)
    ensures Failures(names[..i + 1], oks[..i + 1]) == Failures(names[..i], oks[..i]) + (if oks[i] then [] else [names[i]])
  {
    assert names[..i + 1][..i] == names[..i] && oks[..i + 1][..i] == oks[..i];
  }

  /** The last attempt, when it succeeds, leaves that name without an active role. */
  lemma StripEachClearsLast(r: Roster, names: seq<string>, oks: seq<bool>)
    requires |oks| == |names| && WellFormed(r)
    requires names != [] && oks[|names| - 1]
    ensures ActiveBag(StripEach(r, names, oks))[names[|names| - 1]] == 0
  {
    var n := |names| - 1;
    var t0 := StripEach(r, names[..n], oks[..n]);
    StripEachWellFormed(r, names[..n], oks[..n]);
    StripClears(t0, names[n]);
  }

  /** A later attempt never gives back an active role to an earlier name. */
  lemma StripEachKeepsCleared(r: Roster, names: seq<string>, oks: seq<bool>, u: string)
    requires |oks| == |names| && names != []
    requires ActiveBag(StripEach(r, names[..|names| - 1], oks[..|names| - 1]))[u] == 0
    ensures ActiveBag(StripEach(r, names, oks))[u] == 0
  {
    var n := |names| - 1;
    StripCount(StripEach(r, names[..n], oks[..n]), names[n], u);
  }

  /** On a well-formed roster every successfully removed name ends up without an active role. */
  lemma {:induction false} StripEachRemoves(r: Roster, names: seq<string>, oks: seq<bool>, i: nat)
    requires |oks| == |names| && WellFormed(r)
    requires i < |names| && oks[i]
    ensures ActiveBag(StripEach(r, names, oks))[names[i]] == 0
  {
    var n := |names| - 1;
    if i < n {
      assert names[..n][i] == names[i] && oks[..n][i];
      StripEachRemoves(r, names[..n], oks[..n], i);
      StripEachKeepsCleared(r, names, oks, names[i]);
    } else {
      StripEachClearsLast(r, names, oks);
    }
  }

  // ---------------------------------------------------------------------
  // update(): sorting a list-team-memberships response into the roster

  datatype Member = Member(username: string, status: int)

  /** The four role arrays of a membership response; None where the array is null. */
  datatype Memberships = Memberships(
    owners: Option<seq<Member>>, admins: Option<seq<Member>>,
    writers: Option<seq<Member>>, readers: Option<seq<Member>>)
  {
    function Get(r: Role): Option<seq<Member>>
    {
      match r
      case Owner => owners
      case Admin => admins
      case Writer => writers
      case Reader => readers
    }
  }

  /** Iterating a null array raises TypeError, which update() swallows: it contributes nothing. */
  function Listed(a: Option<seq<Member>>): seq<Member>
  {
    if a.Some? then a.value else []
  }

  /** Where update() files one member of role r's array: status 2 deleted, 1 reset, any other r. */
  function Place(acc: Roster, r: Role, m: Member): Roster
  {
    if m.status == 2 then acc.(deleted := acc.deleted + [m.username])
    else if m.status == 1 then acc.(reset := acc.reset + [m.username])
    else acc.Set(r, acc.Get(r) + [m.username])
  }

  function PlaceAll(acc: Roster, r: Role, ms: seq<Member>): Roster
  {
    if ms == [] then acc
    else Place(PlaceAll(acc, r, ms[..|ms| - 1]), r, ms[|ms| - 1])
  }

  lemma PlaceAllStep(acc: Roster, r: Role, ms: seq<Member>, j: nat)
    requires j < |ms|
    ensures PlaceAll(acc, r, ms[..j + 1]) == Place(PlaceAll(acc, r, ms[..j]), r, ms[j])
  {
    assert ms[..j + 1][..j] == ms[..j] && ms[..j + 1][j] == ms[j];
  }

  /** The roster after the first n roles of the response have been walked. */
  function ClassifyUpTo(resp: Memberships, n: nat): Roster
    requires n <= |RoleOrder|
  {
    if n == 0 then Empty
    else
      var r := RoleOrder[n - 1];
      PlaceAll(ClassifyUpTo(resp, n - 1).Set(r, []), r, Listed(resp.Get(r)))
  }

  function Classify(resp: Memberships): Roster
  {
    ClassifyUpTo(resp, |RoleOrder|)
  }

  // Reference definitions: filters over the arrays.

  /** Usernames of the members with a status other than 1 and 2, in order. */
  function ActiveNames(ms: seq<Member>): seq<string>
  {
    if ms == [] then []
    else
      var m := ms[|ms| - 1];
      ActiveNames(ms[..|ms| - 1]) + (if m.status != 1 && m.status != 2 then [m.username] else [])
  }

  /** Usernames of the members with the given status, in order. */
  function NamesWithStatus(ms: seq<Member>, status: int): seq<string>
  {
    if ms == [] then []
    else
      var m := ms[|ms| - 1];
      NamesWithStatus(ms[..|ms| - 1], status) + (if m.status == status then [m.username] else [])
  }

  /** The members of the first n role arrays, in role order. */
  function ListedUpTo(resp: Memberships, n: nat): seq<Member>
    requires n <= |RoleOrder|
  {
    if n == 0 then [] else ListedUpTo(resp, n - 1) + Listed(resp.Get(RoleOrder[n - 1]))
  }

  lemma {:induction false} NamesWithStatusAppend(a: seq<Member>, b: seq<Member>, status: int)
    ensures NamesWithStatus(a + b, status) == NamesWithStatus(a, status) + NamesWithStatus(b, status)
    decreases |b|
  {
    if b != [] {
      var n := |b| - 1;
      assert (a + b)[..|a + b| - 1] == a + b[..n];
      assert (a + b)[|a + b| - 1] == b[n];
      NamesWithStatusAppend(a, b[..n], status);
    } else {
      assert a + b == a;
    }
  }

  /** One member lands in exactly one list: role r's when active, else reset or deleted. */
  lemma PlaceStep(acc: Roster, r: Role, m: Member)
    ensures var t := Place(acc, r, m);
      && t.Get(r) == acc.Get(r) + (if m.status != 1 && m.status != 2 then [m.username] else [])
      && (forall o :: o != r ==> t.Get(o) == acc.Get(o))
      && t.reset == acc.reset + (if m.status == 1 then [m.username] else [])
      && t.deleted == acc.deleted + (if m.status == 2 then [m.username] else [])
  {
    if m.status == 2 || m.status == 1 {
      RosterEq(Place(acc, r, m).(reset := acc.reset, deleted := acc.deleted), acc);
    }
  }

  lemma {:induction false} PlaceAllSpec(acc: Roster, r: Role, ms: seq<Member>)
    ensures var t := PlaceAll(acc, r, ms);
      && t.Get(r) == acc.Get(r) + ActiveNames(ms)
      && (forall o :: o != r ==> t.Get(o) == acc.Get(o))
      && t.reset == acc.reset + NamesWithStatus(ms, 1)
      && t.deleted == acc.deleted + NamesWithStatus(ms, 2)
  {
    if ms != [] {
      var init, m := ms[..|ms| - 1], ms[|ms| - 1];
      PlaceAllSpec(acc, r, init);
      PlaceStep(PlaceAll(acc, r, init), r, m);
      assert ActiveNames(ms) == ActiveNames(init) + (if m.status != 1 && m.status != 2 then [m.username] else []);
      assert NamesWithStatus(ms, 1) == NamesWithStatus(init, 1) + (if m.status == 1 then [m.username] else []);
      assert NamesWithStatus(ms, 2) == NamesWithStatus(init, 2) + (if m.status == 2 then [m.username] else []);
    }
  }

  /** One role of update()'s walk: that role's list is rebuilt, reset and deleted grow, the other roles stay. */
  lemma ClassifyUpToStep(resp: Memberships, n: nat, r: Role, prev: Roster, t: Roster)
    requires 0 < n <= |RoleOrder| && RoleOrder[n - 1] == r
    requires prev == ClassifyUpTo(resp, n - 1) && t == ClassifyUpTo(resp, n)
    ensures t.Get(r) == ActiveNames(Listed(resp.Get(r)))
    ensures forall o :: o != r ==> t.Get(o) == prev.Get(o)
    ensures t.reset == prev.reset + NamesWithStatus(Listed(resp.Get(r)), 1)
    ensures t.deleted == prev.deleted + NamesWithStatus(Listed(resp.Get(r)), 2)
  {
    PlaceAllSpec(prev.Set(r, []), r, Listed(resp.Get(r)));
  }

  lemma {:induction false} ClassifyUpToRoles(resp: Memberships, n: nat)
    requires n <= |RoleOrder|
    ensures forall o :: RoleIndex(o) < n ==> ClassifyUpTo(resp, n).Get(o) == ActiveNames(Listed(resp.Get(o)))
    ensures forall o :: n <= RoleIndex(o) ==> ClassifyUpTo(resp, n).Get(o) == []
  {
    if n > 0 {
      var r := RoleOrder[n - 1];
      ClassifyUpToRoles(resp, n - 1);
      ClassifyUpToStep(resp, n, r, ClassifyUpTo(resp, n - 1), ClassifyUpTo(resp, n));
      assert RoleIndex(r) == n - 1 by { RoleOrderIndex(); }
    }
  }

  lemma {:induction false} ClassifyUpToStatus(resp: Memberships, n: nat)
    requires n <= |RoleOrder|
    ensures ClassifyUpTo(resp, n).reset == NamesWithStatus(ListedUpTo(resp, n), 1)
    ensures ClassifyUpTo(resp, n).deleted == NamesWithStatus(ListedUpTo(resp, n), 2)
  {
    if n > 0 {
      var r := RoleOrder[n - 1];
      ClassifyUpToStatus(resp, n - 1);
      ClassifyUpToStep(resp, n, r, ClassifyUpTo(resp, n - 1), ClassifyUpTo(resp, n));
      var before, more := ListedUpTo(resp, n - 1), Listed(resp.Get(r));
      assert ListedUpTo(resp, n) == before + more;
      NamesWithStatusAppend(before, more, 1);
      NamesWithStatusAppend(before, more, 2);
    }
  }

  /**
   * update() files each role's active members (status neither 1 nor 2) under
   * that role, in order, and collects reset (status 1) and deleted (status 2)
   * users from all four arrays in role order; a null array adds nothing.
   */
  lemma ClassifySpec(resp: Memberships)
    ensures Classify(resp) == Roster(
      ActiveNames(Listed(resp.owners)), ActiveNames(Listed(resp.admins)),
      ActiveNames(Listed(resp.writers)), ActiveNames(Listed(resp.readers)),
      NamesWithStatus(Listed(resp.owners) + Listed(resp.admins) + Listed(resp.writers) + Listed(resp.readers), 1),
      NamesWithStatus(Listed(resp.owners) + Listed(resp.admins) + Listed(resp.writers) + Listed(resp.readers), 2))
  {
    ClassifyUpToRoles(resp, |RoleOrder|);
    ClassifyUpToStatus(resp, |RoleOrder|);
    ListedUpToAll(resp);
    var t := Classify(resp);
    assert t.Get(Owner) == t.owner && t.Get(Admin) == t.admin;
    assert t.Get(Writer) == t.writer && t.Get(Reader) == t.reader;
  }

  lemma ListedUpToAll(resp: Memberships)
    ensures ListedUpTo(resp, |RoleOrder|) ==
      Listed(resp.owners) + Listed(resp.admins) + Listed(resp.writers) + Listed(resp.readers)
  {
    assert RoleOrder[0] == Owner && RoleOrder[1] == Admin && RoleOrder[2] == Writer && RoleOrder[3] == Reader;
    assert ListedUpTo(resp, 1) == Listed(resp.owners);
    assert ListedUpTo(resp, 2) == Listed(resp.owners) + Listed(resp.admins);
    assert ListedUpTo(resp, 3) == Listed(resp.owners) + Listed(resp.admins) + Listed(resp.writers);
  }

  // The caller's own role.

  predicate ListsUser(ms: seq<Member>, me: string)
  {
    exists i :: 0 <= i < |ms| && ms[i].username == me
  }

  /** One more member of an array: the caller is listed so far iff listed before or this is the caller. */
  lemma ListsUserStep(ms: seq<Member>, j: nat, me: string)
    requires j < |ms|
    ensures ListsUser(ms[..j + 1], me) <==> ListsUser(ms[..j], me) || ms[j].username == me
  {
    assert ms[..j + 1][j] == ms[j];
    if ListsUser(ms[..j + 1], me) && ms[j].username != me {
      var i :| 0 <= i < j + 1 && ms[..j + 1][i].username == me;
      assert ms[..j][i] == ms[i];
    }
    if ListsUser(ms[..j], me) {
      var i :| 0 <= i < j && ms[..j][i].username == me;
      assert ms[..j + 1][i] == ms[i];
    }
  }

  /** The role update() records after walking the first n roles, starting from `prior`. */
  function OwnRoleUpTo(resp: Memberships, me: string, prior: Option<Role>, n: nat): Option<Role>
    requires n <= |RoleOrder|
  {
    if n == 0 then prior
    else if ListsUser(Listed(resp.Get(RoleOrder[n - 1])), me) then Some(RoleOrder[n - 1])
    else OwnRoleUpTo(resp, me, prior, n - 1)
  }

  function OwnRole(resp: Memberships, me: string, prior: Option<Role>): Option<Role>
  {
    OwnRoleUpTo(resp, me, prior, |RoleOrder|)
  }

  lemma {:induction false} OwnRoleUpToSpec(resp: Memberships, me: string, prior: Option<Role>, n: nat)
    requires n <= |RoleOrder|
    ensures (forall k :: 0 <= k < n ==> !ListsUser(Listed(resp.Get(RoleOrder[k])), me)) ==>
      OwnRoleUpTo(resp, me, prior, n) == prior
    ensures forall k :: 0 <= k < n && ListsUser(Listed(resp.Get(RoleOrder[k])), me) ==>
      var o := OwnRoleUpTo(resp, me, prior, n);
      && o.Some? && k <= RoleIndex(o.value) < n
      && ListsUser(Listed(resp.Get(o.value)), me)
      && forall k' :: RoleIndex(o.value) < k' < n ==> !ListsUser(Listed(resp.Get(RoleOrder[k'])), me)
  {
    if n > 0 {
      OwnRoleUpToSpec(resp, me, prior, n - 1);
      var last := RoleOrder[n - 1];
      RoleOrderIndex();
      if ListsUser(Listed(resp.Get(last)), me) {
        assert OwnRoleUpTo(resp, me, prior, n) == Some(last) && RoleIndex(last) == n - 1;
      } else {
        assert OwnRoleUpTo(resp, me, prior, n) == OwnRoleUpTo(resp, me, prior, n - 1);
      }
    }
  }

  /**
   * The recorded role is the last role, in owner, admin, writer, reader order,
   * whose array lists the caller (whatever the caller's status); with no such
   * role the previous value stays.
   */
  lemma OwnRoleSpec(resp: Memberships, me: string, prior: Option<Role>)
    ensures (forall r :: !ListsUser(Listed(resp.Get(r)), me)) ==> OwnRole(resp, me, prior) == prior
    ensures forall r :: ListsUser(Listed(resp.Get(r)), me) ==>
      var o := OwnRole(resp, me, prior);
      && o.Some? && RoleIndex(r) <= RoleIndex(o.value)
      && ListsUser(Listed(resp.Get(o.value)), me)
      && forall r' :: RoleIndex(o.value) < RoleIndex(r') ==> !ListsUser(Listed(resp.Get(r')), me)
  {
    OwnRoleUpToSpec(resp, me, prior, 4);
    forall r ensures !ListsUser(Listed(resp.Get(r)), me) ==> !ListsUser(Listed(resp.Get(RoleOrder[RoleIndex(r)])), me) {
      assert RoleOrder[RoleIndex(r)] == r;
    }
    forall r | ListsUser(Listed(resp.Get(r)), me)
      ensures var o := OwnRole(resp, me, prior); o.Some? && RoleIndex(r) <= RoleIndex(o.value)
    {
      assert RoleOrder[RoleIndex(r)] == r;
    }
    forall r' | OwnRole(resp, me, prior).Some? && RoleIndex(OwnRole(resp, me, prior).value) < RoleIndex(r')
      ensures !ListsUser(Listed(resp.Get(r')), me)
    {
      assert RoleOrder[RoleIndex(r')] == r';
    }
  }
}
