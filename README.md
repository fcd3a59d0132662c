# pykblib teams and session registry, modelled in Dafny

pykblib is a Python wrapper around the Keybase client. Around its calls to the
Keybase team API it keeps two pieces of in-memory state, and this project
models both and proves what they do:

- **`Team`** (`team.dfy`): a team's name, the session user's role in it, and
  its members by role. There are four active lists (owner, admin, writer,
  reader) and two lists of accounts to clean up (reset, deleted). Adding,
  re-roling and removing members edit the active lists in place. A membership
  listing rebuilds all six lists. The purges attempt one removal per listed
  name and keep the failures. Renaming a sub-team keeps its parent prefix.
- **`Keybase`** (`keybase.dfy`): the session. It holds the user's name, the
  list of team names, and a registry of the `Team` objects spawned in the
  session, keyed by team name. Deleting a team cascades to every listed name
  that starts with it, longest first, and stops at the first refusal.
  Creating a team re-sorts the list. Renaming a team rewrites the list and
  moves the team's own registry entry to the new name. Every registered team
  whose key, after that move, contains the old name is then told to rename
  its parent and is re-keyed. That covers sub-teams, but also unrelated
  names such as `a.bc` or `x.a.b` for a rename of `a.b`. It also covers the
  renamed team itself when its new name contains the old one; a team moved
  to a name without the old one in it (`a.b` renamed to `x`) is not told.

Every call into the Keybase service is a parameter of the operation that
makes it:

- `accepted: bool` stands for an API response with or without an error.
- `listing: Option<Memberships>` stands for a membership listing or an error.
- `answers: seq<bool>` gives the answers to a sequence of calls, in order:
  one per removal a purge attempts, or one per delete call of a deletion
  cascade.
- `created: bool` is the answer to team creation.
- `memberships: seq<string>` is the user's team list.

The pure parts sit in modules:

- `Lists`: `list.index`, removing the first occurrence, string order,
  `sorted`, `sorted(set(...))`, and `sorted(key=len, reverse=True)`.
- `Names`: Python's `in` on strings, `str.replace`, `split(".")`/`join`, and
  the deletion allow-list.
- `Membership`: the six-list roster and the specification of every roster
  update.
- `Registry`: the specifications of the team list and the name-to-team map
  under deletion and renaming.

Each `for` loop of the Python code is a `while` loop in a method, proved
against a specification. Most loops are proved equal to a specification
function. The parent-renaming loop is proved against a `forall`
postcondition over every team it reaches. The list comprehensions of
delete_team are functions (`Registry.Candidates`, `Names.AllowedName`). The
properties the code promises are lemmas about those functions.

## Model

| member | source | states |
|---|---|---|
| Lists.IndexOf | pykblib/keybase.py:97 | the position found is the first occurrence of the value; it is `len` exactly when the value is absent |
| Lists.RemoveFirst | pykblib/team.py:157 | popping the first occurrence removes the value at its first position and keeps the rest in order; a list without the value is unchanged |
| Lists.RemoveEach | pykblib/keybase.py:93-97 | removing one occurrence per name, name after name, removes exactly those copies from the list's multiset |
| Lists.Sort | pykblib/keybase.py:67-68 | the re-sorted list is ordered under Python's string order and is a permutation of its input |
| Lists.SortedSet | pykblib/team.py:203 | `sorted(set(xs))` is strictly increasing (so free of duplicates) and holds exactly the elements of xs |
| Lists.StrictlySortedUnique | pykblib/team.py:203 | two strictly sorted lists with the same elements are equal, so `sorted(set(...))` is determined by the set |
| Lists.ByLengthDesc | pykblib/keybase.py:93 | `sorted(key=len, reverse=True)` puts no name after a shorter one and is a permutation of its input |
| Lists.LessTotal | pykblib/keybase.py:68 | Python's string order is total: of two distinct strings one is smaller |
| Names.ContainsAt | pykblib/keybase.py:151 | `old_name in team_name` holds exactly when the old name occurs at some offset |
| Names.ReplaceAbsent | pykblib/team.py:382 | replacing a name that does not occur leaves the string unchanged |
| Names.ReplaceSame | pykblib/team.py:382 | replacing a name by itself leaves the string unchanged |
| Names.ReplaceIntroduces | pykblib/team.py:382 | after replacing an occurring name, the new name occurs in the result |
| Names.ReplacePrefix | pykblib/team.py:382 | a name starting with the old parent, which occurs nowhere else in it, gets the new parent in its place and keeps the rest |
| Names.Split | pykblib/team.py:296 | `split(".")` yields at least one part, no part holds a dot, and there is a single part exactly when the name has no dot |
| Names.JoinSplit | pykblib/team.py:296 | `".".join(name.split("."))` gives back the name |
| Names.ParentAndLast | pykblib/team.py:293-296 | a dotted name is its parent, a dot, and a dot-free last segment |
| Names.SiblingKeepsParent | pykblib/team.py:293-296 | the renamed sub-team keeps everything up to its last dot and ends with the new segment |
| Membership.ActiveMembers | pykblib/team.py:194-204 | members() is strictly sorted and holds exactly the users with an active role, excluding users only in reset or deleted |
| Membership.ActiveMembersUnique | pykblib/team.py:194-204 | any strictly sorted list of exactly the active users is members() |
| Membership.ActiveUpToAll | pykblib/team.py:200-202 | concatenating the four active lists in role order gives the roster's active contents |
| Membership.AddedBag | pykblib/team.py:105-112 | a successful add puts each given name once more into the active lists and changes no other count |
| Membership.AddedWellFormed | pykblib/team.py:105-112 | adding distinct new users keeps every user in at most one active slot, and they all become members |
| Membership.ChangeRoleUpToAll | pykblib/team.py:153-159 | the loop over the four role lists, in order, computes the role change |
| Membership.ChangeRoleMoves | pykblib/team.py:153-159 | after a role change the user is in the new role's list, appended only if it was absent; every other active list loses one occurrence of the user; reset and deleted are untouched |
| Membership.ChangeRoleWellFormed | pykblib/team.py:153-159 | on a roster where nobody has two active slots, the role change keeps that so, and the user is listed under the new role only |
| Membership.StripUpToAll | pykblib/team.py:270-273 | the loop over the four role lists computes the removal |
| Membership.StripDropsFirst | pykblib/team.py:270-273 | removal on each active list: a list holding the user loses its first occurrence and keeps the rest in order, a list without the user is unchanged, and reset and deleted stay |
| Membership.StripCount | pykblib/team.py:270-273 | removal never raises a count and changes no other user's count |
| Membership.StripWellFormed | pykblib/team.py:270-273 | on a roster where nobody has two active slots, removal leaves the user without an active role and every other user as before |
| Membership.AddThenRemove | pykblib/team.py:72-112 | a user who is not yet a member, added to a well-formed roster (nobody in two active slots) and then removed (remove_member, team.py lines 257-274), is a member in between and not afterwards |
| Membership.FailuresExact | pykblib/team.py:216-221 | the failures are exactly the attempted names whose removal failed, and there are never more of them than attempts |
| Membership.FailuresNone | pykblib/team.py:216-221 | when every removal succeeds, the failure list is empty |
| Membership.FailuresAll | pykblib/team.py:216-221 | when every removal fails, the failure list is the whole list in order |
| Membership.StripEachWellFormed | pykblib/team.py:216-221 | the purge removals keep the roster well formed and leave reset and deleted to the purge |
| Membership.StripEachRemoves | pykblib/team.py:216-221 | on a well-formed roster, every user whose removal succeeded has no active role afterwards, whatever later attempts do |
| Membership.PlaceAllSpec | pykblib/team.py:340-360 | walking one role array files its status-0 and unknown-status members under that role, status 1 under reset and status 2 under deleted, in order, and leaves other roles alone |
| Membership.ClassifySpec | pykblib/team.py:327-365 | update() gives each role exactly its array's active members in order, and reset and deleted collect status 1 and 2 from all four arrays in owner, admin, writer, reader order; a null array contributes nothing |
| Membership.OwnRoleSpec | pykblib/team.py:337-343 | the recorded role is the last role in owner, admin, writer, reader order whose array lists the session user, whatever their status; when no array lists the user, the previous role stays |
| Registry.Candidates | pykblib/keybase.py:89 | the deletion candidates are exactly the listed names starting with the given name, a plain prefix not anchored at a dot |
| Registry.Partition | pykblib/keybase.py:89 | every list entry is either a candidate or another entry, as often as it is listed |
| Registry.DeletionOrderSpec | pykblib/keybase.py:89-93 | the deletion order holds exactly the candidates, and a sub-team, whose name extends its parent's, comes before the parent |
| Registry.PrefixesLater | pykblib/keybase.py:93 | in a longest-first order, a proper prefix of a name always comes after that name |
| Registry.Accepted | pykblib/keybase.py:93-95 | the calls made before the first refusal all succeed, and the call after them is refused or there is none |
| Registry.DeletedUpTo | pykblib/keybase.py:93-100 | after k deletions, entries not starting with the name are all still listed in order, and the candidates left are exactly the not yet deleted part of the order |
| Registry.DeletedAll | pykblib/keybase.py:93-101 | when every deletion succeeds, what remains is exactly the entries not starting with the name |
| Registry.DeletionFinds | pykblib/keybase.py:97 | each team to delete is still listed when its turn comes, so `self.teams.index(team)` never fails |
| Registry.RenameKeepsOthers | pykblib/keybase.py:150-154 | the team list keeps its length, and an entry not containing the old name is never rewritten |
| Registry.RenameTeamsNoClash | pykblib/keybase.py:150-154 | on a duplicate-free list where no rewritten entry equals a later entry, each entry becomes its replaced form in place |
| Registry.RenameTeamsLists | pykblib/keybase.py:150-169 | on such a list, renaming a listed team lists the new name, so update_team_name answers True |
| Registry.RenameTeamsClash | pykblib/keybase.py:150-154 | with a clash `index` rewrites the wrong slot: renaming `a` to `ab` in `[a, ab]` leaves `[abb, ab]` |
| Registry.RenameList | pykblib/keybase.py:150-154 | the list loop, visiting positions in order and writing at the position `index` finds, computes the rename specification |
| Registry.PopPutInjective | pykblib/keybase.py:156-157 | moving one registry entry to another key leaves each team object under at most one key and adds no object; an object whose key is overwritten leaves the registry |
| Registry.TeamsAtStep | pykblib/keybase.py:160-162 | visiting one more key of the registry reaches exactly one more team object, never one already told |
| Registry.RekeyStep | pykblib/keybase.py:165-168 | when no two re-keyed names collide, one more re-key step moves that entry to its replaced key and keeps every other entry |
| Registry.Rekey | pykblib/keybase.py:164-168 | the re-key loop leaves each object under at most one key and adds no object (one whose key is overwritten leaves the registry); without collisions it moves exactly the affected keys to their replaced forms and keeps the rest |
| Registry.RenameToExtension | pykblib/keybase.py:156-168 | a name that extends the old one still contains it, so its replaced form extends it again: replacing `a.b` by `a.bc` in `a.bc` gives `a.bcc` |
| Registry.RenameToExtensionRegistry | pykblib/keybase.py:156-168 | a team registered only under `a.b` and renamed to `a.bc` raises no re-key collision, and the registry ends as the single entry `a.bcc` |
| Team.constructor | pykblib/team.py:33-46 | a new team object has its name and session and no members yet |
| Team.AddMember | pykblib/team.py:49-70 | adding one user is adding a one-name list |
| Team.AddMembers | pykblib/team.py:93-112 | on an error response the answer is False and nothing changes; on success the names are appended to the role's list and the other five lists stay |
| Team.ChangeMemberRole | pykblib/team.py:134-160 | on an error response the answer is False and nothing changes; on success the roster is the role change of the old roster |
| Team.CreateSubTeam | pykblib/team.py:182-183 | the session is asked to create exactly `name + "." + child`, with create_team's outcome: the sorted list gains the name, and the new team is linked to the session, holds the classified listing and the user's own role, and is registered under the name |
| Team.Members | pykblib/team.py:194-204 | the answer is strictly sorted and holds exactly the users with an active role |
| Team.RemoveListed | pykblib/team.py:216-219 | one removal is attempted per listed name; the failures come back in order and the active lists lose the successful ones |
| Team.PurgeDeleted | pykblib/team.py:216-221 | the deleted list becomes exactly the failed removals, which are also returned; the active lists lose the removed users |
| Team.PurgeReset | pykblib/team.py:233-238 | the reset list becomes exactly the failed removals, which are also returned; the active lists lose the removed users |
| Team.RemoveMember | pykblib/team.py:257-274 | on an error response the answer is False and nothing changes; on success one occurrence of the user leaves each active list |
| Team.Rename | pykblib/team.py:293-308 | the roster and role never change; a top-level team, or an error response, answers False and changes nothing: the name, the session, and every registered team's name stay; on success the team takes the sibling name, the session's list is renamed, every other registered team whose moved key contains the old name renames its parent and no other changes, no object joins the registry, and without re-key collisions the registry is re-keyed exactly |
| Team.Update | pykblib/team.py:319-366 | on an error response the answer is False and nothing changes; on success the roster is the classified listing and the role is the user's own |
| Team.UpdateParentTeamName | pykblib/team.py:382 | every occurrence of the old parent name in the team's name is replaced |
| Keybase.constructor | pykblib/keybase.py:31-35 | the session starts with the service's team list and no spawned teams |
| Keybase.UpdateTeamList | pykblib/keybase.py:124-126 | the team list is replaced by the service's answer |
| Keybase.CreateTeam | pykblib/keybase.py:56-73 | on an error response nothing changes; on success the list becomes the sorted old list plus the name, and the new team object is registered under it |
| Keybase.OpenTeam | pykblib/keybase.py:103-122 | a new team object with the classified listing is registered under its name; if its first update fails nothing is registered |
| Keybase.DeleteTeam | pykblib/keybase.py:84-101 | a name with a character outside letters, digits, `_`, `-` and `.`, or one not listed, answers False with nothing changed; otherwise, with one answer per delete call in longest-first order, the teams deleted before the first refused call are gone from the list (one occurrence each) and from the registry, the rest remain, and the answer is True exactly when all were deleted |
| Keybase.DeleteInOrder | pykblib/keybase.py:93-101 | the deletion loop stops at the first refusal and removes exactly the accepted teams from list and registry |
| Keybase.UpdateTeamName | pykblib/keybase.py:148-172 | the list is renamed entry by entry; the answer is whether the new name is listed; every registered team whose key, after the old name's own entry has moved to the new name, contains the old name renames its parent, and no other team changes; no object joins the registry; without re-key collisions the registry is re-keyed exactly |
| Keybase.RenameParents | pykblib/keybase.py:158-163 | each team registered under an affected key has its parent renamed exactly once |

## Left out

- Keybase.UpdateTeamName: Python walks the registry's dict in insertion order. A Dafny map has no order, so the loops visit keys in an unspecified order. The final registry is pinned only when no two re-keyed names collide (`Registry.RekeyClean`). Otherwise the contract states only that each team object is under at most one key and that no object is added; an object whose key is overwritten leaves the registry, and which one that is depends on the order.
- Team.Rename: inherits the same gap. When re-keyed names collide, the contract pins the session's registry only to "each object under at most one key, no object added".
- Keybase.UpdateTeamName: the `except ValueError` branch is not modelled. The list loop reads each entry from the list itself, so `index` always finds it (`Lists.IndexOf` never returns the length in `Registry.RenameList`), and the branch cannot be reached.
- Lists.ByLengthDesc: the contract states longest-first and permutation, not stability. The definition inserts each later name after the names of equal length, as Python's stable sort does.
- Roles: a role string outside owner, admin, writer and reader is not modelled. The docstrings require one of the four, and add_members would raise KeyError on any other.
- The `self.reset = list()` assignment at pykblib/team.py:328 sets an attribute nothing reads, so it is left out.
- Error handling: diagnostics printed for unknown statuses (pykblib/team.py:355-359) and for creation errors (pykblib/keybase.py:63-64) are left out.
- Keybase.CreateTeam: when the new team's first update fails, Python's `assert` in `Team.__init__` raises AssertionError. The model returns None instead. It keeps the new name in the list and registers nothing.
- Keybase.OpenTeam: models the same `assert` as a None result.
- `pykblib.functions` (`_api_team`, `_delete_team`, `_get_memberships`, `_get_username`) performs subprocess and JSON I/O. Each call is an oracle parameter, as listed above.
- `steffentools.dict_to_ntuple` is not part of this model. `members_by_role` is the `Membership.Roster` datatype of six sequences. The purges' field assignments (pykblib/team.py:220, 237) are modelled as the intended field update.
- Aliasing: Python's role lists are mutated through aliases in a dict. The model edits a copy of each list and writes the roster back; the resulting state is the same.
- Keybase.DeleteTeam: the delete calls' answers are a sequence, one per call of the cascade, so a name listed twice gets two independent answers. Python pops a registry key only when present; the model writes that as map subtraction, which is the same thing.
- Instance destruction (`del team_instance`) has no counterpart; a deleted team's object simply leaves the registry.
- pykblib/chat.py holds empty placeholder classes and is not modelled. The tests target another API version and are not a source of the model.
