/**
 * The session's bookkeeping of team names, as values: which entries of the
 * team list a deletion removes and in which order, how a rename rewrites the
 * team list, and how the registry of instantiated teams is re-keyed.
 */
module Registry {
  import opened Lists
  import opened Names

  // ---------------------------------------------------------------------
  // delete_team

  /** The entries of the team list that start with `name`, in list order. */
  function Candidates(teams: seq<string>, name: string): (c: seq<string>)
    ensures forall t :: t in c <==> t in teams && name <= t
  {
    if teams == [] then []
    else (if name <= teams[0] then [teams[0]] else []) + Candidates(teams[1..], name)
  }

  /** The entries of the team list that do not start with `name`, in list order. */
  function Others(teams: seq<string>, name: string): (c: seq<string>)
    ensures forall t :: t in c <==> t in teams && !(name <= t)
  {
    if teams == [] then []
    else (if name <= teams[0] then [] else [teams[0]]) + Others(teams[1..], name)
  }

  /** Every entry is either a candidate or one of the others. */
  lemma {:induction false} Partition(teams: seq<string>, name: string)
    ensures multiset(Candidates(teams, name)) + multiset(Others(teams, name)) == multiset(teams)
  {
    if teams != [] {
      Partition(teams[1..], name);
      assert teams == [teams[0]] + teams[1..];
    }
  }

  lemma {:induction false} OthersAppend(a: seq<string>, b: seq<string>, name: string)
    ensures Others(a + b, name) == Others(a, name) + Others(b, name)
  {
    if a != [] {
      assert (a + b)[1..] == a[1..] + b;
      OthersAppend(a[1..], b, name);
    } else {
      assert a + b == b;
    }
  }

  lemma {:induction false} NoCandidates(teams: seq<string>, name: string)
    requires Candidates(teams, name) == []
    ensures Others(teams, name) == teams
  {
    if teams != [] {
      NoCandidates(teams[1..], name);
      assert teams == [teams[0]] + teams[1..];
    }
  }

  /** Removing an entry that starts with `name` leaves the other entries, in order. */
  lemma OthersRemoveFirst(teams: seq<string>, x: string, name: string)
    requires name <= x
    ensures Others(RemoveFirst(teams, x), name) == Others(teams, name)
  {
    if x in teams {
      var i := IndexOf(teams, x);
      var pre, rest := teams[..i], teams[i + 1..];
      assert RemoveFirst(teams, x) == pre + rest;
      assert teams == pre + ([x] + rest);
      assert Others([x] + rest, name) == Others(rest, name) by {
        assert ([x] + rest)[1..] == rest;
      }
      OthersAppend(pre, [x] + rest, name);
      OthersAppend(pre, rest, name);
    }
  }

  lemma {:induction false} OthersRemoveEach(teams: seq<string>, xs: seq<string>, name: string)
    requires forall x :: x in xs ==> name <= x
    ensures Others(RemoveEach(teams, xs), name) == Others(teams, name)
    decreases |xs|
  {
    if xs != [] {
      var n := |xs| - 1;
      assert xs[n] in xs;
      forall y | y in xs[..n] ensures name <= y { assert y in xs; }
      OthersRemoveEach(teams, xs[..n], name);
      OthersRemoveFirst(RemoveEach(teams, xs[..n]), xs[n], name);
    }
  }

  /** `sorted(teams, key=len, reverse=True)` over the candidates: the order of the delete calls. */
  function DeletionOrder(teams: seq<string>, name: string): seq<string>
  {
    ByLengthDesc(Candidates(teams, name))
  }

  /**
   * The deletion order holds exactly the entries that start with `name`, each
   * as often as the list does, and a sub-team (whose name extends its
   * parent's) is always deleted before its parent.
   */
  lemma DeletionOrderSpec(teams: seq<string>, name: string)
    ensures var order := DeletionOrder(teams, name);
      && multiset(order) == multiset(Candidates(teams, name))
      && (forall t :: t in order <==> t in teams && name <= t)
      && (forall i, j :: 0 <= i < |order| && 0 <= j < |order| && order[j] < order[i] ==> i < j)
  {
    var order := DeletionOrder(teams, name);
    forall t ensures t in order <==> t in Candidates(teams, name) {
      assert t in order <==> t in multiset(order);
    }
    PrefixesLater(order);
  }

  /** In a longest-first list a proper prefix of an entry comes after it. */
  lemma PrefixesLater(order: seq<string>)
    requires LongestFirst(order)
    ensures forall i, j :: 0 <= i < |order| && 0 <= j < |order| && order[j] < order[i] ==> i < j
  {
    forall i, j | 0 <= i < |order| && 0 <= j < |order| && order[j] < order[i] ensures i < j {
      assert |order[j]| < |order[i]|;
    }
  }

  /**
   * How many delete calls succeed before the first refusal, given the
   * service's answer to each call in order: the calls stop at a refusal.
   */
  function Accepted(answers: seq<bool>): (k: nat)
    ensures k <= |answers|
    ensures forall i :: 0 <= i < k ==> answers[i]
    ensures k < |answers| ==> !answers[k]
  {
    if answers == [] || !answers[0] then 0
    else 1 + Accepted(answers[1..])
  }

  /**
   * After the first k delete calls of the order succeed, the entries that do
   * not start with `name` are all still listed, in their order, and the
   * entries left that start with `name` are exactly the ones not yet deleted.
   */
  lemma DeletedUpTo(teams: seq<string>, name: string, k: nat)
    requires k <= |DeletionOrder(teams, name)|
    ensures var order := DeletionOrder(teams, name);
      var rest := RemoveEach(teams, order[..k]);
      && Others(rest, name) == Others(teams, name)
      && multiset(Candidates(rest, name)) == multiset(order[k..])
  {
    var order := DeletionOrder(teams, name);
    DeletionOrderPrefix(teams, name, k);
    OthersRemoveEach(teams, order[..k], name);
    DeletedRemaining(teams, name, order, k);
  }

  lemma DeletedRemaining(teams: seq<string>, name: string, order: seq<string>, k: nat)
    requires multiset(order) == multiset(Candidates(teams, name)) && k <= |order|
    requires Others(RemoveEach(teams, order[..k]), name) == Others(teams, name)
    ensures multiset(Candidates(RemoveEach(teams, order[..k]), name)) == multiset(order[k..])
  {
    var rest := RemoveEach(teams, order[..k]);
    SplitAt(teams, name, order, k);
    Partition(rest, name);
    MultisetCancel(multiset(order[..k]), multiset(order[k..]), multiset(Others(teams, name)),
      multiset(Candidates(rest, name)));
  }

  lemma SplitAt(teams: seq<string>, name: string, order: seq<string>, k: nat)
    requires multiset(order) == multiset(Candidates(teams, name)) && k <= |order|
    ensures multiset(teams) == multiset(order[..k]) + multiset(order[k..]) + multiset(Others(teams, name))
  {
    assert order == order[..k] + order[k..];
    Partition(teams, name);
  }

  lemma DeletionOrderPrefix(teams: seq<string>, name: string, k: nat)
    requires k <= |DeletionOrder(teams, name)|
    ensures multiset(DeletionOrder(teams, name)) == multiset(Candidates(teams, name))
    ensures forall x :: x in DeletionOrder(teams, name)[..k] ==> name <= x
  {
    var order := DeletionOrder(teams, name);
    DeletionOrderSpec(teams, name);
    forall x | x in order[..k] ensures name <= x { assert x in order; }
  }

  lemma MultisetCancel<T>(p: multiset<T>, q: multiset<T>, o: multiset<T>, c: multiset<T>)
    requires c + o == (p + q + o) - p
    ensures c == q
  {
    forall x ensures c[x] == q[x] {
      assert (c + o)[x] == ((p + q + o) - p)[x];
    }
  }

  /** The names deleted by the first k calls of the order. */
  function FirstNames(order: seq<string>, k: nat): set<string>
    requires k <= |order|
  {
    set t | t in order[..k]
  }

  /** One more successful delete call: one more entry removed from the list and from the registry. */
  lemma DeletionStep(teams: seq<string>, order: seq<string>, k: nat)
    requires k < |order|
    ensures RemoveEach(teams, order[..k + 1]) == RemoveFirst(RemoveEach(teams, order[..k]), order[k])
    ensures FirstNames(order, k + 1) == FirstNames(order, k) + {order[k]}
  {
    var pre := order[..k + 1];
    assert pre[..|pre| - 1] == order[..k] && pre[|pre| - 1] == order[k];
    FirstNamesStep(order, k);
  }

  lemma FirstNamesStep(order: seq<string>, k: nat)
    requires k < |order|
    ensures FirstNames(order, k + 1) == FirstNames(order, k) + {order[k]}
  {
    assert order[..k + 1] == order[..k] + [order[k]];
  }

  lemma AcceptedStep(answers: seq<bool>, i: nat)
    requires i <= Accepted(answers) && i < |answers| && answers[i]
    ensures i + 1 <= Accepted(answers)
  {
  }

  lemma AcceptedExit(answers: seq<bool>, i: nat)
    requires i <= Accepted(answers) && (i == |answers| || (i < |answers| && !answers[i]))
    ensures i == Accepted(answers)
  {
  }

  /** An accepted delete call drops the team's entry from the list, where `index` finds it. */
  lemma ListDeletionStep(teams: seq<string>, name: string, i: nat, list: seq<string>)
    requires i < |DeletionOrder(teams, name)|
    requires list == RemoveEach(teams, DeletionOrder(teams, name)[..i])
    ensures var order := DeletionOrder(teams, name);
      && order[i] in list
      && RemoveFirst(list, order[i]) == RemoveEach(teams, order[..i + 1])
  {
    DeletionFinds(teams, name, i);
    DeletionStep(teams, DeletionOrder(teams, name), i);
  }

  /** An accepted delete call drops the team's registry entry, if any; the registry stays injective. */
  lemma RegistryDeletionStep<V>(m: map<string, V>, order: seq<string>, i: nat, cur: map<string, V>)
    requires i < |order| && cur == m - FirstNames(order, i) && Injective(cur)
    ensures cur - {order[i]} == m - FirstNames(order, i + 1)
    ensures Injective(cur - {order[i]})
  {
    FirstNamesStep(order, i);
    RemoveKeysInjective(cur, {order[i]});
  }

  /** A deletion whose calls all succeed leaves exactly the entries that do not start with `name`. */
  lemma DeletedAll(teams: seq<string>, name: string)
    ensures var rest := RemoveEach(teams, DeletionOrder(teams, name));
      && rest == Others(teams, name)
      && forall t :: t in rest ==> !(name <= t)
  {
    var order := DeletionOrder(teams, name);
    DeletedUpTo(teams, name, |order|);
    assert order[..|order|] == order;
    var rest := RemoveEach(teams, order);
    assert multiset(Candidates(rest, name)) == multiset{};
    assert |Candidates(rest, name)| == 0;
    NoCandidates(rest, name);
  }

  /** Each delete call finds its team in the list, so `self.teams.index(team)` never fails. */
  lemma DeletionFinds(teams: seq<string>, name: string, i: nat)
    requires i < |DeletionOrder(teams, name)|
    ensures var order := DeletionOrder(teams, name);
      order[i] in RemoveEach(teams, order[..i])
  {
    var order := DeletionOrder(teams, name);
    DeletedUpTo(teams, name, i);
    var rest := RemoveEach(teams, order[..i]);
    assert order[i] in multiset(order[i..]) by { assert order[i..][0] == order[i]; }
    assert order[i] in Candidates(rest, name);
  }

  // ---------------------------------------------------------------------
  // update_team_name, the team list

  /**
   * One step of the rename loop over the team list: the entry at position i,
   * if it contains the old name, is rewritten at the first position holding
   * that same value (`self.teams.index(team_name)`).
   */
  function RenameStep(s: seq<string>, i: nat, o: string, n: string): (r: seq<string>)
    requires i < |s|
    ensures |r| == |s|
  {
    if Contains(s[i], o) then
      assert s[i] in s;
      s[IndexOf(s, s[i]) := Replace(s[i], o, n)]
    else s
  }

  function RenameUpTo(s: seq<string>, k: nat, o: string, n: string): (r: seq<string>)
    requires k <= |s|
    ensures |r| == |s|
  {
    if k == 0 then s else RenameStep(RenameUpTo(s, k - 1, o, n), k - 1, o, n)
  }

  /** The team list after the rename loop has visited every position. */
  function RenameTeams(s: seq<string>, o: string, n: string): seq<string>
  {
    RenameUpTo(s, |s|, o, n)
  }

  lemma {:induction false} RenameUpToKeeps(s: seq<string>, k: nat, o: string, n: string)
    requires k <= |s|
    ensures forall j :: 0 <= j < |s| && !Contains(s[j], o) ==> RenameUpTo(s, k, o, n)[j] == s[j]
  {
    if k > 0 {
      RenameUpToKeeps(s, k - 1, o, n);
    }
  }

  /** Entries that do not contain the old name are never rewritten. */
  lemma RenameKeepsOthers(s: seq<string>, o: string, n: string)
    ensures |RenameTeams(s, o, n)| == |s|
    ensures forall j :: 0 <= j < |s| && !Contains(s[j], o) ==> RenameTeams(s, o, n)[j] == s[j]
  {
    RenameUpToKeeps(s, |s|, o, n);
  }

  /**
   * The list holds no duplicate and no rewritten entry equals a later entry:
   * then `index` always finds the entry being visited.
   */
  predicate NoClash(s: seq<string>, o: string, n: string)
  {
    && Distinct(s)
    && forall i, j :: 0 <= j < i < |s| && Contains(s[j], o) ==> Replace(s[j], o, n) != s[i]
  }

  function Renamed(t: string, o: string, n: string): string
  {
    if Contains(t, o) then Replace(t, o, n) else t
  }

  lemma {:induction false} RenameUpToNoClash(s: seq<string>, k: nat, o: string, n: string)
    requires k <= |s| && NoClash(s, o, n)
    ensures forall j :: 0 <= j < k ==> RenameUpTo(s, k, o, n)[j] == Renamed(s[j], o, n)
    ensures forall j :: k <= j < |s| ==> RenameUpTo(s, k, o, n)[j] == s[j]
  {
    if k > 0 {
      RenameUpToNoClash(s, k - 1, o, n);
      var cur := RenameUpTo(s, k - 1, o, n);
      if Contains(s[k - 1], o) {
        assert cur[k - 1] == s[k - 1];
        assert forall j :: 0 <= j < k - 1 ==> cur[j] != s[k - 1];
        assert IndexOf(cur, cur[k - 1]) == k - 1;
      }
    }
  }

  /** Without clashes every entry that contains the old name is rewritten, and only those. */
  lemma RenameTeamsNoClash(s: seq<string>, o: string, n: string)
    requires NoClash(s, o, n)
    ensures |RenameTeams(s, o, n)| == |s|
    ensures forall j :: 0 <= j < |s| ==> RenameTeams(s, o, n)[j] == Renamed(s[j], o, n)
  {
    RenameUpToNoClash(s, |s|, o, n);
  }

  /** Without clashes, renaming a listed team puts the new name in the list. */
  lemma RenameTeamsLists(s: seq<string>, o: string, n: string)
    requires NoClash(s, o, n) && o in s
    ensures n in RenameTeams(s, o, n)
  {
    RenameTeamsNoClash(s, o, n);
    var j := IndexOf(s, o);
    assert Contains(o, o) by { assert o <= o; }
    if o == [] {
      assert Replace(o, o, n) == n;
    } else {
      ReplacePrefix(o, [], n);
      assert o + [] == o && n + [] == n;
    }
    assert RenameTeams(s, o, n)[j] == n;
  }

  /**
   * With a clash the loop rewrites the wrong entry: renaming `a` to `ab` in
   * `[a, ab]` turns the first entry into `ab`, so the second visit's `index`
   * finds position 0 and the list ends as `[abb, ab]`.
   */
  lemma RenameTeamsClash()
    ensures RenameTeams(["a", "ab"], "a", "ab") == ["abb", "ab"]
  {
    var s := ["a", "ab"];
    assert Contains("a", "a") by { assert "a" <= "a"; }
    assert Replace("a", "a", "ab") == "ab" by { ReplacePrefix("a", [], "ab"); }
    var s1 := RenameStep(s, 0, "a", "ab");
    assert s1 == ["ab", "ab"];
    assert Contains("ab", "a") by { assert "a" <= "ab"; }
    assert Replace("ab", "a", "ab") == "abb" by {
      assert !Contains([], "a");
      assert "b"[1..] == [];
      assert !("a" <= "b") by { assert "a"[0] != "b"[0]; }
      assert !Contains("b", "a");
      ReplacePrefix("a", "b", "ab");
    }
    assert IndexOf(s1, s1[1]) == 0;
    assert RenameUpTo(s, 2, "a", "ab") == RenameStep(s1, 1, "a", "ab");
  }

  /**
   * The list loop of update_team_name: every position is visited once, in
   * order, and an entry containing the old name is overwritten at the
   * position `index` finds for it.
   */
  method RenameList(teams: seq<string>, o: string, n: string) returns (list: seq<string>)
    ensures list == RenameTeams(teams, o, n)
  {
    list := teams;
    var i := 0;
    while i < |list|
      invariant |list| == |teams| && 0 <= i <= |list|
      invariant list == RenameUpTo(teams, i, o, n)
    {
      var name := list[i];
      if Contains(name, o) {
        var j := IndexOf(list, name);
        list := list[j := Replace(name, o, n)];
      }
      i := i + 1;
    }
  }

  // ---------------------------------------------------------------------
  // update_team_name, the registry of instantiated teams

  /** No two keys share a value: each team object is registered under one name. */
  predicate Injective<V(==)>(m: map<string, V>)
  {
    forall a, b :: a in m && b in m && m[a] == m[b] ==> a == b
  }

  /** `m[x] = m.pop(k)`: the value under k moves to x, replacing whatever x held. */
  function PopPut<V>(m: map<string, V>, k: string, x: string): map<string, V>
    requires k in m
  {
    (m - {k})[x := m[k]]
  }

  /** Moving one entry to another key keeps every team under a single key. */
  lemma PopPutInjective<V>(m: map<string, V>, k: string, x: string)
    requires k in m && Injective(m)
    ensures Injective(PopPut(m, k, x))
    ensures PopPut(m, k, x).Values <= m.Values
  {
    var r := PopPut(m, k, x);
    forall a, b | a in r && b in r && r[a] == r[b] ensures a == b {
      assert r[a] == if a == x then m[k] else m[a];
      assert r[b] == if b == x then m[k] else m[b];
    }
    forall v | v in r.Values ensures v in m.Values {
      var a :| a in r && r[a] == v;
      if a == x { assert m[k] == v; } else { assert m[a] == v; }
    }
  }

  /** Registering a new object keeps every team under a single key. */
  lemma PutNewInjective<V>(m: map<string, V>, k: string, v: V)
    requires Injective(m) && v !in m.Values
    ensures Injective(m[k := v])
  {
    var r := m[k := v];
    forall a, b | a in r && b in r && r[a] == r[b] ensures a == b {
      assert a != k ==> r[a] == m[a] && r[a] in m.Values;
      assert b != k ==> r[b] == m[b] && r[b] in m.Values;
    }
  }

  /** Unregistering teams keeps every remaining team under a single key. */
  lemma RemoveKeysInjective<V>(m: map<string, V>, ks: set<string>)
    requires Injective(m)
    ensures Injective(m - ks)
  {
  }

  /** The registry after the old name's own entry has moved to the new name. */
  function MoveKey<V>(m: map<string, V>, o: string, n: string): map<string, V>
  {
    if o in m then PopPut(m, o, n) else m
  }

  /** The keys that contain the old name: the teams told about the rename and then re-keyed. */
  function Affected<V>(m: map<string, V>, o: string): set<string>
  {
    set k | k in m && Contains(k, o)
  }

  /** The team objects registered under the keys in ks. */
  function TeamsAt<V>(m: map<string, V>, ks: set<string>): (ts: set<V>)
    ensures ts <= m.Values
  {
    set k | k in ks && k in m :: m[k]
  }

  /** Visiting one more key of an injective registry reaches exactly one more, unvisited, team. */
  lemma TeamsAtStep<V>(m: map<string, V>, done: set<string>, k: string)
    requires Injective(m) && k in m && k !in done
    ensures m[k] !in TeamsAt(m, done)
    ensures TeamsAt(m, done + {k}) == TeamsAt(m, done) + {m[k]}
  {
    forall k' | k' in done && k' in m
      ensures m[k'] != m[k]
    {
      assert k' != k;
    }
  }

  /**
   * The re-keying needs no tie-break: distinct affected keys get distinct
   * new keys, and a new key that is already registered is the affected key itself.
   */
  predicate RekeyClean<V>(m: map<string, V>, o: string, n: string)
  {
    && (forall a, b :: a in m && b in m && Contains(a, o) && Contains(b, o) && Replace(a, o, n) == Replace(b, o, n) ==> a == b)
    && (forall a :: a in m && Contains(a, o) && Replace(a, o, n) in m ==> Replace(a, o, n) == a)
  }

  /** The registry cur holds m's entries with the keys in done re-keyed, and nothing else. */
  predicate RekeyedUpTo<V(==)>(m: map<string, V>, o: string, n: string, done: set<string>, cur: map<string, V>)
  {
    && (forall k :: k in done && k in m ==> Replace(k, o, n) in cur && cur[Replace(k, o, n)] == m[k])
    && (forall k :: k in m && k !in done ==> k in cur && cur[k] == m[k])
    && (forall x :: x in cur ==> (x in m && x !in done) || exists k :: k in done && k in m && Replace(k, o, n) == x)
  }

  /** One re-keying step of the loop keeps the registry described by RekeyedUpTo. */
  lemma RekeyStep<V>(m: map<string, V>, o: string, n: string, done: set<string>, cur: map<string, V>, k: string)
    requires RekeyClean(m, o, n) && done <= Affected(m, o)
    requires k in Affected(m, o) && k !in done
    requires RekeyedUpTo(m, o, n, done, cur)
    ensures k in cur
    ensures RekeyedUpTo(m, o, n, done + {k}, PopPut(cur, k, Replace(k, o, n)))
  {
    RekeyStepMoved(m, o, n, done, cur, k);
    RekeyStepKept(m, o, n, done, cur, k);
    RekeyStepOnly(m, o, n, done, cur, k);
  }

  /** Every re-keyed team, the new one included, sits under its rewritten key. */
  lemma RekeyStepMoved<V>(m: map<string, V>, o: string, n: string, done: set<string>, cur: map<string, V>, k: string)
    requires RekeyClean(m, o, n) && done <= Affected(m, o)
    requires k in Affected(m, o) && k !in done
    requires RekeyedUpTo(m, o, n, done, cur)
    ensures k in cur
    ensures var next := PopPut(cur, k, Replace(k, o, n));
      forall k' :: k' in done + {k} && k' in m ==> Replace(k', o, n) in next && next[Replace(k', o, n)] == m[k']
  {
    var x := Replace(k, o, n);
    var next := PopPut(cur, k, x);
    forall k' | k' in done && k' in m
      ensures Replace(k', o, n) in next && next[Replace(k', o, n)] == m[k']
    {
      var y := Replace(k', o, n);
      assert y != x;
      assert y != k;
    }
  }

  /** Every key not yet re-keyed keeps its team. */
  lemma RekeyStepKept<V>(m: map<string, V>, o: string, n: string, done: set<string>, cur: map<string, V>, k: string)
    requires RekeyClean(m, o, n) && done <= Affected(m, o)
    requires k in Affected(m, o) && k !in done
    requires RekeyedUpTo(m, o, n, done, cur)
    ensures var next := PopPut(cur, k, Replace(k, o, n));
      forall k' :: k' in m && k' !in done + {k} ==> k' in next && next[k'] == m[k']
  {
    var x := Replace(k, o, n);
    forall k' | k' in m && k' !in done + {k}
      ensures k' != x
    {
    }
  }

  /** The registry holds nothing but those entries. */
  lemma RekeyStepOnly<V>(m: map<string, V>, o: string, n: string, done: set<string>, cur: map<string, V>, k: string)
    requires k in Affected(m, o) && k !in done
    requires RekeyedUpTo(m, o, n, done, cur)
    ensures var next := PopPut(cur, k, Replace(k, o, n));
      forall y :: y in next ==> (y in m && y !in done + {k}) || exists k' :: k' in done + {k} && k' in m && Replace(k', o, n) == y
  {
    var x := Replace(k, o, n);
    var next := PopPut(cur, k, x);
    forall y | y in next
      ensures (y in m && y !in done + {k}) || exists k' :: k' in done + {k} && k' in m && Replace(k', o, n) == y
    {
      if y == x {
        assert k in done + {k} && k in m;
      } else {
        assert y in cur && y != k;
      }
    }
  }

  /** At the start of the loop nothing has been re-keyed. */
  lemma RekeyStart<V>(m: map<string, V>, o: string, n: string)
    ensures RekeyedUpTo(m, o, n, {}, m)
  {
  }

  /**
   * The re-keying loop of update_team_name: each affected key, in some
   * order, gives its team to the key with the old name replaced.
   */
  method Rekey<V(==)>(m: map<string, V>, o: string, n: string) returns (cur: map<string, V>)
    requires Injective(m)
    ensures Injective(cur) && cur.Values <= m.Values
    ensures RekeyClean(m, o, n) ==> RekeyedUpTo(m, o, n, Affected(m, o), cur)
  {
    var affected := Affected(m, o);
    cur := m;
    var rest := affected;
    ghost var done: set<string> := {};
    RekeyStart(m, o, n);
    while rest != {}
      invariant rest <= affected && done == affected - rest
      invariant forall k :: k in rest ==> k in cur
      invariant Injective(cur) && cur.Values <= m.Values
      invariant RekeyClean(m, o, n) ==> RekeyedUpTo(m, o, n, done, cur)
      decreases |rest|
    {
      var key :| key in rest;
      var renamed := Replace(key, o, n);
      if RekeyClean(m, o, n) {
        RekeyStep(m, o, n, done, cur, key);
      }
      PopPutInjective(cur, key, renamed);
      cur := PopPut(cur, key, renamed);
      rest := rest - {key};
      done := done + {key};
    }
  }

  /**
   * A team renamed to a name that extends its old one is re-keyed a second
   * time: the moved entry's key contains the old name, so `a.b` renamed to
   * `a.bc` ends up registered as `a.bcc`.
   */
  lemma RenameToExtension(o: string, x: string)
    requires o != [] && x != [] && !Contains(x, o)
    ensures Contains(o + x, o)
    ensures Replace(o + x, o, o + x) == o + x + x != o + x
  {
    assert o <= o + x;
    ReplacePrefix(o, x, o + x);
    assert |o + x + x| > |o + x|;
  }

  /**
   * The registry side of the same rename: a team registered only under `o`
   * and renamed to `o + x` is moved to `o + x`, whose key contains `o`, so
   * the re-key loop moves it once more; no collision arises, and the
   * registry ends as the single entry `o + x + x`.
   */
  lemma RenameToExtensionRegistry<V>(o: string, x: string, team: V, cur: map<string, V>)
    requires o != [] && x != [] && !Contains(x, o)
    requires var moved := MoveKey(map[o := team], o, o + x);
      RekeyedUpTo(moved, o, o + x, Affected(moved, o), cur)
    ensures RekeyClean(MoveKey(map[o := team], o, o + x), o, o + x)
    ensures cur == map[o + x + x := team]
  {
    RenameToExtension(o, x);
    var moved := MoveKey(map[o := team], o, o + x);
    assert moved == map[o + x := team];
    assert Affected(moved, o) == {o + x};
    assert o + x + x !in moved;
    assert o + x + x in cur && cur[o + x + x] == team;
    forall k | k in cur ensures k == o + x + x {
    }
    assert cur.Keys == {o + x + x};
  }
}
