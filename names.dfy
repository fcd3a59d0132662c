/**
 * The string operations team names go through: Python's `in` on strings,
 * str.replace, str.split(".") and ".".join, and the character allow-list
 * that guards team deletion.
 */
module Names {

  /** `sub in s` on Python strings (the empty string is in every string). */
  predicate Contains(s: string, sub: string)
    decreases |s|
  {
    sub <= s || (s != [] && Contains(s[1..], sub))
  }

  /** sub occurs in s starting at offset i. */
  predicate OccursAt(s: string, sub: string, i: nat)
  {
    i + |sub| <= |s| && s[i..i + |sub|] == sub
  }

  /** Contains agrees with the plain definition: sub occurs at some offset of s. */
  lemma ContainsAt(s: string, sub: string)
    ensures Contains(s, sub) <==> exists i: nat :: OccursAt(s, sub, i)
  {
    if Contains(s, sub) {
      var i := OffsetOf(s, sub);
    }
    if exists i: nat :: OccursAt(s, sub, i) {
      var i: nat :| OccursAt(s, sub, i);
      ContainsFrom(s, sub, i);
    }
  }

  lemma {:induction false} OffsetOf(s: string, sub: string) returns (i: nat)
    requires Contains(s, sub)
    ensures OccursAt(s, sub, i)
    decreases |s|
  {
    if sub <= s {
      i := 0;
    } else {
      var j := OffsetOf(s[1..], sub);
      i := j + 1;
      assert s[1..][j..j + |sub|] == s[i..i + |sub|];
    }
  }

  lemma {:induction false} ContainsFrom(s: string, sub: string, i: nat)
    requires OccursAt(s, sub, i)
    ensures Contains(s, sub)
  {
    if i == 0 {
      assert sub <= s;
    } else {
      assert s[1..][i - 1..i - 1 + |sub|] == s[i..i + |sub|];
      ContainsFrom(s[1..], sub, i - 1);
    }
  }

  /** `s.replace("", n)`: n before every character and at the end. */
  function Interleave(s: string, n: string): string
  {
    if s == [] then n else n + [s[0]] + Interleave(s[1..], n)
  }

  /** `s.replace(o, n)`: every non-overlapping occurrence of o, scanning left to right, becomes n. */
  function Replace(s: string, o: string, n: string): string
    decreases |s|
  {
    if o == [] then Interleave(s, n)
    else if o <= s then n + Replace(s[|o|..], o, n)
    else if s == [] then []
    else [s[0]] + Replace(s[1..], o, n)
  }

  /** A string that does not contain o is left as it is. */
  lemma {:induction false} ReplaceAbsent(s: string, o: string, n: string)
    requires !Contains(s, o)
    ensures Replace(s, o, n) == s
  {
    if s != [] {
      ReplaceAbsent(s[1..], o, n);
      assert s == [s[0]] + s[1..];
    }
  }

  /** Replacing a string by itself changes nothing. */
  lemma {:induction false} ReplaceSame(s: string, o: string)
    ensures Replace(s, o, o) == s
  {
    if o == [] {
      InterleaveEmpty(s);
    } else if o <= s {
      ReplaceSame(s[|o|..], o);
      assert s == o + s[|o|..];
    } else if s != [] {
      ReplaceSame(s[1..], o);
      assert s == [s[0]] + s[1..];
    }
  }

  lemma {:induction false} InterleaveEmpty(s: string)
    ensures Interleave(s, []) == s
  {
    if s != [] {
      InterleaveEmpty(s[1..]);
      assert s == [s[0]] + s[1..];
    }
  }

  /** A string that contains o contains n once o is replaced by n. */
  lemma {:induction false} ReplaceIntroduces(s: string, o: string, n: string)
    requires Contains(s, o)
    ensures Contains(Replace(s, o, n), n)
  {
    if o == [] {
      if s != [] { assert Replace(s, o, n) == n + ([s[0]] + Interleave(s[1..], n)); }
    } else if o <= s {
    } else {
      ReplaceIntroduces(s[1..], o, n);
      var r := Replace(s, o, n);
      assert r[1..] == Replace(s[1..], o, n);
    }
  }

  /**
   * The rename cascade on a descendant's name: with o as a prefix and no other
   * occurrence of o in the rest, only the prefix changes
   * (`parent.child.grandchild` becomes `parent.child2.grandchild`).
   */
  lemma ReplacePrefix(o: string, rest: string, n: string)
    requires o != [] && !Contains(rest, o)
    ensures Replace(o + rest, o, n) == n + rest
  {
    assert (o + rest)[|o|..] == rest;
    ReplaceAbsent(rest, o, n);
  }

  // ---------------------------------------------------------------------
  // str.split(".") and ".".join(...)

  function Split(s: string): (parts: seq<string>)
    ensures |parts| >= 1
    ensures forall i :: 0 <= i < |parts| ==> '.' !in parts[i]
    ensures |parts| == 1 <==> '.' !in s
  {
    if s == [] then [""]
    else
      var rest := Split(s[1..]);
      if s[0] == '.' then [""] + rest
      else
        assert '.' !in [s[0]] + rest[0];
        [[s[0]] + rest[0]] + rest[1..]
  }

  function Join(parts: seq<string>): string
  {
    if parts == [] then ""
    else if |parts| == 1 then parts[0]
    else parts[0] + "." + Join(parts[1..])
  }

  lemma JoinCons(c: char, parts: seq<string>)
    requires parts != []
    ensures Join([[c] + parts[0]] + parts[1..]) == [c] + Join(parts)
  {
    var ps := [[c] + parts[0]] + parts[1..];
    if |parts| > 1 {
      assert ps[1..] == parts[1..];
    }
  }

  /** Splitting on "." and joining with "." gives the name back. */
  lemma {:induction false} JoinSplit(s: string)
    ensures Join(Split(s)) == s
  {
    if s != [] {
      var rest := Split(s[1..]);
      JoinSplit(s[1..]);
      if s[0] == '.' {
        assert ([""] + rest)[1..] == rest;
        assert s == "." + s[1..];
      } else {
        JoinCons(s[0], rest);
        assert s == [s[0]] + s[1..];
      }
    }
  }

  lemma {:induction false} JoinSnoc(parts: seq<string>)
    requires |parts| >= 2
    ensures Join(parts) == Join(parts[..|parts| - 1]) + "." + parts[|parts| - 1]
  {
    if |parts| > 2 {
      JoinSnoc(parts[1..]);
      assert parts[1..][..|parts| - 2] == parts[..|parts| - 1][1..];
    }
  }

  /** The name without its last dot-segment: `".".join(name.split(".")[:-1])`. */
  function Parent(name: string): string
  {
    var parts := Split(name);
    Join(parts[..|parts| - 1])
  }

  function LastSegment(name: string): string
  {
    var parts := Split(name);
    parts[|parts| - 1]
  }

  /** The name Team.rename asks for: the parent prefix, a dot, then the new last segment. */
  function SiblingName(name: string, leaf: string): string
  {
    Parent(name) + "." + leaf
  }

  /** A dotted name is its parent, a dot and a last segment free of dots. */
  lemma ParentAndLast(name: string)
    requires '.' in name
    ensures name == Parent(name) + "." + LastSegment(name)
    ensures '.' !in LastSegment(name)
  {
    JoinSplit(name);
    JoinSnoc(Split(name));
  }

  /** Index of the last '.' in s. */
  function LastDot(s: string): (i: nat)
    requires '.' in s
    ensures i < |s| && s[i] == '.'
  {
    if s[|s| - 1] == '.' then |s| - 1
    else
      assert s == s[..|s| - 1] + [s[|s| - 1]];
      LastDot(s[..|s| - 1])
  }

  lemma {:induction false} LastDotOf(p: string, l: string)
    requires '.' !in l
    ensures LastDot(p + "." + l) == |p|
    decreases |l|
  {
    var s := p + "." + l;
    if l != [] {
      assert s[..|s| - 1] == p + "." + l[..|l| - 1];
      LastDotOf(p, l[..|l| - 1]);
    }
  }

  /**
   * Renaming keeps everything up to the last dot: whenever name is p + "." + l
   * with l free of dots, the sibling name is p + "." + leaf.
   */
  lemma SiblingKeepsParent(name: string, p: string, l: string, leaf: string)
    requires name == p + "." + l && '.' !in l
    ensures SiblingName(name, leaf) == p + "." + leaf
  {
    assert name[|p|] == '.';
    ParentAndLast(name);
    var P, L := Parent(name), LastSegment(name);
    LastDotOf(p, l);
    LastDotOf(P, L);
    assert P == name[..|p|] == p;
  }

  // ---------------------------------------------------------------------
  // The allow-list of Keybase.delete_team: ASCII letters, digits, '_', '-' and '.'.

  predicate AllowedChar(c: char)
  {
    ('a' <= c <= 'z') || ('A' <= c <= 'Z') || ('0' <= c <= '9') || c == '_' || c == '-' || c == '.'
  }

  predicate AllowedName(s: string)
  {
    forall i :: 0 <= i < |s| ==> AllowedChar(s[i])
  }
}
