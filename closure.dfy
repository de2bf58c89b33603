/** DHCPack.get_all_cpack_components_for_group: the components of a group and, recursively, of its child
    groups, with one `visited` set shared by the whole walk. The functions here are the specification
    the class method is proved against; the lemmas say what the walk computes. */
module ComponentClosure {
  import opened Wrappers
  import opened Seqs
  import opened CPackMetadata

  /** The walk from `group` with the visited set `visited`: the components it finds and the visited set
      it leaves. A group already visited contributes nothing; otherwise it is marked, then its own
      components are taken and its child groups are walked in list order, each child starting from the
      visited set the previous child left. The walk ends because every step marks a group that was not
      yet marked, and there are finitely many groups. */
  function ComponentsForGroup(m: Metadata, group: string, visited: set<string>): (r: (set<string>, set<string>))
    requires ChildrenKnown(m) && group in m.componentGroups
    ensures visited + {group} <= r.1
    decreases m.componentGroups.Keys - visited, 0, 0
  {
    if group in visited then ({}, visited)
    else
      var entry := m.componentGroups[group];
      var (found, after) := ComponentsForChildren(m, entry.groups, visited + {group});
      ((set c | c in entry.components) + found, after)
  }

  /** The walks of `children`, in order, threading the visited set from one to the next. */
  function ComponentsForChildren(m: Metadata, children: seq<string>, visited: set<string>): (r: (set<string>, set<string>))
    requires ChildrenKnown(m) && forall h :: h in children ==> h in m.componentGroups
    ensures visited <= r.1
    decreases m.componentGroups.Keys - visited, 1, |children|
  {
    if children == [] then ({}, visited)
    else
      var (first, afterFirst) := ComponentsForGroup(m, children[0], visited);
      var (rest, afterRest) := ComponentsForChildren(m, children[1..], afterFirst);
      (first + rest, afterRest)
  }

  // ---------------------------------------------------------------------------------------------
  // Descent through parentGroup links

  /** The group `n` parentGroup steps above `h`, if the chain of parents is that long. */
  function Ancestor(m: Metadata, h: string, n: nat): Option<string>
    decreases n
  {
    if n == 0 then Some(h)
    else if h in m.componentGroups && m.componentGroups[h].parentGroup.Some? then
      Ancestor(m, m.componentGroups[h].parentGroup.value, n - 1)
    else None
  }

  /** `h` is `g` or lies below `g`: following parentGroup from `h` reaches `g`. */
  ghost predicate IsDescendant(m: Metadata, h: string, g: string) {
    exists n: nat :: Ancestor(m, h, n) == Some(g)
  }

  /** No group is its own proper ancestor. */
  ghost predicate Acyclic(m: Metadata) {
    forall h, n: nat :: 0 < n ==> Ancestor(m, h, n) != Some(h)
  }

  /** Component `c` belongs to `g` or to a group below it. */
  ghost predicate UnderGroup(m: Metadata, c: string, g: string) {
    c in m.components && m.components[c].group.Some? && IsDescendant(m, m.components[c].group.value, g)
  }

  lemma {:induction false} AncestorStep(m: Metadata, h: string, n: nat, c: string, g: string)
    requires Ancestor(m, h, n) == Some(c)
    requires c in m.componentGroups && m.componentGroups[c].parentGroup == Some(g)
    ensures Ancestor(m, h, n + 1) == Some(g)
    decreases n
  {
    if n > 0 {
      AncestorStep(m, m.componentGroups[h].parentGroup.value, n - 1, c, g);
    }
  }

  lemma {:induction false} AncestorLast(m: Metadata, h: string, n: nat, g: string) returns (c: string)
    requires 0 < n && Ancestor(m, h, n) == Some(g)
    ensures Ancestor(m, h, n - 1) == Some(c)
    ensures c in m.componentGroups && m.componentGroups[c].parentGroup == Some(g)
    decreases n
  {
    if n == 1 {
      c := h;
    } else {
      c := AncestorLast(m, m.componentGroups[h].parentGroup.value, n - 1, g);
    }
  }

  lemma {:induction false} AncestorCompose(m: Metadata, h: string, a: nat, b: nat, x: string)
    requires Ancestor(m, h, a) == Some(x)
    ensures Ancestor(m, h, a + b) == Ancestor(m, x, b)
    decreases a
  {
    if a > 0 {
      AncestorCompose(m, m.componentGroups[h].parentGroup.value, a - 1, b, x);
    }
  }

  // ---------------------------------------------------------------------------------------------
  // What the walk returns

  /** Every component the walk returns belongs to the start group or to a group below it, whatever the
      visited set and even when parentGroup links form a cycle. */
  lemma {:induction false} ComponentsForGroupSound(m: Metadata, g: string, visited: set<string>)
    requires Indexed(m) && g in m.componentGroups
    ensures forall c :: c in ComponentsForGroup(m, g, visited).0 ==> UnderGroup(m, c, g)
    decreases m.componentGroups.Keys - visited, 0, 0
  {
    if g !in visited {
      var entry := m.componentGroups[g];
      assert ChildListExact(m, g) && MemberListExact(m, g);
      ComponentsForChildrenSound(m, g, entry.groups, visited + {g});
      forall c | c in entry.components ensures UnderGroup(m, c, g) {
        assert Ancestor(m, g, 0) == Some(g);
      }
    }
  }

  lemma {:induction false} ComponentsForChildrenSound(m: Metadata, parent: string, children: seq<string>, visited: set<string>)
    requires Indexed(m)
    requires forall h :: h in children ==> h in m.componentGroups && m.componentGroups[h].parentGroup == Some(parent)
    ensures forall c :: c in ComponentsForChildren(m, children, visited).0 ==> UnderGroup(m, c, parent)
    decreases m.componentGroups.Keys - visited, 1, |children|
  {
    if children != [] {
      var first := children[0];
      var (found, after) := ComponentsForGroup(m, first, visited);
      ComponentsForGroupSound(m, first, visited);
      ComponentsForChildrenSound(m, parent, children[1..], after);
      forall c | c in found ensures UnderGroup(m, c, parent) {
        var n :| Ancestor(m, m.components[c].group.value, n) == Some(first);
        AncestorStep(m, m.components[c].group.value, n, first, parent);
      }
    }
  }

  /** The groups at or below `g`. */
  ghost function Subtree(m: Metadata, g: string): set<string> {
    set h | h in m.componentGroups && IsDescendant(m, h, g)
  }

  /** The groups at or below any of `children`. */
  ghost function Subtrees(m: Metadata, children: seq<string>): set<string> {
    set h | h in m.componentGroups && exists i :: 0 <= i < |children| && IsDescendant(m, h, children[i])
  }

  /** The components whose group is one of `groups`. */
  ghost function ComponentsIn(m: Metadata, groups: set<string>): set<string> {
    set c | c in m.components && m.components[c].group.Some? && m.components[c].group.value in groups
  }

  /** The groups at or below `g` are `g` and the groups at or below its children. */
  lemma SubtreeUnfold(m: Metadata, g: string)
    requires Indexed(m) && g in m.componentGroups
    ensures Subtree(m, g) == {g} + Subtrees(m, m.componentGroups[g].groups)
  {
    var children := m.componentGroups[g].groups;
    assert ChildListExact(m, g);
    assert g in Subtree(m, g) by { assert Ancestor(m, g, 0) == Some(g); }
    forall h | h in Subtree(m, g) && h != g ensures h in Subtrees(m, children) {
      var n :| Ancestor(m, h, n) == Some(g);
      var c := AncestorLast(m, h, n, g);
      assert c in children;
      var i :| 0 <= i < |children| && children[i] == c;
      assert IsDescendant(m, h, children[i]);
    }
    forall h | h in Subtrees(m, children) ensures h in Subtree(m, g) {
      var i :| 0 <= i < |children| && IsDescendant(m, h, children[i]);
      var n :| Ancestor(m, h, n) == Some(children[i]);
      AncestorStep(m, h, n, children[i], g);
    }
  }

  /** Under acyclicity a group is not below any of its children. */
  lemma ParentOutsideChildSubtree(m: Metadata, c: string, g: string)
    requires Acyclic(m) && IsChildOf(m, g)(c)
    ensures g !in Subtree(m, c)
  {
    if g in Subtree(m, c) {
      var n :| Ancestor(m, g, n) == Some(c);
      AncestorStep(m, g, n, c, g);
      assert false;
    }
  }

  /** Two distinct children of `p` with a common descendant make `p` its own proper ancestor. */
  lemma SharedDescendantCycle(m: Metadata, h: string, n1: nat, n2: nat, c1: string, c2: string, p: string)
    returns (k: nat)
    requires n1 < n2
    requires c1 in m.componentGroups && m.componentGroups[c1].parentGroup == Some(p)
    requires c2 in m.componentGroups && m.componentGroups[c2].parentGroup == Some(p)
    requires Ancestor(m, h, n1) == Some(c1) && Ancestor(m, h, n2) == Some(c2)
    ensures 0 < k && Ancestor(m, p, k) == Some(p)
  {
    k := n2 - n1;
    AncestorCompose(m, h, n1, k, c1);
    assert Ancestor(m, c1, k) == Some(c2);
    assert Ancestor(m, p, k - 1) == Some(c2);
    AncestorStep(m, p, k - 1, c2, p);
  }

  /** Under acyclicity distinct children of one group have no group below them in common. */
  lemma SiblingSubtreesDisjoint(m: Metadata, c1: string, c2: string, p: string)
    requires Acyclic(m) && c1 != c2
    requires c1 in m.componentGroups && m.componentGroups[c1].parentGroup == Some(p)
    requires c2 in m.componentGroups && m.componentGroups[c2].parentGroup == Some(p)
    ensures Subtree(m, c1) !! Subtree(m, c2)
  {
    forall h | h in Subtree(m, c1) ensures h !in Subtree(m, c2) {
      if h in Subtree(m, c2) {
        var n1 :| Ancestor(m, h, n1) == Some(c1);
        var n2 :| Ancestor(m, h, n2) == Some(c2);
        if n1 == n2 {
          assert false;
        } else if n1 < n2 {
          var k := SharedDescendantCycle(m, h, n1, n2, c1, c2, p);
          assert false;
        } else {
          var k := SharedDescendantCycle(m, h, n2, n1, c2, c1, p);
          assert false;
        }
      }
    }
  }

  lemma ComponentsInUnion(m: Metadata, a: set<string>, b: set<string>)
    ensures ComponentsIn(m, a + b) == ComponentsIn(m, a) + ComponentsIn(m, b)
  {
  }

  lemma ComponentsInSingle(m: Metadata, g: string)
    requires g in m.componentGroups && MemberListExact(m, g)
    ensures ComponentsIn(m, {g}) == set c | c in m.componentGroups[g].components
  {
    forall c | c in ComponentsIn(m, {g}) ensures c in m.componentGroups[g].components {
      assert IsMemberOf(m, g)(c);
    }
  }

  lemma SubtreesCons(m: Metadata, children: seq<string>)
    requires children != []
    ensures Subtrees(m, children) == Subtree(m, children[0]) + Subtrees(m, children[1..])
  {
    var rest := children[1..];
    forall h | h in Subtrees(m, children) ensures h in Subtree(m, children[0]) + Subtrees(m, rest) {
      var i :| 0 <= i < |children| && IsDescendant(m, h, children[i]);
      if i > 0 { assert IsDescendant(m, h, rest[i - 1]); }
    }
    forall h | h in Subtrees(m, rest) ensures h in Subtrees(m, children) {
      var i :| 0 <= i < |rest| && IsDescendant(m, h, rest[i]);
      assert IsDescendant(m, h, children[i + 1]);
    }
  }

  /** A visited set disjoint from the groups at or below `g`, together with `g`, is disjoint from the
      groups at or below each child of `g`. */
  lemma ChildrenStartUnvisited(m: Metadata, g: string, visited: set<string>)
    requires Indexed(m) && Acyclic(m) && g in m.componentGroups
    requires visited !! Subtree(m, g)
    ensures forall h :: h in m.componentGroups[g].groups ==> (visited + {g}) !! Subtree(m, h)
  {
    var children := m.componentGroups[g].groups;
    assert ChildListExact(m, g);
    SubtreeUnfold(m, g);
    forall h | h in children ensures (visited + {g}) !! Subtree(m, h) {
      ParentOutsideChildSubtree(m, h, g);
      var i :| 0 <= i < |children| && children[i] == h;
      forall x | x in Subtree(m, h) ensures x in Subtrees(m, children) {
        assert IsDescendant(m, x, children[i]);
      }
    }
  }

  /** When parentGroup links form no cycle and the walk starts from a visited set disjoint from the
      groups at or below `g`, nothing is suppressed: it returns every component of those groups and marks
      exactly those groups. */
  lemma {:induction false} ComponentsForGroupExact(m: Metadata, g: string, visited: set<string>)
    requires Indexed(m) && Acyclic(m) && g in m.componentGroups
    requires visited !! Subtree(m, g)
    ensures ComponentsForGroup(m, g, visited) == (ComponentsIn(m, Subtree(m, g)), visited + Subtree(m, g))
    decreases m.componentGroups.Keys - visited, 0, 0
  {
    var entry := m.componentGroups[g];
    var children := entry.groups;
    assert ChildListExact(m, g) && MemberListExact(m, g);
    assert g in Subtree(m, g) by { assert Ancestor(m, g, 0) == Some(g); }
    ChildrenStartUnvisited(m, g, visited);
    ComponentsForChildrenExact(m, g, children, visited + {g});
    var below := Subtrees(m, children);
    var r := ComponentsForChildren(m, children, visited + {g});
    assert ComponentsForGroup(m, g, visited) == ((set c | c in entry.components) + r.0, r.1);
    var all := Subtree(m, g);
    SubtreeUnfold(m, g);
    assert all == {g} + below;
    ComponentsInUnion(m, {g}, below);
    ComponentsInSingle(m, g);
    assert (set c | c in entry.components) + r.0 == ComponentsIn(m, all);
    assert r.1 == visited + all;
  }

  lemma {:induction false} ComponentsForChildrenExact(m: Metadata, parent: string, children: seq<string>, visited: set<string>)
    requires Indexed(m) && Acyclic(m)
    requires Distinct(children)
    requires forall h :: h in children ==> h in m.componentGroups && m.componentGroups[h].parentGroup == Some(parent)
    requires forall h :: h in children ==> visited !! Subtree(m, h)
    ensures ComponentsForChildren(m, children, visited) == (ComponentsIn(m, Subtrees(m, children)), visited + Subtrees(m, children))
    decreases m.componentGroups.Keys - visited, 1, |children|
  {
    if children == [] {
      assert Subtrees(m, children) == {};
      assert ComponentsIn(m, {}) == {};
      assert ComponentsForChildren(m, children, visited) == ({}, visited);
      assert visited + Subtrees(m, children) == visited;
    } else {
      var first, rest := children[0], children[1..];
      var r1 := ComponentsForGroup(m, first, visited);
      var r2 := ComponentsForChildren(m, rest, r1.1);
      assert ComponentsForChildren(m, children, visited) == (r1.0 + r2.0, r2.1);
      ComponentsForGroupExact(m, first, visited);
      forall h | h in rest ensures r1.1 !! Subtree(m, h) {
        SiblingSubtreesDisjoint(m, first, h, parent);
      }
      ComponentsForChildrenExact(m, parent, rest, r1.1);
      var here, later, all := Subtree(m, first), Subtrees(m, rest), Subtrees(m, children);
      SubtreesCons(m, children);
      assert all == here + later;
      ComponentsInUnion(m, here, later);
      assert r1.0 + r2.0 == ComponentsIn(m, all);
      assert r2.1 == visited + all;
    }
  }

  /** When parentGroup links form no cycle, the components of a group are exactly the components whose
      group is that group or lies below it; in particular the result does not depend on the order of the
      child lists. */
  lemma ClosureIsComponentsBelow(m: Metadata, g: string)
    requires Indexed(m) && Acyclic(m) && g in m.componentGroups
    ensures ComponentsForGroup(m, g, {}).0 == set c | c in m.components && UnderGroup(m, c, g)
  {
    ComponentsForGroupExact(m, g, {});
  }
}
