/** The CPack metadata document (debian/.cpack/cpack-metadata.json, as loaded) and the child-group and
    member-component lists that DHCPack.read_cpack_metadata adds to every component group. */
module CPackMetadata {
  import opened Wrappers
  import opened Seqs

  /** An entry of `componentGroups`. `groups` and `components` are the lists read_cpack_metadata
      (re)initialises and fills; whatever the document holds under those keys is discarded. */
  datatype Group = Group(parentGroup: Option<string>, groups: seq<string>, components: seq<string>)

  /** An entry of `components`; a key absent from the document is None. */
  datatype Component = Component(group: Option<string>, dependencies: Option<seq<string>>)

  /** The document's two objects, each as a map together with its keys in document order, which is the
      order in which Python iterates them. */
  datatype Metadata = Metadata(
    groupNames: seq<string>,
    componentGroups: map<string, Group>,
    componentNames: seq<string>,
    components: map<string, Component>)

  /** What loading a JSON object guarantees: every key once, and the order lists exactly the keys. */
  ghost predicate WellFormed(m: Metadata) {
    && Distinct(m.groupNames)
    && Distinct(m.componentNames)
    && Listed(m)
  }

  /** The order lists name exactly the keys; all the wiring loops need. */
  ghost predicate Listed(m: Metadata) {
    && (forall g :: g in m.componentGroups <==> g in m.groupNames)
    && (forall c :: c in m.components <==> c in m.componentNames)
  }

  /** Group `h` names `parent` as its `parentGroup`. */
  function IsChildOf(m: Metadata, parent: string): string -> bool {
    h => h in m.componentGroups && m.componentGroups[h].parentGroup == Some(parent)
  }

  /** Component `c` names `group` as its `group`. */
  function IsMemberOf(m: Metadata, group: string): string -> bool {
    c => c in m.components && m.components[c].group == Some(group)
  }

  /** A group entry with its two lists emptied, as the first loop of read_cpack_metadata leaves it. */
  function Reset(g: Group): Group {
    g.(groups := [], components := [])
  }

  /** Group `g` once the second loop has wired the groups `gs` to their parents and the third loop the
      components `cs` to their groups: each of its lists holds, in wiring order, the names naming `g`. */
  function WiredEntry(m: Metadata, gs: seq<string>, cs: seq<string>, g: string): Group
    requires g in m.componentGroups
  {
    m.componentGroups[g].(groups := Filter(gs, IsChildOf(m, g)), components := Filter(cs, IsMemberOf(m, g)))
  }

  /** Every group entry, wired as WiredEntry says. */
  function Wire(m: Metadata, gs: seq<string>, cs: seq<string>): map<string, Group> {
    map g | g in m.componentGroups :: WiredEntry(m, gs, cs, g)
  }

  /** The document after a successful read_cpack_metadata. */
  function BuildIndex(m: Metadata): Metadata {
    m.(componentGroups := Wire(m, m.groupNames, m.componentNames))
  }

  /** Group `name` has no `parentGroup`, or it names a group. */
  predicate ParentKnown(m: Metadata, name: string)
    requires name in m.componentGroups
  {
    m.componentGroups[name].parentGroup.None? || m.componentGroups[name].parentGroup.value in m.componentGroups
  }

  /** Component `name` has no `group`, or it names a group. */
  predicate GroupKnown(m: Metadata, name: string)
    requires name in m.components
  {
    m.components[name].group.None? || m.components[name].group.value in m.componentGroups
  }

  /** The position of the first group, in `names`, whose `parentGroup` names no group; |names| if none. */
  function MissingParentAt(m: Metadata, names: seq<string>): (r: nat)
    requires forall n :: n in names ==> n in m.componentGroups
    ensures r <= |names|
    ensures forall k :: 0 <= k < r ==> ParentKnown(m, names[k])
    ensures r < |names| ==> !ParentKnown(m, names[r])
  {
    if names == [] then 0
    else if !ParentKnown(m, names[0]) then 0
    else 1 + MissingParentAt(m, names[1..])
  }

  /** The position of the first component, in `names`, whose `group` names no group; |names| if none. */
  function MissingGroupAt(m: Metadata, names: seq<string>): (r: nat)
    requires forall n :: n in names ==> n in m.components
    ensures r <= |names|
    ensures forall k :: 0 <= k < r ==> GroupKnown(m, names[k])
    ensures r < |names| ==> !GroupKnown(m, names[r])
  {
    if names == [] then 0
    else if !GroupKnown(m, names[0]) then 0
    else 1 + MissingGroupAt(m, names[1..])
  }

  /** The key whose lookup fails first in read_cpack_metadata: parents are wired before members. */
  function MissingReference(m: Metadata): (r: Option<string>)
    requires WellFormed(m)
    ensures r.Some? ==> r.value !in m.componentGroups
    ensures r.None? <==>
      (forall g :: g in m.componentGroups ==> ParentKnown(m, g)) && (forall c :: c in m.components ==> GroupKnown(m, c))
  {
    var i := MissingParentAt(m, m.groupNames);
    if i < |m.groupNames| then m.componentGroups[m.groupNames[i]].parentGroup
    else
      var j := MissingGroupAt(m, m.componentNames);
      if j < |m.componentNames| then m.components[m.componentNames[j]].group
      else None
  }

  /** The document as read_cpack_metadata leaves it, also when it stops at a missing key: every list
      reset, then the groups before the first missing parent wired and, only if there is none, the
      components before the first missing group. */
  function AfterRead(m: Metadata): Metadata
    requires Listed(m)
  {
    var i := MissingParentAt(m, m.groupNames);
    var j := MissingGroupAt(m, m.componentNames);
    if i < |m.groupNames| then m.(componentGroups := Wire(m, m.groupNames[..i], []))
    else if j < |m.componentNames| then m.(componentGroups := Wire(m, m.groupNames, m.componentNames[..j]))
    else BuildIndex(m)
  }

  /** When no reference is missing, the read leaves the full index. */
  lemma AfterReadComplete(m: Metadata)
    requires WellFormed(m) && MissingReference(m).None?
    ensures AfterRead(m) == BuildIndex(m)
  {
    assert MissingParentAt(m, m.groupNames) == |m.groupNames|;
  }

  /** Wiring one more group appends it, once, to the `groups` list of its parent and changes nothing
      else; a group without `parentGroup` changes nothing. */
  lemma WireGroupStep(m: Metadata, gs: seq<string>, cs: seq<string>, name: string, g: string)
    requires g in m.componentGroups
    ensures WiredEntry(m, gs + [name], cs, g) ==
      if IsChildOf(m, g)(name) then WiredEntry(m, gs, cs, g).(groups := WiredEntry(m, gs, cs, g).groups + [name])
      else WiredEntry(m, gs, cs, g)
  {
    FilterSnoc(gs, name, IsChildOf(m, g));
  }

  /** Wiring one more component appends it, once, to the `components` list of its group and changes
      nothing else; a component without `group` changes nothing. */
  lemma WireComponentStep(m: Metadata, gs: seq<string>, cs: seq<string>, name: string, g: string)
    requires g in m.componentGroups
    ensures WiredEntry(m, gs, cs + [name], g) ==
      if IsMemberOf(m, g)(name) then WiredEntry(m, gs, cs, g).(components := WiredEntry(m, gs, cs, g).components + [name])
      else WiredEntry(m, gs, cs, g)
  {
    FilterSnoc(cs, name, IsMemberOf(m, g));
  }

  /** The map update the second loop performs for a group with a parent. */
  lemma WireGroupAppend(m: Metadata, gs: seq<string>, cs: seq<string>, name: string)
    requires name in m.componentGroups && m.componentGroups[name].parentGroup.Some?
    requires m.componentGroups[name].parentGroup.value in m.componentGroups
    ensures var w, p := Wire(m, gs, cs), m.componentGroups[name].parentGroup.value;
      Wire(m, gs + [name], cs) == w[p := w[p].(groups := w[p].groups + [name])]
  {
    var w, p := Wire(m, gs, cs), m.componentGroups[name].parentGroup.value;
    var after, updated := Wire(m, gs + [name], cs), w[p := w[p].(groups := w[p].groups + [name])];
    forall g | g in m.componentGroups
      ensures after[g] == updated[g]
    {
      WireGroupStep(m, gs, cs, name, g);
    }
    assert after.Keys == updated.Keys;
  }

  /** A group without a parent leaves the map as it is. */
  lemma WireGroupSkip(m: Metadata, gs: seq<string>, cs: seq<string>, name: string)
    requires name in m.componentGroups && m.componentGroups[name].parentGroup.None?
    ensures Wire(m, gs + [name], cs) == Wire(m, gs, cs)
  {
    forall g | g in m.componentGroups
      ensures Wire(m, gs + [name], cs)[g] == Wire(m, gs, cs)[g]
    {
      WireGroupStep(m, gs, cs, name, g);
    }
  }

  /** The map update the third loop performs for a component with a group. */
  lemma WireComponentAppend(m: Metadata, gs: seq<string>, cs: seq<string>, name: string)
    requires name in m.components && m.components[name].group.Some?
    requires m.components[name].group.value in m.componentGroups
    ensures var w, g := Wire(m, gs, cs), m.components[name].group.value;
      Wire(m, gs, cs + [name]) == w[g := w[g].(components := w[g].components + [name])]
  {
    var w, g := Wire(m, gs, cs), m.components[name].group.value;
    var after, updated := Wire(m, gs, cs + [name]), w[g := w[g].(components := w[g].components + [name])];
    forall h | h in m.componentGroups
      ensures after[h] == updated[h]
    {
      WireComponentStep(m, gs, cs, name, h);
    }
    assert after.Keys == updated.Keys;
  }

  /** A component without a group leaves the map as it is. */
  lemma WireComponentSkip(m: Metadata, gs: seq<string>, cs: seq<string>, name: string)
    requires name in m.components && m.components[name].group.None?
    ensures Wire(m, gs, cs + [name]) == Wire(m, gs, cs)
  {
    forall g | g in m.componentGroups
      ensures Wire(m, gs, cs + [name])[g] == Wire(m, gs, cs)[g]
    {
      WireComponentStep(m, gs, cs, name, g);
    }
  }

  /** The child list of `g` holds each group whose parent is `g`, once, and nothing else. */
  ghost predicate ChildListExact(m: Metadata, g: string)
    requires g in m.componentGroups
  {
    var children := m.componentGroups[g].groups;
    Distinct(children) && forall h :: h in children <==> IsChildOf(m, g)(h)
  }

  /** The member list of `g` holds each component whose group is `g`, once, and nothing else. */
  ghost predicate MemberListExact(m: Metadata, g: string)
    requires g in m.componentGroups
  {
    var members := m.componentGroups[g].components;
    Distinct(members) && forall c :: c in members <==> IsMemberOf(m, g)(c)
  }

  /** The state read_cpack_metadata establishes, as the closure computation relies on it. */
  ghost predicate Indexed(m: Metadata) {
    && ChildrenKnown(m)
    && (forall g :: g in m.componentGroups ==> ChildListExact(m, g) && MemberListExact(m, g))
    && (forall h :: h in m.componentGroups && m.componentGroups[h].parentGroup.Some? ==>
          m.componentGroups[h].parentGroup.value in m.componentGroups)
    && (forall c :: c in m.components && m.components[c].group.Some? ==>
          m.components[c].group.value in m.componentGroups)
  }

  /** Every name in a child list is a group; this is all the closure needs to look its entries up. */
  ghost predicate ChildrenKnown(m: Metadata) {
    forall g, h :: g in m.componentGroups && h in m.componentGroups[g].groups ==> h in m.componentGroups
  }

  /** Each indexed entry lists its children exactly. */
  lemma BuildIndexChildrenExact(m: Metadata, g: string)
    requires WellFormed(m) && g in m.componentGroups
    ensures ChildListExact(BuildIndex(m), g)
  {
    var ix := BuildIndex(m);
    FilterDistinct(m.groupNames, IsChildOf(m, g));
    forall h ensures IsChildOf(ix, g)(h) == IsChildOf(m, g)(h) {
      if h in m.componentGroups {
        assert ix.componentGroups[h].parentGroup == m.componentGroups[h].parentGroup;
      }
    }
  }

  /** Each indexed entry lists its members exactly. */
  lemma BuildIndexMembersExact(m: Metadata, g: string)
    requires WellFormed(m) && g in m.componentGroups
    ensures MemberListExact(BuildIndex(m), g)
  {
    var ix := BuildIndex(m);
    FilterDistinct(m.componentNames, IsMemberOf(m, g));
    assert forall c :: IsMemberOf(ix, g)(c) == IsMemberOf(m, g)(c);
  }

  /** When every reference resolves, the document read_cpack_metadata produces is indexed. */
  lemma BuildIndexIndexed(m: Metadata)
    requires WellFormed(m) && MissingReference(m).None?
    ensures Indexed(BuildIndex(m))
  {
    var ix := BuildIndex(m);
    forall g | g in ix.componentGroups
      ensures ChildListExact(ix, g) && MemberListExact(ix, g)
    {
      BuildIndexChildrenExact(m, g);
      BuildIndexMembersExact(m, g);
    }
    forall g, h | g in ix.componentGroups && h in ix.componentGroups[g].groups
      ensures h in ix.componentGroups
    {
      assert h in Filter(m.groupNames, IsChildOf(m, g));
    }
  }

  /** After indexing, group `h` occurs in the `groups` list of `parent` exactly once when its
      `parentGroup` is `parent`, and not at all otherwise. */
  lemma ChildListCount(m: Metadata, parent: string, h: string)
    requires WellFormed(m) && parent in m.componentGroups
    ensures multiset(BuildIndex(m).componentGroups[parent].groups)[h] ==
            if h in m.componentGroups && m.componentGroups[h].parentGroup == Some(parent) then 1 else 0
  {
    FilterCount(m.groupNames, IsChildOf(m, parent), h);
    DistinctCount(m.groupNames, h);
  }

  /** After indexing, component `c` occurs in the `components` list of `group` exactly once when its
      `group` is `group`, and not at all otherwise; a component without `group` is in no list. */
  lemma MemberListCount(m: Metadata, group: string, c: string)
    requires WellFormed(m) && group in m.componentGroups
    ensures multiset(BuildIndex(m).componentGroups[group].components)[c] ==
            if c in m.components && m.components[c].group == Some(group) then 1 else 0
  {
    FilterCount(m.componentNames, IsMemberOf(m, group), c);
    DistinctCount(m.componentNames, c);
  }
}
