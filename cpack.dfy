/** dhcmake/cpack.py: the CPack component resolver of dh_cmake. DHCPack indexes the CPack metadata
    document, reads a package's component and component-group selection files, closes the selected
    groups over their child groups, turns component dependencies into package dependencies and formats
    them as the `cpack:Depends` substitution variable. */
module CPack {
  import opened Wrappers
  import opened CPackMetadata
  import opened ComponentClosure
  import Seqs
  import Text
  import Common

  // ---------------------------------------------------------------------------------------------
  // Selection files

  /** `re.search("^($|#)", line)`: the line is empty, is a lone newline (`$` also matches before a final
      newline) or starts with `#`. */
  predicate Skipped(line: string) {
    line == "" || line == "\n" || line[0] == '#'
  }

  /** Kept lines, as a filter. */
  function Kept(): string -> bool {
    line => !Skipped(line)
  }

  /** The names a selection file lists: every line not skipped, right-stripped, in file order. */
  function SelectedNames(lines: seq<string>): seq<string> {
    if lines == [] then []
    else
      var last := lines[|lines| - 1];
      SelectedNames(lines[..|lines| - 1]) + (if Skipped(last) then [] else [Text.RStrip(last)])
  }

  /** Right-strips every line of `lines`. */
  function Stripped(lines: seq<string>): (r: seq<string>)
    ensures |r| == |lines|
  {
    seq(|lines|, i requires 0 <= i < |lines| => Text.RStrip(lines[i]))
  }

  /** The selected names are the kept lines, in file order, right-stripped. */
  lemma {:induction false} SelectedNamesInOrder(lines: seq<string>)
    ensures SelectedNames(lines) == Stripped(Seqs.Filter(lines, Kept()))
  {
    if lines != [] {
      var init, last := lines[..|lines| - 1], lines[|lines| - 1];
      assert lines == init + [last];
      SelectedNamesInOrder(init);
      Seqs.FilterSnoc(init, last, Kept());
    }
  }

  /** A name is selected exactly when some kept line strips to it. */
  lemma {:induction false} SelectedNamesMembers(lines: seq<string>, name: string)
    ensures name in SelectedNames(lines) <==>
            exists i :: 0 <= i < |lines| && !Skipped(lines[i]) && Text.RStrip(lines[i]) == name
  {
    if lines != [] {
      var n := |lines| - 1;
      var init, last := lines[..n], lines[n];
      assert SelectedNames(lines) == SelectedNames(init) + (if Skipped(last) then [] else [Text.RStrip(last)]);
      SelectedNamesMembers(init, name);
      if name in SelectedNames(lines) {
        if name in SelectedNames(init) {
          var i :| 0 <= i < |init| && !Skipped(init[i]) && Text.RStrip(init[i]) == name;
          assert lines[i] == init[i];
        } else {
          assert !Skipped(lines[n]) && Text.RStrip(lines[n]) == name;
        }
      } else {
        forall i | 0 <= i < |lines| && !Skipped(lines[i])
          ensures Text.RStrip(lines[i]) != name
        {
          if i < n {
            assert lines[i] == init[i];
          }
        }
      }
    }
  }

  /** The outcome of reading a selection file with lines `lines`: its names when every one is in `known`,
      else `error`. */
  function SelectFrom(lines: seq<string>, known: set<string>, error: Exception): (r: Result<seq<string>>)
    ensures r.Ok? ==> forall n :: n in r.value ==> n in known
  {
    if forall n :: n in SelectedNames(lines) ==> n in known then Ok(SelectedNames(lines)) else Err(error)
  }

  /** A kept line naming something unknown makes the whole read fail with `error`. */
  lemma SelectRejectsUnknown(lines: seq<string>, known: set<string>, error: Exception, i: nat)
    requires i < |lines| && !Skipped(lines[i]) && Text.RStrip(lines[i]) !in known
    ensures SelectFrom(lines, known, error) == Err(error)
  {
    SelectedNamesMembers(lines, Text.RStrip(lines[i]));
  }

  /** When every kept line names something known, the read returns the names in file order. */
  lemma SelectAcceptsKnown(lines: seq<string>, known: set<string>, error: Exception)
    requires forall i :: 0 <= i < |lines| && !Skipped(lines[i]) ==> Text.RStrip(lines[i]) in known
    ensures SelectFrom(lines, known, error) == Ok(Stripped(Seqs.Filter(lines, Kept())))
  {
    SelectedNamesInOrder(lines);
    forall n | n in SelectedNames(lines) ensures n in known {
      SelectedNamesMembers(lines, n);
    }
  }

  /** The loop of get_cpack_components and get_cpack_component_groups over the lines of a file: it
      appends each kept, right-stripped line and raises at the first unknown one. */
  method SelectLines(lines: seq<string>, known: set<string>, error: Exception) returns (r: Result<seq<string>>)
    ensures r == SelectFrom(lines, known, error)
  {
    var retval := [];
    for i := 0 to |lines|
      invariant retval == SelectedNames(lines[..i])
      invariant forall n :: n in retval ==> n in known
    {
      Seqs.TakeSnoc(lines, i);
      if !Skipped(lines[i]) {
        var group := Text.RStrip(lines[i]);
        if group in known {
          retval := retval + [group];
        } else {
          SelectRejectsUnknown(lines, known, error, i);
          return Err(error);
        }
      }
    }
    Seqs.TakeAll(lines);
    return Ok(retval);
  }

  // ---------------------------------------------------------------------------------------------
  // Group closures of a selection

  /** The union of the closures of `groups`, each walked from an empty visited set. */
  function GroupsClosure(m: Metadata, groups: seq<string>): set<string>
    requires ChildrenKnown(m) && forall g :: g in groups ==> g in m.componentGroups
  {
    if groups == [] then {}
    else GroupsClosure(m, groups[..|groups| - 1]) + ComponentsForGroup(m, groups[|groups| - 1], {}).0
  }

  /** Every component in the closures belongs to one of the groups or to a group below one of them. */
  lemma {:induction false} GroupsClosureSound(m: Metadata, groups: seq<string>, c: string)
    requires Indexed(m) && forall g :: g in groups ==> g in m.componentGroups
    ensures c in GroupsClosure(m, groups) ==> exists g :: g in groups && UnderGroup(m, c, g)
  {
    if groups != [] {
      var init, last := groups[..|groups| - 1], groups[|groups| - 1];
      GroupsClosureSound(m, init, c);
      ComponentsForGroupSound(m, last, {});
      if c in GroupsClosure(m, init) {
        var g :| g in init && UnderGroup(m, c, g);
        assert g in groups;
      }
    }
  }

  /** When parentGroup links form no cycle, the closures hold exactly the components of the groups and
      of the groups below them. */
  lemma {:induction false} GroupsClosureExact(m: Metadata, groups: seq<string>, c: string)
    requires Indexed(m) && Acyclic(m) && forall g :: g in groups ==> g in m.componentGroups
    ensures c in GroupsClosure(m, groups) <==> exists g :: g in groups && UnderGroup(m, c, g)
  {
    GroupsClosureSound(m, groups, c);
    if exists g :: g in groups && UnderGroup(m, c, g) {
      var init, last := groups[..|groups| - 1], groups[|groups| - 1];
      var i :| 0 <= i < |groups| && UnderGroup(m, c, groups[i]);
      if i == |groups| - 1 {
        ClosureIsComponentsBelow(m, last);
      } else {
        assert init[i] == groups[i];
        GroupsClosureExact(m, init, c);
      }
    }
  }

  /** A substitution variable written by `write_substvar(name, value, package)`. */
  datatype Substvar = Substvar(package: string, name: string, value: string)

  /** The `cpack:Depends` value for the sorted dependency list `deps`: each name followed by
      ` (= ${binary:Version})`, joined with `, `. */
  function DependsValue(deps: seq<string>): string {
    Text.Join(seq(|deps|, i requires 0 <= i < |deps| => deps[i] + " (= ${binary:Version})"), ", ")
  }

  lemma {:induction false} JoinNonEmpty(parts: seq<string>, sep: string)
    requires parts != [] && parts[0] != []
    ensures Text.Join(parts, sep) != []
  {
  }

  /** The value is empty exactly when there is no dependency, so the variable is written exactly when
      the package has a dependency. */
  lemma DependsValueEmpty(deps: seq<string>)
    ensures DependsValue(deps) == "" <==> deps == []
  {
    if deps != [] {
      var parts := seq(|deps|, i requires 0 <= i < |deps| => deps[i] + " (= ${binary:Version})");
      assert |parts[0]| > 0;
      JoinNonEmpty(parts, ", ");
    }
  }

  /** The `visited` set that get_all_cpack_components_for_group shares, by reference, between the
      recursive calls of one walk. */
  class Visited {
    var marked: set<string>

    constructor()
      ensures marked == {}
    {
      marked := {};
    }
  }

  /** DHCPack, with the state its resolver methods read: the parsed options, the binary packages of
      debian/control, the package files (a path that exists, mapped to the lines read from it) and the
      metadata document. */
  class DHCPack {
    const options: Common.Options
    const control: seq<Common.ControlPackage>
    const files: map<string, seq<string>>
    var metadata: Metadata

    constructor(options: Common.Options, control: seq<Common.ControlPackage>, files: map<string, seq<string>>)
      ensures this.options == options && this.control == control && this.files == files
      ensures metadata == Metadata([], map[], [], map[])
    {
      this.options := options;
      this.control := control;
      this.files := files;
      metadata := Metadata([], map[], [], map[]);
    }

    /** read_cpack_metadata on the loaded document `doc`: every group's `groups` and `components` lists
        are reset, then each group is appended to the `groups` list of its parent and each component to
        the `components` list of its group, in document order. A reference to an absent group raises
        KeyError and leaves the document wired up to that point. */
    method ReadCPackMetadata(doc: Metadata) returns (r: Result<()>)
      requires WellFormed(doc)
      modifies this
      ensures metadata == AfterRead(doc)
      ensures r == if MissingReference(doc).Some? then Err(KeyError(MissingReference(doc).value)) else Ok(())
    {
      ResetLists(doc);
      var parentsKnown := WireGroups(doc);
      if !parentsKnown {
        var i := MissingParentAt(doc, doc.groupNames);
        return Err(KeyError(doc.componentGroups[doc.groupNames[i]].parentGroup.value));
      }
      var groupsKnown := WireComponents(doc);
      if !groupsKnown {
        var j := MissingGroupAt(doc, doc.componentNames);
        return Err(KeyError(doc.components[doc.componentNames[j]].group.value));
      }
      return Ok(());
    }

    /** The first loop of read_cpack_metadata: fresh empty lists in every group. */
    method ResetLists(doc: Metadata)
      requires Listed(doc)
      modifies this
      ensures metadata == doc.(componentGroups := Wire(doc, [], []))
    {
      var names := doc.groupNames;
      metadata := doc;
      for i := 0 to |names|
        invariant metadata.(componentGroups := doc.componentGroups) == doc
        invariant metadata.componentGroups.Keys == doc.componentGroups.Keys
        invariant forall g :: g in doc.componentGroups ==>
          metadata.componentGroups[g] == if g in names[..i] then Reset(doc.componentGroups[g]) else doc.componentGroups[g]
      {
        Seqs.TakeSnoc(names, i);
        var name := names[i];
        metadata := metadata.(componentGroups := metadata.componentGroups[name := Reset(metadata.componentGroups[name])]);
      }
      Seqs.TakeAll(names);
      assert metadata.componentGroups == Wire(doc, [], []);
    }

    /** The second loop of read_cpack_metadata: each group appended to its parent's `groups` list, up to
        the first parent that names no group. Returns whether every parent was found. */
    method WireGroups(doc: Metadata) returns (complete: bool)
      requires Listed(doc)
      requires metadata == doc.(componentGroups := Wire(doc, [], []))
      modifies this
      ensures var i := MissingParentAt(doc, doc.groupNames);
        && (complete <==> i == |doc.groupNames|)
        && metadata == doc.(componentGroups := if complete then Wire(doc, doc.groupNames, [])
                                                else Wire(doc, doc.groupNames[..i], []))
    {
      var names := doc.groupNames;
      Seqs.TakeAll(names);
      for i := 0 to |names|
        invariant metadata == doc.(componentGroups := Wire(doc, names[..i], []))
        invariant i <= MissingParentAt(doc, names)
      {
        var name := names[i];
        var parent := doc.componentGroups[name].parentGroup;
        Seqs.TakeSnoc(names, i);
        if parent.Some? {
          if parent.value !in doc.componentGroups {
            assert MissingParentAt(doc, names) == i;
            return false;
          }
          WireGroupAppend(doc, names[..i], [], name);
          var entry := metadata.componentGroups[parent.value];
          metadata := metadata.(componentGroups := metadata.componentGroups[parent.value := entry.(groups := entry.groups + [name])]);
        } else {
          WireGroupSkip(doc, names[..i], [], name);
        }
        assert ParentKnown(doc, name);
      }
      assert MissingParentAt(doc, names) == |names|;
      return true;
    }

    /** The third loop of read_cpack_metadata: each component appended to its group's `components`
        list, up to the first group that names no group. Returns whether every group was found. */
    method WireComponents(doc: Metadata) returns (complete: bool)
      requires Listed(doc)
      requires metadata == doc.(componentGroups := Wire(doc, doc.groupNames, []))
      modifies this
      ensures var j := MissingGroupAt(doc, doc.componentNames);
        && (complete <==> j == |doc.componentNames|)
        && metadata == doc.(componentGroups := if complete then Wire(doc, doc.groupNames, doc.componentNames)
                                                else Wire(doc, doc.groupNames, doc.componentNames[..j]))
    {
      var names, cnames := doc.groupNames, doc.componentNames;
      Seqs.TakeAll(cnames);
      for j := 0 to |cnames|
        invariant metadata == doc.(componentGroups := Wire(doc, names, cnames[..j]))
        invariant j <= MissingGroupAt(doc, cnames)
      {
        var name := cnames[j];
        var group := doc.components[name].group;
        Seqs.TakeSnoc(cnames, j);
        if group.Some? {
          if group.value !in doc.componentGroups {
            assert MissingGroupAt(doc, cnames) == j;
            return false;
          }
          WireComponentAppend(doc, names, cnames[..j], name);
          var entry := metadata.componentGroups[group.value];
          metadata := metadata.(componentGroups := metadata.componentGroups[group.value := entry.(components := entry.components + [name])]);
        } else {
          WireComponentSkip(doc, names, cnames[..j], name);
        }
        assert GroupKnown(doc, name);
      }
      assert MissingGroupAt(doc, cnames) == |cnames|;
      return true;
    }

    /** read_package_file followed by the line loop: no file is an empty selection; determining the main
        package may raise first. */
    function PackageSelection(package: string, extension: string, known: set<string>, error: Exception): (r: Result<seq<string>>)
      ensures r.Ok? ==> forall n :: n in r.value ==> n in known
    {
      match Common.PackageFile(options, control, package, extension, files.Keys)
      case Err(e) => Err(e)
      case Ok(None) => Ok([])
      case Ok(Some(path)) => SelectFrom(files[path], known, error)
    }

    /** The outcome of get_cpack_components(package). */
    function ComponentSelection(package: string): Result<seq<string>>
      reads this
    {
      PackageSelection(package, "cpack-components", metadata.components.Keys,
                       ValueError("Invalid CPack components in " + package))
    }

    /** The outcome of get_cpack_component_groups(package). */
    function GroupSelection(package: string): Result<seq<string>>
      reads this
    {
      PackageSelection(package, "cpack-component-groups", metadata.componentGroups.Keys,
                       ValueError("Invalid CPack component groups in " + package))
    }

    /** Shared body of the two selection readers. */
    method ReadSelection(package: string, extension: string, known: set<string>, error: Exception)
      returns (r: Result<seq<string>>)
      ensures r == PackageSelection(package, extension, known, error)
    {
      var file := Common.GetPackageFile(options, control, package, extension, files.Keys);
      if file.Err? {
        return Err(file.error);
      }
      if file.value.None? {
        return Ok([]);
      }
      r := SelectLines(files[file.value.value], known, error);
    }

    /** get_cpack_components(package): the components listed in debian/<package>.cpack-components. */
    method GetCPackComponents(package: string) returns (r: Result<seq<string>>)
      ensures r == ComponentSelection(package)
    {
      r := ReadSelection(package, "cpack-components", metadata.components.Keys,
                         ValueError("Invalid CPack components in " + package));
    }

    /** get_cpack_component_groups(package): the groups listed in debian/<package>.cpack-component-groups. */
    method GetCPackComponentGroups(package: string) returns (r: Result<seq<string>>)
      ensures r == GroupSelection(package)
    {
      r := ReadSelection(package, "cpack-component-groups", metadata.componentGroups.Keys,
                         ValueError("Invalid CPack component groups in " + package));
    }

    /** get_all_cpack_components_for_group(group, visited): nothing if `group` is already visited;
        otherwise `group` is marked and its components are returned together with those of its child
        groups, walked in order with the same visited set. */
    method GetAllCPackComponentsForGroup(group: string, visited: Visited) returns (all: set<string>)
      requires ChildrenKnown(metadata) && group in metadata.componentGroups
      modifies visited
      ensures (all, visited.marked) == ComponentsForGroup(metadata, group, old(visited.marked))
      decreases metadata.componentGroups.Keys - visited.marked
    {
      if group in visited.marked {
        return {};
      }
      visited.marked := visited.marked + {group};
      var entry := metadata.componentGroups[group];
      var children := entry.groups;
      all := set c | c in entry.components;
      assert children[0..] == children;
      for i := 0 to |children|
        invariant old(visited.marked) + {group} <= visited.marked
        invariant var rest := ComponentsForChildren(metadata, children[i..], visited.marked);
          ComponentsForGroup(metadata, group, old(visited.marked)) == (all + rest.0, rest.1)
      {
        assert children[i..][0] == children[i] && children[i..][1..] == children[i + 1..];
        ghost var before := visited.marked;
        var sub := GetAllCPackComponentsForGroup(children[i], visited);
        ghost var rest := ComponentsForChildren(metadata, children[i + 1..], visited.marked);
        assert ComponentsForChildren(metadata, children[i..], before) == (sub + rest.0, rest.1);
        assert (all + sub) + rest.0 == all + (sub + rest.0);
        all := all + sub;
      }
      assert children[|children|..] == [];
      assert ComponentsForChildren(metadata, [], visited.marked) == ({}, visited.marked);
      assert all + {} == all;
    }

    /** The outcome of get_all_cpack_components(package). */
    function AllComponentsOf(package: string): Result<set<string>>
      reads this
      requires Indexed(metadata)
    {
      match ComponentSelection(package)
      case Err(e) => Err(e)
      case Ok(components) =>
        match GroupSelection(package)
        case Err(e) => Err(e)
        case Ok(groups) => Ok((set c | c in components) + GroupsClosure(metadata, groups))
    }

    /** get_all_cpack_components(package): the selected components together with the closure of each
        selected group, each walked with a fresh visited set. */
    method GetAllCPackComponents(package: string) returns (r: Result<set<string>>)
      requires Indexed(metadata)
      ensures r == AllComponentsOf(package)
    {
      var components := GetCPackComponents(package);
      if components.Err? {
        return Err(components.error);
      }
      var groups := GetCPackComponentGroups(package);
      if groups.Err? {
        return Err(groups.error);
      }
      var all := set c | c in components.value;
      for i := 0 to |groups.value|
        invariant all == (set c | c in components.value) + GroupsClosure(metadata, groups.value[..i])
      {
        Seqs.TakeSnoc(groups.value, i);
        var visited := new Visited();
        var sub := GetAllCPackComponentsForGroup(groups.value[i], visited);
        all := all + sub;
      }
      Seqs.TakeAll(groups.value);
      return Ok(all);
    }

    /** Every component a package resolves to is a key of `components`, so looking up its
        `dependencies` cannot fail on the component itself. */
    lemma AllComponentsKnown(package: string)
      requires Indexed(metadata)
      ensures AllComponentsOf(package).Ok? ==> AllComponentsOf(package).value <= metadata.components.Keys
    {
      if AllComponentsOf(package).Ok? {
        var groups := GroupSelection(package).value;
        forall c | c in GroupsClosure(metadata, groups) ensures c in metadata.components {
          GroupsClosureSound(metadata, groups, c);
        }
      }
    }

    /** When parentGroup links form no cycle, a package resolves to the components it selects and the
        components of the groups it selects and of the groups below them. */
    lemma AllComponentsBelow(package: string, c: string)
      requires Indexed(metadata) && Acyclic(metadata)
      requires AllComponentsOf(package).Ok?
      ensures c in AllComponentsOf(package).value <==>
        c in ComponentSelection(package).value ||
        exists g :: g in GroupSelection(package).value && UnderGroup(metadata, c, g)
    {
      GroupsClosureExact(metadata, GroupSelection(package).value, c);
    }

    /** The first package of `packages`, in list order, that does not resolve, with its error. */
    function FirstFailure(packages: seq<string>): (r: Option<Exception>)
      reads this
      requires Indexed(metadata)
      ensures r.None? <==> forall q :: q in packages ==> AllComponentsOf(q).Ok?
    {
      if packages == [] then None
      else
        var init, last := packages[..|packages| - 1], packages[|packages| - 1];
        if FirstFailure(init).Some? then FirstFailure(init)
        else if AllComponentsOf(last).Err? then Some(AllComponentsOf(last).error)
        else None
    }

    /** A failure in a prefix is the first failure of the whole list. */
    lemma {:induction false} FirstFailurePrefix(packages: seq<string>, k: nat)
      requires Indexed(metadata) && k <= |packages|
      requires FirstFailure(packages[..k]).Some?
      ensures FirstFailure(packages) == FirstFailure(packages[..k])
      decreases |packages|
    {
      if k < |packages| {
        var init := packages[..|packages| - 1];
        assert init[..k] == packages[..k];
        FirstFailurePrefix(init, k);
      } else {
        assert packages[..k] == packages;
      }
    }

    /** Component `c` declares its `dependencies`. */
    predicate Declares(c: string)
      reads this
    {
      c in metadata.components && metadata.components[c].dependencies.Some?
    }

    /** Package `q` resolves to a component that component `c` depends on. */
    ghost predicate Provides(q: string, c: string)
      reads this
      requires Indexed(metadata)
    {
      && Declares(c)
      && AllComponentsOf(q).Ok?
      && exists d :: d in metadata.components[c].dependencies.value && d in AllComponentsOf(q).value
    }

    /** The packages of `packages` that provide some dependency of some component in `components`. */
    ghost function ProvidersOfAll(components: set<string>, packages: seq<string>): set<string>
      reads this
      requires Indexed(metadata)
    {
      set q | q in packages && exists c :: c in components && Provides(q, c)
    }

    /** The outcome of the two inner loops for component `c`: KeyError('dependencies') without the key;
        no scan at all for an empty list; otherwise the first package that fails to resolve raises, or
        the providers of its dependencies are returned. */
    ghost function ComponentProviders(c: string, packages: seq<string>): (r: Result<set<string>>)
      reads this
      requires Indexed(metadata) && c in metadata.components
      ensures r.Ok? ==> r.value == set q | q in packages && Provides(q, c)
    {
      match metadata.components[c].dependencies
      case None => Err(KeyError("dependencies"))
      case Some(deps) =>
        if deps == [] then Ok({})
        else if FirstFailure(packages).Some? then Err(FirstFailure(packages).value)
        else Ok(set q | q in packages && Provides(q, c))
    }

    /** The dependency set of `package` when get_package_dependencies returns normally: it does so
        exactly when the package resolves, every component it resolves to declares `dependencies`, and
        either some package fails to resolve only when no such component lists a dependency. */
    ghost function Dependencies(package: string, packages: seq<string>): Option<set<string>>
      reads this
      requires Indexed(metadata)
    {
      if AllComponentsOf(package).Err? then None
      else
        var components := AllComponentsOf(package).value;
        if (forall c :: c in components ==> Declares(c))
           && (FirstFailure(packages).Some? ==>
                 forall c :: c in components ==> metadata.components[c].dependencies.value == [])
        then Some(ProvidersOfAll(components, packages))
        else None
    }

    /** The packages of `packages` that resolve, and resolve to component `d`. */
    ghost function ResolvingTo(d: string, packages: seq<string>): set<string>
      reads this
      requires Indexed(metadata)
    {
      set q | q in packages && AllComponentsOf(q).Ok? && d in AllComponentsOf(q).value
    }

    /** One more package resolving to `d` joins the set, and one that does not leaves it as it is. */
    lemma ResolvingToSnoc(d: string, packages: seq<string>, k: nat)
      requires Indexed(metadata) && k < |packages|
      ensures ResolvingTo(d, packages[..k + 1]) ==
              ResolvingTo(d, packages[..k]) +
              if AllComponentsOf(packages[k]).Ok? && d in AllComponentsOf(packages[k]).value then {packages[k]} else {}
    {
      Seqs.TakeSnoc(packages, k);
    }

    /** Extending a list without failures by one package fails exactly when that package does. */
    lemma FirstFailureSnoc(packages: seq<string>, k: nat)
      requires Indexed(metadata) && k < |packages|
      requires FirstFailure(packages[..k]).None?
      ensures FirstFailure(packages[..k + 1]) ==
              if AllComponentsOf(packages[k]).Err? then Some(AllComponentsOf(packages[k]).error) else None
    {
      Seqs.TakeSnoc(packages, k);
    }

    /** The exceptions get_package_dependencies(package) may raise: the resolution error of `package`
        itself; otherwise KeyError('dependencies') for a resolved component without the key, or the first
        resolution failure among `packages` when a resolved component lists a dependency. */
    ghost predicate DependencyError(package: string, packages: seq<string>, e: Exception)
      reads this
      requires Indexed(metadata)
    {
      if AllComponentsOf(package).Err? then e == AllComponentsOf(package).error
      else
        var components := AllComponentsOf(package).value;
        || (e == KeyError("dependencies") && exists c :: c in components && !Declares(c))
        || (Some(e) == FirstFailure(packages) &&
            exists c :: c in components && Declares(c) && metadata.components[c].dependencies.value != [])
    }

    /** The innermost loop: the packages resolving to component `d`; the first package that fails to
        resolve raises. */
    method PackagesProviding(d: string, packages: seq<string>) returns (r: Result<set<string>>)
      requires Indexed(metadata)
      ensures FirstFailure(packages).Some? ==> r == Err(FirstFailure(packages).value)
      ensures FirstFailure(packages).None? ==> r == Ok(ResolvingTo(d, packages))
    {
      var found := {};
      Seqs.TakeAll(packages);
      for k := 0 to |packages|
        invariant FirstFailure(packages[..k]).None?
        invariant found == ResolvingTo(d, packages[..k])
      {
        FirstFailureSnoc(packages, k);
        ResolvingToSnoc(d, packages, k);
        var all := GetAllCPackComponents(packages[k]);
        if all.Err? {
          FirstFailurePrefix(packages, k + 1);
          return Err(all.error);
        }
        if d in all.value {
          found := found + {packages[k]};
        }
      }
      return Ok(found);
    }

    /** The packages of `packages` that resolve to some component of `ds`. */
    ghost function ProvidersOfDeps(ds: seq<string>, packages: seq<string>): set<string>
      reads this
      requires Indexed(metadata)
    {
      set q | q in packages && AllComponentsOf(q).Ok? && exists d :: d in ds && d in AllComponentsOf(q).value
    }

    /** One more dependency adds exactly the packages resolving to it. */
    lemma ProvidersOfDepsSnoc(ds: seq<string>, d: string, packages: seq<string>)
      requires Indexed(metadata)
      ensures ProvidersOfDeps(ds + [d], packages) ==
              ProvidersOfDeps(ds, packages) + set q | q in packages && AllComponentsOf(q).Ok? && d in AllComponentsOf(q).value
    {
      forall q | q in ProvidersOfDeps(ds + [d], packages)
        ensures q in ProvidersOfDeps(ds, packages) || d in AllComponentsOf(q).value
      {
        var e :| e in ds + [d] && e in AllComponentsOf(q).value;
        if e != d {
          assert e in ds;
        }
      }
    }

    /** Over the whole dependency list of a component that declares one, the packages resolving to a
        dependency are its providers. */
    lemma ProvidersOfDepsAll(c: string, packages: seq<string>)
      requires Indexed(metadata) && Declares(c)
      ensures ProvidersOfDeps(metadata.components[c].dependencies.value, packages) ==
              set q | q in packages && Provides(q, c)
    {
    }

    /** The two inner loops for component `c`. */
    method ComponentDependencies(c: string, packages: seq<string>) returns (r: Result<set<string>>)
      requires Indexed(metadata) && c in metadata.components
      ensures r == ComponentProviders(c, packages)
    {
      var declared := metadata.components[c].dependencies;
      if declared.None? {
        return Err(KeyError("dependencies"));
      }
      var deps := declared.value;
      var found := {};
      Seqs.TakeAll(deps);
      for j := 0 to |deps|
        invariant 0 < j ==> FirstFailure(packages).None?
        invariant found == ProvidersOfDeps(deps[..j], packages)
      {
        Seqs.TakeSnoc(deps, j);
        var providers := PackagesProviding(deps[j], packages);
        if providers.Err? {
          return Err(providers.error);
        }
        ProvidersOfDepsSnoc(deps[..j], deps[j], packages);
        found := found + providers.value;
      }
      ProvidersOfDepsAll(c, packages);
      return Ok(found);
    }

    /** get_package_dependencies(package) with `packages` the names get_all_packages() lists: every
        package that resolves to a component some component of `package` depends on, `package` itself
        included. The components are visited in set order, so when both a missing `dependencies` key and
        a package that fails to resolve are present, either error may be the one raised. */
    method GetPackageDependencies(package: string, packages: seq<string>) returns (r: Result<set<string>>)
      requires Indexed(metadata)
      ensures AllComponentsOf(package).Err? ==> r == Err(AllComponentsOf(package).error)
      ensures r.Ok? <==> Dependencies(package, packages).Some?
      ensures r.Ok? ==> r.value == Dependencies(package, packages).value
      ensures AllComponentsOf(package).Ok? && r.Err? ==>
        var components := AllComponentsOf(package).value;
        || (r.error == KeyError("dependencies") && exists c :: c in components && !Declares(c))
        || (Some(r.error) == FirstFailure(packages) &&
            exists c :: c in components && Declares(c) && metadata.components[c].dependencies.value != [])
      ensures r.Err? ==> DependencyError(package, packages, r.error)
    {
      var all := GetAllCPackComponents(package);
      if all.Err? {
        return Err(all.error);
      }
      AllComponentsKnown(package);
      var remaining := all.value;
      var deps := {};
      ghost var done := {};
      while remaining != {}
        invariant remaining <= all.value && done == all.value - remaining
        invariant forall c :: c in done ==>
          Declares(c) && (FirstFailure(packages).Some? ==> metadata.components[c].dependencies.value == [])
        invariant deps == ProvidersOfAll(done, packages)
        decreases remaining
      {
        var c :| c in remaining;
        var providers := ComponentDependencies(c, packages);
        if providers.Err? {
          ComponentFailure(package, packages, c);
          return Err(providers.error);
        }
        ProvidersOfAllAdd(done, c, packages);
        deps := deps + providers.value;
        remaining := remaining - {c};
        done := done + {c};
      }
      DependenciesComplete(package, packages);
      return Ok(deps);
    }

    /** A component of `package` whose providers cannot be computed makes the whole computation fail,
        with one of the two errors. */
    lemma ComponentFailure(package: string, packages: seq<string>, c: string)
      requires Indexed(metadata) && AllComponentsOf(package).Ok?
      requires c in AllComponentsOf(package).value && c in metadata.components
      requires ComponentProviders(c, packages).Err?
      ensures Dependencies(package, packages).None?
      ensures var e := ComponentProviders(c, packages).error;
        || (e == KeyError("dependencies") && !Declares(c))
        || (Some(e) == FirstFailure(packages) && Declares(c) && metadata.components[c].dependencies.value != [])
    {
    }

    /** When every component of `package` declares its dependencies, and a failing package is met
        only with empty lists, the dependencies are the providers of all of its components. */
    lemma DependenciesComplete(package: string, packages: seq<string>)
      requires Indexed(metadata) && AllComponentsOf(package).Ok?
      requires forall c :: c in AllComponentsOf(package).value ==>
        Declares(c) && (FirstFailure(packages).Some? ==> metadata.components[c].dependencies.value == [])
      ensures Dependencies(package, packages) == Some(ProvidersOfAll(AllComponentsOf(package).value, packages))
    {
    }

    /** The providers of one more component add exactly that component's providers. */
    lemma ProvidersOfAllAdd(components: set<string>, c: string, packages: seq<string>)
      requires Indexed(metadata)
      ensures ProvidersOfAll(components + {c}, packages) ==
              ProvidersOfAll(components, packages) + set q | q in packages && Provides(q, c)
    {
    }

    /** There is no self-exclusion: a package with a component that depends on a component of the same
        package depends on itself. */
    lemma SelfDependency(package: string, packages: seq<string>, c: string, d: string)
      requires Indexed(metadata) && package in packages
      requires Dependencies(package, packages).Some?
      requires c in AllComponentsOf(package).value && Declares(c)
      requires d in metadata.components[c].dependencies.value && d in AllComponentsOf(package).value
      ensures package in Dependencies(package, packages).value
    {
      assert Provides(package, c);
    }

    /** The substitution variables substvars writes for `acted` (the packages get_packages() returns),
        when every dependency set is computed: one `cpack:Depends` entry per package with a dependency,
        its value built from the dependencies in sorted order. */
    ghost function SubstvarsFor(acted: seq<string>, packages: seq<string>): Option<seq<Substvar>>
      reads this
      requires Indexed(metadata)
    {
      if acted == [] then Some([])
      else
        var init, last := acted[..|acted| - 1], acted[|acted| - 1];
        match SubstvarsFor(init, packages)
        case None => None
        case Some(written) =>
          match Dependencies(last, packages)
          case None => None
          case Some(deps) =>
            Some(written + if deps == {} then [] else [Substvar(last, "cpack:Depends", DependsValue(Text.SortedSeq(deps)))])
    }

    /** One more package acted on extends the written variables by its entry, if it has one. */
    lemma SubstvarsForStep(acted: seq<string>, k: nat, packages: seq<string>, written: seq<Substvar>)
      requires Indexed(metadata) && k < |acted|
      requires SubstvarsFor(acted[..k], packages) == Some(written)
      requires Dependencies(acted[k], packages).Some?
      ensures var deps := Dependencies(acted[k], packages).value;
        SubstvarsFor(acted[..k + 1], packages) ==
        Some(written + if deps == {} then [] else [Substvar(acted[k], "cpack:Depends", DependsValue(Text.SortedSeq(deps)))])
    {
      Seqs.TakeSnoc(acted, k);
    }

    /** The loop of substvars over the packages acted on: for each its dependencies are computed and,
        when the Depends value is not empty, written. `written` are the variables written before an
        error, if any, stopped the loop. */
    method WriteSubstvars(acted: seq<string>, packages: seq<string>) returns (written: seq<Substvar>, error: Option<Exception>)
      requires Indexed(metadata)
      ensures error.None? ==> SubstvarsFor(acted, packages) == Some(written)
      ensures error.Some? ==>
        exists k :: 0 <= k < |acted| && SubstvarsFor(acted[..k], packages) == Some(written) &&
                    Dependencies(acted[k], packages).None? && DependencyError(acted[k], packages, error.value)
    {
      written := [];
      Seqs.TakeAll(acted);
      for k := 0 to |acted|
        invariant SubstvarsFor(acted[..k], packages) == Some(written)
      {
        var deps := GetPackageDependencies(acted[k], packages);
        if deps.Err? {
          return written, Some(deps.error);
        }
        assert Dependencies(acted[k], packages) == Some(deps.value);
        SubstvarsForStep(acted, k, packages, written);
        var sorted := Text.SortNames(deps.value);
        if deps.value != {} {
          var y :| y in deps.value;
          assert y in sorted;
        }
        var depends := DependsValue(sorted);
        DependsValueEmpty(sorted);
        assert depends == "" <==> deps.value == {};
        if depends != "" {
          written := written + [Substvar(acted[k], "cpack:Depends", depends)];
        } else {
          assert written + [] == written;
        }
      }
      return written, None;
    }

    /** substvars: reads the metadata, then writes the variables of the packages acted on. */
    method Substvars(doc: Metadata, packages: seq<string>) returns (written: seq<Substvar>, error: Option<Exception>)
      requires WellFormed(doc)
      modifies this
      ensures metadata == AfterRead(doc)
      ensures MissingReference(doc).Some? ==> written == [] && error == Some(KeyError(MissingReference(doc).value))
      ensures MissingReference(doc).None? ==> Indexed(metadata)
      ensures MissingReference(doc).None? && error.None? ==>
        SubstvarsFor(Common.ActedOn(options, control), packages) == Some(written)
      ensures MissingReference(doc).None? && error.Some? ==>
        var acted := Common.ActedOn(options, control);
        exists k :: 0 <= k < |acted| && SubstvarsFor(acted[..k], packages) == Some(written) &&
                    Dependencies(acted[k], packages).None? && DependencyError(acted[k], packages, error.value)
    {
      var read := ReadCPackMetadata(doc);
      if read.Err? {
        return [], Some(read.error);
      }
      AfterReadComplete(doc);
      BuildIndexIndexed(doc);
      var acted := Common.GetPackages(options, control);
      written, error := WriteSubstvars(acted, packages);
    }
  }
}
