# dh-cmake CPack resolver, modelled in Dafny

dh-cmake adds debhelper commands for CMake projects. This model covers `dh_cpack`'s resolver in
`dhcmake/cpack.py`, the class `DHCPack`. It turns the CPack metadata document
(`debian/.cpack/cpack-metadata.json`, already loaded) into Debian package relations:

- `read_cpack_metadata` indexes the document. Every component group receives a `groups` list of its
  child groups and a `components` list of its member components.
- `get_cpack_components` and `get_cpack_component_groups` read a package's selection files,
  `debian/<package>.cpack-components` and `debian/<package>.cpack-component-groups`; for the main
  package, `debian/cpack-components` and `debian/cpack-component-groups` serve as fallbacks. They skip
  only empty lines and lines starting with `#`. Every other line is right-stripped, and the read raises
  ValueError unless the stripped text is a name the metadata knows. So a line of blanks, or an indented
  comment, is rejected.
- `get_all_cpack_components_for_group` closes a group over its child groups. It walks them depth
  first with one `visited` set shared by reference.
- `get_all_cpack_components` unions a package's own components with the closures of its groups.
- `get_package_dependencies` turns component dependencies into package dependencies.
- `substvars` writes the sorted result as the `cpack:Depends` substitution variable.

The model also covers the helpers of `dhcmake/common.py` that these commands use, together with their
legacy duplicates in `dh_cmake_common.py`:

- the shell-style argument echo `format_arg_for_print`;
- the cached parse of `dpkg-architecture` output;
- package selection (`get_packages`);
- the main package and per-package file lookup (`get_main_package`, `get_package_file`);
- `get_tmpdir`.

Modules, one concern each:

| module | file | contents |
|---|---|---|
| `Wrappers` | wrappers.dfy | `Option`, `Result` and the three Python exceptions the code raises (`KeyError`, `ValueError`, `IndexError`) |
| `Seqs` | seqs.dfy | list filtering, distinctness, subsequences |
| `Text` | text.dfy | the `str` behaviour relied on: `rstrip`, `split`, `split(sep, 1)`, `join`, `<` on strings, `sorted` |
| `Common` | common.dfy | dhcmake/common.py and dh_cmake_common.py; `ArchitectureCache` is the module-level cache as a class |
| `CPackMetadata` | metadata.dfy | the document, the index `read_cpack_metadata` builds, and when it fails |
| `ComponentClosure` | closure.dfy | the group walk as a function, with its soundness and exactness lemmas |
| `CPack` | cpack.dfy | class `DHCPack` with the imperative methods, each proved against a function of its inputs and state, plus the selection, dependency and substvar specifications |

Python dictionaries are modelled as a map together with the list of its keys in document order, which is
the order Python iterates them in. A field the document may omit is an `Option`. The `visited` set,
which the recursive calls share by reference, is an object of class `Visited`. The recursive method
changes that object, and its contract states the visited set it leaves behind.

Where the code and a plain reading of its purpose differ, the model follows the code:

- **No self-exclusion.** `get_package_dependencies` scans every package, the package itself included
  (dhcmake/cpack.py:107-110). So a package whose component depends on one of its own components
  depends on itself. `CPack.DHCPack.SelfDependency` proves this.
- **`dependencies` is mandatory.** The key is indexed directly (dhcmake/cpack.py:105-106), so a
  resolved component without it raises `KeyError('dependencies')`.
- **Cycles do not stop the walk.** The `visited` guard makes the group walk terminate on every
  document, cyclic `parentGroup` links included. The termination measure is the set of groups not yet
  visited. Acyclicity is needed only for the closure to be exactly "the components at or below the
  group".

## Model

| member | source | states |
|---|---|---|
| Common.DefaultActsOnAll | dhcmake/common.py:126-145 | with no `-p`, `-N`, `-a` or `-i` given, as parsing an empty argument list leaves the options (the type "both" set at line 45 kept, and no package lists) every package of debian/control is acted on, in file order |
| Common.EscapeChainIsEscape | dhcmake/common.py:31-35 | the four replacements, backslash first, escape every backslash, `"`, `'` and `$` exactly once: the backslashes added by the later replacements are not doubled again |
| Common.SpaceInEscape | dhcmake/common.py:36 | escaping neither adds nor removes a space |
| Common.FormatArgForPrintSpec | dhcmake/common.py:31-39 | the printed argument is the escaped argument, in double quotes exactly when the argument contains a space (dh_cmake_common.py:61-69 is the same function) |
| Common.FormatArgForPrintPlain | dhcmake/common.py:31-39 | an argument without space, backslash, quote or dollar sign is printed unchanged |
| Common.UnescapeEscape | dhcmake/common.py:32-35 | removing one backslash before each escaped character undoes the escaping |
| Common.FormatArgForPrintInvertible | dhcmake/common.py:31-39 | the argument can be read back from what is printed, so distinct arguments print differently |
| Common.FirstMalformed | dhcmake/common.py:23-25 | the position of the first non-empty output line without `=`, and that all lines before it are well formed |
| Common.ArchitectureKeys | dhcmake/common.py:23-26 | a key is in the parsed map exactly when some non-empty line assigns it |
| Common.ArchitectureLastWins | dhcmake/common.py:25-26 | the stored value is that of the last line assigning the key, split at the first `=` only, so a value may contain `=` |
| Common.ParseArchitectureOutput | dhcmake/common.py:20-26 | the parse loop builds the map of the lines, and raises the unpacking error exactly when a non-empty line has no `=`, keeping the lines before it |
| Common.ArchitectureCache.constructor | dhcmake/common.py:14 | the cache starts empty (None) |
| Common.ArchitectureCache.DpkgArchitecture | dhcmake/common.py:17-28 | a filled cache is returned unchanged without parsing; otherwise the cache becomes the parsed map (partial when the parse raises) and the call returns it or the error (dh_cmake_common.py:13-24 is the same cache) |
| Common.GetPackages | dhcmake/common.py:122-145 | the loop returns exactly the control packages selected by the precedence of `--package`, `--no-package` and the package type, in file order |
| Common.ActedOnMembers | dhcmake/common.py:126-145 | a name is returned exactly when some control package with that name is selected |
| Common.WhitelistSelects | dhcmake/common.py:130-132 | with a non-empty `--package` list exactly the whitelisted control packages are returned, whatever the blacklist and type |
| Common.BlacklistSelects | dhcmake/common.py:133-135 | with only a `--no-package` list exactly the control packages not in it are returned |
| Common.TypeSelects | dhcmake/common.py:136-143 | otherwise `indep` keeps architecture `all`, `arch` keeps `any`, `both` keeps every package |
| Common.ActedOnSubsequence | dhcmake/common.py:126-145 | the result is the control-file name list with some names deleted, order kept |
| Common.GetMainPackage | dhcmake/common.py:147-154 | `--mainpackage` when given, else the first control package; IndexError exactly when neither exists |
| Common.PackageFile | dhcmake/common.py:156-167 | a returned path exists; `debian/<package>.<ext>` wins; otherwise `debian/<ext>` is returned exactly when the package is the main package and that path exists; a failing main-package lookup is the error |
| Common.GetPackageFile | dhcmake/common.py:156-167 | the candidate loop returns what PackageFile describes |
| Common.GetTmpdir | dhcmake/common.py:182-186 | `--tmpdir` when given, else `debian/<package>` |
| Text.RStrip | dhcmake/cpack.py:45 | the result is a prefix of the line, does not end in white space, and only white space was removed |
| Text.Split | dhcmake/common.py:23 | the pieces never contain the separator, and there is at least one piece |
| Text.JoinSplit | dhcmake/common.py:23 | joining the pieces with the separator gives the output back, so no character is lost |
| Text.SplitOnce | dhcmake/common.py:25 | the line is key, separator, value, with no separator in the key; None exactly when there is no separator |
| Text.SplitOnceAt | dhcmake/common.py:25 | splitting `key=value` with `=`-free key gives key and value back |
| Text.SortedUnique | dhcmake/cpack.py:134-135 | two ascending lists without repetitions holding the same names are equal, so `sorted()` of a set is determined |
| Text.Insert | dhcmake/cpack.py:134-135 | inserting into an ascending list keeps it ascending and adds exactly the name |
| Text.SortNames | dhcmake/cpack.py:134-135 | the sort returns the ascending list of exactly the names |
| CPackMetadata.MissingParentAt | dhcmake/cpack.py:22-28 | the position of the first group, in document order, whose parentGroup names no group |
| CPackMetadata.MissingGroupAt | dhcmake/cpack.py:30-36 | the position of the first component whose group names no group |
| CPackMetadata.MissingReference | dhcmake/cpack.py:22-36 | the failing lookup names an absent group; there is none exactly when every parentGroup and every group resolves |
| CPackMetadata.AfterReadComplete | dhcmake/cpack.py:18-36 | without a missing reference the read leaves the full index |
| CPackMetadata.WireGroupStep | dhcmake/cpack.py:27-28 | wiring one more group appends it to its parent's `groups` only |
| CPackMetadata.WireComponentStep | dhcmake/cpack.py:35-36 | wiring one more component appends it to its group's `components` only |
| CPackMetadata.WireGroupAppend | dhcmake/cpack.py:22-28 | the map update of the second loop for a group with a parent |
| CPackMetadata.WireGroupSkip | dhcmake/cpack.py:23-26 | a group without parentGroup changes nothing |
| CPackMetadata.WireComponentAppend | dhcmake/cpack.py:30-36 | the map update of the third loop for a component with a group |
| CPackMetadata.WireComponentSkip | dhcmake/cpack.py:31-34 | a component without group changes nothing |
| CPackMetadata.BuildIndexChildrenExact | dhcmake/cpack.py:18-28 | after indexing, a group's `groups` lists exactly its children, each once |
| CPackMetadata.BuildIndexMembersExact | dhcmake/cpack.py:30-36 | after indexing, a group's `components` lists exactly its members, each once |
| CPackMetadata.BuildIndexIndexed | dhcmake/cpack.py:18-36 | the index of a document without missing references has exact lists, and every listed child is a group |
| CPackMetadata.ChildListCount | dhcmake/cpack.py:18-28 | group h occurs in the `groups` of p once if its parentGroup is p and otherwise not at all |
| CPackMetadata.MemberListCount | dhcmake/cpack.py:30-36 | component c occurs in the `components` of g once if its group is g and otherwise not at all; a component without group is in no list |
| ComponentClosure.ComponentsForGroup | dhcmake/cpack.py:73-90 | the walk marks the group visited and never unmarks; it terminates because the unvisited groups decrease |
| ComponentClosure.ComponentsForChildren | dhcmake/cpack.py:84-88 | the children's walks, in order, only add to the shared visited set |
| ComponentClosure.ComponentsForGroupSound | dhcmake/cpack.py:81-88 | every component found belongs to the group or to a group below it, from any visited set |
| ComponentClosure.ComponentsForChildrenSound | dhcmake/cpack.py:84-88 | every component found from the children belongs to a group below the parent |
| ComponentClosure.SiblingSubtreesDisjoint | dhcmake/cpack.py:84-88 | without cycles two children of a group share no group below them, so a sibling's walk never pre-empts another's |
| ComponentClosure.ComponentsForGroupExact | dhcmake/cpack.py:73-90 | without cycles, from a visited set disjoint from the group's subtree, the walk finds exactly the subtree's components and visits exactly the subtree |
| ComponentClosure.ComponentsForChildrenExact | dhcmake/cpack.py:84-88 | the same for the children walked in turn with the shared set |
| ComponentClosure.ClosureIsComponentsBelow | dhcmake/cpack.py:81-88 | without cycles, a group's closure is exactly the set of components whose group is the group or below it |
| CPack.SelectedNamesInOrder | dhcmake/cpack.py:43-47 | the selected names are the kept lines, in file order, right-stripped |
| CPack.SelectedNamesMembers | dhcmake/cpack.py:43-45 | a name is selected exactly when some kept line strips to it |
| CPack.SelectFrom | dhcmake/cpack.py:38-51 | a successful read returns only known names |
| CPack.SelectRejectsUnknown | dhcmake/cpack.py:46-50 | one kept line naming something unknown makes the read raise the package's ValueError |
| CPack.SelectAcceptsKnown | dhcmake/cpack.py:43-51 | when every kept line is known the read returns the stripped kept lines in order |
| CPack.SelectLines | dhcmake/cpack.py:41-51 | the line loop returns what SelectFrom describes |
| CPack.GroupsClosureSound | dhcmake/cpack.py:95-97 | every component of the group closures belongs to a selected group or a group below it |
| CPack.GroupsClosureExact | dhcmake/cpack.py:92-99 | without cycles the group closures are exactly the components at or below the selected groups |
| CPack.DependsValueEmpty | dhcmake/cpack.py:134-137 | the Depends value is empty exactly when there is no dependency, so the variable is written exactly then |
| CPack.Visited.constructor | dhcmake/cpack.py:74-75 | a walk started without a visited set starts from an empty one |
| CPack.DHCPack.ReadCPackMetadata | dhcmake/cpack.py:13-36 | the document is left as AfterRead describes, and KeyError naming the absent group is raised exactly when a reference is missing |
| CPack.DHCPack.ResetLists | dhcmake/cpack.py:18-20 | every group's two lists are emptied, nothing else changes |
| CPack.DHCPack.WireGroups | dhcmake/cpack.py:22-28 | each group is appended to its parent's list in document order, up to the first missing parent, which is reported |
| CPack.DHCPack.WireComponents | dhcmake/cpack.py:30-36 | each component is appended to its group's list in document order, up to the first missing group, which is reported |
| CPack.DHCPack.PackageSelection | dhcmake/cpack.py:38-53 | a selection read succeeds only with known names; no file is the empty selection |
| CPack.DHCPack.ReadSelection | dhcmake/cpack.py:38-53 | the file lookup and line loop return what PackageSelection describes |
| CPack.DHCPack.GetCPackComponents | dhcmake/cpack.py:38-53 | get_cpack_components against the components of the metadata, raising "Invalid CPack components in <package>" |
| CPack.DHCPack.GetCPackComponentGroups | dhcmake/cpack.py:55-71 | get_cpack_component_groups against the groups of the metadata, raising "Invalid CPack component groups in <package>" |
| CPack.DHCPack.GetAllCPackComponentsForGroup | dhcmake/cpack.py:73-90 | the recursive method returns the walk's components and leaves the shared visited set as the walk does |
| CPack.DHCPack.GetAllCPackComponents | dhcmake/cpack.py:92-99 | the direct components united with each selected group's closure from a fresh visited set, or the first selection error |
| CPack.DHCPack.AllComponentsKnown | dhcmake/cpack.py:104-106 | every resolved component is a key of `components` |
| CPack.DHCPack.AllComponentsBelow | dhcmake/cpack.py:92-99 | without cycles a package resolves exactly to its selected components and the components at or below its selected groups |
| CPack.DHCPack.FirstFailure | dhcmake/cpack.py:107-110 | no package fails exactly when every listed package resolves |
| CPack.DHCPack.FirstFailurePrefix | dhcmake/cpack.py:107-110 | a failure among the first packages is the failure the scan raises |
| CPack.DHCPack.FirstFailureSnoc | dhcmake/cpack.py:107-110 | one more package fails the scan exactly when that package does not resolve |
| CPack.DHCPack.ComponentProviders | dhcmake/cpack.py:105-110 | a component's providers are the packages resolving to one of its dependencies |
| CPack.DHCPack.PackagesProviding | dhcmake/cpack.py:107-110 | the innermost loop returns the packages resolving to the dependency, or the first resolution error |
| CPack.DHCPack.ResolvingToSnoc | dhcmake/cpack.py:108-110 | one more package joins the providers exactly when it resolves to the dependency |
| CPack.DHCPack.ProvidersOfDepsSnoc | dhcmake/cpack.py:105-110 | one more dependency adds exactly the packages resolving to it |
| CPack.DHCPack.ComponentDependencies | dhcmake/cpack.py:105-110 | the two inner loops return the component's providers, KeyError('dependencies') without the key, or the first resolution error (never for an empty list) |
| CPack.DHCPack.GetPackageDependencies | dhcmake/cpack.py:101-112 | a package q is returned exactly when some resolved component lists a dependency that q resolves to; it fails exactly when resolution fails, a component lacks `dependencies`, or a package fails to resolve while a dependency is listed, with that error |
| CPack.DHCPack.ComponentFailure | dhcmake/cpack.py:104-110 | a component whose providers fail makes the whole computation fail, with one of the two errors |
| CPack.DHCPack.DependenciesComplete | dhcmake/cpack.py:101-112 | when no component fails, the dependencies are the union of every component's providers |
| CPack.DHCPack.ProvidersOfAllAdd | dhcmake/cpack.py:104-110 | one more component adds exactly its providers |
| CPack.DHCPack.SelfDependency | dhcmake/cpack.py:107-110 | a package is its own dependency when one of its components depends on one of its own components |
| CPack.DHCPack.SubstvarsForStep | dhcmake/cpack.py:132-137 | one more package acted on adds its `cpack:Depends` entry exactly when it has a dependency |
| CPack.DHCPack.WriteSubstvars | dhcmake/cpack.py:132-137 | the loop writes, in order, one `cpack:Depends` entry per package with dependencies, valued with the sorted names each followed by ` (= ${binary:Version})` and joined with `, `; it stops at the first package whose dependencies fail, with the exception get_package_dependencies raises for it |
| CPack.DHCPack.Substvars | dhcmake/cpack.py:128-137 | the metadata is read first and a missing reference stops the command with its KeyError before any variable is written; otherwise the variables are those of the packages acted on, up to the first package whose dependencies fail, whose exception is returned |

## Left out

- Loading the JSON document (dhcmake/cpack.py:14-15): the loaded document is the input `doc`, and what
  `json.load` guarantees (every key once, key order as listed) is the precondition `WellFormed`.
  A document missing its `componentGroups` or `components` objects is not modelled.
- `read_package_file` (dhcmake/common.py:169-177): the contents of a package file are given as lines in
  the `files` map. Running an executable package file to get its output is not modelled. Likewise
  `os.path.exists` is membership in the set of existing paths.
- The `dpkg-architecture` subprocess and `subprocess.run` in `do_cmd`: the command output is a
  parameter. `do_cmd`, `generate` and the cmake and ctest modules only assemble argument lists.
- Argument parsing (`parse_args`, `_parse_args`, `make_arg_parser`, and `init`/`get_options` in
  dh_cmake_common.py): the parsed options are the record `Options`. An option that was not given is
  the empty list or string, which the code treats as false just like `None`.
- Reading debian/control with python-debian: the binary packages are the `control` list of name and
  architecture.
- `get_all_packages` is not part of this model: its package names are the parameter `packages`.
- `write_substvar` is not part of this model: the written variables are returned as `Substvar` records.
- The `DHEntryPoint` decorator, standard output and standard error are not part of this model.
- CPack.DHCPack.GetAllCPackComponentsForGroup: requires that the group and every listed child are
  groups of the metadata. The callers guarantee this, since selections are validated and child lists
  come from the index. A direct call with an unknown group, which raises KeyError in the code, is not
  modelled.
- CPack.DHCPack.GetPackageDependencies: components are visited in Python set order, which the model
  leaves open. When both a missing `dependencies` key and a package that fails to resolve are present,
  the contract states only that the error is one of the two.
- CPack.DHCPack.GetAllCPackComponents: requires an indexed document, as `read_cpack_metadata` leaves
  it, and so do the dependency methods built on it. Called on a document that is not indexed, the code
  may raise KeyError from the closure instead. Substvars itself reads the document first, so it needs
  no such requirement.
- ComponentClosure.ClosureIsComponentsBelow: exactness is proved only for documents whose parentGroup
  links form no cycle. On a cyclic document the walk still terminates and is sound, which
  ComponentsForGroupSound states.
- Common.ArchitectureCache.DpkgArchitecture: the error is Python's unpacking ValueError with its message
  fixed; the message text of other interpreters is not modelled.
- Common.GetMainPackage: the IndexError message is fixed; `packages[0]["package"]` raising for a
  paragraph without `Package` is not modelled, since debian/control parsing is outside the model.
