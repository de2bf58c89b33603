/** The helpers of dhcmake/common.py that the CPack resolver and the other dh commands share: package
    selection from debian/control, per-package file lookup, the shell-style echo of a command argument
    and the cached `dpkg-architecture` values. The legacy module dh_cmake_common.py carries the same
    argument escaper and the same architecture cache; the members here model both. */
module Common {
  import opened Wrappers
  import opened Text
  import Seqs

  /** `-a`/`--arch` selects "arch", `-i`/`--indep` selects "indep"; the constructor sets "both". */
  datatype PackageType = Both | Arch | Indep

  /** The parsed command-line options the helpers read. An option that was not given is the empty list or
      the empty string, which Python treats as false just like `None`. */
  datatype Options = Options(
    package: seq<string>,      // -p/--package, repeatable
    noPackage: seq<string>,    // -N/--no-package, repeatable
    packageType: PackageType,  // -a/--arch, -i/--indep
    mainPackage: string,       // --mainpackage
    tmpdir: string)            // -P/--tmpdir

  /** A binary package paragraph of debian/control, as far as the helpers read it. */
  datatype ControlPackage = ControlPackage(name: string, architecture: string)

  /**
   * The parsed options when no `-p`, `-N`, `-a` or `-i` is given, as parsing an empty argument
   * list leaves them: the type a helper starts with ("both") and no package lists.
   */
  function DefaultOptions(): Options
  {
    Options([], [], Both, "", "")
  }

  // ---------------------------------------------------------------------------------------------
  // format_arg_for_print

  /** `s.replace(c, by)` for a one-character pattern: every occurrence of `c`, left to right. */
  function Replace(s: string, c: char, with: string): string {
    if s == [] then [] else (if s[0] == c then with else [s[0]]) + Replace(s[1..], c, with)
  }

  lemma {:induction false} ReplaceAppend(a: string, b: string, c: char, with: string)
    ensures Replace(a + b, c, with) == Replace(a, c, with) + Replace(b, c, with)
  {
    if a != [] {
      assert (a + b)[0] == a[0];
      assert (a + b)[1..] == a[1..] + b;
      ReplaceAppend(a[1..], b, c, with);
      calc {
        Replace(a + b, c, with);
        (if a[0] == c then with else [a[0]]) + Replace(a[1..] + b, c, with);
        (if a[0] == c then with else [a[0]]) + (Replace(a[1..], c, with) + Replace(b, c, with));
        ((if a[0] == c then with else [a[0]]) + Replace(a[1..], c, with)) + Replace(b, c, with);
      }
    } else {
      assert a + b == b;
    }
  }

  /** The four replacements of format_arg_for_print, in their order: backslash first, then `"`, `'`, `$`. */
  function EscapeChain(arg: string): string {
    var doubled := Replace(arg, '\\', "\\\\");
    var quotes := Replace(doubled, '"', "\\\"");
    var apostrophes := Replace(quotes, '\'', "\\'");
    Replace(apostrophes, '$', "\\$")
  }

  /** `format_arg_for_print(arg)`: the escaped argument, in double quotes when it contains a space. */
  function FormatArgForPrint(arg: string): string {
    var escaped := EscapeChain(arg);
    if ' ' in escaped then "\"" + escaped + "\"" else escaped
  }

  /** The characters the escaper treats specially. */
  predicate IsSpecial(c: char) {
    c == '\\' || c == '"' || c == '\'' || c == '$'
  }

  /** Reference escaping of one character: each special character gets exactly one backslash in front
      (so a backslash becomes two), any other character is kept. */
  function EscapeChar(c: char): string {
    if IsSpecial(c) then ['\\', c] else [c]
  }

  /** Reference escaping of a string, character by character. */
  function Escape(s: string): string {
    if s == [] then [] else EscapeChar(s[0]) + Escape(s[1..])
  }

  /** Removes one backslash in front of every escaped character. */
  function Unescape(s: string): string {
    if s == [] then []
    else if s[0] == '\\' && |s| >= 2 then [s[1]] + Unescape(s[2..])
    else [s[0]] + Unescape(s[1..])
  }

  /** Reads back what format_arg_for_print printed: drops the surrounding quotes, then the escapes. */
  function UnformatArg(printed: string): string {
    if |printed| >= 2 && printed[0] == '"' then Unescape(printed[1..|printed| - 1]) else Unescape(printed)
  }

  lemma EscapeChainChar(c: char)
    ensures EscapeChain([c]) == EscapeChar(c)
  {
    if c == '\\' {
      assert Replace([c], '\\', "\\\\") == "\\\\";
      assert Replace("\\\\", '"', "\\\"") == "\\\\";
      assert Replace("\\\\", '\'', "\\'") == "\\\\";
      assert Replace("\\\\", '$', "\\$") == "\\\\";
    } else if c == '"' {
      assert Replace([c], '\\', "\\\\") == [c];
      assert Replace([c], '"', "\\\"") == "\\\"";
      assert Replace("\\\"", '\'', "\\'") == "\\\"";
      assert Replace("\\\"", '$', "\\$") == "\\\"";
    } else if c == '\'' {
      assert Replace([c], '\\', "\\\\") == [c];
      assert Replace([c], '"', "\\\"") == [c];
      assert Replace([c], '\'', "\\'") == "\\'";
      assert Replace("\\'", '$', "\\$") == "\\'";
    } else if c == '$' {
      assert Replace([c], '\\', "\\\\") == [c];
      assert Replace([c], '"', "\\\"") == [c];
      assert Replace([c], '\'', "\\'") == [c];
      assert Replace([c], '$', "\\$") == "\\$";
    } else {
      assert Replace([c], '\\', "\\\\") == [c];
      assert Replace([c], '"', "\\\"") == [c];
      assert Replace([c], '\'', "\\'") == [c];
      assert Replace([c], '$', "\\$") == [c];
    }
  }

  /** Because backslashes are doubled before the other replacements, the backslashes those replacements
      add are not doubled again: the chain escapes every special character exactly once. */
  lemma {:induction false} EscapeChainIsEscape(arg: string)
    ensures EscapeChain(arg) == Escape(arg)
  {
    if arg != [] {
      var c, rest := arg[0], arg[1..];
      assert arg == [c] + rest;
      var d := Replace([c], '\\', "\\\\");
      var q := Replace(d, '"', "\\\"");
      var a := Replace(q, '\'', "\\'");
      ReplaceAppend([c], rest, '\\', "\\\\");
      var dr := Replace(rest, '\\', "\\\\");
      ReplaceAppend(d, dr, '"', "\\\"");
      var qr := Replace(dr, '"', "\\\"");
      ReplaceAppend(q, qr, '\'', "\\'");
      var ar := Replace(qr, '\'', "\\'");
      ReplaceAppend(a, ar, '$', "\\$");
      EscapeChainChar(c);
      EscapeChainIsEscape(rest);
    }
  }

  lemma {:induction false} SpaceInEscape(s: string)
    ensures ' ' in Escape(s) <==> ' ' in s
  {
    if s != [] {
      SpaceInEscape(s[1..]);
      assert s == [s[0]] + s[1..];
    }
  }

  /** format_arg_for_print escapes every special character once and adds double quotes exactly when the
      argument contains a space. */
  lemma FormatArgForPrintSpec(arg: string)
    ensures FormatArgForPrint(arg) == if ' ' in arg then "\"" + Escape(arg) + "\"" else Escape(arg)
  {
    EscapeChainIsEscape(arg);
    SpaceInEscape(arg);
  }

  /** An argument without space, backslash, quotes or dollar sign is printed unchanged. */
  lemma {:induction false} FormatArgForPrintPlain(arg: string)
    requires ' ' !in arg
    requires forall i :: 0 <= i < |arg| ==> !IsSpecial(arg[i])
    ensures FormatArgForPrint(arg) == arg
  {
    FormatArgForPrintSpec(arg);
    EscapePlain(arg);
  }

  lemma {:induction false} EscapePlain(s: string)
    requires forall i :: 0 <= i < |s| ==> !IsSpecial(s[i])
    ensures Escape(s) == s
  {
    if s != [] {
      EscapePlain(s[1..]);
      assert s == [s[0]] + s[1..];
    }
  }

  lemma {:induction false} UnescapeEscape(s: string)
    ensures Unescape(Escape(s)) == s
  {
    if s != [] {
      UnescapeEscape(s[1..]);
      var e := Escape(s);
      assert e == EscapeChar(s[0]) + Escape(s[1..]);
      if IsSpecial(s[0]) {
        assert e[2..] == Escape(s[1..]);
      } else {
        assert e[1..] == Escape(s[1..]);
      }
      assert s == [s[0]] + s[1..];
    }
  }

  /** The printed form loses nothing: the argument can be read back from it, so distinct arguments
      are printed differently. */
  lemma FormatArgForPrintInvertible(arg: string)
    ensures UnformatArg(FormatArgForPrint(arg)) == arg
  {
    FormatArgForPrintSpec(arg);
    UnescapeEscape(arg);
    var printed := FormatArgForPrint(arg);
    if ' ' in arg {
      assert printed[1..|printed| - 1] == Escape(arg);
    } else if arg != [] {
      assert Escape(arg) == EscapeChar(arg[0]) + Escape(arg[1..]);
      assert printed[0] != '"';
    }
  }

  // ---------------------------------------------------------------------------------------------
  // dpkg_architecture

  /** A non-empty output line without `=`: unpacking its split into key and value raises. */
  predicate Malformed(line: string) {
    line != "" && '=' !in line
  }

  /** The error Python raises when `key, value = line.split("=", maxsplit=1)` gets only one piece. */
  const UnpackError := ValueError("not enough values to unpack (expected 2, got 1)")

  /** The position of the first malformed line, if any. */
  function FirstMalformed(lines: seq<string>): (r: Option<nat>)
    ensures r.Some? ==> r.value < |lines| && Malformed(lines[r.value])
    ensures r.Some? ==> forall j :: 0 <= j < r.value ==> !Malformed(lines[j])
    ensures r.None? ==> forall j :: 0 <= j < |lines| ==> !Malformed(lines[j])
  {
    if lines == [] then None
    else if Malformed(lines[0]) then Some(0)
    else match FirstMalformed(lines[1..])
      case None => None
      case Some(i) => Some(i + 1)
  }

  /** The map built from lines none of which is malformed: empty lines are skipped, every other line is
      split at its first `=`, and a later line overwrites an earlier one with the same key. */
  function ArchitectureValues(lines: seq<string>): map<string, string> {
    if lines == [] then map[]
    else
      var values := ArchitectureValues(lines[..|lines| - 1]);
      var line := lines[|lines| - 1];
      if line == "" then values
      else match SplitOnce(line, '=')
        case None => values
        case Some(kv) => values[kv.0 := kv.1]
  }

  /** The non-empty line `line` assigns key `key`. */
  predicate Assigns(line: string, key: string) {
    line != "" && SplitOnce(line, '=').Some? && SplitOnce(line, '=').value.0 == key
  }

  /** What the parsing loop leaves behind: the map of the lines before the first malformed line, and the
      error that line raises. */
  function ArchitectureParse(output: string): (map<string, string>, Option<Exception>) {
    var lines := Split(output, '\n');
    match FirstMalformed(lines)
    case None => (ArchitectureValues(lines), None)
    case Some(i) => (ArchitectureValues(lines[..i]), Some(UnpackError))
  }

  /** A key is in the map exactly when some non-empty line assigns it. */
  lemma {:induction false} ArchitectureKeys(lines: seq<string>, key: string)
    ensures key in ArchitectureValues(lines) <==> exists i :: 0 <= i < |lines| && Assigns(lines[i], key)
  {
    if lines != [] {
      var init := lines[..|lines| - 1];
      ArchitectureKeys(init, key);
      if exists i :: 0 <= i < |init| && Assigns(init[i], key) {
        var i :| 0 <= i < |init| && Assigns(init[i], key);
        assert Assigns(lines[i], key);
      }
      if exists i :: 0 <= i < |lines| && Assigns(lines[i], key) {
        var i :| 0 <= i < |lines| && Assigns(lines[i], key);
        if i < |init| { assert Assigns(init[i], key); }
      }
    }
  }

  /** The value stored for a key is the one of the last line that assigns it: values may themselves
      contain `=`, since only the first `=` splits. */
  lemma {:induction false} ArchitectureLastWins(lines: seq<string>, i: nat, key: string, value: string)
    requires i < |lines| && lines[i] != "" && '=' !in key
    requires lines[i] == key + "=" + value
    requires forall j :: i < j < |lines| ==> !Assigns(lines[j], key)
    ensures key in ArchitectureValues(lines) && ArchitectureValues(lines)[key] == value
  {
    var init := lines[..|lines| - 1];
    var last := lines[|lines| - 1];
    if i == |lines| - 1 {
      SplitOnceAt(key, value, '=');
      assert SplitOnce(last, '=') == Some((key, value));
    } else {
      assert forall j :: i < j < |init| ==> init[j] == lines[j];
      ArchitectureLastWins(init, i, key, value);
      assert !Assigns(last, key);
    }
  }

  /** The parsing loop of dpkg_architecture over the output of `dpkg-architecture`: it stops at the first
      non-empty line without `=` with the unpacking error, keeping what it stored so far. */
  method ParseArchitectureOutput(output: string) returns (values: map<string, string>, error: Option<Exception>)
    ensures (values, error) == ArchitectureParse(output)
    ensures error.None? <==> forall line :: line in Split(output, '\n') ==> !Malformed(line)
  {
    var lines := Split(output, '\n');
    values := map[];
    var i := 0;
    while i < |lines|
      invariant 0 <= i <= |lines|
      invariant forall j :: 0 <= j < i ==> !Malformed(lines[j])
      invariant values == ArchitectureValues(lines[..i])
    {
      var line := lines[i];
      assert lines[..i + 1][..i] == lines[..i];
      if line != "" {
        match SplitOnce(line, '=')
        case None =>
          error := Some(UnpackError);
          return;
        case Some(kv) =>
          values := values[kv.0 := kv.1];
      }
      i := i + 1;
    }
    assert lines[..i] == lines;
    error := None;
  }

  /** The module-level cache of `dpkg-architecture` values (`_dpkg_architecture_values`, and
      `dpkg_architecture_values` in the legacy module); None until the first call. */
  class ArchitectureCache {
    var values: Option<map<string, string>>

    constructor()
      ensures values == None
    {
      values := None;
    }

    /** `dpkg_architecture()`. `output` stands for what running `dpkg-architecture` prints; it is only
        consulted on the first call. The cache is set to an empty map before parsing, so a parse that
        raises leaves the lines stored so far cached, and later calls return them. */
    method DpkgArchitecture(output: string) returns (r: Result<map<string, string>>)
      modifies this
      ensures old(values).Some? ==> values == old(values) && r == Ok(old(values).value)
      ensures old(values).None? ==>
        var (parsed, error) := ArchitectureParse(output);
        && values == Some(parsed)
        && r == (if error.None? then Ok(parsed) else Err(error.value))
    {
      if values.None? {
        var parsed, error := ParseArchitectureOutput(output);
        values := Some(parsed);
        if error.Some? {
          return Err(error.value);
        }
      }
      r := Ok(values.value);
    }
  }

  // ---------------------------------------------------------------------------------------------
  // DHCommon.get_packages

  /** Whether get_packages keeps a package: a non-empty `--package` list wins, then a non-empty
      `--no-package` list, then the package type. */
  predicate Acts(opts: Options, p: ControlPackage) {
    if opts.package != [] then p.name in opts.package
    else if opts.noPackage != [] then p.name !in opts.noPackage
    else match opts.packageType
      case Indep => p.architecture == "all"
      case Arch => p.architecture == "any"
      case Both => true
  }

  /** The names of the packages of debian/control, in file order. */
  function Names(control: seq<ControlPackage>): (names: seq<string>)
    ensures |names| == |control|
    ensures forall i :: 0 <= i < |control| ==> names[i] == control[i].name
  {
    seq(|control|, i requires 0 <= i < |control| => control[i].name)
  }

  /** The names get_packages appends, in control-file order. */
  function ActedOn(opts: Options, control: seq<ControlPackage>): seq<string> {
    if control == [] then []
    else
      var p := control[|control| - 1];
      ActedOn(opts, control[..|control| - 1]) + (if Acts(opts, p) then [p.name] else [])
  }

  /** `get_packages()`, with `control` the binary packages read from debian/control. */
  method GetPackages(opts: Options, control: seq<ControlPackage>) returns (result: seq<string>)
    ensures result == ActedOn(opts, control)
  {
    result := [];
    var i := 0;
    while i < |control|
      invariant 0 <= i <= |control|
      invariant result == ActedOn(opts, control[..i])
    {
      var p := control[i];
      assert control[..i + 1][..i] == control[..i];
      if opts.package != [] {
        if p.name in opts.package {
          result := result + [p.name];
        }
      } else if opts.noPackage != [] {
        if p.name !in opts.noPackage {
          result := result + [p.name];
        }
      } else if opts.packageType == Indep {
        if p.architecture == "all" {
          result := result + [p.name];
        }
      } else if opts.packageType == Arch {
        if p.architecture == "any" {
          result := result + [p.name];
        }
      } else if opts.packageType == Both {
        result := result + [p.name];
      }
      i := i + 1;
    }
    assert control[..i] == control;
  }

  /** With no package selection option given, every package of debian/control is acted on, in file order. */
  lemma {:induction false} DefaultActsOnAll(control: seq<ControlPackage>)
    ensures ActedOn(DefaultOptions(), control) == Names(control)
  {
    if control != [] {
      var init := control[..|control| - 1];
      DefaultActsOnAll(init);
      assert Names(control) == Names(init) + [control[|control| - 1].name];
    }
  }

  /** A name is selected exactly when some control package with that name is acted on. */
  lemma {:induction false} ActedOnMembers(opts: Options, control: seq<ControlPackage>, name: string)
    ensures name in ActedOn(opts, control) <==>
      exists i :: 0 <= i < |control| && control[i].name == name && Acts(opts, control[i])
  {
    if control != [] {
      var init := control[..|control| - 1];
      ActedOnMembers(opts, init, name);
      if exists i :: 0 <= i < |init| && init[i].name == name && Acts(opts, init[i]) {
        var i :| 0 <= i < |init| && init[i].name == name && Acts(opts, init[i]);
        assert control[i] == init[i];
      }
      if exists i :: 0 <= i < |control| && control[i].name == name && Acts(opts, control[i]) {
        var i :| 0 <= i < |control| && control[i].name == name && Acts(opts, control[i]);
        if i < |init| { assert init[i] == control[i]; }
      }
    }
  }

  /** With a non-empty `--package` list, exactly the whitelisted packages of debian/control are acted on;
      `--no-package` and the package type are ignored. */
  lemma WhitelistSelects(opts: Options, control: seq<ControlPackage>, name: string)
    requires opts.package != []
    ensures name in ActedOn(opts, control) <==> name in Names(control) && name in opts.package
  {
    ActedOnMembers(opts, control, name);
    if name in Names(control) && name in opts.package {
      var i :| 0 <= i < |control| && Names(control)[i] == name;
      assert Acts(opts, control[i]);
    }
  }

  /** Without `--package` but with a non-empty `--no-package` list, every package of debian/control that
      is not blacklisted is acted on, whatever its architecture. */
  lemma BlacklistSelects(opts: Options, control: seq<ControlPackage>, name: string)
    requires opts.package == [] && opts.noPackage != []
    ensures name in ActedOn(opts, control) <==> name in Names(control) && name !in opts.noPackage
  {
    ActedOnMembers(opts, control, name);
    if name in Names(control) && name !in opts.noPackage {
      var i :| 0 <= i < |control| && Names(control)[i] == name;
      assert Acts(opts, control[i]);
    }
  }

  /** Without either list the package type decides: "indep" keeps architecture `all`, "arch" keeps
      architecture `any`, "both" keeps every package. */
  lemma TypeSelects(opts: Options, control: seq<ControlPackage>, name: string)
    requires opts.package == [] && opts.noPackage == []
    ensures name in ActedOn(opts, control) <==>
      exists i :: 0 <= i < |control| && control[i].name == name &&
        match opts.packageType
        case Indep => control[i].architecture == "all"
        case Arch => control[i].architecture == "any"
        case Both => true
  {
    ActedOnMembers(opts, control, name);
  }

  /** The selection keeps the control-file order: it is the list of control-file names with some
      names deleted. */
  lemma {:induction false} ActedOnSubsequence(opts: Options, control: seq<ControlPackage>) returns (idx: seq<nat>)
    ensures Seqs.EmbedsAt(ActedOn(opts, control), Names(control), idx)
    ensures Seqs.IsSubsequence(ActedOn(opts, control), Names(control))
  {
    if control == [] {
      idx := [];
    } else {
      var n := |control| - 1;
      var init := control[..n];
      var initIdx := ActedOnSubsequence(opts, init);
      var names, initNames := Names(control), Names(init);
      var acted, initActed := ActedOn(opts, control), ActedOn(opts, init);
      assert forall k :: 0 <= k < |initIdx| ==> initIdx[k] < n && initNames[initIdx[k]] == names[initIdx[k]];
      if Acts(opts, control[n]) {
        idx := initIdx + [n];
        assert acted == initActed + [control[n].name];
      } else {
        idx := initIdx;
        assert acted == initActed;
      }
    }
    assert Seqs.EmbedsAt(ActedOn(opts, control), Names(control), idx);
  }

  // ---------------------------------------------------------------------------------------------
  // get_main_package, get_package_file, get_tmpdir

  /** `os.path.join(a, b)` for two components: an absolute `b` replaces `a`. */
  function PathJoin(a: string, b: string): string {
    if b != [] && b[0] == '/' then b
    else if a == [] || a[|a| - 1] == '/' then a + b
    else a + "/" + b
  }

  /** `get_main_package()`: the `--mainpackage` value when given, else the first package of
      debian/control; indexing an empty package list raises IndexError. */
  function GetMainPackage(opts: Options, control: seq<ControlPackage>): (r: Result<string>)
    ensures r.Err? <==> opts.mainPackage == "" && control == []
    ensures r.Ok? ==> r.value == if opts.mainPackage != "" then opts.mainPackage else control[0].name
  {
    if opts.mainPackage != "" then Ok(opts.mainPackage)
    else if control == [] then Err(IndexError("list index out of range"))
    else Ok(control[0].name)
  }

  /** `debian/<package>.<extension>`. */
  function SpecificPath(package: string, extension: string): string {
    PathJoin("debian", package + "." + extension)
  }

  /** `debian/<extension>`, the main package's fallback. */
  function GenericPath(extension: string): string {
    PathJoin("debian", extension)
  }

  /** `get_package_file(package, extension)` with `existing` the paths for which `os.path.exists` holds:
      `debian/<package>.<extension>` if it exists, else `debian/<extension>` if `package` is the main
      package and that exists, else None. Determining the main package may raise first. */
  function PackageFile(opts: Options, control: seq<ControlPackage>, package: string, extension: string,
                       existing: set<string>): (r: Result<Option<string>>)
    ensures GetMainPackage(opts, control).Err? <==> r.Err?
    ensures r.Err? ==> r.error == GetMainPackage(opts, control).error
    ensures r.Ok? && r.value.Some? ==> r.value.value in existing
    ensures r.Ok? && SpecificPath(package, extension) in existing ==> r.value == Some(SpecificPath(package, extension))
    ensures r.Ok? && SpecificPath(package, extension) !in existing ==>
      (r.value.Some? <==> package == GetMainPackage(opts, control).value && GenericPath(extension) in existing) &&
      (r.value.Some? ==> r.value.value == GenericPath(extension))
  {
    match GetMainPackage(opts, control)
    case Err(e) => Err(e)
    case Ok(main) =>
      if SpecificPath(package, extension) in existing then Ok(Some(SpecificPath(package, extension)))
      else if package == main && GenericPath(extension) in existing then Ok(Some(GenericPath(extension)))
      else Ok(None)
  }

  /** The loop of get_package_file over its candidate list, proved against PackageFile. */
  method GetPackageFile(opts: Options, control: seq<ControlPackage>, package: string, extension: string,
                        existing: set<string>) returns (r: Result<Option<string>>)
    ensures r == PackageFile(opts, control, package, extension, existing)
  {
    var paths := [SpecificPath(package, extension)];
    var main := GetMainPackage(opts, control);
    if main.Err? {
      return Err(main.error);
    }
    if package == main.value {
      paths := paths + [GenericPath(extension)];
    }
    var i := 0;
    while i < |paths|
      invariant 0 <= i <= |paths|
      invariant paths[0] == SpecificPath(package, extension)
      invariant |paths| == if package == main.value then 2 else 1
      invariant |paths| == 2 ==> paths[1] == GenericPath(extension)
      invariant forall j :: 0 <= j < i ==> paths[j] !in existing
    {
      if paths[i] in existing {
        return Ok(Some(paths[i]));
      }
      i := i + 1;
    }
    r := Ok(None);
  }

  /** `get_tmpdir(package)`: the `--tmpdir` value when given, else `debian/<package>`. */
  function GetTmpdir(opts: Options, package: string): (r: string)
    ensures opts.tmpdir != "" ==> r == opts.tmpdir
    ensures opts.tmpdir == "" && (package == [] || package[0] != '/') ==> r == "debian/" + package
  {
    if opts.tmpdir != "" then opts.tmpdir else PathJoin("debian", package)
  }
}
