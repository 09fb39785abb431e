/**
 The pure decisions of the `PackageManager` helpers: building the `pip
 install` argument list, choosing the argument list an install runs with, and
 the case-insensitive "is this package installed" test against the keys of
 the installed distributions.
 */
module PackageManager {
  import opened Wrappers
  import opened Text

  /** The shared prefix of every install invocation (`INSTALL_COMMAND`). */
  const InstallCommand: seq<string> := ["pip", "install"]

  /** What the helpers accept as "package_name": a bare name or a list of names. */
  datatype Target = Single(name: string) | Many(names: seq<string>)

  /** The names a target stands for, in order; a bare name is a one-element list. */
  function Names(t: Target): (ns: seq<string>)
    ensures t.Single? ==> ns == [t.name]
    ensures t.Many? ==> ns == t.names
  {
    match t
    case Single(n) => [n]
    case Many(ns) => ns
  }

  /** `get_install_command`: a fresh copy of the prefix followed by the
      package name(s); the shared prefix itself is a value and never changes. */
  function GetInstallCommand(t: Target): (cmd: seq<string>)
    ensures |cmd| == |InstallCommand| + |Names(t)|
    ensures cmd[0] == "pip" && cmd[1] == "install"
    ensures forall i :: 0 <= i < |Names(t)| ==> cmd[|InstallCommand| + i] == Names(t)[i]
  {
    InstallCommand + Names(t)
  }

  /** The package arguments of an install command: everything after the prefix. */
  function PackageArgs(cmd: seq<string>): (args: seq<string>)
    requires |cmd| >= |InstallCommand|
    ensures |args| == |cmd| - |InstallCommand|
    ensures forall i :: 0 <= i < |args| ==> args[i] == cmd[|InstallCommand| + i]
  {
    cmd[|InstallCommand|..]
  }

  /** Reading the package arguments back recovers the names the command was built from. */
  lemma PackageArgsOfInstallCommand(t: Target)
    ensures PackageArgs(GetInstallCommand(t)) == Names(t)
  {
  }

  /** Every argument list that starts with the prefix is the install command of its own package arguments. */
  lemma InstallCommandOfPackageArgs(cmd: seq<string>)
    requires |cmd| >= |InstallCommand| && cmd[..|InstallCommand|] == InstallCommand
    ensures GetInstallCommand(Many(PackageArgs(cmd))) == cmd
  {
  }

  /** A bare name and the one-element list holding it give the same command. */
  lemma SingleIsOneElementList(n: string)
    ensures GetInstallCommand(Single(n)) == GetInstallCommand(Many([n])) == ["pip", "install", n]
  {
  }

  /** Every command begins with the same unchanged prefix, whatever was built before. */
  lemma InstallCommandPrefixIsShared(t1: Target, t2: Target)
    ensures GetInstallCommand(t1)[..|InstallCommand|] == GetInstallCommand(t2)[..|InstallCommand|]
    ensures GetInstallCommand(t1)[..|InstallCommand|] == ["pip", "install"]
  {
  }

  /** The argument list `install_package(package_name, show_output)` hands to
      the subprocess, or None when that call cannot start: the silent branch
      writes `['pip', 'install', package_name]` itself, which for a list
      target nests the list inside the argument list; the subprocess call
      then raises a type error, which the catch-all handler reports. */
  function InstallPackageCommand(t: Target, showOutput: bool): (r: Option<seq<string>>)
    ensures r.Some? <==> (showOutput || t.Single?)
    ensures r.Some? ==> r.value == GetInstallCommand(t)
  {
    if showOutput then Some(GetInstallCommand(t))
    else match t
      case Single(n) => Some(["pip", "install", n])
      case Many(_) => None
  }

  /** `is_package_installed`: the lower-cased name is one of the installed
      distribution keys (the working set is given as its set of keys). */
  predicate IsPackageInstalled(installedKeys: set<string>, name: string)
    ensures IsPackageInstalled(installedKeys, name) ==>
              exists k :: k in installedKeys && EqualIgnoringCase(k, name)
    ensures (exists k :: k in installedKeys && Lower(k) == k && EqualIgnoringCase(k, name)) ==>
              IsPackageInstalled(installedKeys, name)
  {
    LowerIdempotent(name);
    LowerEqualIffEqualIgnoringCase(Lower(name), name);
    assert forall k :: EqualIgnoringCase(k, name) ==> Lower(k) == Lower(name) by {
      forall k | EqualIgnoringCase(k, name) ensures Lower(k) == Lower(name) {
        LowerEqualIffEqualIgnoringCase(k, name);
      }
    }
    Lower(name) in installedKeys
  }

  /** Names that differ only in ASCII letter case get the same answer. */
  lemma IsPackageInstalledIgnoresCase(installedKeys: set<string>, a: string, b: string)
    requires EqualIgnoringCase(a, b)
    ensures IsPackageInstalled(installedKeys, a) == IsPackageInstalled(installedKeys, b)
  {
    LowerEqualIffEqualIgnoringCase(a, b);
  }

  /** With lower-case keys (as distribution keys are), a name is installed
      exactly when some key equals it up to letter case. */
  lemma IsPackageInstalledIffKeyMatches(installedKeys: set<string>, name: string)
    requires forall k :: k in installedKeys ==> Lower(k) == k
    ensures IsPackageInstalled(installedKeys, name)
            <==> exists k :: k in installedKeys && EqualIgnoringCase(k, name)
  {
  }

}
