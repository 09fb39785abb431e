/**
 `pip_install`: normalise the argument to a list, then install the packages
 one by one in list order, advancing a progress task after each.
 */
module Installer {
  import opened Wrappers
  import opened PackageManager

  /** The one progress task `pip_install` creates: its total and how many
      steps it has advanced (the rendering is not modelled). */
  class ProgressTask {
    const total: nat
    var completed: nat

    constructor (total: nat)
      ensures this.total == total && completed == 0
    {
      this.total := total;
      completed := 0;
    }

    /** `progress.advance(task)`: one step forward. */
    method Advance()
      modifies this
      ensures completed == old(completed) + 1
    {
      completed := completed + 1;
    }
  }

  /** `pip_install(packages)`: returns the names handed to `install_package`
      in call order, the argument list each of those calls runs (the default
      `show_output=True` branch), and the progress task's total and final
      count. */
  method PipInstall(packages: Target)
    returns (installed: seq<string>, commands: seq<seq<string>>, total: nat, advanced: nat)
    ensures installed == Names(packages)
    ensures packages.Single? ==> installed == [packages.name]
    ensures |commands| == |installed|
    ensures forall i :: 0 <= i < |installed| ==>
              InstallPackageCommand(Single(installed[i]), true) == Some(commands[i])
              && commands[i] == ["pip", "install", installed[i]]
    ensures total == advanced == |installed|
  {
    var names := Names(packages);
    var task := new ProgressTask(|names|);
    installed, commands := [], [];
    for i := 0 to |names|
      invariant installed == names[..i]
      invariant |commands| == i
      invariant forall j :: 0 <= j < i ==>
                  InstallPackageCommand(Single(installed[j]), true) == Some(commands[j])
                  && commands[j] == ["pip", "install", installed[j]]
      invariant task.total == |names| && task.completed == i
    {
      var cmd := InstallPackageCommand(Single(names[i]), true);
      SingleIsOneElementList(names[i]);
      installed := installed + [names[i]];
      commands := commands + [cmd.value];
      task.Advance();
    }
    total, advanced := task.total, task.completed;
  }

}
