/**
 * The objects of tcs.py that change in place: each `Menu` appends to its
 * item list, the `TCS` object fills its name-to-menu registry, and the
 * process whose working directory `run_command` changes and restores.
 * Each method is tied to the value-level account in MenuSpec, ConfigSpec
 * and RunSpec, where its properties are proved.
 */
module Launcher {
  import opened Wrappers
  import opened MenuSpec
  import opened ConfigSpec
  import opened RunSpec

  /** One on-screen button: its label, its kind, the menu holding it and its commands. */
  datatype MenuItem = MenuItem(name: string, action: Action, menu: Menu, args: seq<string>)

  /** A MenuItem seen as a value, its menu given by name. */
  function EntryOf(item: MenuItem): Entry {
    Entry(item.name, item.action, item.menu.name, item.args)
  }

  /** The items of a menu seen as values, in order. */
  function EntriesOf(items: seq<MenuItem>): seq<Entry> {
    seq(|items|, i requires 0 <= i < |items| => EntryOf(items[i]))
  }

  /** A named, append-only list of menu items. */
  class Menu {
    const name: string
    var items: seq<MenuItem>

    constructor (name: string)
      ensures this.name == name && items == []
    {
      this.name := name;
      items := [];
    }

    /** Appends `item` after the existing items. */
    method AddItem(item: MenuItem)
      modifies this
      ensures items == old(items) + [item]
    {
      items := items + [item];
    }

    function GetItems(): seq<MenuItem>
      reads this
    {
      items
    }

    function GetItemCount(): (n: nat)
      reads this
      ensures n == |GetItems()|
    {
      |items|
    }
  }

  /** The working directory of the launcher's process and what it has launched so far. */
  class Process {
    var cwd: string
    var trace: seq<Event>

    constructor (cwd: string)
      ensures this.cwd == cwd && trace == []
    {
      this.cwd := cwd;
      trace := [];
    }
  }

  /**
   * The loop over one section's options in `parse_config_file`: every
   * `command` value is collected in order, the last `directory` and the last
   * `submenu` value win, and other options are ignored.
   */
  method ScanOptions(options: seq<(string, string)>) returns (commands: seq<string>, directory: Option<string>, submenu: string)
    ensures commands == CommandValues(options)
    ensures directory == LastValue(options, "directory")
    ensures submenu == LastValue(options, "submenu").GetOr(RootMenu)
  {
    commands, directory, submenu := [], None, RootMenu;
    var j := 0;
    while j < |options|
      invariant 0 <= j <= |options|
      invariant commands == CommandValues(options[..j])
      invariant directory == LastValue(options[..j], "directory")
      invariant submenu == LastValue(options[..j], "submenu").GetOr(RootMenu)
    {
      var (key, value) := options[j];
      assert options[..j + 1][..j] == options[..j];
      if key == "command" {
        commands := commands + [value];
      } else if key == "directory" {
        directory := Some(value);
      } else if key == "submenu" {
        submenu := value;
      }
      j := j + 1;
    }
    assert options[..|options|] == options;
  }

  /** The launcher: its registry of menus by name and the name of the menu on screen. */
  class Tcs {
    var currentMenu: string
    var menus: map<string, Menu>
    /** The registry as a value: each name with the items of its menu. */
    ghost var registry: Registry

    /**
     * Each registered menu carries the name it is registered under (so no two
     * names share a Menu), every item of it points back at that same Menu
     * instance, and `registry` holds the entries of its items.
     */
    ghost predicate Valid()
      reads this, menus.Values
    {
      && registry.Keys == menus.Keys
      && (forall k | k in menus :: menus[k].name == k)
      && (forall k | k in menus :: EntriesOf(menus[k].items) == registry[k])
      && (forall k, i | k in menus && 0 <= i < |menus[k].items| :: menus[k].items[i].menu == menus[k])
    }

    constructor ()
      ensures Valid() && currentMenu == RootMenu && menus == map[] && registry == map[]
    {
      currentMenu := RootMenu;
      menus := map[];
      registry := map[];
    }

    /** `self.menus[name] = Menu(self, name)`: registers a fresh, empty menu under a new name. */
    method Register(name: string) returns (menu: Menu)
      requires Valid() && name !in menus
      modifies this
      ensures Valid() && currentMenu == old(currentMenu)
      ensures fresh(menu) && name in menus && menus[name] == menu
      ensures forall k | k in old(menus) :: k in menus && menus[k] == old(menus[k])
      ensures forall k | k in menus :: k in old(menus) || k == name
      ensures registry == old(registry)[name := []]
    {
      menu := new Menu(name);
      menus := menus[name := menu];
      registry := registry[name := []];
    }

    /** `menu.add_item(item)` on the menu registered under `menuName`. */
    method AppendItem(menuName: string, menu: Menu, item: MenuItem)
      requires Valid() && menuName in menus && menus[menuName] == menu && item.menu == menu
      modifies this, menu
      ensures Valid() && currentMenu == old(currentMenu) && menus == old(menus)
      ensures menu.items == old(menu.items) + [item]
      ensures registry == AddEntry(old(registry), menuName, EntryOf(item))
    {
      menu.AddItem(item);
      registry := AddEntry(registry, menuName, EntryOf(item));
    }

    /**
     * `get_menu(name)`: the same Menu for a known name; for a new name a fresh
     * empty Menu is registered first, then the parent lookup and the SUBMENU
     * item follow, and an IndexError on the way is returned as a Failure.
     */
    method GetMenu(name: string) returns (r: Result<Menu, Error>)
      requires Valid()
      modifies this, menus.Values
      decreases |name|, 1
      ensures Valid() && currentMenu == old(currentMenu)
      ensures registry == GetMenuEffect(old(registry), name).after
      ensures r.Failure? <==> GetMenuEffect(old(registry), name).failure.Some?
      ensures r.Failure? ==> GetMenuEffect(old(registry), name).failure == Some(r.error)
      ensures name in menus && (r.Success? ==> r.value == menus[name])
      ensures old(name in menus) ==> r == Success(old(menus[name])) && unchanged(this) && unchanged(menus.Values)
      ensures forall k | k in old(menus) :: k in menus && menus[k] == old(menus[k])
      ensures forall k | k in menus && k !in old(menus) :: fresh(menus[k])
    {
      if name in menus {
        r := Success(menus[name]);
      } else {
        r := NewMenu(name);
      }
    }

    /**
     * `get_menu` on a name not yet registered: register a fresh empty Menu under
     * it, look up the parent named by the first character of the head before
     * the last '.', and append to that parent a SUBMENU item named by the third
     * character of the head.
     */
    method NewMenu(name: string) returns (r: Result<Menu, Error>)
      requires Valid() && name !in menus
      modifies this, menus.Values
      decreases |name|, 0
      ensures Valid() && currentMenu == old(currentMenu)
      ensures registry == GetMenuEffect(old(registry), name).after
      ensures r.Failure? <==> GetMenuEffect(old(registry), name).failure.Some?
      ensures r.Failure? ==> GetMenuEffect(old(registry), name).failure == Some(r.error)
      ensures name in menus && fresh(menus[name]) && (r.Success? ==> r.value == menus[name])
      ensures forall k | k in old(menus) :: k in menus && menus[k] == old(menus[k])
      ensures forall k | k in menus && k !in old(menus) :: fresh(menus[k])
    {
      var menu := Register(name);
      var head := RPartitionHead(name);
      if head == "" {
        r := Failure(ParentIndexError(name));
      } else {
        var parentName := head[..1];
        var found := GetMenu(parentName);
        if found.Failure? {
          r := Failure(found.error);
        } else if |head| < 3 {
          r := Failure(SubmenuNameIndexError(name));
        } else {
          var parent := found.value;
          AppendItem(parentName, parent, MenuItem(head[2..3], ActionSubmenu, parent, []));
          r := Success(menu);
        }
      }
    }

    /**
     * `parse_config_file(config)`: a new registry holding only an empty root,
     * then one pass over the sections, in order, that skips the reserved one and
     * loads every other, stopping at the first lookup that raises.
     */
    method ParseConfigFile(config: seq<Section>) returns (failure: Option<Error>)
      modifies this
      ensures Valid() && currentMenu == old(currentMenu)
      ensures registry == ParseEffect(config).after && failure == ParseEffect(config).failure
      ensures forall k | k in menus :: fresh(menus[k])
    {
      var root := new Menu(RootMenu);
      menus := map[RootMenu := root];
      registry := map[RootMenu := []];
      var i := 0;
      while i < |config|
        invariant 0 <= i <= |config|
        invariant Valid() && currentMenu == old(currentMenu)
        invariant forall k | k in menus :: fresh(menus[k])
        invariant LoadSections(registry, config[i..]) == ParseEffect(config)
      {
        var section := config[i];
        assert config[i..][1..] == config[i + 1..];
        if section.name == ReservedSection {
          i := i + 1;
          continue;
        }
        failure := LoadSection(section);
        if failure.Some? {
          return;
        }
        i := i + 1;
      }
      return None;
    }

    /**
     * The body of the loop of `parse_config_file` for a section other than the
     * reserved one: scan its options, look up the menu its submenu names, and
     * append to that menu a RUN item named after the section with its commands.
     */
    method LoadSection(section: Section) returns (failure: Option<Error>)
      requires Valid() && section.name != ReservedSection
      modifies this, menus.Values
      ensures Valid() && currentMenu == old(currentMenu)
      ensures var g := GetMenuEffect(old(registry), SubmenuOf(section));
        && failure == g.failure
        && (failure.Some? ==> registry == g.after)
        && (failure.None? ==> registry == AddEntry(g.after, SubmenuOf(section), RunEntry(section)))
      ensures forall k | k in old(menus) :: k in menus && menus[k] == old(menus[k])
      ensures forall k | k in menus && k !in old(menus) :: fresh(menus[k])
    {
      var commands, directory, submenu := ScanOptions(section.options);
      var found := GetMenu(submenu);
      if found.Failure? {
        return Some(found.error);
      }
      var menu := found.value;
      AppendItem(submenu, menu, MenuItem(section.name, ActionRun, menu, commands));
      return None;
    }

    /** `run_program(program)`: "quit" asks to quit, anything else is launched in the current directory. */
    method RunProgram(program: string, env: Env, process: Process) returns (error: Option<RunError>)
      modifies process
      ensures process.cwd == old(process.cwd)
      ensures match ProgramStep(program, old(process.cwd), env)
        case Success(ev) => error == None && process.trace == old(process.trace) + [ev]
        case Failure(e) => error == Some(e) && process.trace == old(process.trace)
    {
      if program == QuitProgram {
        process.trace := process.trace + [QuitRequested];
        return None;
      }
      if program in env.malformed {
        return Some(SplitFailed(program));
      }
      if program in env.unstartable {
        process.trace := process.trace + [LaunchFailed(program, process.cwd)];
      } else {
        process.trace := process.trace + [Launched(program, process.cwd)];
      }
      return None;
    }

    /**
     * `run_command(data)`: save the working directory, enter the configured
     * one, run pre-command, command and post-command, and change back.
     */
    method RunCommand(data: RunData, env: Env, process: Process) returns (error: Option<RunError>)
      modifies process
      ensures var o := RunCommandEffect(data, old(process.cwd), env);
        process.trace == old(process.trace) + o.events && process.cwd == o.cwd && error == o.error
    {
      var origDirectory := process.cwd;
      if IsSet(data.directory) {
        if data.directory.value in env.missingDirs {
          return Some(ChdirFailed(data.directory.value));
        }
        process.cwd := data.directory.value;
      }
      error := RunSequence(data, env, process);
      if error.Some? {
        return;
      }
      process.cwd := origDirectory;
    }

    /**
     * The three `run_program` calls of `run_command`, in the directory already
     * entered; an exception escaping one of them skips the rest.
     */
    method RunSequence(data: RunData, env: Env, process: Process) returns (error: Option<RunError>)
      modifies process
      ensures var run := RunPrograms(Programs(data), old(process.cwd), env);
        process.trace == old(process.trace) + run.events && process.cwd == old(process.cwd) && error == run.error
    {
      ghost var post := if IsSet(data.postCommand) then [data.postCommand.value] else [];
      RunProgramsStep(data.command, post, process.cwd, env);
      if IsSet(data.postCommand) {
        RunProgramsStep(data.postCommand.value, [], process.cwd, env);
      }
      if IsSet(data.preCommand) {
        RunProgramsStep(data.preCommand.value, [data.command] + post, process.cwd, env);
        assert Programs(data) == [data.preCommand.value] + ([data.command] + post);
        error := RunProgram(data.preCommand.value, env, process);
        if error.Some? {
          return;
        }
      } else {
        assert Programs(data) == [data.command] + post;
      }
      error := RunProgram(data.command, env, process);
      if error.Some? {
        return;
      }
      if IsSet(data.postCommand) {
        error := RunProgram(data.postCommand.value, env, process);
      }
    }
  }
}
