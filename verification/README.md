# tcs: a model of the menu registry, the configuration loader and command launching

`tcs.py` is a full-screen menu launcher driven by a configuration file. At
start-up, `parse_config_file` builds a registry from menu name to `Menu`, and
each `Menu` holds an ordered list of `MenuItem`s. The code does the following:

- The `TCS` section is skipped.
- Every other section becomes one RUN item holding its `command` values, in
  order.
- The item is appended to the menu named by the section's last `submenu`
  value, or to the root menu `""` when there is none.
- A non-empty `submenu` makes loading raise, because of how `get_menu`
  indexes the name (see below). So in practice every item sits in the root
  menu.

A `MenuItem` (tcs.py:45-49) keeps a label, a kind (RUN, SUBMENU, BACK or
QUIT), the menu holding it and its commands. It is the datatype
`Launcher.MenuItem`.

A button is connected to its item's `MenuItem.run` (tcs.py:293). For a RUN
item with at least one command value, that method raises NameError on the
undefined `program` (tcs.py:59-61) before anything is launched; a RUN item
with no command value does nothing, because the loop over its arguments
never runs. `run_command` enters the
configured directory, runs the pre-command, the command and the
post-command, and changes back. No live code calls it: its only caller is
the commented-out loop at tcs.py:271-281. It is modelled as written.

This project models that core in Dafny, in two layers:

- **Value level** (`menu_spec.dfy`, `config_spec.dfy`, `run_spec.dfy`):
  - the registry as a map from menu name to the entries of its items;
  - `get_menu` as a function from a registry and a name to the new registry
    and the exception raised, if any;
  - `parse_config_file` as a fold of that function over the sections;
  - `run_program`/`run_command` as functions from the data, the working
    directory and an environment to a trace of launch events, the final
    working directory and the exception that escaped, if any.

  All the properties are proved at this level.
- **Object level** (`launcher.dfy`): the classes whose state the code changes
  in place.
  - `Menu` has an append-only item sequence.
  - `Tcs` has a `map<string, Menu>` registry and the current menu name.
  - `Process` has the working directory and the launch trace.
  - `Tcs.GetMenu` and `Tcs.ParseConfigFile` are proved to change the objects
    exactly as the value-level functions say. `ParseConfigFile` has the loop
    over sections and `ScanOptions` has the loop over one section's options.
  - `Tcs.Valid` ties each registered `Menu` to its name and to the entries
    recorded for it, and requires every item to point back at the `Menu`
    instance that holds it, as the SUBMENU item (tcs.py:138) and the RUN item
    (tcs.py:169-170) do.

`get_menu` is modelled as the code is written:

- Line 136 keeps only the head of `rpartition(".")`.
- Line 137 looks the parent up by that head's first character (`head[0]`).
- Line 138 names the new SUBMENU item by the head's third character
  (`head[2]`).
- No ancestor is created and no BACK item is added.
- Both indexings raise IndexError on a short head. The model returns these
  as `ParentIndexError` and `SubmenuNameIndexError`.

Consequences proved about this code:

- A new name is registered before either IndexError can happen, so it stays
  registered after a failure.
- The recursive lookup is always on a one-character name, and a new
  one-character name always fails.
- `parse_config_file` succeeds exactly when no non-`TCS` section has a
  non-empty `submenu`. Every failure is a `ParentIndexError`.
- On success, every RUN item sits in the root menu, in section order.

`run_command` has no `try`/`finally`. An exception that escapes it skips the
final `chdir` back: a directory that cannot be entered, or a program string
that `shlex.split`/`Popen` rejects with something other than `OSError`. The
model keeps that behaviour. A program that fails to start (`OSError`) is caught and logged; it
appears as a `LaunchFailed` event and the sequence continues. `"quit"` calls
`self.quit`, which destroys the window and returns, so the sequence
continues after it too. `RunData` has the shape of the `data` dictionary built
by the commented-out caller: `command` is read with `config.get`
(tcs.py:276), and `directory`, `pre_command` and `post_command` are filled by
`set_data` (tcs.py:252-256, 277-279), with None for an absent option.

The operating system is a parameter, `RunSpec.Env`. It lists:

- the program strings that fail to start;
- the strings rejected before any start is attempted;
- the directories that cannot be entered.

## Model

| member | source | states |
|---|---|---|
| MenuSpec.RPartitionHead | tcs.py:136 | without a '.' the head is ""; otherwise the head is the proper prefix ending just before the last '.', with no '.' after it |
| MenuSpec.GetMenuEffect | tcs.py:127-140 | `get_menu` never unregisters a menu and always leaves the looked-up name registered, even when it fails |
| MenuSpec.OneCharHeadIsEmpty | tcs.py:136-137 | the parent looked up at line 137 has one character, so its own head is "" |
| MenuSpec.GetMenuEffectIsDirect | tcs.py:127-140 | the recursive lookup equals a non-recursive account: a known name, or a new name whose parent character is known or fails at once |
| MenuSpec.GetMenuKnownName | tcs.py:129-130 | a registered name, the root "" included, changes nothing and succeeds |
| MenuSpec.GetMenuRegistersFirst | tcs.py:131-134 | a new name ends up registered with an empty item list, and a failed call leaves every earlier menu's items as they were |
| MenuSpec.GetMenuWithoutDotFails | tcs.py:133-137 | a new name without a '.' only registers itself and then fails at the parent lookup |
| MenuSpec.GetMenuSucceedsIff | tcs.py:129-138 | success iff the name is known, or its head has at least three characters and the head's first character is a registered menu |
| MenuSpec.GetMenuFrame | tcs.py:127-140 | new menus are empty; known menus only grow at the end, by at most one SUBMENU item and only on success; menus whose name is not one character long are untouched |
| MenuSpec.GetMenuKeepsOwners | tcs.py:138 | the SUBMENU item is owned by the menu it is appended to, so every item keeps naming its own menu |
| MenuSpec.SubmenuItemNamedByThirdCharacter | tcs.py:136-138 | with "a" registered, "abc.d" adds a SUBMENU item "c" to menu "a" and registers "abc.d" empty |
| ConfigSpec.CommandValuesAppend | tcs.py:158-161 | the command values of concatenated option lists are the concatenation, so file order is kept |
| ConfigSpec.CommandValuesMembers | tcs.py:158-161 | a value is collected iff some `command` option carries it |
| ConfigSpec.LastValueIsLast | tcs.py:162-165 | the `directory`/`submenu` value found is that of the last option with the key, and none is found iff no option has the key |
| ConfigSpec.LoadSections | tcs.py:148-170 | the loop of `parse_config_file` from a given registry: `TCS` skipped, one `get_menu` per other section, stop at the first error, else one RUN item appended; the root, once registered, is never lost |
| ConfigSpec.ParseEffect | tcs.py:142-170 | `parse_config_file`: that loop from a registry holding only the empty root; the root is always registered afterwards |
| ConfigSpec.SubmenuLookupFails | tcs.py:136-137 | from a registry holding only the root, looking up any other menu name fails with a parent IndexError |
| ConfigSpec.LoadSkipsReserved | tcs.py:155-157 | loading with the `TCS` sections removed gives the same registry and error: that section adds no item and looks nothing up |
| ConfigSpec.LoadAppendOnly | tcs.py:148-170 | loading keeps every registered menu and only appends to its items |
| ConfigSpec.LoadKeepsOwners | tcs.py:167-170 | every RUN item is appended to the menu it names as its own |
| ConfigSpec.LoadFromRootOnly | tcs.py:148-170 | from a registry holding only the root, loading succeeds iff no non-`TCS` section names a submenu; then the root gains the RUN items in section order and nothing else exists; otherwise it fails at a parent lookup |
| ConfigSpec.ParseOutcome | tcs.py:142-170 | `parse_config_file` succeeds iff no non-`TCS` section has a non-empty submenu; on success the registry is exactly the root holding one RUN item per non-`TCS` section, in order, named after it with its command values; every failure is a parent IndexError |
| ConfigSpec.ParseEmptyConfig | tcs.py:143-145 | with no sections the registry is exactly the empty root |
| RunSpec.ProgramStep | tcs.py:229-238 | `run_program`: it raises exactly for a string other than "quit" that is rejected, naming it; otherwise its event is a quit for "quit" or a launch attempt of that program in the given directory |
| RunSpec.RunPrograms | tcs.py:245-249 | the `run_program` calls in order, stopping at the first exception: one event per program when nothing escaped, fewer events than programs otherwise |
| RunSpec.RunCommandEffect | tcs.py:240-250 | `run_command`: the working directory afterwards is the saved one or the configured one, and there are at most as many events as programs |
| RunSpec.RunProgramsStep | tcs.py:245-249 | running a list of programs is running its first one and, if nothing escaped, the rest |
| RunSpec.RunProgramsInOrder | tcs.py:229-249 | the programs run stop early iff one is rejected; otherwise there is one event per program, in order, each a quit for "quit" or a launch attempt of that program in the run directory; on an early stop the error names the program at the position where the events stop, and every earlier program has its event |
| RunSpec.LaunchFailuresDoNotStop | tcs.py:234-238 | which programs fail to start changes neither how many programs run nor how the sequence ends |
| RunSpec.RunCommandOrder | tcs.py:240-250 | when nothing escapes: pre-command (if set), command, post-command (if set), in order, all in the configured directory, and the working directory is restored |
| RunSpec.RunCommandCwd | tcs.py:240-250 | the working directory afterwards: restored when nothing escaped; untouched, with nothing run, when the chdir failed; left in the configured directory when a program string was rejected |
| RunSpec.QuitIsNeverLaunched | tcs.py:229-233 | "quit" is never launched as a program |
| Launcher.Menu.constructor | tcs.py:77-80 | a new menu has the given name and no items |
| Launcher.Menu.AddItem | tcs.py:89-90 | the item is appended after the existing ones and no other object changes |
| Launcher.Menu.GetItems | tcs.py:92-93 | the menu's own item list, in insertion order |
| Launcher.Menu.GetItemCount | tcs.py:92-96 | the item count is the length of the item list |
| Launcher.Process.constructor | tcs.py:241 | the process starts in the given working directory, which `run_command` saves, with nothing launched |
| Launcher.ScanOptions | tcs.py:150-165 | the loop over a section's options collects exactly the command values in order, and keeps the last `directory` and the last `submenu` value, or the root by default |
| Launcher.Tcs.constructor | tcs.py:99-100 | the current menu is the root and the registry is empty |
| Launcher.Tcs.Register | tcs.py:133-134 | a fresh empty menu is registered under the new name; every other name keeps its menu instance |
| Launcher.Tcs.AppendItem | tcs.py:138 | an item that points at the named menu is appended to it and recorded in the registry, so every item still points at the Menu holding it; the name-to-menu map is unchanged |
| Launcher.Tcs.GetMenu | tcs.py:127-140 | the registry changes as `GetMenuEffect` says and the call fails exactly when it does, with the same error; a known name returns its own instance and changes nothing; the name is registered afterwards; existing names keep their instances and new ones hold fresh menus |
| Launcher.Tcs.NewMenu | tcs.py:131-138 | for a new name: a fresh menu is registered and returned on success; the registry and failure follow `GetMenuEffect` |
| Launcher.Tcs.ParseConfigFile | tcs.py:142-170 | the registry afterwards and the error raised are those of `ParseEffect`, built from fresh menus |
| Launcher.Tcs.LoadSection | tcs.py:149-170 | one section other than `TCS`: the registry and the error follow `get_menu` on its submenu, and on success its RUN item, named after it with its command values, is appended to that menu |
| Launcher.Tcs.RunProgram | tcs.py:229-238 | a quit event for "quit", a launch or launch-failure event in the current directory otherwise, and the exception for a rejected string with nothing logged; the directory is unchanged |
| Launcher.Tcs.RunSequence | tcs.py:245-249 | the trace grows by exactly the events `RunPrograms` gives for pre-command, command and post-command, and the escaping exception is the same |
| Launcher.Tcs.RunCommand | tcs.py:240-250 | the trace, the final working directory and the escaping exception are those of `RunCommandEffect` |

## Left out

- GTK windows, layout, buttons, focus colouring, the event loop and `show_buttons`/`add_config_buttons`: user-interface code with no state of the core.
- Background image scaling: floating point on a foreign image API.
- `subprocess.call`, `shlex.split` and `os.chdir` in `run_program`/`run_command` are not run. Their outcomes come from the `Env` parameter, and the model records them as trace events.
- `MenuItem.run` (tcs.py:51-64): its QUIT branch calls `sys.exit(0)`. Its RUN branch uses a name, `program`, that is never defined, inside a loop over the item's arguments. Its BACK branch calls `Menu.back`. Its SUBMENU branch reads `self.args[0]`, which raises IndexError for the SUBMENU items `get_menu` creates, since they have no arguments.
- `Menu.back` and `Menu.submenu`: both call `tcs.showmenu`, which does not exist. `back` also reads `self.parent` first, which is never assigned. So there is no navigation to model, and `current_menu` (the field `Tcs.currentMenu`) is only initialised.
- `Menu.tcs`, the back-reference from a menu to the launcher: it is read only by the navigation above.
- `MenuItem.__init__`'s `directory` argument: the code never stores it, so a MenuItem has no directory. `ScanOptions` still returns the last `directory` value.
- `MenuItem.get_name` and `__str__`: plain accessors and formatting.
- `initialize_config_file`, `add_command` and the command-line entry point: file I/O and argument parsing.
- The debug `print` calls, and the error message printed for an `OSError` (kept only as the `LaunchFailed` event).
- Parsing of the configuration text by `ConfigParser`: the model takes the sections as given, in file order. Key lower-casing, `DEFAULT` merging and duplicate-key handling are not part of this model.
- `Launcher.Tcs.constructor`: `TCS.__init__` calls `parse_config_file` and then builds the window. The model constructs the object and calls `ParseConfigFile` separately, because a constructor cannot return the error. Before that call the registry is empty.
- `run_command` with a `command` of None: `RunData.command` is always a string.
- A failing `chdir` back to the saved directory: that directory is assumed to still exist.
- Strings are sequences of characters. Under Python 2, `menu_parts[0]` and `menu_parts[2]` (tcs.py:137-138) index the bytes of a `str`. For a name whose head is not ASCII, the model therefore looks up a different parent and names the SUBMENU item differently. For example, for the head "éab" Python looks up "\xc3" and names the item "a", while the model looks up "é" and names it "b". The parse outcome is the same either way, but the registry keys and item names differ.
- Path resolution: `os.chdir` with a relative `directory` (tcs.py:243) moves the process to the resolved path. The model records the literal string as the working directory and as the directory of each event.
- The effect of `quit` on the window: only the request is recorded, as `QuitRequested`.
