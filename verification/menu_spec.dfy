/**
 * The menu registry of tcs.py as a value: every registered menu name mapped to
 * the items of that menu, and the effect of `TCS.get_menu` on it, exactly as
 * the code is written (including its string-indexing of the rpartition head).
 */
module MenuSpec {
  import opened Wrappers

  /** The four kinds of MenuItem. */
  datatype Action = ActionRun | ActionSubmenu | ActionBack | ActionQuit

  /** What a MenuItem holds, with its owning menu given by that menu's name. */
  datatype Entry = Entry(name: string, action: Action, owner: string, args: seq<string>)

  /** Menu name to the items of that menu, in insertion order. */
  type Registry = map<string, seq<Entry>>

  /** The IndexErrors `get_menu` raises. */
  datatype Error =
    | ParentIndexError(menu: string)       // the head before the last '.' of `menu` is empty
    | SubmenuNameIndexError(menu: string)  // that head has fewer than three characters

  /** The registry after a call, and the error it raised, if any. */
  datatype Effect = Effect(after: Registry, failure: Option<Error>)

  /** The name of the top-level menu. */
  const RootMenu: string := ""

  /** `s.rpartition(".")[0]`: everything before the last '.', or "" when there is none. */
  function RPartitionHead(s: string): (h: string)
    ensures '.' !in s ==> h == ""
    ensures '.' in s ==> |h| < |s| && s[..|h|] == h && s[|h|] == '.' && '.' !in s[|h| + 1..]
  {
    if s == "" then ""
    else if s[|s| - 1] == '.' then s[..|s| - 1]
    else
      var h := RPartitionHead(s[..|s| - 1]);
      assert s[..|s| - 1][..|h|] == s[..|h|];
      assert '.' in s ==> s[|h| + 1..] == s[..|s| - 1][|h| + 1..] + [s[|s| - 1]];
      h
  }

  /** Appends `e` to the items of the registered menu `menu`. */
  function AddEntry(reg: Registry, menu: string, e: Entry): Registry
    requires menu in reg
  {
    reg[menu := reg[menu] + [e]]
  }

  /**
   * `TCS.get_menu(name)`: a known name changes nothing; a new name is first
   * registered with no items, then the lookup recurses on the first character
   * of the head before its last '.', and on success a SUBMENU item named after
   * the third character of that head is appended to that parent.
   */
  function GetMenuEffect(reg: Registry, name: string): (r: Effect)
    decreases |name|
    ensures reg.Keys <= r.after.Keys && name in r.after
  {
    if name in reg then Effect(reg, None)
    else
      var registered := reg[name := []];
      var head := RPartitionHead(name);
      if head == "" then Effect(registered, Some(ParentIndexError(name)))
      else
        var parent := head[..1];
        var p := GetMenuEffect(registered, parent);
        if p.failure.Some? then p
        else if |head| < 3 then Effect(p.after, Some(SubmenuNameIndexError(name)))
        else Effect(AddEntry(p.after, parent, Entry(head[2..3], ActionSubmenu, parent, [])), None)
  }

  /**
   * A non-recursive account of `get_menu`: the recursive lookup is on a
   * one-character name, which is either known or fails at once.
   */
  function GetMenuDirect(reg: Registry, name: string): Effect {
    if name in reg then Effect(reg, None)
    else
      var registered := reg[name := []];
      var head := RPartitionHead(name);
      if head == "" then Effect(registered, Some(ParentIndexError(name)))
      else if head[..1] !in reg then
        Effect(registered[head[..1] := []], Some(ParentIndexError(head[..1])))
      else if |head| < 3 then Effect(registered, Some(SubmenuNameIndexError(name)))
      else
        Effect(registered[head[..1] := reg[head[..1]] + [Entry(head[2..3], ActionSubmenu, head[..1], [])]], None)
  }

  /** Every item of every menu names that menu as its owner. */
  ghost predicate Owned(reg: Registry) {
    forall k, i | k in reg && 0 <= i < |reg[k]| :: reg[k][i].owner == k
  }

  lemma {:induction false} OneCharHeadIsEmpty(c: string)
    requires |c| == 1
    ensures RPartitionHead(c) == ""
  {
    var h := RPartitionHead(c);
    if '.' in c {
      assert |h| < |c|;
    }
  }

  /** The recursive lookup and its closed form agree on every registry and name. */
  lemma {:induction false} GetMenuEffectIsDirect(reg: Registry, name: string)
    ensures GetMenuEffect(reg, name) == GetMenuDirect(reg, name)
  {
    if name !in reg {
      var head := RPartitionHead(name);
      if head != "" {
        var parent := head[..1];
        var registered := reg[name := []];
        OneCharHeadIsEmpty(parent);
        assert |parent| < |name|;
        assert parent in registered <==> parent in reg;
        if parent in reg {
          assert GetMenuEffect(registered, parent) == Effect(registered, None);
          assert registered[parent] == reg[parent];
        } else {
          assert GetMenuEffect(registered, parent)
              == Effect(registered[parent := []], Some(ParentIndexError(parent)));
        }
      }
    }
  }

  /** A name already in the registry (the root "" included) changes nothing and succeeds. */
  lemma GetMenuKnownName(reg: Registry, name: string)
    requires name in reg
    ensures GetMenuEffect(reg, name) == Effect(reg, None)
  {
  }

  /**
   * A new name is registered with an empty item list before anything else,
   * so it is present even when the call fails; a failing call adds no item.
   */
  lemma GetMenuRegistersFirst(reg: Registry, name: string)
    requires name !in reg
    ensures var r := GetMenuEffect(reg, name);
      && name in r.after && r.after[name] == []
      && (r.failure.Some? ==> forall k | k in reg :: r.after[k] == reg[k])
  {
    GetMenuEffectIsDirect(reg, name);
  }

  /** A new name without a '.' fails at the parent lookup, having only registered itself. */
  lemma GetMenuWithoutDotFails(reg: Registry, name: string)
    requires name !in reg && '.' !in name
    ensures GetMenuEffect(reg, name) == Effect(reg[name := []], Some(ParentIndexError(name)))
  {
  }

  /**
   * `get_menu` succeeds exactly when the name is known, or when the head
   * before its last '.' has at least three characters and its first
   * character is itself a registered menu name.
   */
  lemma GetMenuSucceedsIff(reg: Registry, name: string)
    ensures var head := RPartitionHead(name);
      GetMenuEffect(reg, name).failure.None?
      <==> name in reg || (|head| >= 3 && head[..1] in reg)
  {
    GetMenuEffectIsDirect(reg, name);
  }

  /**
   * What `get_menu` may change: new menus are empty, the items of known menus
   * only grow at the end, and only a one-character menu ever gains an item,
   * one SUBMENU item at most, on success.
   */
  lemma GetMenuFrame(reg: Registry, name: string)
    ensures var r := GetMenuEffect(reg, name);
      && (forall k | k in r.after && k !in reg :: r.after[k] == [])
      && (forall k | k in reg :: reg[k] <= r.after[k])
      && (forall k | k in reg && |k| != 1 :: r.after[k] == reg[k])
      && (forall k | k in reg :: |r.after[k]| <= |reg[k]| + 1)
      && (forall k | k in reg && r.after[k] != reg[k] :: r.failure.None? && r.after[k][|reg[k]|].action == ActionSubmenu)
  {
    GetMenuEffectIsDirect(reg, name);
  }

  /** The item `get_menu` appends names its parent as owner, so ownership is kept. */
  lemma GetMenuKeepsOwners(reg: Registry, name: string)
    requires Owned(reg)
    ensures Owned(GetMenuEffect(reg, name).after)
  {
    GetMenuEffectIsDirect(reg, name);
  }

  /**
   * An instance of line 138's indexing: with "a" registered, "abc.d" gets a
   * SUBMENU item named "c" in menu "a", not an item "d" in menu "abc".
   */
  lemma SubmenuItemNamedByThirdCharacter()
    ensures GetMenuEffect(map["" := [], "a" := []], "abc.d")
         == Effect(map["" := [], "a" := [Entry("c", ActionSubmenu, "a", [])], "abc.d" := []], None)
  {
    var reg: Registry := map["" := [], "a" := []];
    var name := "abc.d";
    assert name[..|name| - 1] == "abc.";
    assert "abc."[..3] == "abc";
    assert RPartitionHead(name) == RPartitionHead("abc.");
    var head := RPartitionHead(name);
    assert head == "abc" && head[..1] == "a" && head[2..3] == "c";
    var item := Entry(head[2..3], ActionSubmenu, head[..1], []);
    assert reg[head[..1]] + [item] == [Entry("c", ActionSubmenu, "a", [])];
    GetMenuEffectIsDirect(reg, name);
    assert GetMenuDirect(reg, name).after == reg[name := []][head[..1] := reg[head[..1]] + [item]];
  }
}
