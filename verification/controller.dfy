/** The controller (plugins/ace/controller.js): action dispatch with its two
    gates, the case-normalised shortcut table, the shortcut listing and the
    default keymap installed by `setup`. The host's command registry is
    represented by the calls the controller makes on it. */
module Controller {
  import opened Text
  import opened Options

  /** A call on the host's command registry. */
  datatype HostCall = AddCommand(name: string, keystroke: string) | RemoveCommand(name: string)

  /** The controller's state: the stored options, the shortcut table from
      lower-cased keystroke to action name, and the registry calls made. */
  datatype State = State(options: Options, shortcuts: map<string, string>, host: seq<HostCall>)

  /** Every key of the table is in lower case. */
  ghost predicate Normalized(table: map<string, string>)
  {
    forall k :: k in table ==> ToLower(k) == k
  }

  /** The state when the module loads: `options = copyOptions()`, an empty
      table, no registry calls. */
  function Init(): (c: State)
    ensures c.options == Defaults() && c.shortcuts == map[] && c.host == []
  {
    State(CopyOptions(None), map[], [])
  }

  /** `setOptions(opt)`: the stored options become the defaults overridden by
      `opt`; nothing else changes. */
  function SetOptions(c: State, opt: Option<Options>): (r: State)
    ensures r.shortcuts == c.shortcuts && r.host == c.host
    ensures forall k :: k in r.options <==> k in Defaults() || (opt.Some? && k in opt.value)
    ensures forall k :: k in r.options ==>
      r.options[k] == (if opt.Some? && k in opt.value then opt.value[k] else Defaults()[k])
  {
    c.(options := CopyOptions(opt))
  }

  /** `setOptions` replaces rather than merges: what an earlier call set is
      forgotten, and keys the new options omit fall back to the defaults. */
  lemma SetOptionsReplaces(c: State, first: Option<Options>, second: Option<Options>)
    ensures SetOptions(SetOptions(c, first), second) == SetOptions(c, second)
    ensures forall k :: k in Defaults() && (second.None? || k !in second.value) ==>
      SetOptions(SetOptions(c, first), second).options[k] == Defaults()[k]
  {
  }

  const ExpandAbbreviation: string := "expand_abbreviation"
  const ExpandWithTab: string := "expand_abbreviation_with_tab"
  const FormattedLineBreak: string := "insert_formatted_line_break"

  /** What `runAction` does: decline (return `false`, so the host handles the
      key itself), or run one action through the toolkit's runner. */
  datatype Outcome = Declined | Ran(action: string)

  /** `runAction(actionName)`: `expand_abbreviation` runs its Tab-aware
      variant when `use_tab` is truthy and declines otherwise;
      `insert_formatted_line_break` runs when `pretty_break` is truthy and
      declines otherwise; every other action runs as named. */
  function RunAction(c: State, className: Option<string>, name: string): (r: Outcome)
    ensures r.Declined? <==>
      || (name == ExpandAbbreviation && !Truthy(GetOption(c.options, className, "use_tab")))
      || (name == FormattedLineBreak && !Truthy(GetOption(c.options, className, "pretty_break")))
    ensures r.Ran? && name == ExpandAbbreviation ==> r.action == ExpandWithTab
    ensures r.Ran? && name != ExpandAbbreviation ==> r.action == name
  {
    if name == ExpandAbbreviation then
      if Truthy(GetOption(c.options, className, "use_tab")) then Ran(ExpandWithTab) else Declined
    else if name == FormattedLineBreak then
      if !Truthy(GetOption(c.options, className, "pretty_break")) then Declined else Ran(name)
    else
      Ran(name)
  }

  /** `getProfileName()` of the editor adapter: the `profile` option as the
      controller resolves it. It is always present, and without a stored or
      class-name profile it is the default `xhtml`. */
  function GetProfileName(c: State, className: Option<string>): (r: Option<Value>)
    ensures r.Some?
    ensures LastSetting(ContextParams(className), "profile").Some? ==>
      r == LastSetting(ContextParams(className), "profile")
    ensures LastSetting(ContextParams(className), "profile").None? && "profile" in c.options ==>
      r == Some(c.options["profile"])
    ensures LastSetting(ContextParams(className), "profile").None? && "profile" !in c.options ==>
      r == Some(Str("xhtml"))
  {
    GetOption(c.options, className, "profile")
  }

  /** After `setup`, a profile given to it wins unless the class name sets
      one; with neither, the profile is `xhtml`. */
  lemma SetupProfile(opt: Options)
    ensures var r := GetProfileName(Setup(Init(), opt), None);
      r == Some(if "profile" in opt then opt["profile"] else Str("xhtml"))
  {
    SetupOptions(opt);
    assert ContextParams(None) == [];
  }

  /** `addShortcut(keystroke, actionName)`: register a host command for the
      keystroke and record the lower-cased keystroke against the action,
      overwriting any earlier entry for it. */
  function AddShortcut(c: State, keystroke: string, action: string): (r: State)
    ensures ToLower(keystroke) in r.shortcuts && r.shortcuts[ToLower(keystroke)] == action
    ensures forall k :: k != ToLower(keystroke) ==>
      (k in r.shortcuts <==> k in c.shortcuts) && (k in c.shortcuts ==> r.shortcuts[k] == c.shortcuts[k])
    ensures r.host == c.host + [AddCommand(action, keystroke)]
    ensures r.options == c.options
    ensures Normalized(c.shortcuts) ==> Normalized(r.shortcuts)
  {
    ToLowerIdempotent(keystroke);
    State(c.options, c.shortcuts[ToLower(keystroke) := action], c.host + [AddCommand(action, keystroke)])
  }

  /** `unbindShortcut(keystroke)`: when the lower-cased keystroke is in the
      table, remove its host command (by action name) and its entry;
      otherwise do nothing. */
  function UnbindShortcut(c: State, keystroke: string): (r: State)
    ensures ToLower(keystroke) !in r.shortcuts
    ensures forall k :: k != ToLower(keystroke) ==>
      (k in r.shortcuts <==> k in c.shortcuts) && (k in c.shortcuts ==> r.shortcuts[k] == c.shortcuts[k])
    ensures ToLower(keystroke) !in c.shortcuts ==> r == c
    ensures ToLower(keystroke) in c.shortcuts ==>
      r.host == c.host + [RemoveCommand(c.shortcuts[ToLower(keystroke)])]
    ensures r.options == c.options
    ensures Normalized(c.shortcuts) ==> Normalized(r.shortcuts)
  {
    var key := ToLower(keystroke);
    if key in c.shortcuts then
      State(c.options, c.shortcuts - {key}, c.host + [RemoveCommand(c.shortcuts[key])])
    else c
  }

  /** A normalised table never holds two keys that differ only by case. */
  lemma NoCaseDuplicates(table: map<string, string>, k1: string, k2: string)
    requires Normalized(table) && k1 in table && k2 in table
    requires ToLower(k1) == ToLower(k2)
    ensures k1 == k2
  {
  }

  /** Binding a keystroke and then unbinding it in another case removes the
      entry, and leaves the rest of the table as it was. */
  lemma AddThenUnbind(c: State, bound: string, unbound: string, action: string)
    requires ToLower(bound) == ToLower(unbound)
    ensures UnbindShortcut(AddShortcut(c, bound, action), unbound).shortcuts
         == c.shortcuts - {ToLower(bound)}
    ensures UnbindShortcut(AddShortcut(c, bound, action), unbound).host
         == c.host + [AddCommand(action, bound), RemoveCommand(action)]
  {
    var r := UnbindShortcut(AddShortcut(c, bound, action), unbound);
    assert r.shortcuts.Keys == (c.shortcuts - {ToLower(bound)}).Keys;
  }

  /** One entry of `getShortcuts`. */
  datatype Shortcut = Shortcut(keystroke: string, caption: string, action: string)

  /** The internal Tab and Enter bindings, which the listing skips. */
  predicate Internal(key: string)
  {
    ToLower(key) == "tab" || ToLower(key) == "enter"
  }

  /** The label shown for an action: the last `/` segment of its declared
      label, or of its name when the declared label is empty or missing
      (`declared` returns "" for those). */
  function Label(declared: string -> string, action: string): (l: string)
    ensures '/' !in l
  {
    LastSegment(if declared(action) != "" then declared(action) else action)
  }

  function Entry(table: map<string, string>, declared: string -> string, key: string): Shortcut
    requires key in table
  {
    Shortcut(key, Label(declared, table[key]), table[key])
  }

  /** The keys `getShortcuts` lists. */
  function ListedKeys(table: map<string, string>): set<string>
  {
    set k | k in table && !Internal(k)
  }

  /** `getShortcuts()`: one entry per table key other than Tab and Enter,
      with the key, the action and the action's label. */
  function GetShortcuts(table: map<string, string>, declared: string -> string): (r: set<Shortcut>)
    ensures forall s :: s in r ==>
      && s.keystroke in table && !Internal(s.keystroke)
      && s.action == table[s.keystroke] && '/' !in s.caption
    ensures forall k :: k in table && !Internal(k) ==> Entry(table, declared, k) in r
    ensures |r| == |ListedKeys(table)|
  {
    var r := set k | k in ListedKeys(table) :: Entry(table, declared, k);
    EntriesCount(table, declared, ListedKeys(table));
    r
  }

  /** Entries differ by keystroke, so there are as many as keys. */
  lemma {:induction false} EntriesCount(table: map<string, string>, declared: string -> string, keys: set<string>)
    requires keys <= table.Keys
    ensures |set k | k in keys :: Entry(table, declared, k)| == |keys|
    decreases |keys|
  {
    if keys != {} {
      var k :| k in keys;
      var rest := keys - {k};
      EntriesCount(table, declared, rest);
      var img := set x | x in rest :: Entry(table, declared, x);
      assert (set x | x in keys :: Entry(table, declared, x)) == img + {Entry(table, declared, k)};
      assert Entry(table, declared, k) !in img;
    }
  }

  /** `keymap`, in declaration order. */
  const Keymap: seq<(string, string)> := [
    ("Ctrl-E", "expand_abbreviation"),
    ("Tab", "expand_abbreviation"),
    ("Ctrl-D", "match_pair_outward"),
    ("Shift-Ctrl-D", "match_pair_inward"),
    ("Shift-Ctrl-A", "wrap_with_abbreviation"),
    ("Ctrl-Alt-N", "next_edit_point"),
    ("Ctrl-Alt-P", "prev_edit_point"),
    ("Ctrl-L", "select_line"),
    ("Ctrl-Shift-M", "merge_lines"),
    ("Ctrl-/", "toggle_comment"),
    ("Ctrl-J", "split_join_tag"),
    ("Ctrl-K", "remove_tag"),
    ("Shift-Ctrl-Y", "evaluate_math_expression"),
    ("Ctrl-Up", "increment_number_by_1"),
    ("Ctrl-Down", "decrement_number_by_1"),
    ("Alt-Up", "increment_number_by_01"),
    ("Alt-Down", "decrement_number_by_01"),
    ("Ctrl-Alt-Up", "increment_number_by_10"),
    ("Ctrl-Alt-Down", "decrement_number_by_10"),
    ("Ctrl-.", "select_next_item"),
    ("Ctrl-,", "select_previous_item"),
    ("Ctrl-Shift-B", "reflect_css_value"),
    ("Enter", "insert_formatted_line_break")
  ]

  /** `addShortcut` for each entry, in order. */
  function AddAll(c: State, entries: seq<(string, string)>): (r: State)
    ensures r.options == c.options
    ensures |r.host| == |c.host| + |entries| && r.host[..|c.host|] == c.host
    ensures forall i :: 0 <= i < |entries| ==>
      r.host[|c.host| + i] == AddCommand(entries[i].1, entries[i].0)
    ensures forall i :: 0 <= i < |entries| ==> ToLower(entries[i].0) in r.shortcuts
    ensures forall k :: k in c.shortcuts ==> k in r.shortcuts
  {
    if |entries| == 0 then c
    else
      var last := entries[|entries| - 1];
      AddShortcut(AddAll(c, entries[..|entries| - 1]), last.0, last.1)
  }

  /** `setup(opt)`: store the options, then bind every keymap entry. Binding
      the host editor itself is not part of this model. */
  function Setup(c: State, opt: Options): (r: State)
    ensures forall k :: k in r.options <==> k in Defaults() || k in opt
    ensures forall k :: k in r.options ==>
      r.options[k] == (if k in opt then opt[k] else Defaults()[k])
    ensures |r.host| == |c.host| + |Keymap| && r.host[..|c.host|] == c.host
    ensures forall i :: 0 <= i < |Keymap| ==>
      r.host[|c.host| + i] == AddCommand(Keymap[i].1, Keymap[i].0)
    ensures forall i :: 0 <= i < |Keymap| ==> ToLower(Keymap[i].0) in r.shortcuts
  {
    AddAll(SetOptions(c, Some(opt)), Keymap)
  }

  /** The keymap's keystrokes, lower-cased. */
  const DefaultKeys: seq<string> := [
    "ctrl-e", "tab", "ctrl-d", "shift-ctrl-d", "shift-ctrl-a", "ctrl-alt-n",
    "ctrl-alt-p", "ctrl-l", "ctrl-shift-m", "ctrl-/", "ctrl-j", "ctrl-k",
    "shift-ctrl-y", "ctrl-up", "ctrl-down", "alt-up", "alt-down", "ctrl-alt-up",
    "ctrl-alt-down", "ctrl-.", "ctrl-,", "ctrl-shift-b", "enter"
  ]

  /** The table that bindings of already lower-cased keys produce when made
      in order, later ones overwriting earlier ones. */
  function TableOf(m: map<string, string>, ps: seq<(string, string)>): map<string, string>
  {
    if |ps| == 0 then m
    else TableOf(m, ps[..|ps| - 1])[ps[|ps| - 1].0 := ps[|ps| - 1].1]
  }

  /** Entries with their keystrokes lower-cased. */
  function Lowered(entries: seq<(string, string)>): (r: seq<(string, string)>)
    ensures |r| == |entries|
    ensures forall i :: 0 <= i < |r| ==> r[i] == (ToLower(entries[i].0), entries[i].1)
  {
    seq(|entries|, i requires 0 <= i < |entries| => (ToLower(entries[i].0), entries[i].1))
  }

  /** Binding entries one by one builds the table of their lower-cased keys
      over the table already there, and keeps it normalised. */
  lemma {:induction false} AddAllTable(c: State, entries: seq<(string, string)>)
    ensures AddAll(c, entries).shortcuts == TableOf(c.shortcuts, Lowered(entries))
    ensures AddAll(c, entries).options == c.options
    ensures Normalized(c.shortcuts) ==> Normalized(AddAll(c, entries).shortcuts)
  {
    if |entries| > 0 {
      var init := entries[..|entries| - 1];
      AddAllTable(c, init);
      assert Lowered(entries)[..|entries| - 1] == Lowered(init);
      var r := AddAll(c, entries);
      assert r.shortcuts == TableOf(c.shortcuts, Lowered(init))[ToLower(entries[|entries| - 1].0) := entries[|entries| - 1].1];
    }
  }

  /** With pairwise distinct keys, the table holds exactly one entry per
      binding, each with its own action. */
  lemma {:induction false} TableOfDistinct(ps: seq<(string, string)>)
    requires forall i, j :: 0 <= i < j < |ps| ==> ps[i].0 != ps[j].0
    ensures |TableOf(map[], ps)| == |ps|
    ensures forall i :: 0 <= i < |ps| ==> ps[i].0 in TableOf(map[], ps) && TableOf(map[], ps)[ps[i].0] == ps[i].1
    ensures forall k :: k in TableOf(map[], ps) ==> exists i :: 0 <= i < |ps| && ps[i].0 == k
  {
    if |ps| > 0 {
      var init := ps[..|ps| - 1];
      TableOfDistinct(init);
    }
  }

  lemma KeymapLowered0()
    ensures forall i :: 0 <= i < 8 ==> ToLower(Keymap[i].0) == DefaultKeys[i]
  {
    assert ToLower("Ctrl-E") == "ctrl-e";
    assert ToLower("Tab") == "tab";
    assert ToLower("Ctrl-D") == "ctrl-d";
    assert ToLower("Shift-Ctrl-D") == "shift-ctrl-d";
    assert ToLower("Shift-Ctrl-A") == "shift-ctrl-a";
    assert ToLower("Ctrl-Alt-N") == "ctrl-alt-n";
    assert ToLower("Ctrl-Alt-P") == "ctrl-alt-p";
    assert ToLower("Ctrl-L") == "ctrl-l";
  }

  lemma KeymapLowered8()
    ensures forall i :: 8 <= i < 16 ==> ToLower(Keymap[i].0) == DefaultKeys[i]
  {
    assert ToLower("Ctrl-Shift-M") == "ctrl-shift-m";
    assert ToLower("Ctrl-/") == "ctrl-/";
    assert ToLower("Ctrl-J") == "ctrl-j";
    assert ToLower("Ctrl-K") == "ctrl-k";
    assert ToLower("Shift-Ctrl-Y") == "shift-ctrl-y";
    assert ToLower("Ctrl-Up") == "ctrl-up";
    assert ToLower("Ctrl-Down") == "ctrl-down";
    assert ToLower("Alt-Up") == "alt-up";
  }

  lemma KeymapLowered16()
    ensures forall i :: 16 <= i < 23 ==> ToLower(Keymap[i].0) == DefaultKeys[i]
  {
    assert ToLower("Alt-Down") == "alt-down";
    assert ToLower("Ctrl-Alt-Up") == "ctrl-alt-up";
    assert ToLower("Ctrl-Alt-Down") == "ctrl-alt-down";
    assert ToLower("Ctrl-.") == "ctrl-.";
    assert ToLower("Ctrl-,") == "ctrl-,";
    assert ToLower("Ctrl-Shift-B") == "ctrl-shift-b";
    assert ToLower("Enter") == "enter";
  }

  /** Binding distinct keystrokes into an empty table gives one entry per
      binding, each holding its own action. */
  lemma BindDistinct(c: State, km: seq<(string, string)>, keys: seq<string>)
    requires c.shortcuts == map[]
    requires |keys| == |km|
    requires forall i :: 0 <= i < |km| ==> ToLower(km[i].0) == keys[i]
    requires forall i, j :: 0 <= i < j < |keys| ==> keys[i] != keys[j]
    ensures var t := AddAll(c, km).shortcuts;
      && |t| == |km|
      && (forall i :: 0 <= i < |km| ==> keys[i] in t && t[keys[i]] == km[i].1)
      && Normalized(t)
    ensures AddAll(c, km).options == c.options
  {
    AddAllTable(c, km);
    TableOfDistinct(Lowered(km));
  }

  lemma DefaultKeysDistinct()
    ensures forall i, j :: 0 <= i < j < |DefaultKeys| ==> DefaultKeys[i] != DefaultKeys[j]
  {
  }

  /** In a normalised table holding both internal keys, every other key
      is listed. */
  lemma ListedAllButTwo(t: map<string, string>)
    requires Normalized(t) && "tab" in t && "enter" in t
    ensures |ListedKeys(t)| == |t| - 2
  {
    forall k | k in t
      ensures Internal(k) <==> k == "tab" || k == "enter"
    {
      assert ToLower(k) == k;
    }
    assert ListedKeys(t) == t.Keys - {"tab", "enter"};
  }

  /** `setup` on a fresh controller binds the 23 lower-cased keymap
      keystrokes, each to its own keymap action. */
  lemma SetupTable(opt: Options)
    ensures var t := Setup(Init(), opt).shortcuts;
      && |t| == 23 && Normalized(t)
      && (forall i :: 0 <= i < |DefaultKeys| ==> DefaultKeys[i] in t && t[DefaultKeys[i]] == Keymap[i].1)
  {
    var c0 := SetOptions(Init(), Some(opt));
    KeymapLowered0();
    KeymapLowered8();
    KeymapLowered16();
    DefaultKeysDistinct();
    BindDistinct(c0, Keymap, DefaultKeys);
  }

  /** A table holding exactly the default bindings binds Tab and Ctrl-E to
      `expand_abbreviation` and Enter to `insert_formatted_line_break`, and
      `getShortcuts` lists 21 of its entries, all but Tab and Enter. */
  lemma DefaultTable(t: map<string, string>, declared: string -> string)
    requires |t| == 23 && Normalized(t)
    requires forall i :: 0 <= i < |DefaultKeys| ==> DefaultKeys[i] in t && t[DefaultKeys[i]] == Keymap[i].1
    ensures "tab" in t && t["tab"] == ExpandAbbreviation
    ensures "ctrl-e" in t && t["ctrl-e"] == ExpandAbbreviation
    ensures "enter" in t && t["enter"] == FormattedLineBreak
    ensures |GetShortcuts(t, declared)| == 21
  {
    assert DefaultKeys[1] == "tab" && DefaultKeys[22] == "enter" && DefaultKeys[0] == "ctrl-e";
    ListedAllButTwo(t);
  }

  /** `setup` on a fresh controller: the table's Tab and Ctrl-E entries
      name `expand_abbreviation`, its Enter entry names
      `insert_formatted_line_break`, and the listing shows 21 shortcuts. */
  lemma SetupShortcuts(opt: Options, declared: string -> string)
    ensures var t := Setup(Init(), opt).shortcuts;
      && "tab" in t && t["tab"] == ExpandAbbreviation
      && "ctrl-e" in t && t["ctrl-e"] == ExpandAbbreviation
      && "enter" in t && t["enter"] == FormattedLineBreak
      && |GetShortcuts(t, declared)| == 21
  {
    SetupTable(opt);
    DefaultTable(Setup(Init(), opt).shortcuts, declared);
  }

  /** `setup` stores its options over the defaults. */
  lemma SetupOptions(opt: Options)
    ensures Setup(Init(), opt).options == CopyOptions(Some(opt))
  {
    AddAllTable(SetOptions(Init(), Some(opt)), Keymap);
  }

  /** With no class-name tokens, the gates read the stored options. */
  lemma GatesWithoutContext(c: State, opt: Options)
    requires c.options == CopyOptions(Some(opt))
    ensures RunAction(c, None, ExpandAbbreviation)
         == (if "use_tab" in opt && Truthy(Some(opt["use_tab"])) then Ran(ExpandWithTab) else Declined)
    ensures RunAction(c, None, FormattedLineBreak)
         == (if "pretty_break" in opt && Truthy(Some(opt["pretty_break"])) then Ran(FormattedLineBreak) else Declined)
  {
    assert ContextParams(None) == [];
  }

  /** After `setup` with no class-name tokens, Tab (and Ctrl-E) run the
      Tab-aware expansion only when `setup`'s options make `use_tab` truthy,
      and Enter runs the formatted line break only when they make
      `pretty_break` truthy; otherwise the key is left to the host. */
  lemma SetupDispatch(opt: Options)
    ensures var c := Setup(Init(), opt);
      var useTab := "use_tab" in opt && Truthy(Some(opt["use_tab"]));
      var prettyBreak := "pretty_break" in opt && Truthy(Some(opt["pretty_break"]));
      && "tab" in c.shortcuts && "ctrl-e" in c.shortcuts && "enter" in c.shortcuts
      && RunAction(c, None, c.shortcuts["tab"]) == (if useTab then Ran(ExpandWithTab) else Declined)
      && RunAction(c, None, c.shortcuts["ctrl-e"]) == (if useTab then Ran(ExpandWithTab) else Declined)
      && RunAction(c, None, c.shortcuts["enter"]) == (if prettyBreak then Ran(FormattedLineBreak) else Declined)
  {
    SetupShortcuts(opt, (a: string) => "");
    SetupOptions(opt);
    GatesWithoutContext(Setup(Init(), opt), opt);
  }

  /** The host command is removed by action name: unbinding Ctrl-E after
      `setup` removes the command named `expand_abbreviation`, while the
      table still binds Tab to that action. */
  lemma UnbindRemovesByAction(opt: Options)
    ensures var c := Setup(Init(), opt);
      var r := UnbindShortcut(c, "Ctrl-E");
      && r.host == c.host + [RemoveCommand(ExpandAbbreviation)]
      && "ctrl-e" !in r.shortcuts
      && "tab" in r.shortcuts && r.shortcuts["tab"] == ExpandAbbreviation
  {
    SetupShortcuts(opt, (a: string) => "");
    UnbindCtrlE(Setup(Init(), opt));
  }

  /** Unbinding Ctrl-E from a table that binds both Ctrl-E and Tab to
      `expand_abbreviation`. */
  lemma UnbindCtrlE(c: State)
    requires "ctrl-e" in c.shortcuts && c.shortcuts["ctrl-e"] == ExpandAbbreviation
    requires "tab" in c.shortcuts && c.shortcuts["tab"] == ExpandAbbreviation
    ensures var r := UnbindShortcut(c, "Ctrl-E");
      && r.host == c.host + [RemoveCommand(ExpandAbbreviation)]
      && "ctrl-e" !in r.shortcuts
      && "tab" in r.shortcuts && r.shortcuts["tab"] == ExpandAbbreviation
  {
    assert ToLower("Ctrl-E") == "ctrl-e";
  }
}
