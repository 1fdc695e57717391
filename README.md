# MUI state list and helper rules in Dafny

This project models two parts of MUI, the Manticore plugin for Binary Ninja.

The first part is the "Manticore State" dock widget, `StateListWidget`. It
keeps one tree item per symbolic-execution state, filed under one of four
bucket nodes: Active, Waiting, Complete and Errored. On every new map of
state id to descriptor it works in three steps:

1. It adds or updates an item for each state, choosing the bucket from a
   fixed status-to-bucket table.
2. It deletes the items of states that disappeared.
3. It rewrites the counts shown in the bucket texts and in the tree header
   ("State List (n)").

The widget is a `class` whose methods update its fields in place. The Qt tree
becomes four child lists of state ids plus a map from state id to bucket. The
texts of the bucket nodes and of the header are strings.

The second part is a set of decisions in `mui/utils.py`:

- whether `navigate_to_state` navigates or shows an error;
- which members of Manticore's models module `get_function_models` keeps;
- which of a binary's functions `function_model_analysis_cb` matches against
  the model names, and the fixed-width banner announcing them;
- the order in which `get_default_solc_path` looks for a `solc` binary.

Files:

- `wrappers.dfy`: `Option`, `Result` and `Outcome`.
- `format.dfy`: the pieces of Python string formatting used:
  - decimal rendering of integers, and zero-padded decimal and hex;
  - `str.ljust`;
  - `str.split` with a separator, and joining.
- `seqs.dfy`: lists without repetitions and removal of an element.
- `state_list.dfy`: the widget.
  - Value-level functions describe the expected item map (`Advance`,
    `Reconciled`) and the expected tree (`Layout`).
  - The class's methods are proved to produce them.
- `utils.dfy`: the helper rules.

## Model

| member | source | states |
|---|---|---|
| StateList.ClassifyTable | mui/dockwidgets/state_list_widget.py:42-47 | running goes to Active, both waiting statuses go to Waiting, stopped goes to Complete, destroyed goes to Errored, and any status the table does not list goes nowhere |
| StateList.ClassifyRow | mui/dockwidgets/state_list_widget.py:42-47 | the rows are in tree order and disjoint: a status is listed in row j exactly when it classifies to row j's bucket |
| StateList.ClassificationTotal | mui/dockwidgets/state_list_widget.py:42-47 | a status has a bucket exactly when it is one of Manticore's five, and every bucket collects some status |
| StateList.ExactlyOneBucket | mui/dockwidgets/state_list_widget.py:49-50 | under the placement invariant, an id is tracked exactly when it is a child of some bucket node, and then only of the node of its bucket |
| StateList.PlacementCount | mui/dockwidgets/state_list_widget.py:103-107 | the sum of the four child counts equals the number of tracked items |
| StateList.StateListWidget.constructor | mui/dockwidgets/state_list_widget.py:20-50 | no states and no items, four empty bucket nodes titled Active, Waiting, Complete and Errored, the header "State List", and the widget invariant |
| StateList.StateListWidget.CreateItem | mui/dockwidgets/state_list_widget.py:90-96 | it succeeds exactly when the status is listed; the new item goes at the end of the first listing row's bucket; an unlisted status yields the unknown-status error and changes nothing |
| StateList.StateListWidget.UpdateItem | mui/dockwidgets/state_list_widget.py:77-88 | when the status maps to a bucket other than the item's, the item leaves its list and goes to the end of the right one; an item already in the right bucket, or with an unlisted status, stays put; placement is kept |
| StateList.StateListWidget.RefreshListCounts | mui/dockwidgets/state_list_widget.py:98-116 | each bucket text becomes its first word plus " (child count)"; the header becomes "State List (total)", where total is the number of tracked items; the titles survive for the next refresh |
| StateList.StripCountAppended | mui/dockwidgets/state_list_widget.py:111-116 | stripping the count from a title that carries one gives back the title, so repeated refreshes replace the count instead of stacking it |
| StateList.LabelAppended | mui/dockwidgets/state_list_widget.py:105 | the first word of "Name (n)" is the bucket's name, so a bucket text never stacks counts |
| StateList.StripCountShape | mui/dockwidgets/state_list_widget.py:111-114 | the stripped title is a prefix of the title, and it is shorter exactly when the title ends in ")" |
| StateList.RFind | mui/dockwidgets/state_list_widget.py:114 | the result is the index of the last occurrence of the character, or -1 exactly when it does not occur |
| StateList.StateListWidget.AddOrUpdateState | mui/dockwidgets/state_list_widget.py:58-63 | an existing item is reused and updated; otherwise a new one is created and tracked; the result extends the expected item map and tree by this state; when creation raises, nothing changes |
| StateList.StateListWidget.AddOrUpdateStates | mui/dockwidgets/state_list_widget.py:57-63 | after the first k states of the iteration order, the items and the tree are the expected ones; on failure, state k is the first with no item and an unlisted status |
| StateList.StateListWidget.RemoveStates | mui/dockwidgets/state_list_widget.py:66-69 | exactly the given ids stop being tracked, each taken out of its bucket node's list, and the tree stays the expected one |
| StateList.StateListWidget.FinishStatesChanged | mui/dockwidgets/state_list_widget.py:65-75 | after removal and refresh, the items are the reconciled map, the tree is the expected layout, the counts are current and `states` is the new map |
| StateList.StateListWidget.NotifyStatesChanged | mui/dockwidgets/state_list_widget.py:52-75 | it succeeds exactly when every new state can be placed. On success: `states` is the new map, the items are the reconciled map, the tree is the expected layout, and the counts are refreshed. When a create raises part-way: states, bucket texts and header are untouched, and the items placed before the failing state are kept |
| StateList.AdvanceReconciled | mui/dockwidgets/state_list_widget.py:57-69 | adding/updating every new state and then deleting the old ids missing from the new map gives the reconciled item map |
| StateList.ReconciledKeys | mui/dockwidgets/state_list_widget.py:57-69 | the tracked ids become the new ids plus earlier leftovers; the ids dropped are exactly the old ids minus the new ids; when the tracked ids were the old states' ids, they become the new states' ids |
| StateList.ReconciledBuckets | mui/dockwidgets/state_list_widget.py:58-63 | a state with a listed status ends under that status's bucket; an existing item with an unlisted status keeps its bucket |
| StateList.RemovalReady | mui/dockwidgets/state_list_widget.py:66-69 | every removed id still has its old item when the removal loop reaches it, so the lookup cannot fail, and deleting them yields the reconciled map |
| StateList.EmptyUpdateClears | mui/dockwidgets/state_list_widget.py:53 | when every tracked id is an old state's id, as on a fresh widget, an empty map leaves no item, four empty bucket nodes and the header "State List (0)" |
| StateList.EmptyUpdateKeeps | mui/dockwidgets/state_list_widget.py:53-69 | an empty map keeps exactly the tracked ids that are not old states' ids, so it clears every item exactly when every tracked id is an old state's id |
| StateList.LeftoverSurvivesEmptyUpdate | mui/dockwidgets/state_list_widget.py:53-75 | an item created by an update that later raised is not an old state's id: after state 1 is placed and state 2 raises, an empty map keeps state 1's item and the header reads "State List (1)"; such an item stays until a successful update lists its id, and arises only from a status outside the table |
| StateList.RepeatedUpdateChangesNothing | mui/dockwidgets/state_list_widget.py:57-69 | giving the same states a second time leaves the items and the tree as they are |
| StateList.SettledDestinations | mui/dockwidgets/state_list_widget.py:77-88 | after an update, every item already sits in the bucket its state asks for |
| StateList.ReconciledFixed | mui/dockwidgets/state_list_widget.py:57-69 | reconciling items that already match the states keeps them |
| StateList.LayoutSettled | mui/dockwidgets/state_list_widget.py:57-63 | when no item changes bucket, the expected tree is the old tree |
| StateList.CreateStep | mui/dockwidgets/state_list_widget.py:62-63 | creating a new state's item appends it to its bucket's list in the expected tree |
| StateList.MoveStep | mui/dockwidgets/state_list_widget.py:86-88 | moving an item removes it from its old list and appends it to the new one in the expected tree |
| StateList.RemoveStep | mui/dockwidgets/state_list_widget.py:67-69 | deleting an item removes it from its list in the expected tree |
| StateList.StayStep | mui/dockwidgets/state_list_widget.py:86 | an update that leaves the item in place leaves the expected tree unchanged |
| StateList.PlacementCreate | mui/dockwidgets/state_list_widget.py:62-63 | creating an item keeps every item under exactly one bucket node |
| StateList.PlacementMove | mui/dockwidgets/state_list_widget.py:86-88 | moving an item keeps every item under exactly one bucket node |
| StateList.PlacementRemove | mui/dockwidgets/state_list_widget.py:67-69 | deleting an item keeps every remaining item under exactly one bucket node |
| StateList.UpdateApplies | mui/dockwidgets/state_list_widget.py:58-60 | updating an existing item is one step from the expected items and tree for the states applied so far to those for one more state |
| StateList.CreateApplies | mui/dockwidgets/state_list_widget.py:61-63 | creating a missing item is one step of the expected items and tree |
| StateList.RemoveApplies | mui/dockwidgets/state_list_widget.py:67-69 | deleting a vanished state's item keeps the tree the expected one |
| StateList.Keep | mui/dockwidgets/state_list_widget.py:86-88 | the old children kept in a bucket are exactly those still filed under it |
| StateList.KeepInOrder | mui/dockwidgets/state_list_widget.py:58-60 | the kept children are an order-preserving sub-list of the old children, without repeats when the old list had none, so reused items keep their place |
| StateList.Arrivals | mui/dockwidgets/state_list_widget.py:86-88 | the children appended to a bucket are exactly the applied states now under it that were not under it before |
| StateList.KeepDrop | mui/dockwidgets/state_list_widget.py:68 | taking one id out of a bucket in the item map takes it out of that bucket's kept list and changes nothing else |
| Utils.NavigateToState | mui/utils.py:30-41 | it navigates exactly when the state has a pc, and then to that pc; otherwise it shows the "no instruction information" box for the state's id; there is no other address |
| Utils.NoInstructionTextNamesState | mui/utils.py:37-40 | distinct state ids, negative ones included, give distinct error texts |
| Utils.IsModel | mui/utils.py:96-105 | a model is accepted exactly when its module is manticore.native.models, its name does not start with "_" and its name is not one of the five blacklisted helpers |
| Utils.FunctionMembers | mui/utils.py:92-93 | the result holds exactly the members that are functions, as (name, module) models |
| Utils.FunctionMembersAppend | mui/utils.py:92-93 | the listing of two member lists is the first's listing followed by the second's, and one member contributes its model exactly when it is a function, so order and repetitions follow the members |
| Utils.FilterModels | mui/utils.py:107 | the result keeps exactly the models `is_model` accepts, as an order-preserving sub-list, each as many times as it occurs in the input |
| Utils.GetFunctionModels | mui/utils.py:85-109 | the returned models are an order-preserving sub-list of the function members, hold exactly the accepted function members, and list each accepted one as many times as the function members do |
| Utils.ModelNames | mui/utils.py:118 | the names, in the models' order |
| Utils.MatchFunctions | mui/utils.py:119-123 | a function is matched exactly when it is among the binary's functions and some model name starts with its name |
| Utils.MatchesAppend | mui/utils.py:121-123 | one more model name matches a function exactly when that name starts with the function's name |
| Utils.PrefixDirection | mui/utils.py:122 | the model name must start with the function name and not the other way round: "str" matches "strlen", "strlen_chk" does not |
| Utils.AnalysisBanner | mui/utils.py:125-135 | there is a banner exactly when something matched, and it is the fixed header, the count line, one line per match in iteration order, the border and the footer |
| Utils.AppendFunctionLines | mui/utils.py:131-133 | appending the lines of the matches one by one gives the head followed by all their lines, in order |
| Utils.CountLineShape | mui/utils.py:130 | the count field is as wide as the wider of two and the count's decimal text, all of it decimal digits, and reads back as the match count, so it is exactly the `:02d` text; the line is exactly as wide as the border when there are fewer than 100 matches |
| Utils.FunctionLineShape | mui/utils.py:132-133 | a function line is padded to 34 characters, or more without truncating when the entry is longer, then ends in "#" and a newline; after "# * " come eight lower-case hex digits, zero-padded, that read back as the start address, then ", ", the function's name and a fill of spaces |
| Utils.FixedLinesWidth | mui/utils.py:127-129 | the border, title and blank lines are each 36 characters with their newline, and the border is all "#" before its newline |
| Utils.FunctionModelAnalysis | mui/utils.py:112-137 | a banner is built exactly when some function of the binary matches some accepted model name, and it lists the matches |
| Utils.SolcInShape | mui/utils.py:67-68 | the candidate is the directory followed by "solc", with a "/" between them exactly when the directory is not empty and does not already end in "/"; an empty directory gives "solc" alone |
| Utils.SolcDirectories | mui/utils.py:63-64 | the PATH directories are the colon-free pieces that join back into PATH, in order, followed by ~/.local/bin |
| Utils.FirstSolcFrom | mui/utils.py:66-68 | the directory found holds a solc file and no earlier one does; none is found exactly when no directory holds one |
| Utils.DefaultSolcPath | mui/utils.py:60-70 | the result is the solc path in the first directory, in PATH order then ~/.local/bin, whose candidate is a file, or "" when there is none |
| Utils.FirstSolcAt | mui/utils.py:66-68 | the directory where the scan stops is the first whose candidate is a file |
| Utils.SolcNotFound | mui/utils.py:70 | the search finds nothing exactly when no candidate directory holds a solc file |
| Utils.SolcPathWins | mui/utils.py:63-64 | a PATH directory holding solc always wins over ~/.local/bin |
| Format.LJust | mui/utils.py:133 | the result is as long as the wider of the text and the width, starts with the text, and is filled after it |
| Format.ZeroPadValue | mui/utils.py:130 | a zero-padded number reads back as the number |
| Format.DecimalDigitChars | mui/utils.py:130 | a number written in a base up to ten uses only the characters '0' to '9' |
| Format.ParseDigitsInverse | mui/utils.py:130-132 | reading the digits of a number gives the number back |
| Format.DecimalInjective | mui/utils.py:39 | distinct numbers have distinct decimal texts |
| Format.IntToStringInjective | mui/utils.py:39 | distinct integers, negative ones included, have distinct texts |
| Format.SplitJoin | mui/utils.py:63 | splitting joined parts that contain no separator gives the parts back |
| Format.JoinSplit | mui/utils.py:63 | joining the parts of a split gives the text back |
| Format.SplitAtSeparator | mui/dockwidgets/state_list_widget.py:105 | the first part of a split is the text before the first separator |

## Left out

- Qt: widgets, layout, expanding items, and the item text "State N". Each tree item is represented by its state id.
- The constant and the `__init__` parameters of the dock context: the name, the parent frame and the binary view.
- Iteration order. The order in which Python iterates the new-states dict and the set of matches is a parameter, `order`. It is free of repetitions and holds exactly the keys or elements. The removal loop picks ids in any order.
- Reflection. `getmembers`/`isfunction` are replaced by a list of members: name, whether it is a function, and its defining module. The models keep the order of that list.
- Binary Ninja functions are values: a start address and a name. `bv.navigate` and `show_message_box` become the action `NavigateToState` returns.
- `highlight_instr`, `clear_highlight` and `print_timestamp` are host calls and wall-clock output. `evm_run_dialog.py` and `constants.py` are host-API glue. None of them is part of this model.
- The banner is built but not printed.
- `get_default_solc_path` inputs. The environment and the home directory are parameters. `Path.is_file` is an arbitrary predicate on paths. A missing `PATH` variable, which raises `KeyError` in Python, is not modelled.
- Path normalisation. `pathlib` also collapses repeated or trailing separators and `.` components, and `resolve()` follows symlinks and makes `~/.local/bin` absolute when the home directory is relative. The model only joins the directory text and the name, as `JoinPath` does.
- Status values. Any status other than Manticore's five is one `Unrecognized` constructor carrying a name.
- Navigation uses only `pc`: `MUIStateData` (mui/utils.py:22-27) has no `last_pc`, and the modelled code has no RPC retry channel.
- Aliasing of the states map. The widget keeps a reference to the caller's dict and reads it back as the old states on the next call. A caller that mutates a dict it already passed and passes it again changes what Python diffs against. The model treats both maps as values: callers are assumed to pass a fresh dict each time.
- StateList.StateListWidget.RemoveStates: it works on local copies of the child lists and the item map and writes them back after the loop. Nothing reads the fields in between, so the observable result is the same.
- StateList.StateListWidget.NotifyStatesChanged: an update that raises part-way leaves extra items, so its invariant only requires every known state to have an item, not the reverse. `ReconciledKeys` shows the key sets coincide when no leftovers exist.
- Utils.FunctionLineShape: the hex read-back is stated for addresses below 2^32, where the hex text is exactly eight digits.
