/**
 * The plugin's helpers in `mui/utils.py`: the decision behind
 * `navigate_to_state`, the selection of Manticore's function models, the
 * matching of a binary's functions against them with the banner announcing
 * the matches, and the search for a default `solc` binary.
 */
module Utils {
  import opened Wrappers
  import opened Format
  import opened Seqs

  // ---------------------------------------------------------------------------
  // Navigating to a state

  /** `MUIStateData`: a state of the run as the plugin tracks it. */
  datatype StateData = StateData(id: int, pc: Option<int>, parentId: Option<int>, childrenIds: set<int>)

  /** What `navigate_to_state` asks Binary Ninja to do. */
  datatype NavAction =
    | Navigate(address: int)
    | ShowError(title: string, text: string)

  const NoInstructionTitle: string := "[MUI] No instruction information available"

  /** The text of the error box for the state numbered `id`. */
  function NoInstructionText(id: int): string
  {
    "State " + IntToString(id) + " doesn't contain any instruction information."
  }

  /**
   * `navigate_to_state`: go to the state's program counter when it has one,
   * otherwise report that it has none; no other address is ever used.
   */
  function NavigateToState(state: StateData): (action: NavAction)
    ensures action.Navigate? <==> state.pc.Some?
    ensures action.Navigate? ==> action.address == state.pc.value
    ensures action.ShowError? ==> action.title == NoInstructionTitle && action.text == NoInstructionText(state.id)
  {
    match state.pc
    case Some(pc) => Navigate(pc)
    case None => ShowError(NoInstructionTitle, NoInstructionText(state.id))
  }

  /** The error box names the state: distinct states give distinct texts. */
  lemma NoInstructionTextNamesState(id: int, id': int)
    requires NoInstructionText(id) == NoInstructionText(id')
    ensures id == id'
  {
    var t, t' := NoInstructionText(id), NoInstructionText(id');
    var tail := " doesn't contain any instruction information.";
    assert t == "State " + IntToString(id) + tail;
    assert t' == "State " + IntToString(id') + tail;
    assert |IntToString(id)| == |IntToString(id')|;
    assert IntToString(id) == t[6..|t| - |tail|];
    assert IntToString(id') == t'[6..|t'| - |tail|];
    IntToStringInjective(id, id');
  }

  // ---------------------------------------------------------------------------
  // Function models

  /**
   * A member of Manticore's `models` module as reflection lists it: its name,
   * whether it is a function, and the module the function was defined in.
   */
  datatype Member = Member(name: string, isFunction: bool, moduleName: string)

  /** `MUIFunctionModel`, the function given by the module it comes from. */
  datatype FunctionModel = FunctionModel(name: string, moduleName: string)

  const ModelsModule: string := "manticore.native.models"

  /** Helpers of the models module that are not models themselves. */
  const Blacklist: set<string> := {"isvariadic", "variadic", "must_be_NULL", "cannot_be_NULL", "can_be_NULL"}

  /** `is_model`: rejects foreign functions, private names and the helpers of the blacklist, in that order. */
  function IsModel(model: FunctionModel): (accepted: bool)
    ensures accepted <==> model.moduleName == ModelsModule && !("_" <= model.name) && model.name !in Blacklist
  {
    if model.moduleName != ModelsModule then false
    else if "_" <= model.name then false
    else if model.name in Blacklist then false
    else true
  }

  /** The functions among `members`, as models: the first filter and the list comprehension. */
  function FunctionMembers(members: seq<Member>): (models: seq<FunctionModel>)
    ensures forall m :: m in models <==> exists k :: 0 <= k < |members| && members[k].isFunction
                                                      && m == FunctionModel(members[k].name, members[k].moduleName)
  {
    if members == [] then []
    else
      var rest := FunctionMembers(members[1..]);
      assert forall k :: 0 <= k < |members| - 1 ==> members[1..][k] == members[k + 1];
      if members[0].isFunction then [FunctionModel(members[0].name, members[0].moduleName)] + rest else rest
  }

  /**
   * The function members of two lists one after the other are those of the
   * first followed by those of the second, and one member gives its model
   * exactly when it is a function. Together these fix the order and the
   * number of times each model is listed.
   */
  lemma {:induction false} FunctionMembersAppend(a: seq<Member>, b: seq<Member>)
    ensures FunctionMembers(a + b) == FunctionMembers(a) + FunctionMembers(b)
    ensures |a| == 1 ==> FunctionMembers(a) == if a[0].isFunction then [FunctionModel(a[0].name, a[0].moduleName)] else []
  {
    if a == [] {
      assert a + b == b;
    } else {
      assert (a + b)[1..] == a[1..] + b;
      FunctionMembersAppend(a[1..], b);
      if |a| == 1 {
        assert a[1..] == [];
      }
    }
  }

  /** The second filter of `get_function_models`: keeps the models `is_model` accepts, in order. */
  function FilterModels(models: seq<FunctionModel>): (kept: seq<FunctionModel>)
    ensures forall m :: m in kept <==> m in models && IsModel(m)
    ensures forall m :: multiset(kept)[m] == if IsModel(m) then multiset(models)[m] else 0
    ensures IsSubsequence(kept, models)
  {
    if models == [] then []
    else
      var rest := FilterModels(models[1..]);
      assert models == [models[0]] + models[1..];
      if IsModel(models[0]) then
        assert ([models[0]] + rest)[1..] == rest;
        [models[0]] + rest
      else
        rest
  }

  /**
   * `get_function_models`: the function members that `is_model` accepts, in
   * the order they are listed, and every such member.
   */
  function GetFunctionModels(members: seq<Member>): (models: seq<FunctionModel>)
    ensures IsSubsequence(models, FunctionMembers(members))
    ensures forall m :: multiset(models)[m] == if IsModel(m) then multiset(FunctionMembers(members))[m] else 0
    ensures forall m :: m in models <==>
              IsModel(m) && exists k :: 0 <= k < |members| && members[k].isFunction
                                        && m == FunctionModel(members[k].name, members[k].moduleName)
  {
    FilterModels(FunctionMembers(members))
  }

  /** The names of the models, in the same order. */
  function ModelNames(models: seq<FunctionModel>): (names: seq<string>)
    ensures |names| == |models| && forall k :: 0 <= k < |models| ==> names[k] == models[k].name
  {
    seq(|models|, k requires 0 <= k < |models| => models[k].name)
  }

  // ---------------------------------------------------------------------------
  // Matching the binary's functions against the models

  /** A function of the binary, given by its start address and its name. */
  datatype BinaryFunction = BinaryFunction(start: nat, name: string)

  /** Some model's name starts with the function's name (not the other way round). */
  predicate MatchesSomeModel(f: BinaryFunction, names: seq<string>)
  {
    exists n :: n in names && f.name <= n
  }

  /**
   * The nested loops of `function_model_analysis_cb`: collects every function
   * of the binary whose name is a prefix of some model's name.
   */
  method MatchFunctions(functions: seq<BinaryFunction>, names: seq<string>) returns (matches: set<BinaryFunction>)
    ensures forall f :: f in matches <==> f in functions && MatchesSomeModel(f, names)
  {
    matches := {};
    for i := 0 to |functions|
      invariant forall f :: f in matches <==> f in functions[..i] && MatchesSomeModel(f, names)
    {
      var func := functions[i];
      for j := 0 to |names|
        invariant forall f :: f in matches <==>
                    (f in functions[..i] && MatchesSomeModel(f, names))
                    || (f == func && MatchesSomeModel(func, names[..j]))
      {
        assert names[..j + 1] == names[..j] + [names[j]];
        MatchesAppend(func, names[..j], names[j]);
        if func.name <= names[j] {
          matches := matches + {func};
        }
      }
      assert names[..|names|] == names;
      assert functions[..i + 1] == functions[..i] + [func];
    }
    assert functions[..|functions|] == functions;
  }

  lemma MatchesAppend(f: BinaryFunction, names: seq<string>, n: string)
    ensures MatchesSomeModel(f, names + [n]) <==> MatchesSomeModel(f, names) || f.name <= n
  {
    if MatchesSomeModel(f, names + [n]) {
      var m :| m in names + [n] && f.name <= m;
      assert m in names || m == n;
    }
    if MatchesSomeModel(f, names) {
      var m :| m in names && f.name <= m;
      assert m in names + [n];
    }
    if f.name <= n {
      assert n in names + [n];
    }
  }

  /** The direction of the rule: `str` matches the model `strlen`, but `strlen_chk` does not. */
  lemma PrefixDirection()
    ensures MatchesSomeModel(BinaryFunction(0, "str"), ["strlen"])
    ensures !MatchesSomeModel(BinaryFunction(0, "strlen_chk"), ["strlen"])
  {
    assert "strlen" in ["strlen"] && "str" <= "strlen";
    assert !("strlen_chk" <= "strlen");
  }

  // ---------------------------------------------------------------------------
  // The banner

  /** The border line: 35 `#` and a newline. */
  const Border: string := "###################################\n"
  const TitleLine: string := "# MUI Function Model Analysis     #\n"
  const BlankLine: string := "#                                 #\n"
  const Footer: string := "-> Use 'Add Function Model' to hook these functions"

  /** The line giving the number of matches, written with at least two digits. */
  function CountLine(count: nat): string
  {
    "# " + ZeroPad(Decimal(count), 2) + " function(s) match:           #\n"
  }

  /** A function's line before padding: its start in lower-case hex of at least eight digits, then its name. */
  function FunctionEntry(f: BinaryFunction): string
  {
    "# * " + ZeroPad(LowerHex(f.start), 8) + ", " + f.name
  }

  /** A function's line: the entry padded with spaces to 34 characters, then `#` and a newline. */
  function FunctionLine(f: BinaryFunction): string
  {
    LJust(FunctionEntry(f), 34, ' ') + "#\n"
  }

  /** The lines of the functions of `order`, in that order. */
  function FunctionLines(order: seq<BinaryFunction>): string
  {
    if order == [] then "" else FunctionLines(order[..|order| - 1]) + FunctionLine(order[|order| - 1])
  }

  /** The lines above the function lines, for `count` matches. */
  function BannerHead(count: nat): string
  {
    "\n" + Border + TitleLine + BlankLine + CountLine(count)
  }

  /** The whole banner for the matches listed in `order`. */
  function BannerText(order: seq<BinaryFunction>): string
  {
    BannerHead(|order|) + FunctionLines(order) + Border + Footer
  }

  /**
   * The banner of `function_model_analysis_cb`, built line by line: nothing
   * when there is no match, otherwise the banner listing the matches in
   * `order`, the order in which iterating the set yields them.
   */
  method AnalysisBanner(matches: set<BinaryFunction>, order: seq<BinaryFunction>) returns (banner: Option<string>)
    requires NoDups(order) && forall f :: f in order <==> f in matches
    ensures banner.Some? <==> matches != {}
    ensures banner.Some? ==> banner.value == BannerText(order) && |order| == |matches|
  {
    if matches == {} {
      return None;
    }
    ListingCard(matches, order);
    var text := "\n";
    text := text + Border;
    text := text + TitleLine;
    text := text + BlankLine;
    text := text + CountLine(|matches|);
    text := AppendFunctionLines(text, order);
    text := text + Border;
    text := text + Footer;
    return Some(text);
  }

  /** The loop of the banner: appends the line of every function of `order`, in order. */
  method AppendFunctionLines(head: string, order: seq<BinaryFunction>) returns (text: string)
    ensures text == head + FunctionLines(order)
  {
    text := head;
    for i := 0 to |order|
      invariant text == head + FunctionLines(order[..i])
    {
      AppendStep(head, text, order, i);
      text := text + FunctionLine(order[i]);
    }
    assert order[..|order|] == order;
  }

  /** One round of the banner loop keeps the text equal to the head and the lines so far. */
  lemma AppendStep(head: string, text: string, order: seq<BinaryFunction>, i: nat)
    requires i < |order| && text == head + FunctionLines(order[..i])
    ensures text + FunctionLine(order[i]) == head + FunctionLines(order[..i + 1])
  {
    FunctionLinesSnoc(order, i);
    ConcatAssoc(head, FunctionLines(order[..i]), FunctionLine(order[i]));
  }

  lemma ConcatAssoc(a: string, b: string, c: string)
    ensures (a + b) + c == a + (b + c)
  {
  }

  /** One more function adds its line at the end. */
  lemma FunctionLinesSnoc(order: seq<BinaryFunction>, i: nat)
    requires i < |order|
    ensures FunctionLines(order[..i + 1]) == FunctionLines(order[..i]) + FunctionLine(order[i])
  {
    assert order[..i + 1][..i] == order[..i];
  }

  /** A listing of a set without repetitions is as long as the set is large. */
  lemma ListingCard<T>(items: set<T>, order: seq<T>)
    requires NoDups(order) && forall x :: x in order <==> x in items
    ensures |order| == |items|
  {
    NoDupsCard(order);
    assert (set x | x in order) == items;
  }

  /**
   * The count line is as wide as the border (36 characters with its newline)
   * exactly when there are fewer than 100 matches. Its number field holds
   * only the characters '0' to '9', at least two of them, and reads back as
   * the count.
   */
  lemma CountLineShape(count: nat)
    ensures |CountLine(count)| == 36 <==> count < 100
    ensures |CountLine(count)| >= 36
    ensures |CountLine(count)| == 34 + Max(2, |Decimal(count)|)
    ensures CountLine(count)[..2] == "# "
    ensures forall i :: 2 <= i < |CountLine(count)| - 32 ==> '0' <= CountLine(count)[i] <= '9'
    ensures ParseDigits(CountLine(count)[2..|CountLine(count)| - 32], 10) == count
  {
    var digits := ZeroPad(Decimal(count), 2);
    var tail := " function(s) match:           #\n";
    assert |tail| == 32;
    assert CountLine(count) == "# " + digits + tail;
    ZeroPadShape(Decimal(count), 2);
    assert Pow(10, 2) == 100;
    if count < 100 {
      DigitsShort(count, 10, 2);
    } else {
      DigitsLong(count, 10, 2);
    }
    assert CountLine(count)[2..|CountLine(count)| - 32] == digits;
    DecimalDigitChars(count, 10);
    forall i | 0 <= i < |digits| ensures '0' <= digits[i] <= '9' {
      if i >= |digits| - |Decimal(count)| {
        assert digits[i] == Decimal(count)[i - (|digits| - |Decimal(count)|)];
      }
    }
    ZeroPadValue(count, 10, 2);
  }

  /**
   * A function's line ends in `#` and a newline, is at least as wide as the
   * border, and exactly as wide when its entry fits in 34 characters: `ljust`
   * pads with spaces but never truncates. For an address below 2^32 the
   * field after "# * " is eight lower-case hex digits that read back as the
   * address; then come ", ", the function's name and the space fill.
   */
  lemma FunctionLineShape(f: BinaryFunction)
    requires f.start < 0x1_0000_0000
    ensures |FunctionLine(f)| == Max(14 + |f.name|, 34) + 2
    ensures FunctionLine(f)[|FunctionLine(f)| - 2..] == "#\n"
    ensures FunctionLine(f)[..4] == "# * " && ParseDigits(FunctionLine(f)[4..12], 16) == f.start
    ensures forall i :: 4 <= i < 12 ==> IsDigitChar(FunctionLine(f)[i])
    ensures FunctionLine(f)[12..14] == ", "
    ensures FunctionLine(f)[14..14 + |f.name|] == f.name
    ensures forall i :: 14 + |f.name| <= i < |FunctionLine(f)| - 2 ==> FunctionLine(f)[i] == ' '
  {
    var hex := ZeroPad(LowerHex(f.start), 8);
    assert Pow(16, 8) == 0x1_0000_0000;
    DigitsShort(f.start, 16, 8);
    ZeroPadShape(LowerHex(f.start), 8);
    assert |hex| == 8;
    forall i | 0 <= i < 8 ensures IsDigitChar(hex[i]) {
      if i >= 8 - |LowerHex(f.start)| {
        assert hex[i] == LowerHex(f.start)[i - (8 - |LowerHex(f.start)|)];
      }
    }
    var entry := FunctionEntry(f);
    assert entry == "# * " + hex + ", " + f.name;
    assert |entry| == 14 + |f.name|;
    var padded := LJust(entry, 34, ' ');
    assert padded[..|entry|] == entry;
    assert FunctionLine(f) == padded + "#\n";
    assert FunctionLine(f)[..|entry|] == entry;
    assert FunctionLine(f)[4..12] == entry[4..12] == hex;
    assert FunctionLine(f)[12..14] == entry[12..14] == ", ";
    assert FunctionLine(f)[14..14 + |f.name|] == entry[14..14 + |f.name|] == f.name;
    ZeroPadValue(f.start, 16, 8);
  }

  /** The fixed lines of the banner are each as wide as the border. */
  lemma FixedLinesWidth()
    ensures |Border| == 36 && |TitleLine| == 36 && |BlankLine| == 36
    ensures forall k :: 0 <= k < 35 ==> Border[k] == '#'
  {
  }

  // ---------------------------------------------------------------------------
  // function_model_analysis_cb

  /**
   * `function_model_analysis_cb`: selects the function models, matches the
   * binary's functions against their names and, when something matches,
   * builds the banner listing the matches in `order`.
   */
  method FunctionModelAnalysis(members: seq<Member>, functions: seq<BinaryFunction>, order: seq<BinaryFunction>)
    returns (banner: Option<string>)
    requires NoDups(order)
    requires forall f :: f in order <==> f in functions && MatchesSomeModel(f, ModelNames(GetFunctionModels(members)))
    ensures banner.Some? <==> exists f :: f in functions && MatchesSomeModel(f, ModelNames(GetFunctionModels(members)))
    ensures banner.Some? ==> banner.value == BannerText(order)
  {
    var models := GetFunctionModels(members);
    var names := ModelNames(models);
    var matches := MatchFunctions(functions, names);
    banner := AnalysisBanner(matches, order);
    if banner.None? {
      forall f | f in functions ensures !MatchesSomeModel(f, names) {
        assert f !in matches;
      }
    } else {
      assert exists f :: f in matches;
    }
  }

  // ---------------------------------------------------------------------------
  // The default solc path

  /**
   * `name` inside `dir`, joined as `pathlib` joins a directory and a relative
   * name: an empty directory adds nothing and a trailing `/` is not doubled.
   */
  function JoinPath(dir: string, name: string): string
  {
    if dir == [] then name
    else if dir[|dir| - 1] == '/' then dir + name
    else dir + "/" + name
  }

  /** The path of a file named `solc` inside `dir`. */
  function SolcIn(dir: string): string
  {
    JoinPath(dir, "solc")
  }

  /** `~/.local/bin` for the home directory `home`. */
  function LocalBin(home: string): string
  {
    JoinPath(home, ".local/bin")
  }

  /**
   * The candidate is the directory followed by a file named `solc`, with a
   * `/` put between them exactly when the directory is not empty and does
   * not already end in one.
   */
  lemma SolcInShape(dir: string)
    ensures SolcIn(dir) == dir + "solc" || SolcIn(dir) == dir + "/solc"
    ensures SolcIn(dir) == dir + "/solc" <==> (dir != [] && dir[|dir| - 1] != '/')
  {
    if dir == [] || dir[|dir| - 1] == '/' {
      assert |SolcIn(dir)| == |dir| + 4 != |dir + "/solc"|;
    }
  }

  /**
   * The directories searched, in order: the pieces of PATH between colons,
   * which joined back give PATH itself, then `~/.local/bin`.
   */
  function SolcDirectories(pathVar: string, home: string): (dirs: seq<string>)
    ensures |dirs| == |Split(pathVar, ':')| + 1
    ensures Join(dirs[..|dirs| - 1], ':') == pathVar
    ensures forall d :: d in dirs[..|dirs| - 1] ==> ':' !in d
    ensures dirs[|dirs| - 1] == LocalBin(home)
  {
    JoinSplit(pathVar, ':');
    var dirs := Split(pathVar, ':') + [LocalBin(home)];
    assert dirs[..|dirs| - 1] == Split(pathVar, ':');
    dirs
  }

  /** The position of the first directory from the `i`-th on that holds a `solc` file, if any. */
  function FirstSolcFrom(dirs: seq<string>, isFile: string -> bool, i: nat): (r: Option<nat>)
    requires i <= |dirs|
    ensures r.Some? ==> i <= r.value < |dirs| && isFile(SolcIn(dirs[r.value]))
                        && forall j :: i <= j < r.value ==> !isFile(SolcIn(dirs[j]))
    ensures r.None? ==> forall j :: i <= j < |dirs| ==> !isFile(SolcIn(dirs[j]))
    decreases |dirs| - i
  {
    if i == |dirs| then None
    else if isFile(SolcIn(dirs[i])) then Some(i)
    else FirstSolcFrom(dirs, isFile, i + 1)
  }

  /** The position of the first directory holding a `solc` file, if any. */
  function FirstSolc(dirs: seq<string>, isFile: string -> bool): Option<nat>
  {
    FirstSolcFrom(dirs, isFile, 0)
  }

  /**
   * `get_default_solc_path`: the first `<dir>/solc` that is a file, trying
   * the directories of PATH in order and then `~/.local/bin`; "" when there
   * is none. `isFile` stands for `Path.is_file`.
   */
  method DefaultSolcPath(pathVar: string, home: string, isFile: string -> bool) returns (path: string)
    ensures path == match FirstSolc(SolcDirectories(pathVar, home), isFile)
                    case Some(k) => SolcIn(SolcDirectories(pathVar, home)[k])
                    case None => ""
  {
    var possiblePaths := Split(pathVar, ':');
    possiblePaths := possiblePaths + [LocalBin(home)];
    for i := 0 to |possiblePaths|
      invariant forall j :: 0 <= j < i ==> !isFile(SolcIn(possiblePaths[j]))
    {
      if isFile(SolcIn(possiblePaths[i])) {
        FirstSolcAt(possiblePaths, isFile, i);
        return SolcIn(possiblePaths[i]);
      }
    }
    return "";
  }

  /** The first directory holding a file is the one found by scanning in order. */
  lemma FirstSolcAt(dirs: seq<string>, isFile: string -> bool, i: nat)
    requires i < |dirs| && isFile(SolcIn(dirs[i]))
    requires forall j :: 0 <= j < i ==> !isFile(SolcIn(dirs[j]))
    ensures FirstSolc(dirs, isFile) == Some(i)
  {
  }

  /** The search finds nothing exactly when no candidate directory holds a `solc` file. */
  lemma SolcNotFound(pathVar: string, home: string, isFile: string -> bool)
    ensures var dirs := SolcDirectories(pathVar, home);
            FirstSolc(dirs, isFile).None? <==> forall d :: d in dirs ==> !isFile(SolcIn(d))
  {
    var dirs := SolcDirectories(pathVar, home);
    var found := FirstSolc(dirs, isFile);
    if found.None? {
      forall d | d in dirs ensures !isFile(SolcIn(d)) {
        var k :| 0 <= k < |dirs| && dirs[k] == d;
      }
    } else {
      assert dirs[found.value] in dirs;
    }
  }

  /** A directory of PATH that holds a `solc` file always wins over `~/.local/bin`. */
  lemma SolcPathWins(pathVar: string, home: string, isFile: string -> bool, d: string)
    requires d in Split(pathVar, ':') && isFile(SolcIn(d))
    ensures var found := FirstSolc(SolcDirectories(pathVar, home), isFile);
            found.Some? && found.value < |Split(pathVar, ':')|
  {
    var dirs := SolcDirectories(pathVar, home);
    var parts := Split(pathVar, ':');
    var k :| 0 <= k < |parts| && parts[k] == d;
    assert dirs[k] == dirs[..|dirs| - 1][k] == d;
  }
}
