/** `src/options-parser.js`: the command-line arguments, already split into
    keys and values by the argument parser, are checked against the default
    options and merged into them. */
module OptionsParser {
  import opened Results
  import opened Text

  /** A JavaScript value the argument parser can produce: booleans, numbers,
      strings, arrays of repeated arguments, and objects for dotted keys. */
  datatype Value =
    | Bool(b: bool)
    | Number(n: int)
    | Str(s: string)
    | Array(items: seq<Value>)
    | Object(entries: seq<(string, Value)>)

  /** What `Object.prototype.toString` reports for a value. */
  datatype TypeTag = BooleanTag | NumberTag | StringTag | ArrayTag | ObjectTag

  function TagOf(v: Value): TypeTag {
    match v
    case Bool(_) => BooleanTag
    case Number(_) => NumberTag
    case Str(_) => StringTag
    case Array(_) => ArrayTag
    case Object(_) => ObjectTag
  }

  /** `Object.prototype.toString.apply(v)`. */
  function ObjectToString(v: Value): string {
    match v
    case Bool(_) => "[object Boolean]"
    case Number(_) => "[object Number]"
    case Str(_) => "[object String]"
    case Array(_) => "[object Array]"
    case Object(_) => "[object Object]"
  }

  /** `isSameType`: the two `Object.prototype.toString` texts are equal,
      which happens exactly when the values have the same built-in type. */
  function IsSameType(a: Value, b: Value): (same: bool)
    ensures same <==> ObjectToString(a) == ObjectToString(b)
  {
    assert TagOf(a) != TagOf(b) ==> ObjectToString(a)[8] != ObjectToString(b)[8] || |ObjectToString(a)| != |ObjectToString(b)|;
    TagOf(a) == TagOf(b)
  }

  /** JavaScript truthiness: `false`, `0` and `""` are falsy; arrays and
      objects, even empty ones, are truthy. */
  predicate Truthy(v: Value) {
    match v
    case Bool(b) => b
    case Number(n) => n != 0
    case Str(s) => s != ""
    case Array(_) => true
    case Object(_) => true
  }

  function DigitChar(d: nat): char
    requires d < 10
  {
    "0123456789"[d]
  }

  function NaturalToString(n: nat): (s: string)
    ensures |s| > 0
    decreases n
  {
    if n < 10 then [DigitChar(n)] else NaturalToString(n / 10) + [DigitChar(n % 10)]
  }

  /** `value.toString()`: decimal for numbers, elements joined by "," for
      arrays, "[object Object]" for objects. */
  function ToString(v: Value): string
    decreases v
  {
    match v
    case Bool(b) => if b then "true" else "false"
    case Number(n) => if n < 0 then "-" + NaturalToString(-n) else NaturalToString(n)
    case Str(s) => s
    case Array(items) => Join(seq(|items|, k requires 0 <= k < |items| => ToString(items[k])), ",")
    case Object(_) => "[object Object]"
  }

  /** An array whose elements are all strings. */
  predicate IsStringArray(v: Value) {
    v.Array? && forall k :: 0 <= k < |v.items| ==> v.items[k].Str?
  }

  /** The strings of a string array. */
  function Strings(v: Value): (r: seq<string>)
    requires IsStringArray(v)
    ensures |r| == |v.items| && forall k :: 0 <= k < |r| ==> v.items[k] == Str(r[k])
  {
    seq(|v.items|, k requires 0 <= k < |v.items| => v.items[k].s)
  }

  /** `makeStringArray`: an absent or falsy value gives no strings, a single
      value gives its text, and an array gives the text of every element. */
  function MakeStringArray(v: Option<Value>): (r: Value)
    ensures IsStringArray(r)
    ensures v.None? || !Truthy(v.value) ==> r == Array([])
    ensures v.Some? && Truthy(v.value) && !v.value.Array? ==> r == Array([Str(ToString(v.value))])
    ensures v.Some? && v.value.Array? ==>
      |r.items| == |v.value.items|
      && forall k :: 0 <= k < |r.items| ==> r.items[k] == Str(ToString(v.value.items[k]))
  {
    if v.None? || !Truthy(v.value) then Array([])
    else if !v.value.Array? then Array([Str(ToString(v.value))])
    else
      var items := v.value.items;
      Array(seq(|items|, k requires 0 <= k < |items| => Str(ToString(items[k]))))
  }

  // ----------------------------------------------------------- the defaults

  const DefaultOptions: map<string, Value> := map[
    "allowMissingTitle" := Bool(false),
    "ignore" := Array([]),
    "includeAllDirectoriesByDefault" := Bool(false),
    "includeUpwardNavigation" := Bool(false),
    "linkToSubdirectoryReadme" := Bool(false),
    "noSubdirectoryTrees" := Bool(false),
    "notesBeforeDirectories" := Bool(false),
    "numberSpaces" := Number(4),
    "orderNotesByTitle" := Bool(false),
    "readmeFilename" := Str("README.md"),
    "silent" := Bool(false),
    "subdirectoryDescriptionOnNewLine" := Bool(false),
    "useTabs" := Bool(false)
  ]

  /** The names every plain object inherits from `Object.prototype`, whose
      values are functions. The `in` operator finds them on the defaults too,
      so they count as known keys, and no parsed argument value has the
      type of a function. */
  const InheritedNames: set<string> := {
    "constructor", "hasOwnProperty", "isPrototypeOf", "propertyIsEnumerable", "toLocaleString",
    "toString", "valueOf", "__defineGetter__", "__defineSetter__", "__lookupGetter__", "__lookupSetter__"
  }

  /** `key in defaultOptions`: an own key of the defaults or an inherited one. */
  predicate IsKnownKey(key: string, defaults: map<string, Value>) {
    key in defaults || key in InheritedNames
  }

  /** The key the argument parser always adds for positional arguments. */
  const PositionalKey: string := "_"

  // --------------------------------------------------------------- merging

  /** The parsed arguments, in the order the argument parser produced them. */
  type Arguments = seq<(string, Value)>

  /** The value of the last occurrence of `key`. */
  function Lookup(args: Arguments, key: string): Option<Value>
    decreases |args|
  {
    if args == [] then None
    else
      var later := Lookup(args[1..], key);
      if later.Some? then later
      else if args[0].0 == key then Some(args[0].1)
      else None
  }

  /** Some argument is named `key`. */
  predicate HasKey(args: Arguments, key: string) {
    exists k :: 0 <= k < |args| && args[k].0 == key
  }

  /** An own key of the defaults with a value of its default's type, or the
      positional key. An inherited name is known but never of the right
      type. */
  predicate Acceptable(arg: (string, Value), defaults: map<string, Value>) {
    if arg.0 in defaults then IsSameType(arg.1, defaults[arg.0])
    else arg.0 !in InheritedNames && arg.0 == PositionalKey
  }

  /** The error for an argument that is not `Acceptable`. */
  function RejectionMessage(key: string, defaults: map<string, Value>): string {
    if IsKnownKey(key, defaults) then "Unexpected use of argument " + key else "Unknown argument " + key
  }

  /** The arguments with `ignore` turned into a string array: every `ignore`
      argument is replaced where it stands, or one is appended when there is
      none. */
  function NormaliseIgnore(args: Arguments): (r: Arguments)
    ensures HasKey(r, "ignore")
    ensures forall k :: 0 <= k < |r| && r[k].0 == "ignore" ==> IsStringArray(r[k].1)
    ensures HasKey(args, "ignore") ==>
      (|r| == |args|
       && forall k :: 0 <= k < |args| ==>
            r[k] == (if args[k].0 == "ignore" then ("ignore", MakeStringArray(Some(args[k].1))) else args[k]))
    ensures !HasKey(args, "ignore") ==> r == args + [("ignore", Array([]))]
  {
    if HasKey(args, "ignore") then
      var r := seq(|args|, k requires 0 <= k < |args| =>
        if args[k].0 == "ignore" then ("ignore", MakeStringArray(Some(args[k].1))) else args[k]);
      var w :| 0 <= w < |args| && args[w].0 == "ignore";
      assert r[w].0 == "ignore";
      r
    else
      var r := args + [("ignore", MakeStringArray(None))];
      assert r[|args|].0 == "ignore";
      r
  }

  /** The loop of `getOptions`: walk the arguments in order, replacing the
      option for every acceptable known key and stopping at the first
      argument that is not acceptable. */
  function Merge(args: Arguments, defaults: map<string, Value>, options: map<string, Value>)
    : (r: Result<map<string, Value>>)
    requires defaults.Keys <= options.Keys
    ensures r.Ok? <==> forall k :: 0 <= k < |args| ==> Acceptable(args[k], defaults)
    ensures r.Err? ==> exists i :: 0 <= i < |args| && !Acceptable(args[i], defaults)
                                   && (forall j :: 0 <= j < i ==> Acceptable(args[j], defaults))
                                   && r.message == RejectionMessage(args[i].0, defaults)
    ensures r.Ok? ==> r.value.Keys == options.Keys
    ensures r.Ok? ==> forall key :: key in r.value ==>
      r.value[key] == (if key in defaults && Lookup(args, key).Some? then Lookup(args, key).value else options[key])
    decreases |args|
  {
    if args == [] then Ok(options)
    else
      var key := args[0].0;
      var value := args[0].1;
      if key in defaults && IsSameType(value, defaults[key]) then
        MergeStep(args, defaults, options, options[key := value])
      else if IsKnownKey(key, defaults) then
        Err("Unexpected use of argument " + key)
      else if key != PositionalKey then
        Err("Unknown argument " + key)
      else
        MergeStep(args, defaults, options, options)
  }

  /** The rest of the loop after an acceptable first argument, which turned
      `options` into `next`. */
  function MergeStep(args: Arguments, defaults: map<string, Value>, options: map<string, Value>,
                     next: map<string, Value>): (r: Result<map<string, Value>>)
    requires |args| > 0 && Acceptable(args[0], defaults)
    requires defaults.Keys <= options.Keys && next.Keys == options.Keys
    requires forall key :: key in next ==>
      next[key] == (if key in defaults && args[0].0 == key then args[0].1 else options[key])
    ensures r.Ok? <==> forall k :: 0 <= k < |args| ==> Acceptable(args[k], defaults)
    ensures r.Err? ==> exists i :: 0 <= i < |args| && !Acceptable(args[i], defaults)
                                   && (forall j :: 0 <= j < i ==> Acceptable(args[j], defaults))
                                   && r.message == RejectionMessage(args[i].0, defaults)
    ensures r.Ok? ==> r.value.Keys == options.Keys
    ensures r.Ok? ==> forall key :: key in r.value ==>
      r.value[key] == (if key in defaults && Lookup(args, key).Some? then Lookup(args, key).value else options[key])
    decreases |args|, 0
  {
    var tail := args[1..];
    var r := Merge(tail, defaults, next);
    assert forall k :: 1 <= k < |args| ==> args[k] == tail[k - 1];
    if r.Err? then
      var i :| 0 <= i < |tail| && !Acceptable(tail[i], defaults)
               && (forall j :: 0 <= j < i ==> Acceptable(tail[j], defaults))
               && r.message == RejectionMessage(tail[i].0, defaults);
      assert !Acceptable(args[i + 1], defaults) && forall j :: 0 <= j < i + 1 ==> Acceptable(args[j], defaults);
      r
    else
      assert forall k :: 1 <= k < |args| ==> Acceptable(args[k], defaults);
      r
  }

  /** `getOptions` after argument parsing: the defaults, overridden by every
      well-typed known argument, or the error for the first argument that is
      of the wrong type or unknown. `ignore` is normalised first, so it is
      always present and always a string array. */
  function GetOptions(parsed: Arguments): (r: Result<map<string, Value>>)
    ensures r.Ok? ==> r.value.Keys == DefaultOptions.Keys
    ensures var args := NormaliseIgnore(parsed);
      && (r.Ok? <==> forall k :: 0 <= k < |args| ==> Acceptable(args[k], DefaultOptions))
      && (r.Err? ==> exists i :: 0 <= i < |args| && !Acceptable(args[i], DefaultOptions)
                                 && (forall j :: 0 <= j < i ==> Acceptable(args[j], DefaultOptions))
                                 && r.message == RejectionMessage(args[i].0, DefaultOptions))
      && (r.Ok? ==> forall key :: key in r.value ==>
            r.value[key] == (if Lookup(args, key).Some? then Lookup(args, key).value else DefaultOptions[key]))
  {
    Merge(NormaliseIgnore(parsed), DefaultOptions, DefaultOptions)
  }

  // --------------------------------------------------------------- lemmas

  /** The normalised `ignore` always has the type of its default, so it never
      makes the type check fail. */
  lemma IgnoreAlwaysWellTyped(parsed: Arguments)
    ensures forall k :: 0 <= k < |NormaliseIgnore(parsed)| && NormaliseIgnore(parsed)[k].0 == "ignore" ==>
      Acceptable(NormaliseIgnore(parsed)[k], DefaultOptions)
  {
    assert DefaultOptions["ignore"] == Array([]);
  }

  /** Arguments holding nothing but positional ones give exactly the defaults. */
  lemma OnlyPositionalGivesDefaults(parsed: Arguments)
    requires forall k :: 0 <= k < |parsed| ==> parsed[k].0 == PositionalKey
    ensures GetOptions(parsed) == Ok(DefaultOptions)
  {
    var args := NormaliseIgnore(parsed);
    assert !HasKey(parsed, "ignore");
    assert args == parsed + [("ignore", Array([]))];
    assert DefaultOptions["ignore"] == Array([]);
    assert PositionalKey !in DefaultOptions;
    assert forall k :: 0 <= k < |args| ==> Acceptable(args[k], DefaultOptions);
    var m := GetOptions(parsed).value;
    forall key | key in m ensures m[key] == DefaultOptions[key] {
      LookupFinds(args, key);
      if Lookup(args, key).Some? {
        var k :| 0 <= k < |args| && args[k] == (key, Lookup(args, key).value);
        assert k == |parsed|;
      }
    }
    assert m == DefaultOptions;
  }

  /** A found value belongs to some argument of that name. */
  lemma {:induction false} LookupFinds(args: Arguments, key: string)
    ensures Lookup(args, key).Some? <==> HasKey(args, key)
    ensures Lookup(args, key).Some? ==> exists k :: 0 <= k < |args| && args[k] == (key, Lookup(args, key).value)
    decreases |args|
  {
    if args != [] {
      LookupFinds(args[1..], key);
      assert forall k :: 1 <= k < |args| ==> args[k] == args[1..][k - 1];
      if HasKey(args, key) && !HasKey(args[1..], key) {
        assert args[0].0 == key;
      }
    }
  }

  /** An unknown key other than the positional one makes the result an
      error, whatever the other arguments are. */
  lemma UnknownKeyRejected(parsed: Arguments, i: nat)
    requires i < |parsed| && parsed[i].0 !in DefaultOptions && parsed[i].0 != PositionalKey
    ensures GetOptions(parsed).Err?
  {
    var args := NormaliseIgnore(parsed);
    assert "ignore" in DefaultOptions;
    assert args[i] == parsed[i];
  }

  /** A name inherited from `Object.prototype` is a known key of the wrong
      type: on its own it is refused as an unexpected use, not as unknown. */
  lemma InheritedNameRejected(name: string, v: Value)
    requires name in InheritedNames
    ensures GetOptions([(name, v)]) == Err("Unexpected use of argument " + name)
  {
    var args := NormaliseIgnore([(name, v)]);
    assert name != "ignore";
    assert !HasKey([(name, v)], "ignore");
    assert args[0] == (name, v);
    assert name !in DefaultOptions;
    assert !Acceptable(args[0], DefaultOptions);
  }

  /** A known key given a value of the wrong type makes the result an error. */
  lemma WrongTypeRejected(parsed: Arguments, i: nat)
    requires i < |parsed| && parsed[i].0 in DefaultOptions && parsed[i].0 != "ignore"
    requires !IsSameType(parsed[i].1, DefaultOptions[parsed[i].0])
    ensures GetOptions(parsed).Err?
  {
    var args := NormaliseIgnore(parsed);
    assert args[i] == parsed[i];
  }

  // --------------------------------------------------------- typed options

  /** The options as the rest of the program reads them. */
  datatype Options = Options(
    allowMissingTitle: bool,
    ignore: seq<string>,
    includeAllDirectoriesByDefault: bool,
    includeUpwardNavigation: bool,
    linkToSubdirectoryReadme: bool,
    noSubdirectoryTrees: bool,
    notesBeforeDirectories: bool,
    numberSpaces: int,
    orderNotesByTitle: bool,
    readmeFilename: string,
    silent: bool,
    subdirectoryDescriptionOnNewLine: bool,
    useTabs: bool)

  /** Every default key is present with a value of its default's type, and
      `ignore` holds strings only. */
  predicate WellTyped(m: map<string, Value>) {
    DefaultOptions.Keys <= m.Keys
    && (forall key :: key in DefaultOptions ==> IsSameType(m[key], DefaultOptions[key]))
    && IsStringArray(m["ignore"])
  }

  function ToOptions(m: map<string, Value>): (o: Options)
    requires WellTyped(m)
    ensures o.ignore == Strings(m["ignore"]) && o.readmeFilename == m["readmeFilename"].s
  {
    Options(
      m["allowMissingTitle"].b, Strings(m["ignore"]), m["includeAllDirectoriesByDefault"].b,
      m["includeUpwardNavigation"].b, m["linkToSubdirectoryReadme"].b, m["noSubdirectoryTrees"].b,
      m["notesBeforeDirectories"].b, m["numberSpaces"].n, m["orderNotesByTitle"].b,
      m["readmeFilename"].s, m["silent"].b, m["subdirectoryDescriptionOnNewLine"].b, m["useTabs"].b)
  }

  /** A successful merge is well typed: every option keeps its default's type
      and `ignore` is a list of strings. */
  lemma GetOptionsWellTyped(parsed: Arguments)
    requires GetOptions(parsed).Ok?
    ensures WellTyped(GetOptions(parsed).value)
  {
    var args := NormaliseIgnore(parsed);
    var m := GetOptions(parsed).value;
    forall key | key in DefaultOptions
      ensures IsSameType(m[key], DefaultOptions[key]) && (key == "ignore" ==> IsStringArray(m[key]))
    {
      LookupFinds(args, key);
      if Lookup(args, key).Some? {
        var k :| 0 <= k < |args| && args[k] == (key, Lookup(args, key).value);
        assert Acceptable(args[k], DefaultOptions);
      } else {
        assert HasKey(args, "ignore");
      }
    }
  }

  /** `getOptions` as the program uses it: the typed options, or the error. */
  function ParseOptions(parsed: Arguments): (r: Result<Options>)
    ensures r.Ok? <==> GetOptions(parsed).Ok?
    ensures r.Err? ==> r.message == GetOptions(parsed).message
  {
    var m := GetOptions(parsed);
    if m.Err? then Err(m.message)
    else
      GetOptionsWellTyped(parsed);
      Ok(ToOptions(m.value))
  }

  /** With no arguments at all, every typed option has its documented default. */
  lemma DefaultsWhenNoArguments()
    ensures ParseOptions([]) == Ok(Options(false, [], false, false, false, false, false, 4, false,
                                           "README.md", false, false, false))
  {
    OnlyPositionalGivesDefaults([]);
    DefaultsTyped();
  }

  lemma DefaultsTyped()
    ensures WellTyped(DefaultOptions)
    ensures ToOptions(DefaultOptions)
         == Options(false, [], false, false, false, false, false, 4, false, "README.md", false, false, false)
  {
    var d := DefaultOptions;
    assert d["allowMissingTitle"] == Bool(false) && d["ignore"] == Array([]);
    assert d["includeAllDirectoriesByDefault"] == Bool(false) && d["includeUpwardNavigation"] == Bool(false);
    assert d["linkToSubdirectoryReadme"] == Bool(false) && d["noSubdirectoryTrees"] == Bool(false);
    assert d["notesBeforeDirectories"] == Bool(false) && d["numberSpaces"] == Number(4);
    assert d["orderNotesByTitle"] == Bool(false) && d["readmeFilename"] == Str("README.md");
    assert d["silent"] == Bool(false) && d["subdirectoryDescriptionOnNewLine"] == Bool(false);
    assert d["useTabs"] == Bool(false);
  }
}
