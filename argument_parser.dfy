/**
 * `ArgumentParser`: the command line, as the list of its words (word 0 is
 * the program), read without changing it.  The options come from the
 * `Option` enum and the `ArgumentData` table built from it.
 */
module ArgumentParser {

  import opened Outcomes
  import opened Strings

  /** The `Option` enum. */
  datatype Option = Help | Config | DryRun | Quiet | Version

  /** The order of `ArgumentData`'s option table. */
  const OPTIONS: seq<Option> := [Help, Config, DryRun, Quiet, Version]

  const MINIMUM_ARG_COUNT: nat := 2
  const BINARY_PATH: string := "vendor/bin/svg-optimizer"
  const PROCESS_COMMAND: string := "process"

  /** `ArgumentData::getFormat()`. */
  const FORMAT: string := BINARY_PATH + " [options] " + PROCESS_COMMAND + " <path1> <path2> ..."

  /** `Option::getShorthand()`. */
  function Shorthand(o: Option): string {
    match o
    case Help => "-h"
    case Config => "-c"
    case DryRun => "-d"
    case Quiet => "-q"
    case Version => "-v"
  }

  /** `Option::getFull()`. */
  function Full(o: Option): string {
    match o
    case Help => "--help"
    case Config => "--config"
    case DryRun => "--dry-run"
    case Quiet => "--quiet"
    case Version => "--version"
  }

  /** `ArgumentOptionValueObject::hasName()`. */
  predicate HasName(o: Option, name: string) {
    Shorthand(o) == name || Full(o) == name
  }

  /** No two options share a name, so a name picks at most one option. */
  lemma NamesAreDistinct(o: Option, p: Option, name: string)
    requires HasName(o, name) && HasName(p, name)
    ensures o == p
  {
  }

  /** `getOptionByName`: the first option of the table with that name. */
  function OptionByNameFrom(options: seq<Option>, name: string): (r: Result<Option>)
    ensures r.Success? ==> r.value in options && HasName(r.value, name)
    ensures r.Failure? ==> forall o | o in options :: !HasName(o, name)
    ensures r.Failure? ==> r.error == InvalidArgument("Option \"" + name + "\" not found.")
  {
    if options == [] then Failure(InvalidArgument("Option \"" + name + "\" not found."))
    else if HasName(options[0], name) then Success(options[0])
    else OptionByNameFrom(options[1..], name)
  }

  function OptionByName(name: string): Result<Option> {
    OptionByNameFrom(OPTIONS, name)
  }

  /** A name is known exactly when it is the full or the short form of an option, and then it names that option. */
  lemma OptionByNameMeans(name: string)
    ensures OptionByName(name).Success? <==> exists o: Option :: HasName(o, name)
    ensures forall o: Option :: HasName(o, name) ==> OptionByName(name) == Success(o)
  {
    forall o: Option | HasName(o, name)
      ensures OptionByName(name) == Success(o)
    {
      assert o in OPTIONS;
      NamesAreDistinct(o, OptionByName(name).value, name);
    }
  }

  /** `isOption`. */
  predicate IsOption(arg: string) {
    "-" <= arg
  }

  /** Every word that starts with a name of an option is an option word; a word that does not start with `-` never is. */
  lemma OptionNamesAreOptionWords(o: Option, rest: string, word: string)
    ensures IsOption(Shorthand(o) + rest) && IsOption(Full(o) + rest)
    ensures word == [] || word[0] != '-' ==> !IsOption(word)
  {
    assert (Shorthand(o) + rest)[..1] == Shorthand(o)[..1];
    assert (Full(o) + rest)[..1] == Full(o)[..1];
  }

  /** `getOptionKey`: the text before the first `=`, or all of it. */
  function OptionKey(arg: string): (r: string)
    ensures r <= arg && '=' !in r
    ensures r == arg || arg[|r|] == '='
  {
    if arg == [] || arg[0] == '=' then [] else [arg[0]] + OptionKey(arg[1..])
  }

  /** `getOptionValue`: the text after the first `=`; an option without one has no value. */
  function OptionValue(arg: string): (r: Result<string>)
    ensures r.Success? <==> '=' in arg
    ensures r.Success? ==> arg == OptionKey(arg) + "=" + r.value
    ensures r.Failure? ==> r.error == InvalidArgument("Option \"" + arg + "\" requires a value.")
  {
    var key := OptionKey(arg);
    if key == arg then Failure(InvalidArgument("Option \"" + arg + "\" requires a value."))
    else
      assert arg == key + arg[|key|..];
      Success(arg[|key| + 1..])
  }

  /** The value comes back out of `--name=value` whatever it holds, `=` included. */
  lemma OptionValueRoundTrip(name: string, value: string)
    requires '=' !in name
    ensures OptionKey(name + "=" + value) == name
    ensures OptionValue(name + "=" + value) == Success(value)
  {
    var arg := name + "=" + value;
    var key := OptionKey(arg);
    assert arg[|name|] == '=';
    assert key == arg[..|key|];
  }

  /**
   * `getOption`: the value of the first word that is an option naming `o`.
   * A word before it naming no option at all makes `getOptionByName` throw.
   */
  function GetOption(args: seq<string>, o: Option): (r: Result<string>)
    ensures r.Failure? ==> r.error.InvalidArgument?
  {
    if args == [] then Failure(InvalidArgument("Option \"" + Value(o) + "\" not found in the command-line arguments."))
    else if !IsOption(args[0]) then GetOption(args[1..], o)
    else match OptionByName(OptionKey(args[0]))
      case Failure(e) => Failure(e)
      case Success(p) => if p == o then OptionValue(args[0]) else GetOption(args[1..], o)
  }

  /** `Option::value`. */
  function Value(o: Option): string {
    match o
    case Help => "help"
    case Config => "config"
    case DryRun => "dry-run"
    case Quiet => "quiet"
    case Version => "version"
  }

  /** `getOption` as a loop over the words. */
  method GetOptionIn(args: seq<string>, o: Option) returns (r: Result<string>)
    ensures r == GetOption(args, o)
  {
    for i := 0 to |args|
      invariant GetOption(args, o) == GetOption(args[i..], o)
    {
      assert args[i..][0] == args[i] && args[i..][1..] == args[i + 1..];
      if IsOption(args[i]) {
        var found := OptionByName(OptionKey(args[i]));
        if found.Failure? {
          return Failure(found.error);
        }
        if found.value == o {
          return OptionValue(args[i]);
        }
      }
    }
    r := Failure(InvalidArgument("Option \"" + Value(o) + "\" not found in the command-line arguments."));
  }

  /** Once every option word is known, `getOption` finds `o` exactly when a word names it, and reads that word. */
  lemma {:induction false} GetOptionOfKnownWords(args: seq<string>, o: Option)
    requires forall a | a in args && IsOption(a) :: OptionByName(OptionKey(a)).Success?
    ensures GetOption(args, o).Success? ==>
      exists a | a in args :: IsOption(a) && HasName(o, OptionKey(a)) && OptionValue(a) == GetOption(args, o)
    ensures (forall a | a in args && IsOption(a) :: '=' in a) ==>
      (GetOption(args, o).Success? <==> exists a | a in args :: IsOption(a) && HasName(o, OptionKey(a)))
  {
    if args != [] {
      GetOptionOfKnownWords(args[1..], o);
      assert forall a | a in args[1..] :: a in args;
      if IsOption(args[0]) {
        var key := OptionKey(args[0]);
        OptionByNameMeans(key);
        if OptionByName(key).value != o {
          assert !HasName(o, key);
        }
      }
      assert forall a | a in args :: a == args[0] || a in args[1..];
    }
  }

  /** A short and a long form name the same option, so `-c=x` answers `getOption(CONFIG)`. */
  lemma ShortFormExample()
    ensures GetOption(["svg-optimizer", "-c=rules.json", "process", "a.svg"], Config) == Success("rules.json")
  {
    var args := ["svg-optimizer", "-c=rules.json", "process", "a.svg"];
    var word := "-c" + "=" + "rules.json";
    assert args[1..][0] == word && IsOption(word);
    OptionValueRoundTrip("-c", "rules.json");
    assert HasName(Config, "-c");
    OptionByNameMeans("-c");
    assert GetOption(args[1..], Config) == Success("rules.json");
  }

  /** The full and the short form of every option: what `validateOptions` accepts. */
  const VALID_OPTION_KEYS: seq<string> := [Full(Help), Shorthand(Help), Full(Config), Shorthand(Config),
    Full(DryRun), Shorthand(DryRun), Full(Quiet), Shorthand(Quiet), Full(Version), Shorthand(Version)]

  /** A key is valid exactly when it is the full or the short form of an option. */
  lemma ValidOptionKeysMeans(name: string)
    ensures name in VALID_OPTION_KEYS <==> exists o: Option :: HasName(o, name)
  {
    if name in VALID_OPTION_KEYS {
      if name == Full(Help) || name == Shorthand(Help) { assert HasName(Help, name); }
      else if name == Full(Config) || name == Shorthand(Config) { assert HasName(Config, name); }
      else if name == Full(DryRun) || name == Shorthand(DryRun) { assert HasName(DryRun, name); }
      else if name == Full(Quiet) || name == Shorthand(Quiet) { assert HasName(Quiet, name); }
      else { assert HasName(Version, name); }
    }
  }

  /** The error `validateOptions` reports for an unknown key. */
  function UnknownOption(key: string): Error {
    InvalidArgument("Unknown option: \"" + key + "\". Run with --help to see valid options.")
  }

  /** `validateOptions`: the first option word whose key is neither form of an option is reported. */
  function ValidateOptions(args: seq<string>): (r: Outcome)
    ensures r == Pass <==> forall a | a in args && IsOption(a) :: OptionKey(a) in VALID_OPTION_KEYS
    ensures r.Fail? ==> exists a | a in args && IsOption(a) ::
      OptionKey(a) !in VALID_OPTION_KEYS &&
      r.error == UnknownOption(OptionKey(a))
  {
    if args == [] then Pass
    else if IsOption(args[0]) && OptionKey(args[0]) !in VALID_OPTION_KEYS then
      Fail(UnknownOption(OptionKey(args[0])))
    else
      assert forall a | a in args :: a == args[0] || a in args[1..];
      ValidateOptions(args[1..])
  }

  /** `validateOptions` as a loop over the words. */
  method ValidateOptionsIn(args: seq<string>) returns (r: Outcome)
    ensures r == ValidateOptions(args)
  {
    for i := 0 to |args|
      invariant ValidateOptions(args) == ValidateOptions(args[i..])
    {
      assert args[i..][0] == args[i] && args[i..][1..] == args[i + 1..];
      if IsOption(args[i]) {
        var name := OptionKey(args[i]);
        if name !in VALID_OPTION_KEYS {
          return Fail(UnknownOption(name));
        }
      }
    }
    r := Pass;
  }

  /**
   * `hasOption`: the option words after the program are looked up; if any of
   * them names no option the lookup throws and the answer is `false`.
   */
  function HasOption(args: seq<string>, o: Option): (r: bool)
  {
    args != [] && OptionsOf(args[1..]).Success? && o in OptionsOf(args[1..]).value
  }

  /** The options the option words name, in order, or the first lookup that fails. */
  function OptionsOf(words: seq<string>): (r: Result<seq<Option>>)
    ensures r.Success? <==> forall a | a in words && IsOption(a) :: OptionByName(OptionKey(a)).Success?
    ensures r.Success? ==> forall p :: p in r.value <==> exists a | a in words && IsOption(a) :: HasName(p, OptionKey(a))
  {
    if words == [] then Success([])
    else
      assert forall a | a in words :: a == words[0] || a in words[1..];
      var rest := OptionsOf(words[1..]);
      if !IsOption(words[0]) then rest
      else match OptionByName(OptionKey(words[0]))
        case Failure(e) => Failure(e)
        case Success(p) =>
          OptionByNameMeans(OptionKey(words[0]));
          if rest.Failure? then rest else Success([p] + rest.value)
  }

  /**
   * Once `validateOptions` passes (every option word's key is valid, which
   * `ValidateOptions` ensures is exactly its `Pass`), `hasOption` answers
   * whether a word after the program names the option.
   */
  lemma HasOptionAfterValidation(args: seq<string>, o: Option)
    requires forall a | a in args && IsOption(a) :: OptionKey(a) in VALID_OPTION_KEYS
    ensures HasOption(args, o) <==> |args| > 0 && exists a | a in args[1..] && IsOption(a) :: HasName(o, OptionKey(a))
  {
    if args == [] {
      assert !HasOption(args, o);
    } else {
      KnownAfterValidation(args);
      HasOptionOfKnown(args, o);
    }
  }

  /** With every option word after the program known, `hasOption` answers whether one of them names the option. */
  lemma HasOptionOfKnown(args: seq<string>, o: Option)
    requires args != [] && forall a | a in args[1..] && IsOption(a) :: OptionByName(OptionKey(a)).Success?
    ensures HasOption(args, o) <==> exists a | a in args[1..] && IsOption(a) :: HasName(o, OptionKey(a))
  {
    OptionsOfKnown(args[1..], o);
  }

  /** Every option word after the program names an option once `validateOptions` passes. */
  lemma KnownAfterValidation(args: seq<string>)
    requires forall a | a in args && IsOption(a) :: OptionKey(a) in VALID_OPTION_KEYS
    requires args != []
    ensures forall a | a in args[1..] && IsOption(a) :: OptionByName(OptionKey(a)).Success?
  {
    forall a | a in args[1..] && IsOption(a)
      ensures OptionByName(OptionKey(a)).Success?
    {
      var k := OptionKey(a);
      assert a in args;
      assert k in VALID_OPTION_KEYS;
      ValidOptionKeysMeans(k);
      OptionByNameMeans(k);
    }
  }

  /** With every option word known, `hasOption`'s list holds exactly the options the words name. */
  lemma OptionsOfKnown(words: seq<string>, o: Option)
    requires forall a | a in words && IsOption(a) :: OptionByName(OptionKey(a)).Success?
    ensures OptionsOf(words).Success?
    ensures o in OptionsOf(words).value <==> exists a | a in words && IsOption(a) :: HasName(o, OptionKey(a))
  {
  }

  /** An unknown option word anywhere after the program hides every option from `hasOption`. */
  lemma UnknownOptionHidesAll(args: seq<string>, o: Option, i: nat)
    requires 1 <= i < |args| && IsOption(args[i]) && OptionByName(OptionKey(args[i])).Failure?
    ensures !HasOption(args, o)
  {
    assert args[1..][i - 1] == args[i];
  }

  /** `isEmpty`: fewer than two words, that is, nothing after the program. */
  predicate IsEmpty(args: seq<string>) {
    |args| < MINIMUM_ARG_COUNT
  }

  /** `getArgumentIndex`: the first word after the program that is not an option. */
  function ArgumentIndexFrom(args: seq<string>, i: nat): (r: Result<nat>)
    requires 1 <= i <= |args|
    ensures r.Success? ==> i <= r.value < |args| && !IsOption(args[r.value])
    ensures r.Success? ==> forall j | i <= j < r.value :: IsOption(args[j])
    ensures r.Failure? ==> forall j | i <= j < |args| :: IsOption(args[j])
    ensures r.Failure? ==> r.error == InvalidArgument("Please follow the following format: " + FORMAT)
    decreases |args| - i
  {
    if i == |args| then Failure(InvalidArgument("Please follow the following format: " + FORMAT))
    else if !IsOption(args[i]) then Success(i)
    else ArgumentIndexFrom(args, i + 1)
  }

  function ArgumentIndex(args: seq<string>): (r: Result<nat>)
    ensures r.Success? ==> 0 < r.value < |args| && !IsOption(args[r.value])
    ensures r.Success? ==> forall j | 0 < j < r.value :: IsOption(args[j])
    ensures r.Failure? ==> forall j | 0 < j < |args| :: IsOption(args[j])
  {
    if args == [] then Failure(InvalidArgument("Please follow the following format: " + FORMAT))
    else ArgumentIndexFrom(args, 1)
  }

  /** `getArgumentIndex` as the early-return loop over the words; word 0 is never the answer. */
  method GetArgumentIndex(args: seq<string>) returns (r: Result<nat>)
    ensures r == ArgumentIndex(args)
  {
    for i := 0 to |args|
      invariant i == 0 || ArgumentIndex(args) == ArgumentIndexFrom(args, i)
    {
      if !IsOption(args[i]) && i != 0 {
        return Success(i);
      }
    }
    r := Failure(InvalidArgument("Please follow the following format: " + FORMAT));
  }

  /** `getArgumentStartIndex`: the word after the first positional one. */
  function ArgumentStartIndex(args: seq<string>): (r: Result<nat>)
    ensures r.Success? <==> ArgumentIndex(args).Success?
    ensures r.Success? ==> 1 < r.value <= |args| && !IsOption(args[r.value - 1])
  {
    match ArgumentIndex(args)
    case Success(i) => Success(i + 1)
    case Failure(e) => Failure(e)
  }
}
