/**
  * Plugin start-up in `init.cpp`: the `Options` record filled from the
  * plugin's `key[=value]` arguments by one setter per key, and the
  * detection of the compiler frontend from the language hook's name,
  * computed once and remembered.
  */
module Init {

  import opened Wrappers
  import opened Text

  /** The values of the five options, as a record. */
  datatype Settings = Settings(debugEvents: bool, dump: bool, hello: bool, info: bool, output: Option<string>)

  /** `Options()` zeroes the whole record: every flag false, no output file. */
  const Defaults := Settings(false, false, false, false, None)

  /** The options `option_map` knows, one per field of `Options`. */
  datatype Key = DebugEvents | Dump | Hello | Info | Output

  /** `option_map.find(key)`. */
  function Lookup(key: string): (k: Option<Key>)
    ensures k.Some? <==> key in {"debug_events", "dump", "hello", "info", "output"}
  {
    if key == "debug_events" then Some(DebugEvents)
    else if key == "dump" then Some(Dump)
    else if key == "hello" then Some(Hello)
    else if key == "info" then Some(Info)
    else if key == "output" then Some(Output)
    else None
  }

  /** The contents of one field: a flag or a possibly-null string. */
  datatype Value = Flag(on: bool) | Text(text: Option<string>)

  /** The field a key's setter writes, read back. */
  function Field(s: Settings, key: Key): Value {
    match key
    case DebugEvents => Flag(s.debugEvents)
    case Dump => Flag(s.dump)
    case Hello => Flag(s.hello)
    case Info => Flag(s.info)
    case Output => Text(s.output)
  }

  /**
    * `set_option(opts, val)` of the key's setter: a flag takes no value and
    * becomes true; `output` needs a value and stores it. A rejected value
    * leaves the record as it was.
    */
  function Set(s: Settings, key: Key, val: Option<string>): (Settings, bool) {
    match key
    case DebugEvents => if val.Some? then (s, false) else (s.(debugEvents := true), true)
    case Dump => if val.Some? then (s, false) else (s.(dump := true), true)
    case Hello => if val.Some? then (s, false) else (s.(hello := true), true)
    case Info => if val.Some? then (s, false) else (s.(info := true), true)
    case Output => if val.None? then (s, false) else (s.(output := val), true)
  }

  /**
    * The two setter rules: a flag accepts exactly when no value is given, a
    * string exactly when one is; an accepted flag reads true and an accepted
    * string reads as the value; a rejection changes nothing; and no setter
    * touches another key's field.
    */
  lemma SetterRules(s: Settings, key: Key, val: Option<string>)
    ensures Set(s, key, val).1 <==> (key == Output <==> val.Some?)
    ensures !Set(s, key, val).1 ==> Set(s, key, val).0 == s
    ensures Set(s, key, val).1 ==> Field(Set(s, key, val).0, key) == if key == Output then Text(val) else Flag(true)
    ensures forall other :: other != key ==> Field(Set(s, key, val).0, other) == Field(s, other)
  {
  }

  /** One `key[=value]` argument; `value` is null when no `=` was given. */
  datatype Argument = Argument(key: string, value: Option<string>)

  /** The two warnings of the argument loop. */
  datatype Warning = UnknownOption(key: string) | UnknownValue(key: string, value: Option<string>)

  /** The argument loop over a prefix of the arguments: the record so far and the warnings printed so far. */
  function Parse(args: seq<Argument>): (Settings, seq<Warning>)
    decreases |args|
  {
    if args == [] then (Defaults, [])
    else
      var (s, warnings) := Parse(args[..|args| - 1]);
      var arg := args[|args| - 1];
      match Lookup(arg.key)
      case None => (s, warnings + [UnknownOption(arg.key)])
      case Some(key) =>
        var (s', ok) := Set(s, key, arg.value);
        (s', if ok then warnings else warnings + [UnknownValue(arg.key, arg.value)])
  }

  /** The arguments whose key `option_map` knows. */
  function Known(args: seq<Argument>): (known: seq<Argument>)
    ensures forall i :: 0 <= i < |known| ==> Lookup(known[i].key).Some?
    decreases |args|
  {
    if args == [] then []
    else
      var front := Known(args[..|args| - 1]);
      if Lookup(args[|args| - 1].key).Some? then front + [args[|args| - 1]] else front
  }

  /**
    * An unknown key is skipped: the record the loop builds is the one the
    * known arguments alone build, and the later arguments are still
    * processed.
    */
  lemma {:induction false} UnknownSkipped(args: seq<Argument>)
    ensures Parse(args).0 == Parse(Known(args)).0
    decreases |args|
  {
    if args != [] {
      var front := args[..|args| - 1];
      var arg := args[|args| - 1];
      UnknownSkipped(front);
      if Lookup(arg.key).Some? {
        assert (Known(front) + [arg])[..|Known(front) + [arg]| - 1] == Known(front);
      }
    }
  }

  /** One warning per argument that was not applied, nothing else. */
  lemma {:induction false} WarningCount(args: seq<Argument>)
    ensures |Parse(args).1| + |Applied(args)| == |args|
    decreases |args|
  {
    if args != [] {
      WarningCount(args[..|args| - 1]);
    }
  }

  /** The arguments the loop applies: known key and a value its setter accepts. */
  function Applied(args: seq<Argument>): seq<Argument>
    decreases |args|
  {
    if args == [] then []
    else
      var front := args[..|args| - 1];
      var arg := args[|args| - 1];
      var ok := match Lookup(arg.key)
        case None => false
        case Some(key) => Set(Parse(front).0, key, arg.value).1;
      if ok then Applied(front) + [arg] else Applied(front)
  }

  /** `struct Options`, written through member pointers by the setters. */
  class Options {
    var debugEvents: bool
    var dump: bool
    var hello: bool
    var info: bool
    var output: Option<string>

    function Value(): Settings
      reads this
    {
      Settings(debugEvents, dump, hello, info, output)
    }

    constructor()
      ensures Value() == Defaults
    {
      debugEvents, dump, hello, info, output := false, false, false, false, None;
    }

    /** `OptionSetter::set_option(this, val)` for the setter of `key`. */
    method SetOption(key: Key, val: Option<string>) returns (ok: bool)
      modifies this
      ensures (Value(), ok) == Set(old(Value()), key, val)
    {
      match key
      case DebugEvents =>
        ok := val.None?;
        if ok {
          debugEvents := true;
        }
      case Dump =>
        ok := val.None?;
        if ok {
          dump := true;
        }
      case Hello =>
        ok := val.None?;
        if ok {
          hello := true;
        }
      case Info =>
        ok := val.None?;
        if ok {
          info := true;
        }
      case Output =>
        ok := val.Some?;
        if ok {
          output := val;
        }
    }
  }

  /** The argument loop of `plugin_init`: each argument is looked up and applied, with a warning for each one that is not. */
  method ParseArguments(args: seq<Argument>) returns (options: Options, warnings: seq<Warning>)
    ensures (options.Value(), warnings) == Parse(args)
  {
    options := new Options();
    warnings := [];
    var i := 0;
    while i < |args|
      invariant 0 <= i <= |args|
      invariant (options.Value(), warnings) == Parse(args[..i])
    {
      assert args[..i + 1][..i] == args[..i];
      var arg := args[i];
      var key := Lookup(arg.key);
      if key.None? {
        warnings := warnings + [UnknownOption(arg.key)];
      } else {
        var ok := options.SetOption(key.value, arg.value);
        if !ok {
          warnings := warnings + [UnknownValue(arg.key, arg.value)];
        }
      }
      i := i + 1;
    }
    assert args[..i] == args;
  }

  // Frontend detection.

  /** `enum vomitorium_frontend`; `Uninitialized` is `VOMITORIUM_FRONTEND_NONE`. */
  datatype Frontend =
    | Uninitialized | Unknown
    | Ada | Brig | C | Cxx | D | Fortran | Go | Java | Jit | Lto | ObjC | ObjCxx

  /** The character each frontend's enumerator is assigned. */
  function Code(f: Frontend): char {
    match f
    case Uninitialized => '\0'
    case Unknown => '?'
    case Ada => 'a'
    case Brig => 'b'
    case C => 'c'
    case Cxx => 'C'
    case D => 'D'
    case Fortran => 'F'
    case Go => 'g'
    case Java => 'j'
    case Jit => 'J'
    case Lto => 'l'
    case ObjC => 'o'
    case ObjCxx => 'O'
  }

  /** The codes are pairwise distinct, so a code names one frontend. */
  lemma CodesDistinct(f: Frontend, g: Frontend)
    ensures Code(f) == Code(g) <==> f == g
  {
  }

  /** GCC's `c_language`, the C-family dialect being compiled. */
  datatype CLanguage = ClkC | ClkObjc | ClkCxx | ClkObjcxx

  /** `frontend_map.find(name)`. */
  function FrontendOf(name: string): (f: Option<Frontend>)
    ensures f.Some? ==> f.value !in {Uninitialized, Unknown, Jit, Lto, ObjCxx}
  {
    if name == "GNU Ada" then Some(Ada)
    else if name == "GNU Brig" then Some(Brig)
    else if name == "GNU C" then Some(C)
    else if name == "GNU C++" then Some(Cxx)
    else if name == "GNU Objective-C" then Some(ObjC)
    else if name == "GNU D" then Some(D)
    else if name == "GNU Fortran" then Some(Fortran)
    else if name == "GNU Go" then Some(Go)
    else if name == "GNU Java" then Some(Java)
    else None
  }

  /** The name with every trailing decimal digit removed (the year of the language standard). */
  function StripDigits(name: string): string
    decreases |name|
  {
    if name != [] && IsDigit(name[|name| - 1]) then StripDigits(name[..|name| - 1]) else name
  }

  /**
    * `StripDigits` keeps a prefix that does not end in a digit and removes
    * only digits.
    */
  lemma {:induction false} StripDigitsSpec(name: string)
    ensures StripDigits(name) <= name
    ensures StripDigits(name) == [] || !IsDigit(StripDigits(name)[|StripDigits(name)| - 1])
    ensures AllDigits(name[|StripDigits(name)|..])
    decreases |name|
  {
    if name != [] && IsDigit(name[|name| - 1]) {
      var front := name[..|name| - 1];
      StripDigitsSpec(front);
      var r := StripDigits(front);
      assert name[|r|..] == front[|r|..] + [name[|name| - 1]];
    }
  }

  /** Appending a year to a name that does not end in a digit does not change what it is taken for. */
  lemma {:induction false} StripYear(name: string, year: string)
    requires name == [] || !IsDigit(name[|name| - 1])
    requires AllDigits(year)
    ensures StripDigits(name + year) == name
    decreases |year|
  {
    if year != [] {
      var front := year[..|year| - 1];
      assert (name + year)[..|name + year| - 1] == name + front;
      StripYear(name, front);
    } else {
      assert name + year == name;
    }
  }

  /**
    * The assertions of the detection: a C name comes with the C dialect, an
    * Objective-C name with Objective-C, and a C++ name with C++ or
    * Objective-C++.
    */
  predicate LanguageAgrees(name: string, lang: CLanguage) {
    var stripped := StripDigits(name);
    && (stripped == "GNU C" ==> lang == ClkC)
    && (stripped == "GNU Objective-C" ==> lang == ClkObjc)
    && (stripped == "GNU C++" ==> lang == ClkCxx || lang == ClkObjcxx)
  }

  /** What the detection settles on for the language hook's name. */
  function Detect(name: string, lang: CLanguage): Frontend
    requires LanguageAgrees(name, lang)
  {
    match FrontendOf(StripDigits(name))
    case None => Unknown
    case Some(f) => if f == Cxx && lang == ClkObjcxx then ObjCxx else f
  }

  /**
    * `vomitorium_calc_frontend`: detect only while nothing is stored yet;
    * once a frontend is stored, neither the hook nor the dialect is read.
    */
  function Calc(current: Frontend, name: string, lang: CLanguage): Frontend
    requires current == Uninitialized ==> LanguageAgrees(name, lang)
  {
    if current == Uninitialized then Detect(name, lang) else current
  }

  /**
    * Detection always settles on a frontend, so it runs once: a second call
    * returns the first call's answer whatever the hook says then.
    */
  lemma Memoised(current: Frontend, name: string, lang: CLanguage, name': string, lang': CLanguage)
    requires current == Uninitialized ==> LanguageAgrees(name, lang)
    ensures Calc(current, name, lang) != Uninitialized
    ensures Calc(Calc(current, name, lang), name', lang') == Calc(current, name, lang)
  {
  }

  /**
    * The outcomes of detection: an unknown name gives `Unknown`, a C++ name
    * with the Objective-C++ dialect gives `ObjCxx`, and `ObjCxx` arises in
    * no other way (the map never yields it, so the assertion against it
    * cannot fire).
    */
  lemma DetectOutcomes(name: string, lang: CLanguage)
    requires LanguageAgrees(name, lang)
    ensures Detect(name, lang) == Unknown <==> FrontendOf(StripDigits(name)).None?
    ensures Detect(name, lang) == ObjCxx <==> StripDigits(name) == "GNU C++" && lang == ClkObjcxx
    ensures Detect(name, lang) != Uninitialized && Detect(name, lang) != Jit && Detect(name, lang) != Lto
  {
  }

  /** Recent compilers name the language with its standard's year: that year is ignored. */
  lemma DetectWithYear(name: string, year: string, lang: CLanguage)
    requires name == [] || !IsDigit(name[|name| - 1])
    requires AllDigits(year)
    requires LanguageAgrees(name, lang)
    ensures LanguageAgrees(name + year, lang)
    ensures Detect(name + year, lang) == Detect(name, lang)
  {
    StripYear(name, year);
    StripYear(name, []);
  }

  /** The detected frontend, held in the global `vomitorium_current_frontend`. */
  class FrontendState {
    var current: Frontend

    /** Static storage starts zeroed, i.e. uninitialized. */
    constructor()
      ensures current == Uninitialized
    {
      current := Uninitialized;
    }

    /**
      * `vomitorium_calc_frontend()`: strips the digits in a loop, looks the
      * name up and stores the result, warning about an unknown name.
      */
    method CalcFrontend(name: string, lang: CLanguage) returns (f: Frontend, warned: bool)
      requires current == Uninitialized ==> LanguageAgrees(name, lang)
      modifies this
      ensures current == Calc(old(current), name, lang) && f == current
      ensures warned <==> old(current) == Uninitialized && current == Unknown
    {
      warned := false;
      if current == Uninitialized {
        var stripped := TrimDigits(name);
        var found := FrontendOf(stripped);
        if found.None? {
          warned := true;
          current := Unknown;
        } else {
          current := found.value;
          if current == Cxx && lang == ClkObjcxx {
            current := ObjCxx;
          }
        }
      }
      f := current;
    }
  }

  /** The loop that shrinks the name while its last character is a digit. */
  method TrimDigits(name: string) returns (stripped: string)
    ensures stripped == StripDigits(name)
  {
    var n := |name|;
    assert name[..n] == name;
    while n > 0 && IsDigit(name[n - 1])
      invariant 0 <= n <= |name|
      invariant StripDigits(name[..n]) == StripDigits(name)
    {
      assert name[..n - 1] == name[..n][..n - 1];
      n := n - 1;
    }
    stripped := name[..n];
  }
}
