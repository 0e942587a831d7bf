/**
 * spl_flags.h: GNU-style command-line flags. A registry of flag
 * descriptors, each bound to a variable of the program, and a scanner that
 * walks argv, stores flag values into the bound variables and files every
 * other argument into one of three leftover lists.
 *
 * The C registry binds each descriptor to a variable through a pointer;
 * here the variables form a value store indexed by flag number, values[k]
 * being the variable flag k was registered with. Float flags are not
 * modelled: the tag numbering keeps their slot (kind ordinal 2).
 */
module SplFlags {
  import opened CString

  datatype Option<T> = None | Some(value: T)

  /** SPL_FLAGS_CAP: the most flags that can be registered. */
  const FlagsCap := 256
  /** The capacity of each leftover list of spl_flags_argv_parse. */
  const LeftoverCap := 512
  /** The size of the buffer a string flag's default is copied into. */
  const DefaultStrCap := 1024

  datatype FlagType = Int | Toggle | Str

  /** The contents of a bound variable: int32_t, uint8_t, or a possibly NULL char *. */
  datatype Value = IntVal(n: int) | ToggleVal(b: nat) | StrVal(s: Option<string>)

  /**
   * A flag descriptor. short is ' ' when the flag has none, by the
   * library's convention; long is None for a NULL long hand.
   */
  datatype Flag = Flag(kind: FlagType, short: char, long: Option<string>,
                       info: Option<string>, default: Value)

  /** The C type of the variable a flag of this kind is bound to. */
  predicate HasKind(v: Value, kind: FlagType)
  {
    match kind
    case Int => v.IntVal?
    case Toggle => v.ToggleVal? && v.b < 256
    case Str => v.StrVal?
  }

  /** The leftover lists spl_flags_parse returns. */
  datatype ParseResult = ParseResult(nonDefinedLong: seq<string>,
                                     nonDefinedShort: seq<char>,
                                     nonFlags: seq<string>)

  /** Every leftover list fits its 512-entry array. */
  predicate Fits(r: ParseResult)
  {
    |r.nonDefinedLong| <= LeftoverCap && |r.nonDefinedShort| <= LeftoverCap
    && |r.nonFlags| <= LeftoverCap
  }

  // ---------------------------------------------------------------------
  // get_flag_info
  // ---------------------------------------------------------------------

  /**
   * What get_flag_info reports for the text after an argument's dash:
   * nothing matched (NON_DEFINED), or flag k matched by its long or short
   * hand, with or without a '=' right after the matched name.
   */
  datatype Info = NonDefined | Found(k: nat, long: bool, equal: bool)

  /** The first character is the flag's short hand. */
  predicate ShortMatch(f: Flag, a: string)
  {
    At(a, 0) == f.short
  }

  /** The flag has a long hand, and it starts the text from the second character on. */
  predicate LongMatch(f: Flag, a: string)
  {
    f.long.Some? && f.long.value <= Drop(a, 1)
  }

  predicate Matches(f: Flag, a: string)
  {
    ShortMatch(f, a) || LongMatch(f, a)
  }

  /** Where a '=' selects the *_EQUAL form: right after the matched name. */
  function EqualAt(f: Flag, long: bool): nat
    requires long ==> f.long.Some?
  {
    if long then |f.long.value| + 1 else 1
  }

  /**
   * get_flag_info from descriptor j on: the first flag, in registration
   * order, that matches, preferring its short hand to its long hand.
   */
  function Lookup(flags: seq<Flag>, a: string, j: nat): (info: Info)
    requires j <= |flags|
    ensures info.Found? ==>
      && j <= info.k < |flags| && Matches(flags[info.k], a)
      && info.long == !ShortMatch(flags[info.k], a)
      && info.equal == (At(a, EqualAt(flags[info.k], info.long)) == '=')
      && forall m :: j <= m < info.k ==> !Matches(flags[m], a)
    ensures info.NonDefined? ==> forall m :: j <= m < |flags| ==> !Matches(flags[m], a)
    decreases |flags| - j
  {
    if j == |flags| then NonDefined
    else
      var f := flags[j];
      if At(a, 0) == f.short then Found(j, false, At(a, 1) == '=')
      else if f.long.Some? && f.long.value <= Drop(a, 1) then
        Found(j, true, At(a, |f.long.value| + 1) == '=')
      else Lookup(flags, a, j + 1)
  }

  /** The position of a kind in the C flag_type enumeration; 2 is FLAG_FLOAT. */
  function KindOrdinal(kind: FlagType): nat
  {
    match kind
    case Int => 0
    case Toggle => 1
    case Str => 3
  }

  /**
   * The argv_flag_type enumerator get_flag_info returns for an Info. The
   * parse works on Info directly; TagCode and its lemmas show that the
   * C numbering carries the same information.
   */
  function TagCode(flags: seq<Flag>, info: Info): (code: nat)
    requires info.Found? ==> info.k < |flags|
    ensures info.NonDefined? <==> code == 0
    ensures code <= 16
  {
    match info
    case NonDefined => 0
    case Found(k, long, equal) =>
      1 + 4 * KindOrdinal(flags[k].kind) + (if long then 2 else 0) + (if equal then 1 else 0)
  }

  /** IS_EQUAL_ARG. */
  predicate IsEqualArg(code: int)
  {
    code % 2 == 0
  }

  // ---------------------------------------------------------------------
  // spl_flags_parse, as a function of the registry and argv
  // ---------------------------------------------------------------------

  /** The bound variables and the leftover lists, part way through argv. */
  datatype Outcome = Outcome(values: seq<Value>, res: ParseResult)

  /** The value text is stored as the flag's kind demands: atoi, atoi narrowed to uint8_t, or the text. */
  function Assign(kind: FlagType, text: string): Value
  {
    match kind
    case Int => IntVal(Atoi(text))
    case Toggle => ToggleVal(Atoi(text) % 256)
    case Str => StrVal(Some(text))
  }

  /** The C `!` on a toggle's uint8_t. */
  function Flip(v: Value): Value
  {
    if v.ToggleVal? then ToggleVal(if v.b == 0 then 1 else 0) else v
  }

  /**
   * One flag argument argv[i], from the position cur within it (the
   * argument itself, or a later suffix after a `goto`): the new outcome and
   * the index of the next argument to read.
   */
  function ArgStep(flags: seq<Flag>, argv: seq<string>, i: nat, cur: string, o: Outcome): (r: (Outcome, nat))
    requires i < |argv| && |o.values| == |flags|
    ensures |r.0.values| == |flags| && i < r.1 <= |argv|
    ensures r.1 == i + 1 || r.1 == i + 2
    decreases |cur|
  {
    var info := Lookup(flags, Drop(cur, 1), 0);
    match info
    case NonDefined =>
      if At(cur, 1) == '-' then
        (Outcome(o.values, o.res.(nonDefinedLong := o.res.nonDefinedLong + [Drop(cur, 2)])), i + 1)
      else
        var cur' := Drop(cur, 1);
        var o' := Outcome(o.values, o.res.(nonDefinedShort := o.res.nonDefinedShort + [At(cur', 0)]));
        if IsAlpha(At(cur', 1)) then ArgStep(flags, argv, i, cur', o') else (o', i + 1)
    case Found(k, long, equal) =>
      var f := flags[k];
      if equal then
        (Outcome(o.values[k := Assign(f.kind, AfterFirst(cur, '='))], o.res), i + 1)
      else if f.kind == Toggle then
        var o' := Outcome(o.values[k := Flip(o.values[k])], o.res);
        if !long && IsAlpha(At(cur, 2)) then ArgStep(flags, argv, i, Drop(cur, 1), o')
        else (o', i + 1)
      else
        var rest := Drop(cur, if long then |f.long.value| + 2 else 2);
        if IsAlnum(At(rest, 0)) then (Outcome(o.values[k := Assign(f.kind, rest)], o.res), i + 1)
        else if i != |argv| - 1 then (Outcome(o.values[k := Assign(f.kind, argv[i + 1])], o.res), i + 2)
        else (o, i + 1)
  }

  /** The arguments from index i on, flags already terminated by "--" or not. */
  function ParseFrom(flags: seq<Flag>, argv: seq<string>, i: nat, terminated: bool, o: Outcome): (r: Outcome)
    requires i <= |argv| && |o.values| == |flags|
    ensures |r.values| == |flags|
    decreases |argv| - i
  {
    if i == |argv| then o
    else if terminated || At(argv[i], 0) != '-' then
      ParseFrom(flags, argv, i + 1, terminated,
                Outcome(o.values, o.res.(nonFlags := o.res.nonFlags + [argv[i]])))
    else if argv[i] == "--" then ParseFrom(flags, argv, i + 1, true, o)
    else
      var (o', next) := ArgStep(flags, argv, i, argv[i], o);
      ParseFrom(flags, argv, next, false, o')
  }

  /** spl_flags_parse: the bound variables and leftover lists after all of argv but argv[0]. */
  function ParseSpec(flags: seq<Flag>, values: seq<Value>, argv: seq<string>): Outcome
    requires |values| == |flags|
  {
    var start := Outcome(values, ParseResult([], [], []));
    if argv == [] then start else ParseFrom(flags, argv, 1, false, start)
  }

  // ---------------------------------------------------------------------
  // Properties of the tags and of the parse
  // ---------------------------------------------------------------------

  /** IS_EQUAL_ARG holds exactly for NON_DEFINED and the *_EQUAL tags. */
  lemma TagCodeParity(flags: seq<Flag>, info: Info)
    requires info.Found? ==> info.k < |flags|
    ensures IsEqualArg(TagCode(flags, info)) <==> info.NonDefined? || info.equal
  {
    if info.Found? {
      var code := TagCode(flags, info);
      var h := 2 * KindOrdinal(flags[info.k].kind) + (if info.long then 1 else 0);
      assert code == 2 * h + 1 + (if info.equal then 1 else 0);
    }
  }

  /** The tag determines the kind of the flag, the hand and the '=' form. */
  lemma TagCodeInjective(flags: seq<Flag>, a: Info, b: Info)
    requires a.Found? && b.Found? && a.k < |flags| && b.k < |flags|
    requires TagCode(flags, a) == TagCode(flags, b)
    ensures flags[a.k].kind == flags[b.k].kind && a.long == b.long && a.equal == b.equal
  {
    var x, y := KindOrdinal(flags[a.k].kind), KindOrdinal(flags[b.k].kind);
    var ra := (if a.long then 2 else 0) + (if a.equal then 1 else 0);
    var rb := (if b.long then 2 else 0) + (if b.equal then 1 else 0);
    assert 4 * x + ra == 4 * y + rb;
  }

  /** Every bound variable has the type its flag's kind expects. */
  ghost predicate KindsMatch(flags: seq<Flag>, values: seq<Value>)
  {
    |values| == |flags| && forall k :: 0 <= k < |flags| ==> HasKind(values[k], flags[k].kind)
  }

  lemma {:induction false} ArgStepKeepsKinds(flags: seq<Flag>, argv: seq<string>, i: nat, cur: string, o: Outcome)
    requires i < |argv| && KindsMatch(flags, o.values)
    ensures KindsMatch(flags, ArgStep(flags, argv, i, cur, o).0.values)
    decreases |cur|
  {
    var info := Lookup(flags, Drop(cur, 1), 0);
    match info
    case NonDefined =>
      if At(cur, 1) != '-' {
        var cur' := Drop(cur, 1);
        var o' := Outcome(o.values, o.res.(nonDefinedShort := o.res.nonDefinedShort + [At(cur', 0)]));
        if IsAlpha(At(cur', 1)) {
          ArgStepKeepsKinds(flags, argv, i, cur', o');
        }
      }
    case Found(k, long, equal) =>
      var f := flags[k];
      if !equal && f.kind == Toggle {
        var o' := Outcome(o.values[k := Flip(o.values[k])], o.res);
        assert KindsMatch(flags, o'.values);
        if !long && IsAlpha(At(cur, 2)) {
          ArgStepKeepsKinds(flags, argv, i, Drop(cur, 1), o');
        }
      }
  }

  lemma {:induction false} ParseFromKeepsKinds(flags: seq<Flag>, argv: seq<string>, i: nat, terminated: bool, o: Outcome)
    requires i <= |argv| && KindsMatch(flags, o.values)
    ensures KindsMatch(flags, ParseFrom(flags, argv, i, terminated, o).values)
    decreases |argv| - i
  {
    if i < |argv| {
      if terminated || At(argv[i], 0) != '-' {
        ParseFromKeepsKinds(flags, argv, i + 1, terminated,
                            Outcome(o.values, o.res.(nonFlags := o.res.nonFlags + [argv[i]])));
      } else if argv[i] == "--" {
        ParseFromKeepsKinds(flags, argv, i + 1, true, o);
      } else {
        var (o', next) := ArgStep(flags, argv, i, argv[i], o);
        ArgStepKeepsKinds(flags, argv, i, argv[i], o);
        ParseFromKeepsKinds(flags, argv, next, false, o');
      }
    }
  }

  /** Parsing never stores a value of the wrong type into a bound variable. */
  lemma ParseKeepsKinds(flags: seq<Flag>, values: seq<Value>, argv: seq<string>)
    requires KindsMatch(flags, values)
    ensures KindsMatch(flags, ParseSpec(flags, values, argv).values)
  {
    if argv != [] {
      ParseFromKeepsKinds(flags, argv, 1, false, Outcome(values, ParseResult([], [], [])));
    }
  }

  /** After "--", every remaining argument is a non-flag, in order, and nothing else changes. */
  lemma {:induction false} ParseAfterTerminator(flags: seq<Flag>, argv: seq<string>, i: nat, o: Outcome)
    requires i <= |argv| && |o.values| == |flags|
    ensures ParseFrom(flags, argv, i, true, o) ==
      Outcome(o.values, o.res.(nonFlags := o.res.nonFlags + argv[i..]))
    decreases |argv| - i
  {
    if i < |argv| {
      var o' := Outcome(o.values, o.res.(nonFlags := o.res.nonFlags + [argv[i]]));
      ParseAfterTerminator(flags, argv, i + 1, o');
      assert argv[i..] == [argv[i]] + argv[i + 1..];
    }
  }

  /** Arguments that do not start with '-' are filed as non-flags, in order. */
  lemma {:induction false} ParsePlain(flags: seq<Flag>, argv: seq<string>, i: nat, j: nat, t: bool, o: Outcome)
    requires i <= j <= |argv| && |o.values| == |flags|
    requires forall m :: i <= m < j ==> At(argv[m], 0) != '-'
    ensures ParseFrom(flags, argv, i, t, o) ==
      ParseFrom(flags, argv, j, t, Outcome(o.values, o.res.(nonFlags := o.res.nonFlags + argv[i..j])))
    decreases j - i
  {
    if i == j {
      assert o.res.nonFlags + argv[i..j] == o.res.nonFlags;
    } else {
      var o' := Outcome(o.values, o.res.(nonFlags := o.res.nonFlags + [argv[i]]));
      assert ParseFrom(flags, argv, i, t, o) == ParseFrom(flags, argv, i + 1, t, o');
      ParsePlain(flags, argv, i + 1, j, t, o');
      assert argv[i..j] == [argv[i]] + argv[i + 1..j];
      assert o'.res.nonFlags + argv[i + 1..j] == o.res.nonFlags + argv[i..j];
    }
  }

  /**
   * argv[0] is skipped, the counts start at zero, arguments without a
   * leading '-' and every argument after "--" become non-flags in their
   * original order, and the "--" itself is recorded nowhere.
   */
  lemma ParseTerminator(flags: seq<Flag>, values: seq<Value>, prog: string, plain: seq<string>, rest: seq<string>)
    requires |values| == |flags|
    requires forall m :: 0 <= m < |plain| ==> At(plain[m], 0) != '-'
    ensures ParseSpec(flags, values, [prog] + plain + ["--"] + rest) ==
      Outcome(values, ParseResult([], [], plain + rest))
  {
    var argv := [prog] + plain + ["--"] + rest;
    var j := 1 + |plain|;
    var o := Outcome(values, ParseResult([], [], []));
    var o' := Outcome(values, ParseResult([], [], argv[1..j]));
    assert argv[1..j] == plain;
    assert argv[j] == "--";
    assert argv[j + 1..] == rest;
    assert ParseSpec(flags, values, argv) == ParseFrom(flags, argv, 1, false, o);
    ParsePlain(flags, argv, 1, j, false, o);
    assert o.res.nonFlags + argv[1..j] == plain;
    assert ParseFrom(flags, argv, j, false, o') == ParseFrom(flags, argv, j + 1, true, o');
    ParseAfterTerminator(flags, argv, j + 1, o');
    assert plain + argv[j + 1..] == plain + rest;
  }

  lemma {:induction false} ArgStepIgnoresProgramName(flags: seq<Flag>, argv: seq<string>, argv': seq<string>,
                                                      i: nat, cur: string, o: Outcome)
    requires 1 <= i < |argv| == |argv'| && |o.values| == |flags|
    requires argv[1..] == argv'[1..]
    ensures ArgStep(flags, argv, i, cur, o) == ArgStep(flags, argv', i, cur, o)
    decreases |cur|
  {
    if i + 1 < |argv| {
      assert argv[i + 1] == argv[1..][i] == argv'[i + 1];
    }
    var info := Lookup(flags, Drop(cur, 1), 0);
    match info
    case NonDefined =>
      if At(cur, 1) != '-' {
        var cur' := Drop(cur, 1);
        var o' := Outcome(o.values, o.res.(nonDefinedShort := o.res.nonDefinedShort + [At(cur', 0)]));
        if IsAlpha(At(cur', 1)) {
          ArgStepIgnoresProgramName(flags, argv, argv', i, cur', o');
        }
      }
    case Found(k, long, equal) =>
      var f := flags[k];
      if !equal && f.kind == Toggle {
        var o' := Outcome(o.values[k := Flip(o.values[k])], o.res);
        if !long && IsAlpha(At(cur, 2)) {
          ArgStepIgnoresProgramName(flags, argv, argv', i, Drop(cur, 1), o');
        }
      }
  }

  lemma {:induction false} ParseFromIgnoresProgramName(flags: seq<Flag>, argv: seq<string>, argv': seq<string>,
                                                        i: nat, t: bool, o: Outcome)
    requires 1 <= i <= |argv| == |argv'| && |o.values| == |flags|
    requires argv[1..] == argv'[1..]
    ensures ParseFrom(flags, argv, i, t, o) == ParseFrom(flags, argv', i, t, o)
    decreases |argv| - i
  {
    if i < |argv| {
      assert argv[i] == argv[1..][i - 1] == argv'[i];
      if t || At(argv[i], 0) != '-' {
        ParseFromIgnoresProgramName(flags, argv, argv', i + 1, t,
                                    Outcome(o.values, o.res.(nonFlags := o.res.nonFlags + [argv[i]])));
      } else if argv[i] == "--" {
        ParseFromIgnoresProgramName(flags, argv, argv', i + 1, true, o);
      } else {
        var (o', next) := ArgStep(flags, argv, i, argv[i], o);
        ArgStepIgnoresProgramName(flags, argv, argv', i, argv[i], o);
        ParseFromIgnoresProgramName(flags, argv, argv', next, false, o');
      }
    }
  }

  /** argv[0], the program name, has no effect on the parse. */
  lemma ParseIgnoresProgramName(flags: seq<Flag>, values: seq<Value>, argv: seq<string>, prog: string)
    requires |values| == |flags| && argv != []
    ensures ParseSpec(flags, values, [prog] + argv[1..]) == ParseSpec(flags, values, argv)
  {
    var argv' := [prog] + argv[1..];
    assert argv'[1..] == argv[1..];
    ParseFromIgnoresProgramName(flags, argv, argv', 1, false, Outcome(values, ParseResult([], [], [])));
  }

  /** An undefined "--name" is filed, as "name", among the undefined long flags. */
  lemma UndefinedLong(flags: seq<Flag>, values: seq<Value>, prog: string, name: string)
    requires |values| == |flags| && name != []
    requires Lookup(flags, ['-'] + name, 0) == NonDefined
    ensures ParseSpec(flags, values, [prog, ['-', '-'] + name]) ==
      Outcome(values, ParseResult([name], [], []))
  {
    var arg := ['-', '-'] + name;
    var argv := [prog, arg];
    assert Drop(arg, 1) == ['-'] + name;
    assert Drop(arg, 2) == name;
    assert arg != "--" && At(arg, 0) == '-' && At(arg, 1) == '-';
    var o := Outcome(values, ParseResult([], [], []));
    var o' := Outcome(values, ParseResult([name], [], []));
    assert Lookup(flags, Drop(arg, 1), 0) == NonDefined;
    assert o.res.nonDefinedLong + [Drop(arg, 2)] == [name];
    assert ArgStep(flags, argv, 1, arg, o) == (o', 2);
    assert ParseSpec(flags, values, argv) == ParseFrom(flags, argv, 1, false, o);
    assert ParseFrom(flags, argv, 1, false, o) == ParseFrom(flags, argv, 2, false, o');
  }

  /**
   * Undefined short letters after a dash (or after the letter before them)
   * are filed one by one among the undefined short flags.
   */
  lemma {:induction false} UndefinedShorts(flags: seq<Flag>, argv: seq<string>, i: nat, c: char, w: string, o: Outcome)
    requires i < |argv| && |o.values| == |flags|
    requires w != [] && forall j :: 0 <= j < |w| ==> IsAlpha(w[j])
    requires forall j :: 0 <= j < |w| ==> Lookup(flags, w[j..], 0) == NonDefined
    ensures ArgStep(flags, argv, i, [c] + w, o) ==
      (Outcome(o.values, o.res.(nonDefinedShort := o.res.nonDefinedShort + w)), i + 1)
    decreases |w|
  {
    var cur := [c] + w;
    assert Drop(cur, 1) == w == w[0..];
    assert At(cur, 1) == w[0];
    assert Lookup(flags, w[0..], 0) == NonDefined;
    assert At(cur, 1) != '-';
    var o' := Outcome(o.values, o.res.(nonDefinedShort := o.res.nonDefinedShort + [w[0]]));
    if |w| > 1 {
      var w' := w[1..];
      assert w == [w[0]] + w';
      assert At(w, 1) == w[1];
      assert ArgStep(flags, argv, i, cur, o) == ArgStep(flags, argv, i, w, o');
      forall j | 0 <= j < |w'|
        ensures IsAlpha(w'[j]) && Lookup(flags, w'[j..], 0) == NonDefined
      {
        assert w'[j..] == w[j + 1..];
      }
      UndefinedShorts(flags, argv, i, w[0], w', o');
      assert o'.res.nonDefinedShort + w' == o.res.nonDefinedShort + w;
    } else {
      assert w == [w[0]];
      assert At(w, 1) == '\0';
    }
  }

  /** "-abc" with no flag a, b or c files the letters a, b, c as undefined short flags. */
  lemma UndefinedShortArg(flags: seq<Flag>, values: seq<Value>, prog: string, w: string)
    requires |values| == |flags|
    requires w != [] && forall j :: 0 <= j < |w| ==> IsAlpha(w[j])
    requires forall j :: 0 <= j < |w| ==> Lookup(flags, w[j..], 0) == NonDefined
    ensures ParseSpec(flags, values, [prog, ['-'] + w]) == Outcome(values, ParseResult([], w, []))
  {
    var argv := [prog, ['-'] + w];
    assert argv[1] != "--" by {
      assert argv[1][1] == w[0];
    }
    var o := Outcome(values, ParseResult([], [], []));
    assert ParseSpec(flags, values, argv) == ParseFrom(flags, argv, 1, false, o);
    assert At(argv[1], 0) == '-';
    UndefinedShorts(flags, argv, 1, '-', w, o);
    assert ParseFrom(flags, argv, 1, false, o) == ParseFrom(flags, argv, 2, false, Outcome(values, ParseResult([], w, [])));
  }

  /** A short toggle "-c" on its own flips its variable, each time it occurs. */
  lemma ToggleEachOccurrence(flags: seq<Flag>, argv: seq<string>, i: nat, o: Outcome, c: char, k: nat)
    requires i < |argv| && |o.values| == |flags|
    requires argv[i] == ['-', c] && c != '-'
    requires Lookup(flags, [c], 0) == Found(k, false, false) && flags[k].kind == Toggle
    ensures ParseFrom(flags, argv, i, false, o) ==
      ParseFrom(flags, argv, i + 1, false, Outcome(o.values[k := Flip(o.values[k])], o.res))
  {
    var cur := argv[i];
    assert Drop(cur, 1) == [c];
    assert At(cur, 0) == '-' && At(cur, 2) == '\0';
    assert cur != "--";
  }

  /** A toggle holding 0 or 1 given twice ends as it started. */
  lemma ToggleTwice(flags: seq<Flag>, values: seq<Value>, prog: string, c: char, k: nat)
    requires |values| == |flags| && c != '-'
    requires Lookup(flags, [c], 0) == Found(k, false, false) && flags[k].kind == Toggle
    requires values[k] == ToggleVal(0) || values[k] == ToggleVal(1)
    ensures ParseSpec(flags, values, [prog, ['-', c], ['-', c]]).values == values
  {
    var argv := [prog, ['-', c], ['-', c]];
    var o := Outcome(values, ParseResult([], [], []));
    var o1 := Outcome(values[k := Flip(values[k])], o.res);
    var o2 := Outcome(o1.values[k := Flip(o1.values[k])], o.res);
    ToggleEachOccurrence(flags, argv, 1, o, c, k);
    ToggleEachOccurrence(flags, argv, 2, o1, c, k);
    assert o2.values == values;
  }

  /** The toggles ks flipped one after another, in order. */
  function FlipAll(values: seq<Value>, ks: seq<nat>): (r: seq<Value>)
    requires forall j :: 0 <= j < |ks| ==> ks[j] < |values|
    ensures |r| == |values|
    decreases |ks|
  {
    if ks == [] then values
    else FlipAll(values[ks[0] := Flip(values[ks[0]])], ks[1..])
  }

  /** "-a", "-b", ... as separate arguments, one per letter of w. */
  function Separate(w: string): (args: seq<string>)
    ensures |args| == |w| && forall j :: 0 <= j < |w| ==> args[j] == ['-', w[j]]
  {
    seq(|w|, j requires 0 <= j < |w| => ['-', w[j]])
  }

  /**
   * Toggle letters bundled after a dash (or after the letter before them):
   * the argument flips their toggles ks one by one and ends there.
   */
  lemma {:induction false} ToggleShorts(flags: seq<Flag>, argv: seq<string>, i: nat, c: char, w: string,
                                        ks: seq<nat>, o: Outcome)
    requires i < |argv| && |o.values| == |flags|
    requires w != [] && |ks| == |w| && forall j :: 0 <= j < |w| ==> IsAlpha(w[j])
    requires forall j :: 0 <= j < |w| ==>
      Lookup(flags, w[j..], 0) == Found(ks[j], false, false) && ks[j] < |flags| && flags[ks[j]].kind == Toggle
    ensures ArgStep(flags, argv, i, [c] + w, o) == (Outcome(FlipAll(o.values, ks), o.res), i + 1)
    decreases |w|
  {
    var cur := [c] + w;
    var k := ks[0];
    assert Drop(cur, 1) == w == w[0..];
    assert Lookup(flags, Drop(cur, 1), 0) == Found(k, false, false);
    var o' := Outcome(o.values[k := Flip(o.values[k])], o.res);
    if |w| > 1 {
      var w' := w[1..];
      assert w == [w[0]] + w';
      assert At(cur, 2) == w[1];
      assert ArgStep(flags, argv, i, cur, o) == ArgStep(flags, argv, i, w, o');
      forall j | 0 <= j < |w'|
        ensures IsAlpha(w'[j]) && Lookup(flags, w'[j..], 0) == Found(ks[1..][j], false, false)
        ensures flags[ks[1..][j]].kind == Toggle
      {
        assert w'[j..] == w[j + 1..];
      }
      ToggleShorts(flags, argv, i, w[0], w', ks[1..], o');
    } else {
      assert At(cur, 2) == '\0';
      assert ks[1..] == [];
    }
  }

  /** Separate short toggles "-a" "-b" ... flip their toggles ks one by one. */
  lemma {:induction false} SeparateToggles(flags: seq<Flag>, argv: seq<string>, i: nat, w: string,
                                           ks: seq<nat>, o: Outcome)
    requires i + |w| <= |argv| && |o.values| == |flags| && |ks| == |w|
    requires forall j :: 0 <= j < |w| ==> argv[i + j] == ['-', w[j]] && IsAlpha(w[j])
    requires forall j :: 0 <= j < |w| ==>
      Lookup(flags, [w[j]], 0) == Found(ks[j], false, false) && ks[j] < |flags| && flags[ks[j]].kind == Toggle
    ensures ParseFrom(flags, argv, i, false, o) ==
      ParseFrom(flags, argv, i + |w|, false, Outcome(FlipAll(o.values, ks), o.res))
    decreases |w|
  {
    if w != [] {
      var k := ks[0];
      var o' := Outcome(o.values[k := Flip(o.values[k])], o.res);
      assert argv[i + 0] == ['-', w[0]];
      ToggleEachOccurrence(flags, argv, i, o, w[0], k);
      forall j | 0 <= j < |w| - 1
        ensures argv[i + 1 + j] == ['-', w[1..][j]] && IsAlpha(w[1..][j])
        ensures Lookup(flags, [w[1..][j]], 0) == Found(ks[1..][j], false, false)
        ensures flags[ks[1..][j]].kind == Toggle
      {
        assert argv[i + (j + 1)] == ['-', w[j + 1]];
      }
      SeparateToggles(flags, argv, i + 1, w[1..], ks[1..], o');
    }
  }

  /**
   * Bundled short toggles "-abc" act as "-a" "-b" "-c": each letter flips
   * its toggle, in order, and nothing is filed as a leftover.
   */
  lemma BundledToggles(flags: seq<Flag>, values: seq<Value>, prog: string, w: string, ks: seq<nat>)
    requires |values| == |flags| && w != [] && |ks| == |w|
    requires forall j :: 0 <= j < |w| ==> IsAlpha(w[j])
    requires forall j :: 0 <= j < |w| ==>
      Lookup(flags, w[j..], 0) == Found(ks[j], false, false) && ks[j] < |flags| && flags[ks[j]].kind == Toggle
    requires forall j :: 0 <= j < |w| ==> Lookup(flags, [w[j]], 0) == Found(ks[j], false, false)
    ensures ParseSpec(flags, values, [prog, ['-'] + w]) ==
      Outcome(FlipAll(values, ks), ParseResult([], [], []))
    ensures ParseSpec(flags, values, [prog, ['-'] + w]) == ParseSpec(flags, values, [prog] + Separate(w))
  {
    var o := Outcome(values, ParseResult([], [], []));
    var o' := Outcome(FlipAll(values, ks), o.res);
    var bundled := [prog, ['-'] + w];
    assert bundled[1] != "--" by {
      assert bundled[1][1] == w[0];
    }
    assert At(bundled[1], 0) == '-';
    ToggleShorts(flags, bundled, 1, '-', w, ks, o);
    assert ParseSpec(flags, values, bundled) == ParseFrom(flags, bundled, 1, false, o);
    assert ParseFrom(flags, bundled, 1, false, o) == ParseFrom(flags, bundled, 2, false, o');
    var separate := [prog] + Separate(w);
    forall j | 0 <= j < |w|
      ensures separate[1 + j] == ['-', w[j]]
    {
      assert separate[1 + j] == Separate(w)[j];
    }
    SeparateToggles(flags, separate, 1, w, ks, o);
    assert ParseSpec(flags, values, separate) == ParseFrom(flags, separate, 1, false, o);
  }

  /** "-cVALUE": an int or string flag takes a value that starts with a letter or digit inline. */
  lemma ValueInline(flags: seq<Flag>, values: seq<Value>, prog: string, c: char, v: string, k: nat)
    requires |values| == |flags| && v != [] && IsAlnum(v[0])
    requires Lookup(flags, [c] + v, 0) == Found(k, false, false) && flags[k].kind != Toggle
    ensures ParseSpec(flags, values, [prog, ['-', c] + v]) ==
      Outcome(values[k := Assign(flags[k].kind, v)], ParseResult([], [], []))
  {
    var arg := ['-', c] + v;
    var argv := [prog, arg];
    assert Drop(arg, 1) == [c] + v && Drop(arg, 2) == v && At(v, 0) == v[0];
    assert At(arg, 0) == '-' && arg != "--";
    var o := Outcome(values, ParseResult([], [], []));
    var o' := Outcome(values[k := Assign(flags[k].kind, v)], o.res);
    assert ArgStep(flags, argv, 1, arg, o) == (o', 2);
    assert ParseSpec(flags, values, argv) == ParseFrom(flags, argv, 1, false, o);
    assert ParseFrom(flags, argv, 1, false, o) == ParseFrom(flags, argv, 2, false, o');
  }

  /** "-c VALUE": the next argument is the value, and is filed nowhere else. */
  lemma ValueNext(flags: seq<Flag>, values: seq<Value>, prog: string, c: char, x: string, k: nat)
    requires |values| == |flags| && c != '-'
    requires Lookup(flags, [c], 0) == Found(k, false, false) && flags[k].kind != Toggle
    ensures ParseSpec(flags, values, [prog, ['-', c], x]) ==
      Outcome(values[k := Assign(flags[k].kind, x)], ParseResult([], [], []))
  {
    var arg := ['-', c];
    var argv := [prog, arg, x];
    assert Drop(arg, 1) == [c] && Drop(arg, 2) == [] && At([], 0) == '\0';
    assert At(arg, 0) == '-' && arg != "--";
    var o := Outcome(values, ParseResult([], [], []));
    var o' := Outcome(values[k := Assign(flags[k].kind, x)], o.res);
    assert ArgStep(flags, argv, 1, arg, o) == (o', 3);
    assert ParseSpec(flags, values, argv) == ParseFrom(flags, argv, 1, false, o);
    assert ParseFrom(flags, argv, 1, false, o) == ParseFrom(flags, argv, 3, false, o');
  }

  /** "-c" as the last argument leaves the variable unchanged. */
  lemma ValueMissing(flags: seq<Flag>, values: seq<Value>, prog: string, c: char, k: nat)
    requires |values| == |flags| && c != '-'
    requires Lookup(flags, [c], 0) == Found(k, false, false) && flags[k].kind != Toggle
    ensures ParseSpec(flags, values, [prog, ['-', c]]) == Outcome(values, ParseResult([], [], []))
  {
    var arg := ['-', c];
    var argv := [prog, arg];
    assert Drop(arg, 1) == [c] && Drop(arg, 2) == [] && At([], 0) == '\0';
    assert At(arg, 0) == '-' && arg != "--";
    var o := Outcome(values, ParseResult([], [], []));
    assert ArgStep(flags, argv, 1, arg, o) == (o, 2);
    assert ParseSpec(flags, values, argv) == ParseFrom(flags, argv, 1, false, o);
    assert ParseFrom(flags, argv, 1, false, o) == ParseFrom(flags, argv, 2, false, o);
  }

  /** "--name VALUE": after an exact long hand, the next argument is the value. */
  lemma LongValueNext(flags: seq<Flag>, values: seq<Value>, prog: string, name: string, x: string, k: nat)
    requires |values| == |flags| && name != []
    requires Lookup(flags, ['-'] + name, 0) == Found(k, true, false)
    requires flags[k].long == Some(name) && flags[k].kind != Toggle
    ensures ParseSpec(flags, values, [prog, ['-', '-'] + name, x]) ==
      Outcome(values[k := Assign(flags[k].kind, x)], ParseResult([], [], []))
  {
    var arg := ['-', '-'] + name;
    var argv := [prog, arg, x];
    assert Drop(arg, 1) == ['-'] + name && Drop(arg, |name| + 2) == [] && At([], 0) == '\0';
    assert At(arg, 0) == '-' && arg != "--";
    var o := Outcome(values, ParseResult([], [], []));
    var o' := Outcome(values[k := Assign(flags[k].kind, x)], o.res);
    assert ArgStep(flags, argv, 1, arg, o) == (o', 3);
    assert ParseSpec(flags, values, argv) == ParseFrom(flags, argv, 1, false, o);
    assert ParseFrom(flags, argv, 1, false, o) == ParseFrom(flags, argv, 3, false, o');
  }

  /**
   * "-c=VALUE" or "--name=VALUE": whatever the kind of the flag, its value
   * is the text after the first '='.
   */
  lemma ValueAfterEqual(flags: seq<Flag>, values: seq<Value>, prog: string, n: string, v: string, k: nat, long: bool)
    requires |values| == |flags| && '=' !in n
    requires Lookup(flags, n + ['='] + v, 0) == Found(k, long, true)
    ensures ParseSpec(flags, values, [prog, ['-'] + n + ['='] + v]) ==
      Outcome(values[k := Assign(flags[k].kind, v)], ParseResult([], [], []))
  {
    var arg := ['-'] + n + ['='] + v;
    assert Drop(arg, 1) == n + ['='] + v;
    assert arg == (['-'] + n) + ['='] + v;
    AfterFirstSkips(['-'] + n, '=', v);
    assert At(arg, 0) == '-';
    assert arg != "--" by {
      assert arg[|arg| - |v| - 1] == '=';
    }
    var argv := [prog, arg];
    var o := Outcome(values, ParseResult([], [], []));
    var o' := Outcome(values[k := Assign(flags[k].kind, v)], o.res);
    assert ArgStep(flags, argv, 1, arg, o) == (o', 2);
    assert ParseSpec(flags, values, argv) == ParseFrom(flags, argv, 1, false, o);
    assert ParseFrom(flags, argv, 1, false, o) == ParseFrom(flags, argv, 2, false, o');
  }

  // ---------------------------------------------------------------------
  // The registry
  // ---------------------------------------------------------------------

  /** The global defined_flags array and its counter, with the bound variables. */
  class Registry {
    var flags: seq<Flag>
    var values: seq<Value>

    /** Every bound variable has the C type its flag's kind expects. */
    ghost predicate Valid()
      reads this
    {
      |flags| <= FlagsCap && KindsMatch(flags, values)
    }

    /** The registry at program start: no flag defined. */
    constructor()
      ensures Valid() && flags == [] && values == []
    {
      flags := [];
      values := [];
    }

    /**
     * create_new_flag: a descriptor at index |flags| holding the hands,
     * the info and the binding; its type and default stay as the zeroed
     * static slot has them (FLAG_INT, 0) for the caller to fill.
     */
    method CreateNewFlag(current: Value, short: char, long: Option<string>, info: Option<string>)
      returns (k: nat)
      requires |flags| < FlagsCap && |values| == |flags|
      modifies this
      ensures k == old(|flags|)
      ensures flags == old(flags) + [Flag(Int, short, long, info, IntVal(0))]
      ensures values == old(values) + [current]
    {
      k := |flags|;
      flags := flags + [Flag(Int, short, long, info, IntVal(0))];
      values := values + [current];
    }

    /** spl_flags_int: binds an int32_t variable holding value. */
    method IntFlag(value: int, short: char, long: Option<string>, info: Option<string>)
      requires Valid() && |flags| < FlagsCap
      requires -0x8000_0000 <= value < 0x8000_0000
      modifies this
      ensures Valid()
      ensures flags == old(flags) + [Flag(Int, short, long, info, IntVal(value))]
      ensures values == old(values) + [IntVal(value)]
    {
      var k := CreateNewFlag(IntVal(value), short, long, info);
      flags := flags[k := flags[k].(kind := Int, default := IntVal(value))];
    }

    /** spl_flags_toggle: binds a uint8_t variable holding value. */
    method ToggleFlag(value: nat, short: char, long: Option<string>, info: Option<string>)
      requires Valid() && |flags| < FlagsCap
      requires value < 256
      modifies this
      ensures Valid()
      ensures flags == old(flags) + [Flag(Toggle, short, long, info, ToggleVal(value))]
      ensures values == old(values) + [ToggleVal(value)]
    {
      var k := CreateNewFlag(ToggleVal(value), short, long, info);
      flags := flags[k := flags[k].(kind := Toggle, default := ToggleVal(value))];
    }

    /**
     * spl_flags_str: binds a char * variable holding value; the default is
     * a copy of the string, or "" for NULL.
     */
    method StrFlag(value: Option<string>, short: char, long: Option<string>, info: Option<string>)
      requires Valid() && |flags| < FlagsCap
      requires value.Some? ==> NoNul(value.value) && |value.value| < DefaultStrCap
      modifies this
      ensures Valid()
      ensures flags == old(flags) + [Flag(Str, short, long, info, StrVal(Some(if value.Some? then value.value else "")))]
      ensures values == old(values) + [StrVal(value)]
    {
      var k := CreateNewFlag(StrVal(value), short, long, info);
      var copy := if value != None then value.value else "";
      flags := flags[k := flags[k].(kind := Str, default := StrVal(Some(copy)))];
    }

    /** get_flag_info: a linear search of the descriptors in registration order. */
    method GetFlagInfo(a: string) returns (info: Info)
      ensures info == Lookup(flags, a, 0)
    {
      var i := 0;
      while i < |flags|
        invariant i <= |flags|
        invariant Lookup(flags, a, i) == Lookup(flags, a, 0)
      {
        var f := flags[i];
        if At(a, 0) == f.short {
          return Found(i, false, At(a, 1) == '=');
        }
        if f.long.Some? && f.long.value <= Drop(a, 1) {
          return Found(i, true, At(a, |f.long.value| + 1) == '=');
        }
        i := i + 1;
      }
      return NonDefined;
    }

    /**
     * spl_flags_parse: walks argv from index 1, storing flag values into
     * the bound variables and returning the leftover lists.
     */
    method Parse(argv: seq<string>) returns (res: ParseResult)
      requires Valid()
      requires Fits(ParseSpec(flags, values, argv).res)
      modifies this
      ensures Valid() && flags == old(flags)
      ensures Outcome(values, res) == ParseSpec(flags, old(values), argv)
    {
      ParseKeepsKinds(flags, values, argv);
      res := ParseResult([], [], []);
      if argv == [] {
        return;
      }
      ghost var target := ParseSpec(flags, values, argv);
      var terminated := false;
      var i := 1;
      while i < |argv|
        invariant 1 <= i <= |argv| && |values| == |flags| && flags == old(flags)
        invariant ParseFrom(flags, argv, i, terminated, Outcome(values, res)) == target
        decreases |argv| - i
      {
        var cur := argv[i];
        if terminated || At(cur, 0) != '-' {
          res := res.(nonFlags := res.nonFlags + [cur]);
          i := i + 1;
        } else if cur == "--" {
          terminated := true;
          i := i + 1;
        } else {
          i, res := ParseFlag(argv, i, res);
        }
      }
    }

    /**
     * The flag-argument part of spl_flags_parse's loop body for argv[i]: the
     * `goto` back to the lookup becomes a loop over cur, the position within
     * the argument.
     */
    method ParseFlag(argv: seq<string>, i: nat, res0: ParseResult) returns (next: nat, res: ParseResult)
      requires i < |argv| && |values| == |flags|
      modifies this
      ensures flags == old(flags)
      ensures (Outcome(values, res), next) == ArgStep(flags, argv, i, argv[i], Outcome(old(values), res0))
    {
      res := res0;
      var cur := argv[i];
      ghost var target := ArgStep(flags, argv, i, cur, Outcome(values, res));
      while true
        invariant |values| == |flags| && flags == old(flags)
        invariant ArgStep(flags, argv, i, cur, Outcome(values, res)) == target
        decreases |cur|
      {
        var info := GetFlagInfo(Drop(cur, 1));
        if info.NonDefined? {
          if At(cur, 1) == '-' {
            res := res.(nonDefinedLong := res.nonDefinedLong + [Drop(cur, 2)]);
            return i + 1, res;
          }
          cur := Drop(cur, 1);
          res := res.(nonDefinedShort := res.nonDefinedShort + [At(cur, 0)]);
          if !IsAlpha(At(cur, 1)) {
            return i + 1, res;
          }
        } else {
          var k := info.k;
          var f := flags[k];
          if info.equal {
            values := values[k := Assign(f.kind, AfterFirst(cur, '='))];
            return i + 1, res;
          }
          if f.kind == Toggle {
            values := values[k := Flip(values[k])];
            if info.long || !IsAlpha(At(cur, 2)) {
              return i + 1, res;
            }
            cur := Drop(cur, 1);
          } else {
            var rest := Drop(cur, if info.long then |f.long.value| + 2 else 2);
            if IsAlnum(At(rest, 0)) {
              values := values[k := Assign(f.kind, rest)];
            } else if i != |argv| - 1 {
              values := values[k := Assign(f.kind, argv[i + 1])];
              return i + 2, res;
            }
            return i + 1, res;
          }
        }
      }
    }
  }
}
