/** Splitting a command line into options, arguments and plain parameters. */
module CommandLine {
  import opened Wrappers
  import opened CStrings
  import opened CommandSyntax

  const INVALID_PARAMETER := Parameter(Invalid, 0, None)

  const DASH: int := 45
  const EQUALS: int := 61
  const COLON: int := 58
  const NEWLINE: int := 10

  /** The character at position `i` of a C string, which ends with a zero. */
  function At(s: Str, i: nat): int {
    if i < |s| then s[i] as int else 0
  }

  /** A character where it is widened to an integer: `char` is signed. */
  function CharValue(c: int): int {
    if c < 128 then c else c - 256
  }

  predicate StartsShortOption(s: Str) {
    At(s, 0) == DASH && At(s, 1) != DASH && At(s, 1) != 0
  }

  predicate StartsLongOption(s: Str) {
    At(s, 0) == DASH && At(s, 1) == DASH && At(s, 2) != NEWLINE
  }

  predicate StartsOption(s: Str) {
    StartsShortOption(s) || StartsLongOption(s)
  }

  lemma OptionForms(s: Str)
    ensures StartsShortOption(s) <==> IsShortOption(s)
    ensures StartsLongOption(s) <==> IsLongOption(s)
  {
  }

  /** The colons after an option letter say whether it takes an argument. */
  function Colons(spec: Str, i: nat): nat {
    if At(spec, i) != COLON then 0 else if At(spec, i + 1) != COLON then 1 else 2
  }

  function FlagOf(colons: nat): Flag {
    if colons == 0 then NoArgument else if colons == 1 then RequiredArgument else OptionalArgument
  }

  /** The specification of the short options as a list. */
  function ShortOptions(spec: Str, i: nat): seq<(int, Flag)>
    decreases |spec| - i
  {
    if i >= |spec| then []
    else
      var colons := Colons(spec, i + 1);
      [(At(spec, i), FlagOf(colons))] + ShortOptions(spec, i + 1 + colons)
  }

  /** The flag of the first option with this letter. */
  function FlagOfLetter(options: seq<(int, Flag)>, letter: int): Flag {
    if options == [] then Invalid
    else if options[0].0 == letter then options[0].1
    else FlagOfLetter(options[1..], letter)
  }

  /** The loop of parse_short_option. */
  method FindShort(spec: Str, letter: int) returns (flag: Flag)
    ensures flag == FlagOfLetter(ShortOptions(spec, 0), letter) && FlagSays(spec, 0, letter, flag)
  {
    FlagIsSaid(spec, 0, letter);
    flag := Invalid;
    var i := 0;
    while i < |spec|
      invariant FlagOfLetter(ShortOptions(spec, 0), letter) == FlagOfLetter(ShortOptions(spec, i), letter)
      decreases |spec| - i
    {
      ghost var options := ShortOptions(spec, i);
      assert options[1..] == ShortOptions(spec, i + 1 + Colons(spec, i + 1));
      if At(spec, i) == letter {
        if At(spec, i + 1) == COLON {
          flag := if At(spec, i + 2) == COLON then OptionalArgument else RequiredArgument;
        } else {
          flag := NoArgument;
        }
        return;
      }
      if At(spec, i + 1) == COLON {
        if At(spec, i + 2) == COLON { i := i + 1; }
        i := i + 1;
      }
      i := i + 1;
    }
  }

  predicate TakesArgument(flag: Flag) {
    flag == OptionalArgument || flag == RequiredArgument
  }

  /** There is a next argument, and it does not start an option. */
  predicate NextIsArgument(argv: seq<Str>, index: nat) {
    index + 1 < |argv| && !StartsOption(argv[index + 1])
  }

  /** What a short option gives, and how many arguments it takes. */
  function ShortStep(spec: Str, argv: seq<Str>, index: nat): (Parameter, nat)
    requires index < |argv| && |argv[index]| > 1
  {
    var arg := argv[index];
    var flag, value := FlagOfLetter(ShortOptions(spec, 0), At(arg, 1)), CharValue(At(arg, 1));
    if flag == Invalid then (INVALID_PARAMETER, 0)
    else if !TakesArgument(flag) then (Parameter(flag, value, None), 1)
    else if |arg| > 2 then (Parameter(flag, value, Some(arg[2..])), 1)
    else if NextIsArgument(argv, index) then (Parameter(flag, value, Some(argv[index + 1])), 2)
    else (Parameter(flag, value, None), 1)
  }

  lemma {:induction false} NeverPlain(spec: Str, i: nat, letter: int)
    ensures FlagOfLetter(ShortOptions(spec, i), letter) != PlainParameter
    decreases |spec| - i
  {
    if i < |spec| {
      var next := i + 1 + Colons(spec, i + 1);
      assert ShortOptions(spec, i)[1..] == ShortOptions(spec, next);
      NeverPlain(spec, next, letter);
    }
  }

  /** After a letter and its colons comes the next letter. */
  lemma NextLetter(spec: Str, i: nat)
    requires i < |spec| && LetterAt(spec, i)
    ensures var next := i + 1 + Colons(spec, i + 1);
            && next <= |spec| && (next < |spec| ==> LetterAt(spec, next))
            && forall k | i < k < next :: !LetterAt(spec, k)
  {
    if i + 1 < |spec| {
      assert ColonsBefore(spec, i + 1) == if Is(spec, i, ':') then 1 + ColonsBefore(spec, i) else 0;
      if i + 2 < |spec| {
        assert Is(spec, i + 1, ':') ==> ColonsBefore(spec, i + 2) == 1 + ColonsBefore(spec, i + 1);
        if i + 3 < |spec| {
          assert Is(spec, i + 2, ':') ==> ColonsBefore(spec, i + 3) == 1 + ColonsBefore(spec, i + 2);
        }
      }
    }
  }

  /** The parsed specification gives a letter the flag that the text of the specification says. */
  lemma {:induction false} FlagIsSaid(spec: Str, i: nat, letter: int)
    requires i <= |spec| && (i < |spec| ==> LetterAt(spec, i))
    ensures FlagSays(spec, i, letter, FlagOfLetter(ShortOptions(spec, i), letter))
    decreases |spec| - i
  {
    if i < |spec| {
      var next := i + 1 + Colons(spec, i + 1);
      NextLetter(spec, i);
      assert ShortOptions(spec, i)[1..] == ShortOptions(spec, next);
      if spec[i] as int == letter {
        assert FlagFits(spec, i, FlagOf(Colons(spec, i + 1)));
      } else {
        FlagIsSaid(spec, next, letter);
      }
    }
  }

  lemma ShortStepAnswers(spec: Str, argv: seq<Str>, i: nat)
    requires i < |argv| && StartsShortOption(argv[i])
    ensures var (p, d) := ShortStep(spec, argv, i); ShortAnswer(spec, argv, i, i + d, p)
  {
    FlagIsSaid(spec, 0, argv[i][1] as int);
    if i + 1 < |argv| { OptionForms(argv[i + 1]); }
    assert argv[i] == [argv[i][0], argv[i][1]] + argv[i][2..];
  }

  /** parse_short_option. */
  method ParseShortOption(currentIndex: nat, spec: Str, argv: seq<Str>) returns (index: nat, result: Parameter)
    requires currentIndex < |argv| && StartsShortOption(argv[currentIndex])
    ensures (result, index - currentIndex) == ShortStep(spec, argv, currentIndex)
    ensures ShortAnswer(spec, argv, currentIndex, index, result)
  {
    ShortStepAnswers(spec, argv, currentIndex);
    var currentArg := argv[currentIndex];
    var option := At(currentArg, 1);
    index, result := currentIndex, INVALID_PARAMETER;
    var flag := FindShort(spec, option);
    NeverPlain(spec, 0, option);
    if flag != Invalid { result := Parameter(flag, CharValue(option), None); }
    if flag == RequiredArgument || flag == OptionalArgument {
      if At(currentArg, 2) == 0 {
        if index + 1 < |argv| && !StartsOption(argv[index + 1]) {
          result := result.(argument := Some(argv[index + 1]));
          index := index + 1;
        }
      } else {
        result := result.(argument := Some(currentArg[2..]));
      }
    }
    if result.flag != Invalid { index := index + 1; }
  }

  /** The position of the first '=' of `s` from `p` on, or its end. */
  function NameEnd(s: Str, p: nat): (e: nat)
    requires p <= |s|
    ensures p <= e <= |s| && (forall k | p <= k < e :: s[k] as int != EQUALS) && (e < |s| ==> s[e] as int == EQUALS)
    decreases |s| - p
  {
    if p == |s| || s[p] as int == EQUALS then p else NameEnd(s, p + 1)
  }

  /** The positions of the table that have this name. */
  function Matches(table: seq<LongOption>, name: Str): (ms: seq<nat>)
    ensures forall k | 0 <= k < |ms| :: ms[k] < |table|
  {
    if table == [] then []
    else Matches(table[..|table| - 1], name) + if table[|table| - 1].name == name then [|table| - 1] else []
  }

  /** What one long option of the table gives, and how many further arguments it takes. */
  function LongArgument(o: LongOption, arg: Str, argv: seq<Str>, index: nat): (Parameter, nat)
  {
    var e := NameEnd(arg, 0);
    if !TakesArgument(o.flag) then (Parameter(o.flag, o.value, None), 0)
    else if e < |arg| then (Parameter(o.flag, o.value, Some(arg[e + 1..])), 0)
    else if NextIsArgument(argv, index) then (Parameter(o.flag, o.value, Some(argv[index + 1])), 1)
    else (Parameter(o.flag, o.value, None), 0)
  }

  /** What a long option gives, and by how much the index advances: a name that the table has twice
      is invalid, but the argument that its first entry took stays taken. */
  function LongStep(table: seq<LongOption>, argv: seq<Str>, index: nat): (Parameter, nat)
    requires index < |argv| && |argv[index]| >= 2
  {
    var arg := argv[index][2..];
    var ms := Matches(table, arg[..NameEnd(arg, 0)]);
    if ms == [] then (INVALID_PARAMETER, 0)
    else
      var (p, taken) := LongArgument(table[ms[0]], arg, argv, index);
      if |ms| > 1 then (INVALID_PARAMETER, taken)
      else (p, taken + if p.flag == Invalid then 0 else 1)
  }

  lemma {:induction false} MatchesPrefix(table: seq<LongOption>, name: Str, j: nat)
    requires j <= |table|
    ensures Matches(table[..j], name) <= Matches(table, name)
    decreases |table|
  {
    if j < |table| {
      assert table[..|table| - 1][..j] == table[..j];
      MatchesPrefix(table[..|table| - 1], name, j);
    } else {
      assert table[..j] == table;
    }
  }

  lemma {:induction false} MatchesAre(table: seq<LongOption>, name: Str)
    ensures forall k | 0 <= k < |Matches(table, name)| ::
              Matches(table, name)[k] < |table| && table[Matches(table, name)[k]].name == name
    ensures forall k, l | 0 <= k < l < |Matches(table, name)| :: Matches(table, name)[k] < Matches(table, name)[l]
  {
    if table != [] { MatchesAre(table[..|table| - 1], name); }
  }

  /** The loop of parse_long_option that finds the end of the name. */
  method FindNameEnd(s: Str) returns (p: nat)
    ensures p == NameEnd(s, 0)
  {
    p := 0;
    while At(s, p) != 0 && At(s, p) != EQUALS
      invariant p <= |s| && NameEnd(s, 0) == NameEnd(s, p)
      decreases |s| - p
    {
      p := p + 1;
    }
  }

  /** The first match of a long option. */
  method TakeLong(o: LongOption, arg: Str, p: nat, argv: seq<Str>, currentIndex: nat)
    returns (result: Parameter, index: nat)
    requires p == NameEnd(arg, 0)
    ensures currentIndex <= index && (result, index - currentIndex) == LongArgument(o, arg, argv, currentIndex)
  {
    index, result := currentIndex, Parameter(o.flag, o.value, None);
    if result.flag == OptionalArgument || result.flag == RequiredArgument {
      var argument := None;
      if At(arg, p) == EQUALS {
        argument := Some(arg[p + 1..]);
      } else if index + 1 < |argv| {
        argument := Some(argv[index + 1]);
        if !StartsShortOption(argv[index + 1]) && !StartsLongOption(argv[index + 1]) {
          index := index + 1;
        } else {
          argument := None;
        }
      }
      result := result.(argument := argument);
    }
  }

  lemma OneMoreEntry(table: seq<LongOption>, name: Str, i: nat)
    requires i < |table|
    ensures Matches(table[..i + 1], name) == Matches(table[..i], name) + if table[i].name == name then [i] else []
  {
    assert table[..i + 1][..i] == table[..i];
  }

  lemma SecondMatch(table: seq<LongOption>, name: Str, i: nat)
    requires i < |table| && table[i].name == name && Matches(table[..i], name) != []
    ensures |Matches(table, name)| > 1 && Matches(table, name)[0] == Matches(table[..i], name)[0]
  {
    OneMoreEntry(table, name, i);
    MatchesPrefix(table, name, i + 1);
  }

  /** The search of the loop of parse_long_option from entry `start` on. */
  method NextMatch(table: seq<LongOption>, name: Str, start: nat) returns (i: nat)
    requires start <= |table|
    ensures start <= i <= |table| && Matches(table[..i], name) == Matches(table[..start], name)
    ensures i < |table| ==> table[i].name == name
  {
    i := start;
    while i < |table| && !(|table[i].name| == |name| && table[i].name == name)
      invariant start <= i <= |table| && Matches(table[..i], name) == Matches(table[..start], name)
    {
      OneMoreEntry(table, name, i);
      i := i + 1;
    }
  }

  /** The first entry with that name, and whether there is a second one. */
  method FindEntry(table: seq<LongOption>, name: Str) returns (first: nat, again: bool)
    ensures first <= |table| && (first == |table| <==> Matches(table, name) == [])
    ensures first < |table| ==> Matches(table, name)[0] == first && (again <==> |Matches(table, name)| > 1)
    ensures first == |table| ==> forall k | 0 <= k < |table| :: table[k].name != name
    ensures first < |table| ==> FirstEntry(table, name, first) && (again <==> Again(table, name, first))
  {
    assert Matches(table[..0], name) == [];
    assert table[..|table|] == table;
    MatchesAreEntries(table, name);
    again := false;
    first := NextMatch(table, name, 0);
    if first < |table| {
      OneMoreEntry(table, name, first);
      MatchesPrefix(table, name, first + 1);
      var second := NextMatch(table, name, first + 1);
      if second < |table| {
        SecondMatch(table, name, second);
        again := true;
      }
      TwiceIsSecondMatch(table, name, first);
      IsFirstEntry(table, name);
    }
  }

  lemma IsFirstEntry(table: seq<LongOption>, name: Str)
    requires Matches(table, name) != []
    ensures FirstEntry(table, name, Matches(table, name)[0])
  {
    var ms := Matches(table, name);
    MatchesAre(table, name);
    forall k | 0 <= k < ms[0] ensures table[k].name != name {
      if table[k].name == name { MatchesFind(table, name, k); }
    }
  }

  /** The name that the code cuts out, and the value after it. */
  lemma IsSpelled(arg: Str) returns (value: Option<Str>)
    requires |arg| >= 2
    ensures var s := arg[2..];
            var e := NameEnd(s, 0);
            Spelled(arg, s[..e], value) && value == if e < |s| then Some(s[e + 1..]) else None
  {
    var s := arg[2..];
    var e := NameEnd(s, 0);
    value := if e < |s| then Some(s[e + 1..]) else None;
    if e < |s| { assert s == s[..e] + [s[e]] + s[e + 1..]; }
  }

  lemma MatchesAreEntries(table: seq<LongOption>, name: Str)
    ensures Matches(table, name) == [] <==> forall k | 0 <= k < |table| :: table[k].name != name
    ensures forall f: nat | FirstEntry(table, name, f) ::
              var ms := Matches(table, name); ms != [] && ms[0] == f && (Again(table, name, f) <==> |ms| > 1)
  {
    var ms := Matches(table, name);
    MatchesAre(table, name);
    forall k | 0 <= k < |table| && table[k].name == name ensures k in ms { MatchesFind(table, name, k); }
    forall f: nat | FirstEntry(table, name, f) ensures ms != [] && ms[0] == f && (Again(table, name, f) <==> |ms| > 1) {
      TwiceIsSecondMatch(table, name, f);
    }
  }

  lemma EntryAnswers(o: LongOption, again: bool, arg: Str, value: Option<Str>, argv: seq<Str>, i: nat)
    requires i < |argv| && value == (var e := NameEnd(arg, 0); if e < |arg| then Some(arg[e + 1..]) else None)
    ensures var (q, taken) := LongArgument(o, arg, argv, i);
            var (p, d) := if again then (INVALID_PARAMETER, taken) else (q, taken + if q.flag == Invalid then 0 else 1);
            EntryAnswer(o, again, value, argv, i, i + d, p)
  {
    if i + 1 < |argv| { OptionForms(argv[i + 1]); }
  }

  lemma LongStepAnswers(table: seq<LongOption>, argv: seq<Str>, i: nat) returns (name: Str, value: Option<Str>)
    requires i < |argv| && StartsLongOption(argv[i])
    ensures var (p, d) := LongStep(table, argv, i);
            Spelled(argv[i], name, value) && NamedAnswer(table, name, value, argv, i, i + d, p)
  {
    var (p, d) := LongStep(table, argv, i);
    var arg := argv[i][2..];
    name := arg[..NameEnd(arg, 0)];
    value := IsSpelled(argv[i]);
    MatchesAreEntries(table, name);
    forall f: nat | FirstEntry(table, name, f)
      ensures EntryAnswer(table[f], Again(table, name, f), value, argv, i, i + d, p) {
      EntryAnswers(table[f], Again(table, name, f), arg, value, argv, i);
    }
  }

  /** The first match gives the result, a second one makes it invalid. */
  method TakeEntry(currentIndex: nat, table: seq<LongOption>, argv: seq<Str>) returns (index: nat, result: Parameter)
    requires currentIndex < |argv| && StartsLongOption(argv[currentIndex])
    ensures currentIndex <= index && (result, index - currentIndex) == LongStep(table, argv, currentIndex)
  {
    var currentArg := argv[currentIndex][2..];
    var p := FindNameEnd(currentArg);
    index, result := currentIndex, INVALID_PARAMETER;
    var first, again := FindEntry(table, currentArg[..p]);
    if first < |table| {
      result, index := TakeLong(table[first], currentArg, p, argv, currentIndex);
      if again { result := INVALID_PARAMETER; }
    }
    if result.flag != Invalid { index := index + 1; }
  }

  /** parse_long_option. */
  method ParseLongOption(currentIndex: nat, table: seq<LongOption>, argv: seq<Str>)
    returns (index: nat, result: Parameter)
    requires currentIndex < |argv| && StartsLongOption(argv[currentIndex])
    ensures currentIndex <= index && (result, index - currentIndex) == LongStep(table, argv, currentIndex)
    ensures LongAnswer(table, argv, currentIndex, index, result)
  {
    index, result := TakeEntry(currentIndex, table, argv);
    ghost var name, value := LongStepAnswers(table, argv, currentIndex);
  }

  /** One call of command_line_get_next_parameter: the parameter and the advance. */
  function Step(spec: Str, table: seq<LongOption>, argv: seq<Str>, index: nat): (Parameter, nat)
    requires index < |argv|
  {
    if StartsShortOption(argv[index]) then ShortStep(spec, argv, index)
    else if StartsLongOption(argv[index]) then LongStep(table, argv, index)
    else (Parameter(PlainParameter, 0, Some(argv[index])), 1)
  }

  /** command_line_get_next_parameter. */
  method GetNextParameter(currentIndex: nat, spec: Str, table: seq<LongOption>, argv: seq<Str>)
    returns (found: bool, index: nat, result: Parameter)
    ensures found <==> currentIndex < |argv|
    ensures !found ==> index == currentIndex
    ensures found ==> currentIndex <= index && (result, index - currentIndex) == Step(spec, table, argv, currentIndex)
    ensures found ==> Answer(spec, table, argv, currentIndex, index, result)
  {
    if currentIndex >= |argv| { return false, currentIndex, INVALID_PARAMETER; }
    OptionForms(argv[currentIndex]);
    if StartsShortOption(argv[currentIndex]) {
      index, result := ParseShortOption(currentIndex, spec, argv);
    } else if StartsLongOption(argv[currentIndex]) {
      index, result := ParseLongOption(currentIndex, table, argv);
    } else {
      index, result := currentIndex + 1, Parameter(PlainParameter, 0, Some(argv[currentIndex]));
    }
    found := true;
  }

  lemma TwiceIsSecondMatch(table: seq<LongOption>, name: Str, i: nat)
    ensures FirstEntry(table, name, i) && Again(table, name, i)
       <==> |Matches(table, name)| > 1 && Matches(table, name)[0] == i
  {
    var ms := Matches(table, name);
    MatchesAre(table, name);
    if |ms| > 1 && ms[0] == i {
      forall k | 0 <= k < i ensures table[k].name != name {
        if table[k].name == name { MatchesFind(table, name, k); }
      }
      assert table[ms[1]].name == name;
    }
    if FirstEntry(table, name, i) && Again(table, name, i) {
      var j :| i < j < |table| && table[j].name == name;
      MatchesFind(table, name, i);
      MatchesFind(table, name, j);
    }
  }

  lemma {:induction false} MatchesFind(table: seq<LongOption>, name: Str, i: nat)
    requires i < |table| && table[i].name == name
    ensures i in Matches(table, name)
    decreases |table|
  {
    if i < |table| - 1 { MatchesFind(table[..|table| - 1], name, i); }
  }
}
