/** What the arguments of a command line say, told on their texts. */
module CommandSyntax {
  import opened Wrappers
  import opened CStrings

  datatype Flag = Invalid | NoArgument | OptionalArgument | RequiredArgument | PlainParameter

  datatype Parameter = Parameter(flag: Flag, value: int, argument: Option<Str>)

  datatype LongOption = LongOption(name: Str, flag: Flag, value: int)

  ghost predicate Is(s: Str, i: nat, c: char) {
    i < |s| && s[i] as int == c as int
  }

  /** A dash and a letter, which is no dash. */
  ghost predicate IsShortOption(s: Str) {
    Is(s, 0, '-') && |s| > 1 && !Is(s, 1, '-')
  }

  /** Two dashes, and not a newline after them. */
  ghost predicate IsLongOption(s: Str) {
    Is(s, 0, '-') && Is(s, 1, '-') && !Is(s, 2, '\n')
  }

  /** There is a next argument, and it is no option. */
  ghost predicate CanTakeNext(argv: seq<Str>, i: nat) {
    i + 1 < |argv| && !IsShortOption(argv[i + 1]) && !IsLongOption(argv[i + 1])
  }

  ghost predicate WantsArgument(flag: Flag) {
    flag == OptionalArgument || flag == RequiredArgument
  }

  // ----- short options

  ghost function ColonsBefore(spec: Str, i: nat): nat
    requires i <= |spec|
  {
    if i == 0 || !Is(spec, i - 1, ':') then 0 else 1 + ColonsBefore(spec, i - 1)
  }

  /** The characters of a specification that are option letters: all but the colons, of which a letter
      takes up to two, so that in a run of colons every third one is a letter again. */
  ghost predicate LetterAt(spec: Str, i: nat)
    requires i <= |spec|
  {
    i < |spec| && (Is(spec, i, ':') ==> ColonsBefore(spec, i) % 3 == if ColonsBefore(spec, i) == i then 0 else 2)
  }

  /** No colon after the letter, one, or two. */
  ghost predicate FlagFits(spec: Str, i: nat, flag: Flag) {
    if !Is(spec, i + 1, ':') then flag == NoArgument
    else if !Is(spec, i + 2, ':') then flag == RequiredArgument
    else flag == OptionalArgument
  }

  /** Among the letters from position `from` on, the first one that is `letter` decides. */
  ghost predicate FlagSays(spec: Str, from: nat, letter: int, flag: Flag) {
    if flag == Invalid then forall k | from <= k < |spec| && LetterAt(spec, k) :: spec[k] as int != letter
    else
      exists i :: from <= i < |spec| && LetterAt(spec, i) && spec[i] as int == letter && FlagFits(spec, i, flag)
                  && forall k | from <= k < i && LetterAt(spec, k) :: spec[k] as int != letter
  }

  /** The result `p`, and the next position `j`, of the short option at position `i`. */
  ghost predicate ShortAnswer(spec: Str, argv: seq<Str>, i: nat, j: int, p: Parameter)
    requires i < |argv| && |argv[i]| > 1
  {
    var arg, letter := argv[i], argv[i][1] as int;
    && FlagSays(spec, 0, letter, p.flag)
    && if p.flag == Invalid then p.value == 0 && p.argument == None && j == i
       else
         && (if letter < 128 then p.value == letter else p.value == letter - 256)
         && match p.argument
            case Some(s) =>
              WantsArgument(p.flag)
              && ((j == i + 1 && s != [] && arg == [arg[0], arg[1]] + s)
                  || (j == i + 2 && CanTakeNext(argv, i) && arg == [arg[0], arg[1]] && s == argv[i + 1]))
            case None => j == i + 1 && (WantsArgument(p.flag) ==> |arg| == 2 && !CanTakeNext(argv, i))
  }

  // ----- long options

  /** A long option is spelled `--name` or `--name=value`. */
  ghost predicate Spelled(arg: Str, name: Str, value: Option<Str>) {
    && |arg| >= 2
    && (forall k | 0 <= k < |name| :: !Is(name, k, '='))
    && match value
       case None => arg[2..] == name
       case Some(v) => exists e: Byte :: e as int == '=' as int && arg[2..] == name + [e] + v
  }

  /** The first entry with this name is at position `f`. */
  ghost predicate FirstEntry(table: seq<LongOption>, name: Str, f: nat) {
    f < |table| && table[f].name == name && forall k | 0 <= k < f :: table[k].name != name
  }

  ghost predicate Again(table: seq<LongOption>, name: Str, f: nat) {
    exists k :: f < k < |table| && table[k].name == name
  }

  /** The result `p`, and the next position `j`, of the long option at position `i` when its first entry is `o`. */
  ghost predicate EntryAnswer(o: LongOption, again: bool, value: Option<Str>, argv: seq<Str>, i: nat, j: int,
                              p: Parameter) {
    var takesNext := WantsArgument(o.flag) && value == None && CanTakeNext(argv, i);
    if again then p.flag == Invalid && p.value == 0 && p.argument == None && j == i + if takesNext then 1 else 0
    else
      && p.flag == o.flag && p.value == o.value
      && (!WantsArgument(o.flag) ==> p.argument == None)
      && (WantsArgument(o.flag) && value != None ==> p.argument == value)
      && (WantsArgument(o.flag) && value == None ==>
            p.argument == if CanTakeNext(argv, i) then Some(argv[i + 1]) else None)
      && j == i + (if takesNext then 1 else 0) + (if o.flag == Invalid then 0 else 1)
  }

  ghost predicate NamedAnswer(table: seq<LongOption>, name: Str, value: Option<Str>, argv: seq<Str>, i: nat, j: int,
                              p: Parameter) {
    && ((forall k | 0 <= k < |table| :: table[k].name != name) ==>
          p.flag == Invalid && p.value == 0 && p.argument == None && j == i)
    && forall f: nat | FirstEntry(table, name, f) ::
         EntryAnswer(table[f], Again(table, name, f), value, argv, i, j, p)
  }

  ghost predicate LongAnswer(table: seq<LongOption>, argv: seq<Str>, i: nat, j: int, p: Parameter)
    requires i < |argv|
  {
    exists name: Str, value: Option<Str> ::
      Spelled(argv[i], name, value) && NamedAnswer(table, name, value, argv, i, j, p)
  }

  /** What one call gives for the argument at position `i`. */
  ghost predicate Answer(spec: Str, table: seq<LongOption>, argv: seq<Str>, i: nat, j: int, p: Parameter)
    requires i < |argv|
  {
    if IsShortOption(argv[i]) then ShortAnswer(spec, argv, i, j, p)
    else if IsLongOption(argv[i]) then LongAnswer(table, argv, i, j, p)
    else p.flag == PlainParameter && p.value == 0 && p.argument == Some(argv[i]) && j == i + 1
  }

  /** A text is spelled in one way only. */
  lemma SpelledOnce(arg: Str, name: Str, value: Option<Str>, name': Str, value': Option<Str>)
    requires Spelled(arg, name, value) && Spelled(arg, name', value')
    ensures name == name' && value == value'
  {
    var s := arg[2..];
    if |name| < |name'| {
      assert Is(name', |name|, '=') by { assert s[|name|] as int == '=' as int; assert s[|name|] == name'[|name|]; }
    } else if |name'| < |name| {
      assert Is(name, |name'|, '=') by { assert s[|name'|] as int == '=' as int; assert s[|name'|] == name[|name'|]; }
    } else {
      assert name == s[..|name|] == name';
      assert value != None ==> value.value == s[|name| + 1..];
      assert value' != None ==> value'.value == s[|name| + 1..];
    }
  }

  // ----- what the answers promise

  lemma {:induction false} SomeFirstEntry(table: seq<LongOption>, name: Str, k: nat)
    requires k < |table| && table[k].name == name
    ensures exists f: nat :: f <= k && FirstEntry(table, name, f)
  {
    if !FirstEntry(table, name, k) {
      var l :| 0 <= l < k && table[l].name == name;
      SomeFirstEntry(table, name, l);
    }
  }

  lemma Spelling(arg: Str, name: Str, value: Option<Str>)
    requires Spelled(arg, name, value)
    ensures value == None <==> forall k | 2 <= k < |arg| :: !Is(arg, k, '=')
    ensures value == None ==> name == arg[2..]
  {
    var s := arg[2..];
    if value != None {
      assert s[|name|] == arg[|name| + 2] && Is(arg, |name| + 2, '=');
    } else {
      forall k | 2 <= k < |arg| ensures !Is(arg, k, '=') { assert name[k - 2] == arg[k] && !Is(name, k - 2, '='); }
    }
  }

  lemma OneFirstEntry(table: seq<LongOption>, name: Str, f: nat, g: nat)
    requires FirstEntry(table, name, f) && FirstEntry(table, name, g)
    ensures f == g
  {
  }

  /** A long option without '=', followed by something that is no option, whose name is twice in the
      table, first at an entry that takes an argument. */
  ghost predicate TakesThenFails(table: seq<LongOption>, argv: seq<Str>, i: nat)
    requires i < |argv|
  {
    && IsLongOption(argv[i]) && CanTakeNext(argv, i)
    && (forall k | 2 <= k < |argv[i]| :: !Is(argv[i], k, '='))
    && exists f: nat ::
         FirstEntry(table, argv[i][2..], f) && Again(table, argv[i][2..], f) && WantsArgument(table[f].flag)
  }

  /** A long option is invalid after it took an argument exactly on these inputs; otherwise an invalid one
      leaves the position, and a valid one advances by one, or by two over its argument. */
  lemma LongLoses(table: seq<LongOption>, argv: seq<Str>, i: nat, j: int, p: Parameter)
    requires i < |argv| && IsLongOption(argv[i]) && LongAnswer(table, argv, i, j, p)
    ensures p.flag == Invalid && j != i <==> TakesThenFails(table, argv, i)
    ensures i <= j <= |argv| && (p.flag != Invalid ==> i + 1 <= j <= i + 2)
  {
    var name, value :| Spelled(argv[i], name, value) && NamedAnswer(table, name, value, argv, i, j, p);
    Spelling(argv[i], name, value);
    if k :| 0 <= k < |table| && table[k].name == name {
      SomeFirstEntry(table, name, k);
      var f: nat :| FirstEntry(table, name, f);
      assert EntryAnswer(table[f], Again(table, name, f), value, argv, i, j, p);
      forall g: nat | FirstEntry(table, name, g) ensures g == f { OneFirstEntry(table, name, f, g); }
    }
  }

  /** A call advances by one or two, within the command line, or is invalid; an invalid call leaves
      the position where it was, unless a name that the table has twice took an argument. */
  lemma AnswerAdvances(spec: Str, table: seq<LongOption>, argv: seq<Str>, i: nat, j: int, p: Parameter)
    requires i < |argv| && Answer(spec, table, argv, i, j, p)
    ensures i <= j <= |argv| && (p.flag != Invalid ==> i + 1 <= j <= i + 2)
    ensures p.flag == Invalid && j != i <==> TakesThenFails(table, argv, i)
  {
    if IsLongOption(argv[i]) { LongLoses(table, argv, i, j, p); }
  }

  ghost predicate UniqueNames(table: seq<LongOption>) {
    forall i, j | 0 <= i < j < |table| :: table[i].name != table[j].name
  }

  lemma UniqueNeverFails(spec: Str, table: seq<LongOption>, argv: seq<Str>, i: nat, j: int, p: Parameter)
    requires i < |argv| && UniqueNames(table) && Answer(spec, table, argv, i, j, p)
    ensures p.flag == Invalid ==> j == i
  {
    AnswerAdvances(spec, table, argv, i, j, p);
  }

  /** With unique names a long option gives what the one entry with its name gives, or is invalid. */
  lemma LongFindsItsEntry(table: seq<LongOption>, argv: seq<Str>, i: nat, j: int, p: Parameter,
                          name: Str, value: Option<Str>, f: nat)
    requires i < |argv| && UniqueNames(table) && LongAnswer(table, argv, i, j, p) && Spelled(argv[i], name, value)
    ensures f < |table| && table[f].name == name ==> EntryAnswer(table[f], false, value, argv, i, j, p)
    ensures (forall k | 0 <= k < |table| :: table[k].name != name) ==> p == Parameter(Invalid, 0, None) && j == i
  {
    var name', value' :| Spelled(argv[i], name', value') && NamedAnswer(table, name', value', argv, i, j, p);
    SpelledOnce(argv[i], name, value, name', value');
    assert f < |table| && table[f].name == name ==> FirstEntry(table, name, f) && !Again(table, name, f);
  }

  /** There is one answer only. */
  lemma OneAnswer(spec: Str, table: seq<LongOption>, argv: seq<Str>, i: nat,
                  j: int, p: Parameter, j': int, p': Parameter)
    requires i < |argv| && Answer(spec, table, argv, i, j, p) && Answer(spec, table, argv, i, j', p')
    ensures j == j' && p == p'
  {
    if IsShortOption(argv[i]) {
      OneShortAnswer(spec, argv, i, j, p, j', p');
    } else if IsLongOption(argv[i]) {
      OneLongAnswer(table, argv, i, j, p, j', p');
    }
  }

  lemma OneFlag(spec: Str, letter: int, flag: Flag, flag': Flag)
    requires FlagSays(spec, 0, letter, flag) && FlagSays(spec, 0, letter, flag')
    ensures flag == flag'
  {
  }

  lemma OneShortAnswer(spec: Str, argv: seq<Str>, i: nat, j: int, p: Parameter, j': int, p': Parameter)
    requires i < |argv| && |argv[i]| > 1 && ShortAnswer(spec, argv, i, j, p) && ShortAnswer(spec, argv, i, j', p')
    ensures j == j' && p == p'
  {
    OneFlag(spec, argv[i][1] as int, p.flag, p'.flag);
    var head := [argv[i][0], argv[i][1]];
    if p.argument != None && j == i + 1 { assert p.argument.value == (head + p.argument.value)[2..]; }
    if p'.argument != None && j' == i + 1 { assert p'.argument.value == (head + p'.argument.value)[2..]; }
  }

  lemma OneLongAnswer(table: seq<LongOption>, argv: seq<Str>, i: nat, j: int, p: Parameter, j': int, p': Parameter)
    requires i < |argv| && LongAnswer(table, argv, i, j, p) && LongAnswer(table, argv, i, j', p')
    ensures j == j' && p == p'
  {
    var name, value :| Spelled(argv[i], name, value) && NamedAnswer(table, name, value, argv, i, j, p);
    var name', value' :| Spelled(argv[i], name', value') && NamedAnswer(table, name', value', argv, i, j', p');
    SpelledOnce(argv[i], name, value, name', value');
    if k :| 0 <= k < |table| && table[k].name == name {
      SomeFirstEntry(table, name, k);
      var f: nat :| FirstEntry(table, name, f);
      assert EntryAnswer(table[f], Again(table, name, f), value, argv, i, j, p);
      assert EntryAnswer(table[f], Again(table, name, f), value, argv, i, j', p');
    }
  }

  /** "--a x" with two options named "a" that require an argument: invalid, and x is lost. */
  lemma ATableCanLoseAnArgument(j: int, p: Parameter)
    requires var a: Str := [97];
             var o := LongOption(a, RequiredArgument, 0);
             Answer([], [o, o], [[45, 45, 97], [120]], 0, j, p)
    ensures p.flag == Invalid && j == 1
  {
    var a: Str := [97];
    var o := LongOption(a, RequiredArgument, 0);
    var table, argv: seq<Str> := [o, o], [[45, 45, 97], [120]];
    assert argv[0][2..] == a;
    assert FirstEntry(table, argv[0][2..], 0) && table[1].name == a && Again(table, argv[0][2..], 0);
    AnswerAdvances([], table, argv, 0, j, p);
    assert TakesThenFails(table, argv, 0);
    var name, value :| Spelled(argv[0], name, value) && NamedAnswer(table, name, value, argv, 0, j, p);
    assert Spelled(argv[0], a, None);
    SpelledOnce(argv[0], name, value, a, None);
    assert EntryAnswer(table[0], true, None, argv, 0, j, p);
  }

  /** "--" alone is a long option with an empty name; two dashes and a newline are no option. */
  lemma DashesAreALongOption(spec: Str, value: int, j: int, p: Parameter)
    requires Answer(spec, [LongOption([], NoArgument, value)], [[45, 45]], 0, j, p)
    ensures p == Parameter(NoArgument, value, None) && j == 1
    ensures !IsShortOption([45, 45, 10]) && !IsLongOption([45, 45, 10])
  {
    var argv: seq<Str>, table := [[45, 45]], [LongOption([], NoArgument, value)];
    assert Spelled(argv[0], [], None);
    LongFindsItsEntry(table, argv, 0, j, p, [], None, 0);
  }
}
