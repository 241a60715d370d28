/** Choosing one interpretation of an ambiguous node, and the diagnostics of that one. */
module Ambiguity {
  import opened Wrappers
  import opened Sequences
  import opened Diagnostics

  /** What the loop over the interpretations knows: none is valid yet, one is chosen, or two
      valid ones could not be told apart, which ends the compiler. */
  datatype Selection = NoneValid | Chosen(index: nat) | Clash

  /** The callbacks of a kind of ambiguity, as pure functions of an interpretation: is it valid,
      which messages does checking it give, and is the first one better (negative) or worse
      (positive) than the second one. */
  datatype Callbacks<!T> = Callbacks(check: T -> bool, says: T -> seq<Diagnostic>,
                                     choose: Option<(T, T) -> int>, fallback: Option<T -> bool>)

  function Compare<T>(cb: Callbacks<T>, current: T, previous: T): int {
    if cb.choose.Some? then cb.choose.value(current, previous) else 0
  }

  /** The loop over the first `n` interpretations. */
  function Select<T>(cb: Callbacks<T>, xs: seq<T>, n: nat): (r: Selection)
    requires n <= |xs|
    ensures r.Chosen? ==> r.index < n && cb.check(xs[r.index])
  {
    if n == 0 then NoneValid
    else
      var before := Select(cb, xs, n - 1);
      if before == Clash || !cb.check(xs[n - 1]) then before
      else if before == NoneValid then Chosen(n - 1)
      else
        var r := Compare(cb, xs[n - 1], xs[before.index]);
        if r < 0 then Chosen(n - 1) else if r > 0 then before else Clash
  }

  lemma {:induction false} NoneIsValid<T>(cb: Callbacks<T>, xs: seq<T>, n: nat)
    requires n <= |xs|
    ensures Select(cb, xs, n) == NoneValid <==> forall k | 0 <= k < n :: !cb.check(xs[k])
  {
    if n > 0 { NoneIsValid(cb, xs, n - 1); }
  }

  /** Interpretation `j` is valid, and the callback does not tell it apart from the one chosen before it. */
  ghost predicate TieAt<T>(cb: Callbacks<T>, xs: seq<T>, j: nat)
    requires j < |xs|
  {
    cb.check(xs[j]) && Select(cb, xs, j).Chosen? && Tie(cb, xs[j], xs[Select(cb, xs, j).index])
  }

  /** The first tie ends the loop, whatever comes later. */
  lemma {:induction false} TiesClash<T>(cb: Callbacks<T>, xs: seq<T>, n: nat)
    requires n <= |xs|
    ensures Select(cb, xs, n) == Clash <==> exists j :: 0 <= j < n && TieAt(cb, xs, j)
  {
    if n > 0 {
      TiesClash(cb, xs, n - 1);
      if Select(cb, xs, n) == Clash && Select(cb, xs, n - 1) != Clash { assert TieAt(cb, xs, n - 1); }
    }
  }

  /** The chosen interpretation is valid; the callback, asked about a later valid one and the chosen one, finds
      the later one worse; and it found the chosen one better than the one chosen before it, if there was one. */
  lemma {:induction false} ChosenHolds<T>(cb: Callbacks<T>, xs: seq<T>, n: nat, i: nat)
    requires n <= |xs| && Select(cb, xs, n) == Chosen(i)
    ensures i < n && cb.check(xs[i])
    ensures forall j | i < j < n && cb.check(xs[j]) :: Loses(cb, xs[j], xs[i])
    ensures (exists j :: 0 <= j < i && cb.check(xs[j])) ==>
              Select(cb, xs, i).Chosen? && Prefers(cb, xs[i], xs[Select(cb, xs, i).index])
  {
    if Select(cb, xs, n - 1) == Chosen(i) {
      ChosenHolds(cb, xs, n - 1, i);
    } else {
      NoneIsValid(cb, xs, n - 1);
    }
  }

  /** Two valid interpretations that the callback does not tell apart, or that no callback compares. */
  ghost predicate Tie<T>(cb: Callbacks<T>, x: T, y: T) {
    cb.choose == None || cb.choose.value(x, y) == 0
  }

  ghost predicate Prefers<T>(cb: Callbacks<T>, x: T, y: T) {
    cb.choose.Some? && cb.choose.value(x, y) < 0
  }

  ghost predicate Loses<T>(cb: Callbacks<T>, x: T, y: T) {
    cb.choose.Some? && cb.choose.value(x, y) > 0
  }

  /** Among the valid elements of `xs`, the choice is a strict total order. */
  ghost predicate StrictTotal<T>(cb: Callbacks<T>, xs: seq<T>) {
    && (forall x, y {:trigger Prefers(cb, x, y)} | x in xs && y in xs && cb.check(x) && cb.check(y) ::
          (Prefers(cb, x, y) <==> Loses(cb, y, x)) && (x != y ==> Prefers(cb, x, y) || Prefers(cb, y, x)))
    && (forall x, y, z {:trigger Prefers(cb, x, y), Prefers(cb, y, z)}
          | x in xs && y in xs && z in xs && cb.check(x) && cb.check(y) && cb.check(z) ::
          Prefers(cb, x, y) && Prefers(cb, y, z) ==> Prefers(cb, x, z))
  }

  /** `b` is valid and preferred to every other valid element. */
  ghost predicate Best<T>(cb: Callbacks<T>, xs: seq<T>, b: T) {
    && b in xs && cb.check(b)
    && forall y {:trigger Prefers(cb, b, y)} | y in xs && cb.check(y) && y != b :: Prefers(cb, b, y)
  }

  /** With a strict total preference the loop finds the best valid interpretation. */
  lemma {:induction false} SelectsBest<T>(cb: Callbacks<T>, xs: seq<T>, n: nat)
    requires n <= |xs| && NoDup(xs) && StrictTotal(cb, xs)
    ensures match Select(cb, xs, n)
      case NoneValid => forall x | x in xs[..n] :: !cb.check(x)
      case Chosen(i) => Best(cb, xs[..n], xs[i])
      case Clash => false
  {
    if n > 0 {
      SelectsBest(cb, xs, n - 1);
      var x := xs[n - 1];
      assert xs[..n] == xs[..n - 1] + [x];
      assert forall i | 0 <= i < n - 1 :: xs[i] != x by {
        forall i | 0 <= i < n - 1 ensures xs[i] != x { NotBefore(xs, i, n - 1); }
      }
      if cb.check(x) && Select(cb, xs, n - 1).Chosen? {
        var b := xs[Select(cb, xs, n - 1).index];
        assert Prefers(cb, x, b) || Prefers(cb, b, x);
        forall y | y in xs[..n - 1] && cb.check(y) && y != b && Prefers(cb, x, b) ensures Prefers(cb, x, y) {
          assert Prefers(cb, b, y);
        }
      }
    }
  }

  lemma BestIsUnique<T>(cb: Callbacks<T>, xs: seq<T>, a: T, b: T)
    requires StrictTotal(cb, xs) && Best(cb, xs, a) && Best(cb, xs, b)
    ensures a == b
  {
    assert a != b ==> Prefers(cb, a, b);
    assert a != b ==> Prefers(cb, b, a);
  }

  lemma SelectsBestOfAll<T>(cb: Callbacks<T>, xs: seq<T>)
    requires NoDup(xs) && StrictTotal(cb, xs)
    ensures match Select(cb, xs, |xs|)
      case NoneValid => forall x | x in xs :: !cb.check(x)
      case Chosen(i) => Best(cb, xs, xs[i])
      case Clash => false
  {
    SelectsBest(cb, xs, |xs|);
    assert xs[..|xs|] == xs;
  }

  /** The chosen interpretation does not depend on the order of the interpretations. */
  lemma OrderIsIrrelevant<T>(cb: Callbacks<T>, xs: seq<T>, ys: seq<T>)
    requires multiset(xs) == multiset(ys) && NoDup(xs) && NoDup(ys) && StrictTotal(cb, xs)
    ensures var s, t := Select(cb, xs, |xs|), Select(cb, ys, |ys|);
            (s == NoneValid && t == NoneValid) || (s.Chosen? && t.Chosen? && xs[s.index] == ys[t.index])
  {
    SameMembers(xs, ys);
    assert StrictTotal(cb, ys);
    SelectsBestOfAll(cb, xs);
    SelectsBestOfAll(cb, ys);
    var s, t := Select(cb, xs, |xs|), Select(cb, ys, |ys|);
    if s.Chosen? && t.Chosen? {
      assert Best(cb, xs, ys[t.index]);
      BestIsUnique(cb, xs, xs[s.index], ys[t.index]);
    }
  }

  /** Without a choice function the loop ends well exactly when at most one interpretation
      is valid. */
  lemma {:induction false} ClashWithoutChoice<T>(cb: Callbacks<T>, xs: seq<T>, n: nat)
    requires n <= |xs| && cb.choose == None
    ensures Select(cb, xs, n) == Clash <==> exists i, j :: 0 <= i < j < n && cb.check(xs[i]) && cb.check(xs[j])
    ensures Select(cb, xs, n) == NoneValid <==> forall i | 0 <= i < n :: !cb.check(xs[i])
  {
    if n > 0 {
      ClashWithoutChoice(cb, xs, n - 1);
    }
  }

  /** All that checking the interpretations says, in order. */
  function AllSay<T>(cb: Callbacks<T>, xs: seq<T>): seq<Diagnostic> {
    if xs == [] then [] else AllSay(cb, xs[..|xs| - 1]) + cb.says(xs[|xs| - 1])
  }

  /** All messages in the order of the interpretations. */
  lemma {:induction false} AllSayParts<T>(cb: Callbacks<T>, xs: seq<T>, ys: seq<T>)
    ensures AllSay(cb, xs + ys) == AllSay(cb, xs) + AllSay(cb, ys)
    ensures |xs| == 1 ==> AllSay(cb, xs) == cb.says(xs[0])
  {
    if ys == [] {
      assert xs + ys == xs;
    } else {
      AllSayParts(cb, xs, ys[..|ys| - 1]);
      assert (xs + ys)[..|xs + ys| - 1] == xs + ys[..|ys| - 1];
    }
    assert |xs| == 1 ==> xs[..0] == [];
  }

  /** A buffered context that holds what checking `x` says, not yet committed or discarded. */
  ghost predicate Holds<T>(cb: Callbacks<T>, x: T, ctx: Context)
    reads ctx
  {
    ctx.live && ctx.Valid() && ctx.kind == Buffered && ctx.diagnostics == Deduplicated(cb.says(x))
  }

  /** The check of an interpretation gives its messages to the current context. */
  method Check<T>(ds: Stack, ghost dest: Context, cb: Callbacks<T>, x: T) returns (c: bool)
    requires ds.Valid() && ds.Current() == dest && dest.Valid() && dest.live
    modifies dest
    ensures ds.Valid() && dest.Valid() && dest.live && c == cb.check(x)
    ensures dest.Log() == ReceivedAll(dest.kind, old(dest.Log()), cb.says(x))
  {
    var said := cb.says(x);
    ghost var log := dest.Log();
    var k := 0;
    while k < |said|
      invariant k <= |said| && dest.live && dest.Valid() && ds.Valid()
      invariant dest.Log() == ReceivedAll(dest.kind, log, said[..k])
    {
      ReceivedNext(dest.kind, log, said, k);
      ds.Current().Diagnose(said[k].severity, said[k].message);
      k := k + 1;
    }
    assert said[..|said|] == said;
    c := cb.check(x);
  }

  /** The check of one interpretation, in a buffered context of its own. */
  method CheckInterpretation<T>(ds: Stack, cb: Callbacks<T>, x: T) returns (ctx: Context, c: bool)
    requires ds.Valid()
    modifies ds
    ensures ds.Valid() && ds.Contexts() == old(ds.Contexts())
    ensures fresh(ctx) && Holds(cb, x, ctx) && c == cb.check(x)
  {
    ctx := ds.PushBuffered();
    assert ds.Current() == ds.Contexts()[|ds.Contexts()| - 1] == ctx;
    c := Check(ds, ctx, cb, x);
    ds.Pop();
  }

  lemma {:induction false} ClashStays<T>(cb: Callbacks<T>, xs: seq<T>, m: nat, n: nat)
    requires m <= n <= |xs| && Select(cb, xs, m) == Clash
    ensures Select(cb, xs, n) == Clash
    decreases n
  {
    if m < n { ClashStays(cb, xs, m, n - 1); }
  }

  /** Each of the contexts holds what checking its interpretation says. */
  ghost predicate AllHold<T>(cb: Callbacks<T>, xs: seq<T>, buffers: seq<Context>)
    requires |buffers| <= |xs|
    reads buffers
  {
    && NoDup(buffers)
    && forall i {:trigger Holds(cb, xs[i], buffers[i])} | 0 <= i < |buffers| :: Holds(cb, xs[i], buffers[i])
  }

  lemma HoldsOneMore<T>(cb: Callbacks<T>, xs: seq<T>, buffers: seq<Context>, ctx: Context)
    requires |buffers| < |xs| && AllHold(cb, xs, buffers) && ctx !in buffers && Holds(cb, xs[|buffers|], ctx)
    ensures AllHold(cb, xs, buffers + [ctx])
  {
  }

  /** The choice between interpretation `i` and the one chosen so far. */
  method Judge<T>(cb: Callbacks<T>, xs: seq<T>, i: nat, c: bool, s: Selection) returns (r: Selection)
    requires i < |xs| && c == cb.check(xs[i]) && s == Select(cb, xs, i) && s != Clash
    ensures r == Select(cb, xs, i + 1)
  {
    r := s;
    if c {
      if s == NoneValid {
        r := Chosen(i);
      } else {
        var chosenResult := 0;
        if cb.choose.Some? {
          chosenResult := cb.choose.value(xs[i], xs[s.index]);
        }
        if chosenResult < 0 {
          r := Chosen(i);
        } else if chosenResult == 0 {
          r := Clash;
        }
      }
    }
  }

  /** One turn of the first loop of solve_ambiguity_generic. */
  method CheckNext<T>(ds: Stack, cb: Callbacks<T>, xs: seq<T>, buffers: seq<Context>, s: Selection)
    returns (s': Selection, ctx: Context)
    requires ds.Valid() && |buffers| < |xs| && AllHold(cb, xs, buffers)
    requires s == Select(cb, xs, |buffers|) && s != Clash
    modifies ds
    ensures ds.Valid() && ds.Contexts() == old(ds.Contexts())
    ensures s' == Select(cb, xs, |buffers| + 1)
    ensures fresh(ctx) && AllHold(cb, xs, buffers + [ctx])
  {
    assert allocated(buffers);
    var c;
    ctx, c := CheckInterpretation(ds, cb, xs[|buffers|]);
    forall k | 0 <= k < |buffers| ensures Holds(cb, xs[k], buffers[k]) {
      assert old(Holds(cb, xs[k], buffers[k]));
    }
    HoldsOneMore(cb, xs, buffers, ctx);
    s' := Judge(cb, xs, |buffers|, c, s);
  }

  /** The first loop of solve_ambiguity_generic. */
  method CheckAll<T>(ds: Stack, cb: Callbacks<T>, xs: seq<T>) returns (s: Selection, buffers: seq<Context>)
    requires ds.Valid()
    modifies ds
    ensures ds.Valid() && ds.Contexts() == old(ds.Contexts())
    ensures s == Select(cb, xs, |xs|)
    ensures s != Clash ==> |buffers| == |xs| && AllHold(cb, xs, buffers)
    ensures forall k | 0 <= k < |buffers| :: fresh(buffers[k])
  {
    s, buffers := NoneValid, [];
    var i := 0;
    while i < |xs|
      invariant i == |buffers| <= |xs| && s == Select(cb, xs, i) && s != Clash
      invariant ds.Valid() && ds.Contexts() == old(ds.Contexts())
      invariant AllHold(cb, xs, buffers)
      invariant forall k | 0 <= k < |buffers| :: fresh(buffers[k])
    {
      var ctx;
      s, ctx := CheckNext(ds, cb, xs, buffers, s);
      buffers := buffers + [ctx];
      if s == Clash {
        ClashStays(cb, xs, i + 1, |xs|);
        return;
      }
      i := i + 1;
    }
  }

  /** The current context, which is none of the buffers, can receive what they hold. */
  ghost predicate Ready(ds: Stack, dest: Context, buffers: seq<Context>)
    reads ds, dest
  {
    ds.Valid() && ds.Current() == dest && dest.Valid() && dest.live && dest !in buffers
  }

  /** A context that was committed or discarded, after it held what checking `x` says. */
  ghost predicate Consumed<T>(cb: Callbacks<T>, x: T, ctx: Context)
    reads ctx
  {
    !ctx.live && ctx.diagnostics == Deduplicated(cb.says(x))
  }

  /** From `i` on the contexts still hold their messages; the ones before are gone. */
  ghost predicate Remaining<T>(cb: Callbacks<T>, xs: seq<T>, buffers: seq<Context>, i: nat)
    requires |buffers| == |xs|
    reads buffers
  {
    && NoDup(buffers)
    && (forall k {:trigger Holds(cb, xs[k], buffers[k])} | i <= k < |xs| :: Holds(cb, xs[k], buffers[k]))
    && (forall k {:trigger Consumed(cb, xs[k], buffers[k])} | 0 <= k < i && k < |xs| :: Consumed(cb, xs[k], buffers[k]))
  }

  method CommitOrDiscard(ds: Stack, ghost dest: Context, ctx: Context, commit: bool)
    requires Ready(ds, dest, [ctx]) && ctx.live && ctx.kind == Buffered
    modifies dest, ctx`live
    ensures Ready(ds, dest, [ctx]) && !ctx.live
    ensures dest.Log() == if !commit then old(dest.Log())
                          else ReceivedAll(dest.kind, old(dest.Log()), ctx.diagnostics)
  {
    if commit {
      ds.Commit(ctx);
    } else {
      ds.Discard(ctx);
    }
  }

  /** Commits or discards the next buffer. */
  method Consume<T>(ds: Stack, ghost dest: Context, cb: Callbacks<T>, xs: seq<T>,
                    buffers: seq<Context>, i: nat, commit: bool)
    requires |buffers| == |xs| && i < |xs| && Ready(ds, dest, buffers) && Remaining(cb, xs, buffers, i)
    modifies dest, {buffers[i]}`live
    ensures Ready(ds, dest, buffers) && Remaining(cb, xs, buffers, i + 1)
    ensures dest.Log() == if !commit then old(dest.Log())
                          else ReceivedAll(dest.kind, old(dest.Log()), Deduplicated(cb.says(xs[i])))
  {
    forall k | 0 <= k < |xs| && k != i ensures buffers[k] != buffers[i] {
      if i < k { NotBefore(buffers, i, k); } else { NotBefore(buffers, k, i); }
    }
    assert Holds(cb, xs[i], buffers[i]) && buffers[i] in buffers;
    CommitOrDiscard(ds, dest, buffers[i], commit);
    forall k | i < k < |xs| ensures Holds(cb, xs[k], buffers[k]) {
      assert old(Holds(cb, xs[k], buffers[k])) && buffers[k] in buffers;
    }
    forall k | 0 <= k < i + 1 ensures Consumed(cb, xs[k], buffers[k]) {
      assert k < i ==> old(Consumed(cb, xs[k], buffers[k])) && buffers[k] in buffers;
    }
  }

  /** The last loop when an interpretation is chosen: its messages are committed, the others
      discarded. */
  method CommitChosen<T>(ds: Stack, ghost dest: Context, cb: Callbacks<T>, xs: seq<T>,
                         buffers: seq<Context>, chosen: nat)
    requires |buffers| == |xs| && Ready(ds, dest, buffers) && Remaining(cb, xs, buffers, 0) && chosen < |xs|
    modifies dest, buffers
    ensures Ready(ds, dest, buffers) && Remaining(cb, xs, buffers, |xs|)
    ensures dest.Log() == ReceivedAll(dest.kind, old(dest.Log()), Deduplicated(cb.says(xs[chosen])))
  {
    var i := 0;
    while i < |xs|
      invariant i <= |xs| && Ready(ds, dest, buffers) && Remaining(cb, xs, buffers, i)
      invariant dest.Log() == if i <= chosen then old(dest.Log())
                              else ReceivedAll(dest.kind, old(dest.Log()), Deduplicated(cb.says(xs[chosen])))
    {
      Consume(ds, dest, cb, xs, buffers, i, i == chosen);
      i := i + 1;
    }
  }

  /** The last loop when no interpretation is valid: everything is committed. */
  method CommitEach<T>(ds: Stack, ghost dest: Context, cb: Callbacks<T>, xs: seq<T>, buffers: seq<Context>)
    requires |buffers| == |xs| && Ready(ds, dest, buffers) && Remaining(cb, xs, buffers, 0)
    requires dest.kind == Buffered && dest.diagnostics == []
    modifies dest, buffers
    ensures Ready(ds, dest, buffers) && Remaining(cb, xs, buffers, |xs|)
    ensures dest.diagnostics == Deduplicated(AllSay(cb, xs))
  {
    var i := 0;
    assert xs[..|xs|] == xs;
    while i < |xs|
      invariant i <= |xs| && Ready(ds, dest, buffers) && Remaining(cb, xs, buffers, i)
      invariant dest.diagnostics == Deduplicated(AllSay(cb, xs[..i]))
    {
      Consume(ds, dest, cb, xs, buffers, i, true);
      SaysMore(cb, xs, i);
      i := i + 1;
    }
  }

  lemma SaysMore<T>(cb: Callbacks<T>, xs: seq<T>, i: nat)
    requires i < |xs|
    ensures ReceivedAll(Buffered, Deduplicated(AllSay(cb, xs[..i])), Deduplicated(cb.says(xs[i])))
         == Deduplicated(AllSay(cb, xs[..i + 1]))
  {
    ThroughABuffer(Buffered, Deduplicated(AllSay(cb, xs[..i])), [], cb.says(xs[i]));
    ReceivedAllAppend(Buffered, [], AllSay(cb, xs[..i]), cb.says(xs[i]));
    assert xs[..i + 1][..i] == xs[..i];
  }

  datatype Outcome = Solved(index: nat) | MoreThanOneValid

  ghost predicate Accepts<T>(cb: Callbacks<T>, x: T) {
    cb.fallback.Some? && cb.fallback.value(x)
  }

  /** The interpretation that replaces the ambiguity, and the messages that stay: the chosen one if some are
      valid; else the first one that the fallback accepts; else the first one, with the messages of all. */
  ghost predicate SolutionIs<T>(cb: Callbacks<T>, xs: seq<T>, index: nat, kind: Kind, before: seq<Diagnostic>,
                                after: seq<Diagnostic>) {
    && index < |xs|
    && if exists k :: 0 <= k < |xs| && cb.check(xs[k]) then
         && Select(cb, xs, |xs|) == Chosen(index) && cb.check(xs[index])
         && after == ReceivedAll(kind, before, Deduplicated(cb.says(xs[index])))
       else if exists k :: 0 <= k < |xs| && Accepts(cb, xs[k]) then
         && Accepts(cb, xs[index]) && (forall k | 0 <= k < index :: !Accepts(cb, xs[k]))
         && after == ReceivedAll(kind, before, Deduplicated(cb.says(xs[index])))
       else
         index == 0 && after == ReceivedAll(kind, before, Deduplicated(AllSay(cb, xs)))
  }

  /** The fallback loop: the first one accepted wins. */
  method Fallback<T>(cb: Callbacks<T>, xs: seq<T>) returns (i: nat)
    ensures i <= |xs| && (i < |xs| ==> Accepts(cb, xs[i])) && forall k | 0 <= k < i :: !Accepts(cb, xs[k])
  {
    i := |xs|;
    if cb.fallback.Some? {
      i := 0;
      while i < |xs| && !cb.fallback.value(xs[i])
        invariant i <= |xs| && forall k | 0 <= k < i :: !Accepts(cb, xs[k])
      {
        i := i + 1;
      }
    }
  }

  ghost predicate NoSolution<T>(cb: Callbacks<T>, xs: seq<T>) {
    forall k | 0 <= k < |xs| :: !cb.check(xs[k]) && !Accepts(cb, xs[k])
  }

  /** One context for each interpretation, and one that combines them when there is no solution: they
      are all different, and each was consumed. */
  ghost predicate AllConsumed<T>(cb: Callbacks<T>, xs: seq<T>, buffers: seq<Context>)
    reads buffers
  {
    && NoDup(buffers)
    && |buffers| == |xs| + (if NoSolution(cb, xs) then 1 else 0)
    && (forall k {:trigger Consumed(cb, xs[k], buffers[k])} | 0 <= k < |xs| :: Consumed(cb, xs[k], buffers[k]))
    && forall b | b in buffers :: !b.live
  }

  lemma AllGone<T>(cb: Callbacks<T>, xs: seq<T>, buffers: seq<Context>, combined: seq<Context>)
    requires |buffers| == |xs| && Remaining(cb, xs, buffers, |xs|)
    requires |combined| == if NoSolution(cb, xs) then 1 else 0
    requires forall b | b in combined :: b !in buffers && !b.live
    ensures AllConsumed(cb, xs, buffers + combined)
  {
    var all := buffers + combined;
    if combined == [] {
      assert all == buffers;
    } else {
      assert all[..|xs|] == buffers && Fresh(all[|xs|], buffers);
    }
    forall k | 0 <= k < |xs| ensures Consumed(cb, xs[k], all[k]) {
      assert Consumed(cb, xs[k], buffers[k]);
    }
  }

  /** The part of solve_ambiguity_generic after the checks. */
  method Settle<T>(ds: Stack, ghost dest: Context, cb: Callbacks<T>, xs: seq<T>, contexts: seq<Context>, s: Selection)
    returns (option: nat, ghost combined: seq<Context>)
    requires |contexts| == |xs| && xs != [] && Ready(ds, dest, contexts) && Remaining(cb, xs, contexts, 0)
    requires s == Select(cb, xs, |xs|) && s != Clash
    modifies ds, dest, contexts
    ensures ds.Valid() && ds.Contexts() == old(ds.Contexts()) && ds.Current() == dest && dest.Valid() && dest.live
    ensures SolutionIs(cb, xs, option, dest.kind, old(dest.Log()), dest.Log())
    ensures AllConsumed(cb, xs, contexts + combined) && forall b | b in combined :: fresh(b)
  {
    assert allocated(contexts);
    NoneIsValid(cb, xs, |xs|);
    combined := [];
    option := if s.Chosen? then s.index else |xs|;
    if option == |xs| {
      option := Fallback(cb, xs);
    }
    if option == |xs| {
      option := 0;
      var combineDiagnostics := CommitEverything(ds, dest, cb, xs, contexts);
      combined := [combineDiagnostics];
    } else {
      CommitChosen(ds, dest, cb, xs, contexts, option);
    }
    AllGone(cb, xs, contexts, combined);
  }

  /** solve_ambiguity_generic, up to the replacement of the node; `dest` is the current context. */
  method SolveAmbiguityGeneric<T>(ds: Stack, ghost dest: Context, cb: Callbacks<T>, xs: seq<T>)
    returns (r: Outcome, ghost buffers: seq<Context>)
    requires ds.Valid() && ds.Current() == dest && dest.Valid() && dest.live && xs != []
    modifies ds, dest
    ensures ds.Valid() && ds.Contexts() == old(ds.Contexts()) && ds.Current() == dest
    ensures r == MoreThanOneValid <==> Select(cb, xs, |xs|) == Clash
    ensures r.Solved? ==> dest.Valid() && dest.live
    ensures r.Solved? ==> SolutionIs(cb, xs, r.index, dest.kind, old(dest.Log()), dest.Log())
    ensures r.Solved? ==> AllConsumed(cb, xs, buffers) && forall b | b in buffers :: fresh(b)
  {
    assert allocated(dest);
    var s, contexts := CheckAll(ds, cb, xs);
    buffers := contexts;
    assert ds.Current() == ds.Contexts()[|ds.Contexts()| - 1] == dest;
    if s == Clash { return MoreThanOneValid, buffers; }
    assert Remaining(cb, xs, contexts, 0);
    var option;
    ghost var combined;
    option, combined := Settle(ds, dest, cb, xs, contexts, s);
    buffers := contexts + combined;
    r := Solved(option);
  }

  /** No interpretation is valid: all the messages, through a buffer that combines them. */
  method CommitEverything<T>(ds: Stack, ghost dest: Context, cb: Callbacks<T>, xs: seq<T>, contexts: seq<Context>)
    returns (combineDiagnostics: Context)
    requires |contexts| == |xs| && Ready(ds, dest, contexts) && Remaining(cb, xs, contexts, 0)
    modifies ds, dest, contexts
    ensures ds.Valid() && ds.Contexts() == old(ds.Contexts()) && ds.Current() == dest && dest.Valid() && dest.live
    ensures dest.Log() == ReceivedAll(dest.kind, old(dest.Log()), Deduplicated(AllSay(cb, xs)))
    ensures fresh(combineDiagnostics) && !combineDiagnostics.live && Remaining(cb, xs, contexts, |xs|)
  {
    assert allocated(contexts) && allocated(dest);
    combineDiagnostics := ds.PushBuffered();
    assert Remaining(cb, xs, contexts, 0);
    assert ds.Current() == ds.Contexts()[|ds.Contexts()| - 1] == combineDiagnostics;
    CommitEach(ds, combineDiagnostics, cb, xs, contexts);
    ds.Pop();
    assert ds.Current() == ds.Contexts()[|ds.Contexts()| - 1] == dest;
    ds.Commit(combineDiagnostics);
  }

  /** Into a buffered context the messages go as if they had come directly. */
  lemma AsIfDirectly(kind: Kind, log: seq<Diagnostic>, ds: seq<Diagnostic>)
    requires !kind.Stderr?
    ensures ReceivedAll(kind, log, Deduplicated(ds)) == ReceivedAll(kind, log, ds)
  {
    ThroughABuffer(kind, log, [], ds);
  }

  /** How many of the first `n` interpretations are checked when the loop stops at a clash. */
  function Checked<T>(cb: Callbacks<T>, xs: seq<T>, n: nat): (k: nat)
    requires n <= |xs|
    ensures k <= n
  {
    if n == 0 then 0 else if Select(cb, xs, n - 1) == Clash then Checked(cb, xs, n - 1) else n
  }

  /** The check that makes the clash is the last one. */
  lemma {:induction false} CheckedUpToClash<T>(cb: Callbacks<T>, xs: seq<T>, n: nat)
    requires n <= |xs|
    ensures Select(cb, xs, Checked(cb, xs, n)) == Select(cb, xs, n)
    ensures Select(cb, xs, n) != Clash ==> Checked(cb, xs, n) == n
    ensures forall m | 0 <= m < Checked(cb, xs, n) :: Select(cb, xs, m) != Clash
  {
    if n > 0 {
      CheckedUpToClash(cb, xs, n - 1);
      forall m | 0 <= m < n && Select(cb, xs, m) == Clash ensures Select(cb, xs, n - 1) == Clash {
        ClashStays(cb, xs, m, n - 1);
      }
    }
  }

  lemma SaysNext<T>(cb: Callbacks<T>, xs: seq<T>, i: nat, kind: Kind, log: seq<Diagnostic>)
    requires i < |xs|
    ensures ReceivedAll(kind, ReceivedAll(kind, log, AllSay(cb, xs[..i])), cb.says(xs[i]))
         == ReceivedAll(kind, log, AllSay(cb, xs[..i + 1]))
  {
    ReceivedAllAppend(kind, log, AllSay(cb, xs[..i]), cb.says(xs[i]));
    assert xs[..i + 1][..i] == xs[..i];
  }

  lemma ClashEnds<T>(cb: Callbacks<T>, xs: seq<T>, i: nat)
    requires 0 < i <= |xs| && Select(cb, xs, i) == Clash && Select(cb, xs, i - 1) != Clash
    ensures Checked(cb, xs, |xs|) == i && Select(cb, xs, |xs|) == Clash
  {
    CheckedUpToClash(cb, xs, |xs|);
    ClashStays(cb, xs, i, |xs|);
    var k := Checked(cb, xs, |xs|);
    if k < i { ClashStays(cb, xs, k, i - 1); }
  }

  /** One turn of the loop of try_to_solve_ambiguity_generic. */
  method TryNext<T>(ds: Stack, ghost dest: Context, cb: Callbacks<T>, xs: seq<T>, i: nat, s: Selection,
                    ghost log: seq<Diagnostic>)
    returns (s': Selection)
    requires ds.Valid() && ds.Current() == dest && dest.Valid() && dest.live
    requires i < |xs| && s == Select(cb, xs, i) && s != Clash
    requires dest.Log() == ReceivedAll(dest.kind, log, AllSay(cb, xs[..i]))
    modifies dest
    ensures ds.Valid() && dest.Valid() && dest.live && s' == Select(cb, xs, i + 1)
    ensures dest.Log() == ReceivedAll(dest.kind, log, AllSay(cb, xs[..i + 1]))
  {
    var c := Check(ds, dest, cb, xs[i]);
    SaysNext(cb, xs, i, dest.kind, log);
    s' := Judge(cb, xs, i, c, s);
  }

  /** try_to_solve_ambiguity_generic, up to the replacement of the node: every check made gives its
      messages to the current context, whatever comes out. */
  method TryToSolveAmbiguityGeneric<T>(ds: Stack, ghost dest: Context, cb: Callbacks<T>, xs: seq<T>)
    returns (solved: bool, option: nat, checked: nat)
    requires ds.Valid() && ds.Current() == dest && dest.Valid() && dest.live
    modifies dest
    ensures ds.Valid() && dest.Valid() && dest.live && checked == Checked(cb, xs, |xs|)
    ensures solved <==> Select(cb, xs, |xs|).Chosen?
    ensures solved ==> Select(cb, xs, |xs|) == Chosen(option)
    ensures dest.Log() == ReceivedAll(dest.kind, old(dest.Log()), AllSay(cb, xs[..checked]))
  {
    ghost var log := dest.Log();
    var s, i := NoneValid, 0;
    option := 0;
    while i < |xs|
      invariant i <= |xs| && s == Select(cb, xs, i) && s != Clash
      invariant ds.Valid() && dest.Valid() && dest.live
      invariant dest.Log() == ReceivedAll(dest.kind, log, AllSay(cb, xs[..i]))
    {
      s := TryNext(ds, dest, cb, xs, i, s, log);
      i := i + 1;
      if s == Clash {
        ClashEnds(cb, xs, i);
        return false, 0, i;
      }
    }
    CheckedUpToClash(cb, xs, |xs|);
    checked := i;
    solved := s.Chosen?;
    if solved { option := s.index; }
  }
}
