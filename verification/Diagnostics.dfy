/** Diagnostic contexts: where messages go, and the stack that says where they go now. */
module Diagnostics {
  import opened Sequences
  import opened CStrings

  datatype Severity = Info | Warning | Error

  /** Messages are interned, so that equal pointers mean equal texts. */
  datatype Diagnostic = Diagnostic(severity: Severity, message: Str)

  datatype Kind = Stderr | Buffered | Instantiation(header: Str)

  /** P_LIST_ADD_ONCE_FUN with same_diag_pair. */
  function AddOnce(ds: seq<Diagnostic>, d: Diagnostic): seq<Diagnostic> {
    if d in ds then ds else ds + [d]
  }

  /** What a context has received after one more message. */
  function Received(kind: Kind, log: seq<Diagnostic>, d: Diagnostic): seq<Diagnostic> {
    if kind.Stderr? then log + [d] else AddOnce(log, d)
  }

  function ReceivedAll(kind: Kind, log: seq<Diagnostic>, ds: seq<Diagnostic>): seq<Diagnostic> {
    if ds == [] then log else Received(kind, ReceivedAll(kind, log, ds[..|ds| - 1]), ds[|ds| - 1])
  }

  lemma ReceivedNext(kind: Kind, log: seq<Diagnostic>, ds: seq<Diagnostic>, k: nat)
    requires k < |ds|
    ensures ReceivedAll(kind, log, ds[..k + 1]) == Received(kind, ReceivedAll(kind, log, ds[..k]), ds[k])
  {
    assert ds[..k + 1][..k] == ds[..k];
  }

  /** The messages without repetitions, in the order of their first occurrences. */
  function Deduplicated(ds: seq<Diagnostic>): seq<Diagnostic> {
    ReceivedAll(Buffered, [], ds)
  }

  function Count(ds: seq<Diagnostic>, severity: Severity): nat {
    if ds == [] then 0
    else Count(ds[..|ds| - 1], severity) + if ds[|ds| - 1].severity == severity then 1 else 0
  }

  lemma CountMore(ds: seq<Diagnostic>, d: Diagnostic, severity: Severity)
    ensures Count(ds + [d], severity) == Count(ds, severity) + if d.severity == severity then 1 else 0
  {
    assert (ds + [d])[..|ds|] == ds;
  }

  lemma {:induction false} ReceivedAllMembers(kind: Kind, log: seq<Diagnostic>, ds: seq<Diagnostic>)
    ensures forall d :: d in ReceivedAll(kind, log, ds) <==> d in log || d in ds
  {
    if ds != [] {
      ReceivedAllMembers(kind, log, ds[..|ds| - 1]);
      assert ds == ds[..|ds| - 1] + [ds[|ds| - 1]];
    }
  }

  ghost predicate NoRepeats(ds: seq<Diagnostic>) {
    forall i, j | 0 <= i < j < |ds| :: ds[i] != ds[j]
  }

  lemma {:induction false} BufferHasNoRepeats(kind: Kind, log: seq<Diagnostic>, ds: seq<Diagnostic>)
    requires !kind.Stderr? && NoRepeats(log)
    ensures NoRepeats(ReceivedAll(kind, log, ds))
  {
    if ds != [] {
      BufferHasNoRepeats(kind, log, ds[..|ds| - 1]);
    }
  }

  /** The standard error stream receives everything. */
  lemma {:induction false} StderrReceivesAll(log: seq<Diagnostic>, ds: seq<Diagnostic>)
    ensures ReceivedAll(Stderr, log, ds) == log + ds
  {
    if ds != [] {
      StderrReceivesAll(log, ds[..|ds| - 1]);
      assert ds == ds[..|ds| - 1] + [ds[|ds| - 1]];
    }
  }

  /** A buffer keeps what it has, and takes new messages in the order in which each came first. */
  lemma {:induction false} BufferKeepsOrder(kind: Kind, log: seq<Diagnostic>, ds: seq<Diagnostic>)
    requires !kind.Stderr?
    ensures var r := ReceivedAll(kind, log, ds);
            && log <= r
            && forall a, b | |log| <= a < b < |r| :: exists i :: 0 <= i < |ds| && ds[i] == r[a] && r[b] !in ds[..i + 1]
  {
    if ds != [] {
      var init, d := ds[..|ds| - 1], ds[|ds| - 1];
      BufferKeepsOrder(kind, log, init);
      ReceivedAllMembers(kind, log, init);
      var s, r := ReceivedAll(kind, log, init), ReceivedAll(kind, log, ds);
      forall a, b | |log| <= a < b < |r| ensures exists i :: 0 <= i < |ds| && ds[i] == r[a] && r[b] !in ds[..i + 1] {
        if b < |s| {
          var i :| 0 <= i < |init| && init[i] == s[a] && s[b] !in init[..i + 1];
          assert ds[..i + 1] == init[..i + 1] && ds[i] == r[a];
        } else {
          NewcomerInside(kind, log, init, a);
          var i :| 0 <= i < |init| && init[i] == s[a];
          assert ds[..i + 1] == init[..i + 1] && ds[i] == r[a];
        }
      }
    }
  }

  lemma {:induction false} NewcomerInside(kind: Kind, log: seq<Diagnostic>, ds: seq<Diagnostic>, a: nat)
    requires !kind.Stderr? && |log| <= a < |ReceivedAll(kind, log, ds)|
    ensures exists i :: 0 <= i < |ds| && ds[i] == ReceivedAll(kind, log, ds)[a]
  {
    if ds != [] {
      var init := ds[..|ds| - 1];
      if a < |ReceivedAll(kind, log, init)| {
        NewcomerInside(kind, log, init, a);
        var i :| 0 <= i < |init| && init[i] == ReceivedAll(kind, log, init)[a];
        assert ds[i] == init[i];
      } else {
        assert ds[|ds| - 1] == ReceivedAll(kind, log, ds)[a];
      }
    }
  }

  lemma {:induction false} ReceivedAllAppend(kind: Kind, log: seq<Diagnostic>, ds: seq<Diagnostic>, es: seq<Diagnostic>)
    ensures ReceivedAll(kind, log, ds + es) == ReceivedAll(kind, ReceivedAll(kind, log, ds), es)
  {
    if es == [] {
      assert ds + es == ds;
    } else {
      ReceivedAllAppend(kind, log, ds, es[..|es| - 1]);
      assert (ds + es)[..|ds + es| - 1] == ds + es[..|es| - 1];
    }
  }

  /** A buffered context receives the same messages whether they come directly or through another
      buffer. */
  lemma {:induction false} ThroughABuffer(kind: Kind, log: seq<Diagnostic>, buffer: seq<Diagnostic>,
                                          ds: seq<Diagnostic>)
    requires !kind.Stderr?
    ensures ReceivedAll(kind, log, ReceivedAll(Buffered, buffer, ds))
         == ReceivedAll(kind, ReceivedAll(kind, log, buffer), ds)
  {
    if ds != [] {
      var init, d := ds[..|ds| - 1], ds[|ds| - 1];
      ThroughABuffer(kind, log, buffer, init);
      var b := ReceivedAll(Buffered, buffer, init);
      ReceivedAllMembers(kind, log, b);
      assert (b + [d])[..|b|] == b;
    }
  }

  function MaxSeverity(a: Severity, b: Severity): Severity {
    if a == Error || b == Error then Error else if a == Warning || b == Warning then Warning else Info
  }

  function Worst(ds: seq<Diagnostic>): Severity {
    if ds == [] then Info else MaxSeverity(Worst(ds[..|ds| - 1]), ds[|ds| - 1].severity)
  }

  function Joined(header: Str, ds: seq<Diagnostic>): Str {
    if ds == [] then header else Joined(header, ds[..|ds| - 1]) + ds[|ds| - 1].message
  }

  /** What a buffered context hands over when it is committed: its messages, or for an
      instantiation one message that joins them all under the header. */
  function Handed(kind: Kind, ds: seq<Diagnostic>): (hs: seq<Diagnostic>)
    ensures !kind.Instantiation? ==> hs == ds
    ensures kind.Instantiation? ==> if ds == [] then hs == [] else |hs| == 1 && JoinsAll(hs[0], kind.header, ds)
  {
    if kind.Instantiation?
    then
      WorstJoinedJoinsAll(kind.header, ds);
      if ds == [] then [] else [Diagnostic(Worst(ds), Joined(kind.header, ds))]
    else ds
  }

  /** The texts one after the other. */
  ghost function Texts(ds: seq<Diagnostic>): Str {
    if ds == [] then [] else ds[0].message + Texts(ds[1..])
  }

  /** One message for all: as severe as the most severe one, with the header before all the texts. */
  ghost predicate JoinsAll(m: Diagnostic, header: Str, ds: seq<Diagnostic>) {
    && (m.severity == Error <==> exists d :: d in ds && d.severity == Error)
    && (m.severity == Info <==> forall d | d in ds :: d.severity == Info)
    && m.message == header + Texts(ds)
  }

  lemma {:induction false} TextsMore(ds: seq<Diagnostic>, d: Diagnostic)
    ensures Texts(ds + [d]) == Texts(ds) + d.message
  {
    if ds == [] {
      assert ([] + [d])[1..] == [] && Texts([d]) == d.message + Texts([d][1..]);
    } else {
      assert (ds + [d])[1..] == ds[1..] + [d];
      TextsMore(ds[1..], d);
    }
  }

  lemma {:induction false} WorstJoinedJoinsAll(header: Str, ds: seq<Diagnostic>)
    ensures JoinsAll(Diagnostic(Worst(ds), Joined(header, ds)), header, ds)
  {
    if ds != [] {
      var init, d := ds[..|ds| - 1], ds[|ds| - 1];
      assert ds == init + [d];
      WorstJoinedJoinsAll(header, init);
      TextsMore(init, d);
    }
  }

  class Context {
    const kind: Kind
    var numInfo: nat
    var numWarning: nat
    var numError: nat
    /** The messages of a buffered context. */
    var diagnostics: seq<Diagnostic>
    /** What the standard error stream has received since the counters were last set to zero. */
    ghost var written: seq<Diagnostic>
    /** Not yet committed or discarded, which deletes a context. */
    ghost var live: bool

    ghost function Log(): seq<Diagnostic>
      reads this
    {
      if kind.Stderr? then written else diagnostics
    }

    /** The counters agree with the messages. */
    ghost predicate Valid()
      reads this
    {
      && numInfo == Count(Log(), Info)
      && numWarning == Count(Log(), Warning)
      && numError == Count(Log(), Error)
    }

    constructor (kind: Kind)
      ensures Valid() && Log() == [] && live && this.kind == kind
    {
      this.kind := kind;
      numInfo, numWarning, numError := 0, 0, 0;
      diagnostics, written, live := [], [], true;
    }

    /** The switch that counts a message. */
    method CountOne(severity: Severity)
      modifies `numInfo, `numWarning, `numError
      ensures numInfo == old(numInfo) + if severity == Info then 1 else 0
      ensures numWarning == old(numWarning) + if severity == Warning then 1 else 0
      ensures numError == old(numError) + if severity == Error then 1 else 0
    {
      match severity
      case Info => numInfo := numInfo + 1;
      case Warning => numWarning := numWarning + 1;
      case Error => numError := numError + 1;
    }

    lemma CountsMore(d: Diagnostic)
      ensures forall severity :: Count(Log() + [d], severity)
                                 == Count(Log(), severity) + if d.severity == severity then 1 else 0
    {
      forall severity ensures Count(Log() + [d], severity)
                              == Count(Log(), severity) + if d.severity == severity then 1 else 0 {
        CountMore(Log(), d, severity);
      }
    }

    /** diagnose_to_stderr. */
    method DiagnoseToStderr(severity: Severity, message: Str)
      requires Valid() && live && kind.Stderr?
      modifies this
      ensures Valid() && live && Log() == old(Log()) + [Diagnostic(severity, message)]
    {
      CountsMore(Diagnostic(severity, message));
      written := written + [Diagnostic(severity, message)];
      CountOne(severity);
    }

    /** diagnose_to_buffer. */
    method DiagnoseToBuffer(severity: Severity, message: Str)
      requires Valid() && live && !kind.Stderr?
      modifies this
      ensures Valid() && live && Log() == AddOnce(old(Log()), Diagnostic(severity, message))
    {
      var d, prev := Diagnostic(severity, message), |diagnostics|;
      CountsMore(d);
      AddDiagnostic(d);
      if prev < |diagnostics| {
        CountOne(severity);
      }
    }

    method Diagnose(severity: Severity, message: Str)
      requires Valid() && live
      modifies this
      ensures Valid() && live && Log() == Received(kind, old(Log()), Diagnostic(severity, message))
    {
      if kind.Stderr? {
        DiagnoseToStderr(severity, message);
      } else {
        DiagnoseToBuffer(severity, message);
      }
    }

    /** P_LIST_ADD_ONCE_FUN. */
    method AddDiagnostic(d: Diagnostic)
      modifies `diagnostics
      ensures diagnostics == AddOnce(old(diagnostics), d)
    {
      var i, found := 0, false;
      while i < |diagnostics| && !found
        invariant i <= |diagnostics| && (found <==> d in diagnostics[..i])
      {
        found := diagnostics[i] == d;
        i := i + 1;
      }
      if !found {
        diagnostics := diagnostics + [d];
      }
    }

    /** diagnose_to_stderr_count or diagnose_to_buffer_count. */
    function GetCount(severity: Severity): (n: nat)
      requires Valid()
      reads this
      ensures n == if kind.Stderr? && severity == Info then 0 else Count(Log(), severity)
    {
      match severity
      case Info => if kind.Stderr? then 0 else numInfo
      case Warning => numWarning
      case Error => numError
    }

    /** diagnose_to_buffer_commit and diagnose_to_buffer_instantiation_commit. */
    method Commit(dest: Context)
      requires live && !kind.Stderr? && dest != this && dest.Valid() && dest.live
      modifies this`live, dest
      ensures dest.Valid() && dest.live && !live
      ensures dest.Log() == ReceivedAll(dest.kind, old(dest.Log()), Handed(kind, old(diagnostics)))
      ensures !kind.Instantiation? ==> dest.Log() == ReceivedAll(dest.kind, old(dest.Log()), old(diagnostics))
      ensures kind.Instantiation? && old(diagnostics) == [] ==> dest.Log() == old(dest.Log())
      ensures kind.Instantiation? && old(diagnostics) != [] ==>
                exists m :: JoinsAll(m, kind.header, old(diagnostics))
                            && dest.Log() == Received(dest.kind, old(dest.Log()), m)
    {
      if kind.Instantiation? {
        CommitJoined(dest);
      } else {
        ghost var log := dest.Log();
        var i := 0;
        while i < |diagnostics|
          invariant i <= |diagnostics| && dest.Valid() && dest.live
          invariant dest.Log() == ReceivedAll(dest.kind, log, diagnostics[..i])
        {
          ReceivedNext(dest.kind, log, diagnostics, i);
          dest.Diagnose(diagnostics[i].severity, diagnostics[i].message);
          i := i + 1;
        }
        assert diagnostics[..|diagnostics|] == diagnostics;
      }
      live := false;
    }

    /** The loop over the severities. */
    method WorstSeverity() returns (severity: Severity)
      ensures severity == Worst(diagnostics)
    {
      severity := Info;
      var i := 0;
      while i < |diagnostics|
        invariant i <= |diagnostics| && severity == Worst(diagnostics[..i])
      {
        NextPrefix(diagnostics, i);
        severity := MaxSeverity(severity, diagnostics[i].severity);
        i := i + 1;
      }
      assert diagnostics[..|diagnostics|] == diagnostics;
    }

    /** The loop over the texts. */
    method JoinedMessages(header: Str) returns (merged: Str)
      ensures merged == Joined(header, diagnostics)
    {
      merged := header;
      var i := 0;
      while i < |diagnostics|
        invariant i <= |diagnostics| && merged == Joined(header, diagnostics[..i])
      {
        NextPrefix(diagnostics, i);
        merged := merged + diagnostics[i].message;
        i := i + 1;
      }
      assert diagnostics[..|diagnostics|] == diagnostics;
    }

    method CommitJoined(dest: Context)
      requires kind.Instantiation? && dest != this && dest.Valid() && dest.live
      modifies dest
      ensures dest.Valid() && dest.live
      ensures dest.Log() == ReceivedAll(dest.kind, old(dest.Log()), Handed(kind, diagnostics))
      ensures diagnostics == [] ==> dest.Log() == old(dest.Log())
      ensures diagnostics != [] ==>
                exists m :: JoinsAll(m, kind.header, diagnostics)
                            && dest.Log() == Received(dest.kind, old(dest.Log()), m)
    {
      if |diagnostics| == 0 { return; }
      var severity := WorstSeverity();
      var merged := JoinedMessages(kind.header);
      WorstJoinedJoinsAll(kind.header, diagnostics);
      dest.Diagnose(severity, merged);
      assert ReceivedAll(dest.kind, old(dest.Log()), []) == old(dest.Log());
    }

    /** diagnose_to_buffer_discard. */
    method Discard()
      requires live && !kind.Stderr?
      modifies `live
      ensures !live
    {
      live := false;
    }
  }

  /** The stack of contexts; the current one is on top. */
  class Stack {
    var maxDiagnosticContexts: nat
    var currentDiagnosticIdx: nat
    var stack: seq<Context?>

    ghost predicate Valid()
      reads this
    {
      && currentDiagnosticIdx < maxDiagnosticContexts == |stack|
      && forall i | 0 <= i <= currentDiagnosticIdx :: stack[i] != null
    }

    /** The contexts, the current one last. */
    ghost function Contexts(): (cs: seq<Context?>)
      requires Valid()
      reads this
    {
      stack[..currentDiagnosticIdx + 1]
    }

    function Current(): Context
      requires Valid()
      reads this
    {
      stack[currentDiagnosticIdx]
    }

    /** diagnostics_reset: a stack with the stderr context only, whose counters start again. */
    constructor (stderr: Context)
      requires stderr.kind.Stderr?
      modifies stderr`numInfo, stderr`numWarning, stderr`numError, stderr`written
      ensures Valid() && Contexts() == [stderr]
      ensures stderr.numInfo == stderr.numWarning == stderr.numError == 0
      ensures stderr.Valid() && stderr.Log() == []
    {
      maxDiagnosticContexts, currentDiagnosticIdx := 4, 0;
      stack := [stderr, null, null, null];
      new;
      stderr.numInfo, stderr.numWarning, stderr.numError := 0, 0, 0;
      stderr.written := [];
    }

    /** diagnostic_context_push. */
    method Push(ctx: Context)
      requires Valid()
      modifies this
      ensures Valid() && Contexts() == old(Contexts()) + [ctx]
    {
      currentDiagnosticIdx := currentDiagnosticIdx + 1;
      if currentDiagnosticIdx == maxDiagnosticContexts {
        maxDiagnosticContexts := 2 * maxDiagnosticContexts;
        stack := stack + seq(maxDiagnosticContexts - |stack|, _ => null);
      }
      stack := stack[currentDiagnosticIdx := ctx];
    }

    /** diagnostic_context_pop. */
    method Pop()
      requires Valid() && |Contexts()| > 1
      modifies `currentDiagnosticIdx
      ensures Valid() && Contexts() == old(Contexts())[..old(|Contexts()|) - 1]
    {
      currentDiagnosticIdx := currentDiagnosticIdx - 1;
    }

    /** diagnostic_context_push_buffered. */
    method PushBuffered() returns (ctx: Context)
      requires Valid()
      modifies this
      ensures fresh(ctx) && ctx.kind == Buffered && ctx.live && ctx.Valid() && ctx.Log() == []
      ensures Valid() && Contexts() == old(Contexts()) + [ctx]
    {
      ctx := new Context(Buffered);
      Push(ctx);
    }

    /** diagnostic_context_push_instantiation. */
    method PushInstantiation(header: Str) returns (ctx: Context)
      requires Valid()
      modifies this
      ensures fresh(ctx) && ctx.kind == Instantiation(header) && ctx.live && ctx.Valid() && ctx.Log() == []
      ensures Valid() && Contexts() == old(Contexts()) + [ctx]
    {
      ctx := new Context(Instantiation(header));
      Push(ctx);
    }

    /** diagnostic_context_commit. */
    method Commit(ctx: Context)
      requires Valid() && ctx != Current() && ctx.live && !ctx.kind.Stderr?
      requires Current().live && Current().Valid()
      modifies ctx`live, Current()
      ensures !ctx.live && Current().live && Current().Valid()
      ensures Current().Log() == ReceivedAll(Current().kind, old(Current().Log()),
                                             Handed(ctx.kind, old(ctx.diagnostics)))
    {
      ctx.Commit(Current());
    }

    /** diagnostic_context_discard. */
    method Discard(ctx: Context)
      requires Valid() && ctx != Current() && ctx.live && !ctx.kind.Stderr?
      modifies ctx`live
      ensures !ctx.live
    {
      ctx.Discard();
    }

    /** diagnostic_context_pop_and_discard. */
    method PopAndDiscard()
      requires Valid() && |Contexts()| > 1 && Current().live && !Current().kind.Stderr?
      requires Current() != Contexts()[|Contexts()| - 2]
      modifies `currentDiagnosticIdx, Current()`live
      ensures Valid() && Contexts() == old(Contexts())[..old(|Contexts()|) - 1] && !old(Current()).live
    {
      var ctx := Current();
      Pop();
      Discard(ctx);
    }

    /** diagnostic_context_pop_and_commit: the context below receives what the top hands over. */
    method PopAndCommit()
      requires Valid() && |Contexts()| > 1 && Current().live && !Current().kind.Stderr?
      requires var below := Contexts()[|Contexts()| - 2];
               below != Current() && below.live && below.Valid()
      modifies `currentDiagnosticIdx, Current()`live, Contexts()[|Contexts()| - 2]
      ensures Valid() && Contexts() == old(Contexts())[..old(|Contexts()|) - 1] && !old(Current()).live
      ensures Current().live && Current().Valid()
      ensures Current().Log() == ReceivedAll(Current().kind, old(Contexts()[|Contexts()| - 2].Log()),
                                             Handed(old(Current()).kind, old(Current().diagnostics)))
    {
      var ctx := Current();
      Pop();
      Commit(ctx);
    }
  }
}
