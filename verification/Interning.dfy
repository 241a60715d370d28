/** What `uniquestr` promises, whichever way it is implemented. */
module Interning {
  import opened CStrings

  /** The copy of a string that xstrdup makes; its address is the handle. */
  class CString {
    const text: Str

    constructor (text: Str)
      ensures this.text == text
    {
      this.text := text;
    }
  }

  /** The argument of `uniquestr` may be the null pointer. */
  datatype Argument = Null | String(text: Str)

  type Dictionary = map<Str, CString>

  /** Every handle points to its own text. */
  ghost predicate Faithful(d: Dictionary) {
    forall s | s in d :: d[s].text == s
  }

  /** The specification of one call: a known text gives back its handle, a new text gets a
      handle that stands for no other text, and nothing else changes. */
  ghost predicate Interned(d: Dictionary, s: Str, h: CString, d': Dictionary) {
    if s in d then h == d[s] && d' == d
    else (forall t | t in d :: d[t] != h) && h.text == s && d' == d[s := h]
  }

  lemma FaithfulStays(d: Dictionary, s: Str, h: CString, d': Dictionary)
    requires Faithful(d) && Interned(d, s, h, d')
    ensures Faithful(d') && s in d' && d'[s] == h
    ensures forall t | t in d :: t in d' && d'[t] == d[t]
  {
  }

  /** The specification of a call with any argument. */
  ghost predicate Called(d: Dictionary, arg: Argument, h: CString?, d': Dictionary) {
    if arg == Null then h == null && d' == d
    else h != null && Interned(d, arg.text, h, d')
  }

  /** A run: the arguments, the handles returned, the dictionary before each call. */
  ghost predicate Run(ds: seq<Dictionary>, args: seq<Argument>, hs: seq<CString?>) {
    && |ds| == |args| + 1 && |hs| == |args|
    && ds[0] == map[]
    && forall i {:trigger args[i]} | 0 <= i < |args| :: Called(ds[i], args[i], hs[i], ds[i + 1])
  }

  lemma RunOneMore(ds: seq<Dictionary>, args: seq<Argument>, hs: seq<CString?>, n: nat, h: CString?, d: Dictionary)
    requires n < |args| && Run(ds, args[..n], hs) && Called(ds[n], args[n], h, d)
    ensures Run(ds + [d], args[..n + 1], hs + [h])
  {
    forall i | 0 <= i < n + 1
      ensures Called((ds + [d])[i], args[..n + 1][i], (hs + [h])[i], (ds + [d])[i + 1]) {
      if i < n { assert args[..n][i] == args[..n + 1][i]; }
    }
  }

  lemma {:induction false} RunGrows(ds: seq<Dictionary>, args: seq<Argument>, hs: seq<CString?>, i: nat, j: nat)
    requires Run(ds, args, hs) && i <= j <= |args|
    ensures Faithful(ds[j])
    ensures forall t | t in ds[i] :: t in ds[j] && ds[j][t] == ds[i][t]
    decreases j
  {
    if j > 0 {
      RunGrows(ds, args, hs, if i == j then i - 1 else i, j - 1);
      assert Called(ds[j - 1], args[j - 1], hs[j - 1], ds[j]);
    }
  }

  /** The handle of call `i` is its handle at the end of the run. */
  lemma HandleStays(ds: seq<Dictionary>, args: seq<Argument>, hs: seq<CString?>, i: nat)
    requires Run(ds, args, hs) && i < |args| && args[i] != Null
    ensures var s, d := args[i].text, ds[|args|];
            Faithful(d) && s in d && d[s] == hs[i] && hs[i].text == s
  {
    assert Called(ds[i], args[i], hs[i], ds[i + 1]);
    RunGrows(ds, args, hs, i, i);
    FaithfulStays(ds[i], args[i].text, hs[i], ds[i + 1]);
    RunGrows(ds, args, hs, i + 1, |args|);
  }

  /** Over a whole run, two calls return the same handle exactly when they were given equal contents,
      or were both given null. */
  lemma HandlesIdentifyTexts(ds: seq<Dictionary>, args: seq<Argument>, hs: seq<CString?>)
    requires Run(ds, args, hs)
    ensures Identifying(args, hs)
  {
    forall i | 0 <= i < |args|
      ensures if args[i] == Null then hs[i] == null else hs[i] != null && hs[i].text == args[i].text {
      assert Called(ds[i], args[i], hs[i], ds[i + 1]);
      if args[i] != Null { HandleStays(ds, args, hs, i); }
    }
    forall i, j | 0 <= i < |args| && 0 <= j < |args| && args[i] == args[j] ensures hs[i] == hs[j] {
      if args[i] != Null {
        HandleStays(ds, args, hs, i);
        HandleStays(ds, args, hs, j);
      }
    }
  }

  /** What callers rely on: each handle stands for its own text, and pointer equality is equality of contents. */
  ghost predicate Identifying(args: seq<Argument>, hs: seq<CString?>) {
    && |hs| == |args|
    && (forall i | 0 <= i < |args| :: args[i] == Null <==> hs[i] == null)
    && (forall i | 0 <= i < |args| && args[i] != Null :: hs[i].text == args[i].text)
    && (forall i, j | 0 <= i < |args| && 0 <= j < |args| :: hs[i] == hs[j] <==> args[i] == args[j])
  }
}
