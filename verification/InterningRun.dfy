/** Runs of `uniquestr`, in its two implementations. */
module InterningRun {
  import opened Interning
  import CharHash
  import CharTrie

  /** Call number `n` of a run. */
  method InternNext(t: CharHash.Table, args: seq<Argument>, n: nat, hs: seq<CString?>, ghost ds: seq<Dictionary>)
    returns (h: CString?, ghost ds': seq<Dictionary>)
    requires t.Valid() && n < |args| && Run(ds, args[..n], hs) && t.view.dictionary == ds[n]
    modifies t`view, t.table, t.view.cells`next
    ensures t.Valid() && fresh(t.view.cells - old(t.view.cells))
    ensures Run(ds', args[..n + 1], hs + [h]) && t.view.dictionary == ds'[n + 1]
  {
    h := t.UniqueStr(args[n]);
    ds' := ds + [t.view.dictionary];
    RunOneMore(ds, args, hs, n, h, t.view.dictionary);
  }

  /** Any sequence of calls of the `uniquestr` with the table of chains, null arguments included. */
  method InternAll(args: seq<Argument>) returns (t: CharHash.Table, hs: seq<CString?>)
    ensures t.Valid() && Identifying(args, hs)
  {
    t := new CharHash.Table();
    hs := [];
    ghost var ds := [t.view.dictionary];
    var n := 0;
    while n < |args|
      invariant n <= |args| && Run(ds, args[..n], hs) && t.view.dictionary == ds[n]
      invariant t.Valid() && fresh(t) && fresh(t.table) && fresh(t.view.cells)
    {
      var h;
      h, ds := InternNext(t, args, n, hs, ds);
      hs := hs + [h];
      n := n + 1;
    }
    assert args[..|args|] == args;
    HandlesIdentifyTexts(ds, args, hs);
  }

  /** Any sequence of calls of the `uniquestr` with the trie. */
  method InternAllInTrie(args: seq<Argument>) returns (t: CharTrie.Trie, hs: seq<CString?>)
    ensures t.Valid() && Identifying(args, hs)
  {
    t := new CharTrie.Trie();
    hs := [];
    ghost var ds := [t.dictionary];
    var n := 0;
    while n < |args|
      invariant n <= |args| && Run(ds, args[..n], hs) && t.dictionary == ds[n]
      invariant t.Valid() && fresh(t) && fresh(t.nodes)
    {
      var h := t.UniqueStr(args[n]);
      RunOneMore(ds, args, hs, n, h, t.dictionary);
      hs, ds := hs + [h], ds + [t.dictionary];
      n := n + 1;
    }
    assert args[..|args|] == args;
    HandlesIdentifyTexts(ds, args, hs);
  }
}
