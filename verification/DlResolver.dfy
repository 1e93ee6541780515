/**
  The resolver for libraries bound into the executable: a NULL-terminated list of entries,
  each with a NULL-terminated symbol table, in front of the system's dlopen family.
 */
module DlResolver {
  import opened Wrappers

  datatype Sym = Sym(symname: Option<string>, addr: int)

  datatype Dll = Dll(fname: Option<string>, syms: seq<Sym>)

  /** RTLD_DEFAULT, the address of entry index of the list, or a handle of the system's. */
  datatype Handle = RtldDefault | Entry(index: nat) | System(id: int)

  /** What a lookup comes to: an address of a bound symbol, NULL, or whatever the system's
      dlsym says about (handle, name). */
  datatype Answer = Addr(addr: int) | Null | AskSystem(handle: Handle, name: string)

  datatype Closing = NoOp | CloseSystem(handle: Handle)

  /** The system's dlopen. */
  type SystemOpen = (Option<string>, int) -> int

  // ------------------------------------------------------------------
  // Terminated tables as sequences
  // ------------------------------------------------------------------

  /** The symbols before the terminator, as (name, address). */
  function Symbols(syms: seq<Sym>): seq<(string, int)> {
    if syms == [] || syms[0].symname.None? then []
    else [(syms[0].symname.value, syms[0].addr)] + Symbols(syms[1..])
  }

  /** The entries before the terminator. */
  function Entries(list: seq<Dll>): (es: seq<Dll>)
    ensures |es| <= |list| && es == list[..|es|]
    ensures forall k :: 0 <= k < |es| ==> es[k].fname.Some?
    ensures |es| < |list| ==> list[|es|].fname.None?
  {
    if list == [] || list[0].fname.None? then [] else [list[0]] + Entries(list[1..])
  }

  /** Every symbol of every entry, in list order. */
  function AllSymbols(es: seq<Dll>): seq<(string, int)> {
    if es == [] then [] else Symbols(es[0].syms) + AllSymbols(es[1..])
  }

  /** First match. */
  function Lookup(symbols: seq<(string, int)>, name: string): Option<int> {
    if symbols == [] then None
    else if symbols[0].0 == name then Some(symbols[0].1)
    else Lookup(symbols[1..], name)
  }

  ghost predicate FirstAt(symbols: seq<(string, int)>, name: string, k: int) {
    0 <= k < |symbols| && symbols[k].0 == name && forall j :: 0 <= j < k ==> symbols[j].0 != name
  }

  lemma {:induction false} LookupIsFirst(symbols: seq<(string, int)>, name: string)
    ensures Lookup(symbols, name).None? <==> forall k :: 0 <= k < |symbols| ==> symbols[k].0 != name
    ensures forall k :: FirstAt(symbols, name, k) ==> Lookup(symbols, name) == Some(symbols[k].1)
  {
    if symbols != [] && symbols[0].0 != name {
      LookupIsFirst(symbols[1..], name);
      assert forall k :: 1 <= k < |symbols| ==> symbols[k] == symbols[1..][k - 1];
      forall k | FirstAt(symbols, name, k) ensures Lookup(symbols, name) == Some(symbols[k].1) {
        assert FirstAt(symbols[1..], name, k - 1);
      }
    }
  }

  lemma {:induction false} LookupConcat(a: seq<(string, int)>, b: seq<(string, int)>, name: string)
    ensures Lookup(a + b, name) == if Lookup(a, name).Some? then Lookup(a, name) else Lookup(b, name)
  {
    if a == [] {
      assert a + b == b;
    } else {
      assert (a + b)[1..] == a[1..] + b;
      LookupConcat(a[1..], b, name);
    }
  }

  // ------------------------------------------------------------------
  // What the routines answer
  // ------------------------------------------------------------------

  predicate IsBoundHandle(list: seq<Dll>, h: Handle) {
    h.Entry? && h.index < |Entries(list)|
  }

  /** The first entry with that name, or |es|. */
  function FindEntry(es: seq<Dll>, fname: string): (i: nat)
    ensures i <= |es| && (i < |es| ==> es[i].fname == Some(fname))
    ensures forall k :: 0 <= k < i ==> es[k].fname != Some(fname)
  {
    if es == [] || es[0].fname == Some(fname) then 0 else 1 + FindEntry(es[1..], fname)
  }

  function Open(list: seq<Dll>, pathname: Option<string>, mode: int, sys: SystemOpen): Handle {
    var es := Entries(list);
    if pathname.Some? && FindEntry(es, pathname.value) < |es| then Entry(FindEntry(es, pathname.value))
    else System(sys(pathname, mode))
  }

  function Resolve(list: seq<Dll>, h: Handle, name: string): Answer {
    if h.RtldDefault? then
      match Lookup(AllSymbols(Entries(list)), name)
      case Some(a) => Addr(a)
      case None => AskSystem(h, name)
    else if IsBoundHandle(list, h) then
      match Lookup(Symbols(list[h.index].syms), name)
      case Some(a) => Addr(a)
      case None => Null
    else AskSystem(h, name)
  }

  function Close(list: seq<Dll>, h: Handle): Closing {
    if IsBoundHandle(list, h) then NoOp else CloseSystem(h)
  }

  // ------------------------------------------------------------------
  // The routines
  // ------------------------------------------------------------------

  /** A table walk relies on its terminator. */
  ghost predicate Terminated(syms: seq<Sym>) {
    exists k :: 0 <= k < |syms| && syms[k].symname.None?
  }

  ghost predicate WellFormed(list: seq<Dll>) {
    |Entries(list)| < |list| && forall k :: 0 <= k < |Entries(list)| ==> Terminated(list[k].syms)
  }

  method IsBound(list: seq<Dll>, test: Handle) returns (bound: bool)
    requires WellFormed(list)
    ensures bound == IsBoundHandle(list, test)
    ensures bound <==> test.Entry? && test.index < |list| && forall k :: 0 <= k <= test.index ==> list[k].fname.Some?
  {
    ghost var n := |Entries(list)|;
    var l := 0;
    while list[l].fname.Some?
      invariant 0 <= l <= n
      invariant forall k :: 0 <= k < l ==> test != Entry(k)
      decreases n - l
    {
      if test == Entry(l) {
        return true;
      }
      l := l + 1;
    }
    bound := false;
  }

  method BoundDlopen(list: seq<Dll>, pathname: Option<string>, mode: int, sys: SystemOpen) returns (h: Handle)
    requires WellFormed(list)
    ensures h == Open(list, pathname, mode, sys)
  {
    ghost var es := Entries(list);
    var l := 0;
    while list[l].fname.Some?
      invariant 0 <= l <= |es|
      invariant pathname.Some? ==> forall k :: 0 <= k < l ==> es[k].fname != pathname
      decreases |es| - l
    {
      assert es[l] == list[l];
      if pathname.Some? && list[l].fname.value == pathname.value {
        return Entry(l);
      }
      l := l + 1;
    }
    h := System(sys(pathname, mode));
  }

  /** The inner loop: one symbol table. */
  method SearchTable(syms: seq<Sym>, name: string) returns (found: Option<int>)
    requires Terminated(syms)
    ensures found == Lookup(Symbols(syms), name)
  {
    ghost var last :| 0 <= last < |syms| && syms[last].symname.None?;
    var s := 0;
    assert syms[0..] == syms;
    while syms[s].symname.Some?
      invariant 0 <= s <= last
      invariant Lookup(Symbols(syms), name) == Lookup(Symbols(syms[s..]), name)
      decreases last - s
    {
      SymbolsStep(syms, s);
      if name == syms[s].symname.value {
        return Some(syms[s].addr);
      }
      s := s + 1;
    }
    found := None;
  }

  lemma SymbolsStep(syms: seq<Sym>, s: nat)
    requires s < |syms| && syms[s].symname.Some?
    ensures Symbols(syms[s..]) == [(syms[s].symname.value, syms[s].addr)] + Symbols(syms[s + 1..])
  {
    assert syms[s..][1..] == syms[s + 1..];
  }

  method BoundDlsym(list: seq<Dll>, handle: Handle, name: string) returns (answer: Answer)
    requires WellFormed(list)
    ensures answer == Resolve(list, handle, name)
  {
    ghost var es := Entries(list);
    if handle.RtldDefault? {
      var l := 0;
      assert es[0..] == es;
      while list[l].fname.Some?
        invariant 0 <= l <= |es|
        invariant Lookup(AllSymbols(es), name) == Lookup(AllSymbols(es[l..]), name)
        decreases |es| - l
      {
        AllSymbolsStep(es, l, name);
        var found := SearchTable(list[l].syms, name);
        if found.Some? {
          return Addr(found.value);
        }
        l := l + 1;
      }
    }
    var bound := IsBound(list, handle);
    if !bound {
      return AskSystem(handle, name);
    }
    var found := SearchTable(list[handle.index].syms, name);
    answer := match found case Some(a) => Addr(a) case None => Null;
  }

  lemma AllSymbolsStep(es: seq<Dll>, l: nat, name: string)
    requires l < |es|
    ensures var here := Lookup(Symbols(es[l].syms), name);
      Lookup(AllSymbols(es[l..]), name) == if here.Some? then here else Lookup(AllSymbols(es[l + 1..]), name)
  {
    assert es[l..][1..] == es[l + 1..];
    LookupConcat(Symbols(es[l].syms), AllSymbols(es[l + 1..]), name);
  }

  method BoundDlclose(list: seq<Dll>, handle: Handle) returns (c: Closing)
    requires WellFormed(list)
    ensures c == Close(list, handle)
  {
    var bound := IsBound(list, handle);
    if !bound {
      return CloseSystem(handle);
    }
    c := NoOp;
  }

  // ------------------------------------------------------------------
  // Terminators
  // ------------------------------------------------------------------

  /** A symbol table is what precedes its first entry without a name, as it stands. */
  lemma {:induction false} SymbolsAre(syms: seq<Sym>, t: nat)
    requires t <= |syms| && (t < |syms| ==> syms[t].symname.None?)
    requires forall k :: 0 <= k < t ==> syms[k].symname.Some?
    ensures |Symbols(syms)| == t
    ensures forall k :: 0 <= k < t ==> Symbols(syms)[k] == (syms[k].symname.value, syms[k].addr)
  {
    if t > 0 {
      SymbolsAre(syms[1..], t - 1);
      assert forall k :: 1 <= k < t ==> syms[k] == syms[1..][k - 1];
    }
  }

  /** The entries of the list are those before its first terminator t. A handle is one of them,
      and searches its own table, or everything about it is left to the system, except that the
      default handle tries the bound tables first. */
  lemma HandleKinds(list: seq<Dll>, t: nat, h: Handle, name: string)
    requires t < |list| && list[t].fname.None? && forall k :: 0 <= k < t ==> list[k].fname.Some?
    ensures Entries(list) == list[..t]
    ensures if h.Entry? && h.index < t then
              && Close(list, h) == NoOp
              && Resolve(list, h, name)
                   == match Lookup(Symbols(list[h.index].syms), name) case Some(a) => Addr(a) case None => Null
            else
              && Close(list, h) == CloseSystem(h)
              && (h != RtldDefault ==> Resolve(list, h, name) == AskSystem(h, name))
  {
    EntriesAre(list, t);
  }

  lemma {:induction false} EntriesAre(list: seq<Dll>, t: nat)
    requires t < |list| && list[t].fname.None? && forall k :: 0 <= k < t ==> list[k].fname.Some?
    ensures Entries(list) == list[..t]
  {
    if t > 0 {
      EntriesAre(list[1..], t - 1);
      assert list[..t] == [list[0]] + list[1..][..t - 1];
    }
  }

  // ------------------------------------------------------------------
  // Across the routines
  // ------------------------------------------------------------------

  /** Without a name there is nothing to compare: the system opens the program itself. */
  lemma OpenNoName(list: seq<Dll>, mode: int, sys: SystemOpen)
    ensures Open(list, None, mode, sys) == System(sys(None, mode))
  {
  }

  /** Opening yields the first entry of that name, and the system's handle only when no entry
      has it. */
  lemma OpenFindsFirst(list: seq<Dll>, fname: string, mode: int, sys: SystemOpen)
    ensures var h, n := Open(list, Some(fname), mode, sys), |Entries(list)|;
      if exists k :: 0 <= k < n && list[k].fname == Some(fname) then
        && h.Entry? && h.index < n && list[h.index].fname == Some(fname)
        && forall k :: 0 <= k < h.index ==> list[k].fname != Some(fname)
      else h == System(sys(Some(fname), mode))
  {
    var es := Entries(list);
    assert forall k :: 0 <= k < |es| ==> es[k] == list[k];
  }

  /** A handle from opening a bound name stays inside the executable: it searches that
      entry's table only, never asks the system, and closes as a no-op. Any other handle of
      opening is the system's throughout. */
  lemma OpenedHandle(list: seq<Dll>, fname: string, mode: int, sys: SystemOpen, name: string)
    ensures var h := Open(list, Some(fname), mode, sys);
      if h.Entry? then
        && IsBoundHandle(list, h) && Close(list, h) == NoOp && !Resolve(list, h, name).AskSystem?
        && forall a :: Resolve(list, h, name) == Addr(a) <==> Lookup(Symbols(list[h.index].syms), name) == Some(a)
      else Close(list, h) == CloseSystem(h) && Resolve(list, h, name) == AskSystem(h, name)
  {
    OpenFindsFirst(list, fname, mode, sys);
  }

  lemma {:induction false} NoTableDefines(es: seq<Dll>, name: string)
    ensures Lookup(AllSymbols(es), name).None?
       <==> forall k :: 0 <= k < |es| ==> Lookup(Symbols(es[k].syms), name).None?
  {
    if es != [] {
      LookupConcat(Symbols(es[0].syms), AllSymbols(es[1..]), name);
      NoTableDefines(es[1..], name);
      assert forall k :: 1 <= k < |es| ==> es[k] == es[1..][k - 1];
    }
  }

  lemma {:induction false} EarliestTable(es: seq<Dll>, k: nat, name: string)
    requires k < |es| && Lookup(Symbols(es[k].syms), name).Some?
    requires forall j :: 0 <= j < k ==> Lookup(Symbols(es[j].syms), name).None?
    ensures Lookup(AllSymbols(es), name) == Lookup(Symbols(es[k].syms), name)
    decreases k
  {
    LookupConcat(Symbols(es[0].syms), AllSymbols(es[1..]), name);
    if k > 0 {
      EarliestTable(es[1..], k - 1, name);
    }
  }

  /** The default handle asks the system exactly for names that no bound table defines. */
  lemma DefaultFallsBackLast(list: seq<Dll>, name: string)
    ensures Resolve(list, RtldDefault, name) == AskSystem(RtldDefault, name)
       <==> forall k :: 0 <= k < |Entries(list)| ==> Lookup(Symbols(list[k].syms), name).None?
  {
    var es := Entries(list);
    NoTableDefines(es, name);
    assert forall k :: 0 <= k < |es| ==> es[k] == list[k];
  }

  /** Otherwise it answers from the earliest table that defines the name. */
  lemma DefaultPrefersEarlier(list: seq<Dll>, k: nat, name: string, a: int)
    requires k < |Entries(list)| && Lookup(Symbols(list[k].syms), name) == Some(a)
    requires forall j :: 0 <= j < k ==> Lookup(Symbols(list[j].syms), name).None?
    ensures Resolve(list, RtldDefault, name) == Addr(a)
  {
    var es := Entries(list);
    assert forall j :: 0 <= j < |es| ==> es[j] == list[j];
    EarliestTable(es, k, name);
  }
}
