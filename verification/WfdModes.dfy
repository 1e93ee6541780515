/**
  The display mode list: timings handed out as pointers into an array of modes, the
  enumeration that steps from one to the next, and the extension lists of the modes.
 */
module WfdModes {
  import opened Wrappers

  /** A key/value list; an entry without a key ends it. */
  datatype KeyVal = KeyVal(key: Option<string>, value: int)

  type ExtList = Option<seq<KeyVal>>

  datatype Mode = Mode(pixelClockKHz: nat, extList: ExtList)

  /** Where the modes live: the address of the first one, the size of a mode and the offset
      of its timing. */
  datatype Layout = Layout(base: nat, size: nat, offset: nat) {
    predicate Valid() {
      base > 0 && offset < size
    }

    function ModeAddress(i: nat): nat {
      base + i * size
    }

    function TimingAddress(i: nat): nat {
      ModeAddress(i) + offset
    }
  }

  /** NULL as address 0. */
  const NULL_POINTER: nat := 0

  /** Pointer to a timing to pointer to its mode. */
  function CastTimingToMode(layout: Layout, timing: nat): nat
    requires timing == NULL_POINTER || timing >= layout.offset
  {
    if timing == NULL_POINTER then NULL_POINTER else timing - layout.offset
  }

  lemma CastInvertsTiming(layout: Layout, i: nat)
    requires layout.Valid()
    ensures layout.TimingAddress(i) == layout.base + i * layout.size + layout.offset >= layout.offset
    ensures CastTimingToMode(layout, layout.TimingAddress(i)) == layout.ModeAddress(i) != NULL_POINTER
    ensures CastTimingToMode(layout, 0) == 0
  {
    assert i * layout.size >= 0;
  }

  lemma NextMode(layout: Layout, i: nat)
    ensures layout.ModeAddress(i) + layout.size == layout.ModeAddress(i + 1)
  {
    assert (i + 1) * layout.size == i * layout.size + layout.size;
  }

  /** The mode at an address of the array, by position. */
  function IndexOf(layout: Layout, mode: nat): nat
    requires layout.Valid() && mode >= layout.base
  {
    (mode - layout.base) / layout.size
  }

  lemma IndexOfMode(layout: Layout, i: nat)
    requires layout.Valid()
    ensures IndexOf(layout, layout.ModeAddress(i)) == i
  {
    DivExact(i, layout.size);
  }

  lemma DivExact(i: nat, n: nat)
    requires n > 0
    ensures i * n / n == i
  {
    var d := i * n / n - i;
    assert d * n == (i * n / n) * n - i * n;
    assert d >= 1 ==> d * n >= n;
    assert d <= -1 ==> d * n + n <= 0;
  }

  // ------------------------------------------------------------------
  // The mode list
  // ------------------------------------------------------------------

  /** The modes of a port and the address they are at; first_mode may be NULL. */
  datatype ModeList = NoModes | Modes(layout: Layout, modes: seq<Mode>)

  /** The number of modes before the first zero pixel clock. */
  function End(modes: seq<Mode>): (n: nat)
    ensures n <= |modes| && (n < |modes| ==> modes[n].pixelClockKHz == 0)
    ensures forall k :: 0 <= k < n ==> modes[k].pixelClockKHz != 0
  {
    if modes == [] || modes[0].pixelClockKHz == 0 then 0 else 1 + End(modes[1..])
  }

  ghost predicate WellFormed(list: ModeList) {
    list.Modes? ==> list.layout.Valid() && End(list.modes) < |list.modes|
  }

  function Count(list: ModeList): nat {
    if list.NoModes? then 0 else End(list.modes)
  }

  /** The pointer that stands for position i of the enumeration. */
  function Timing(list: ModeList, i: nat): nat {
    if i < Count(list) then list.layout.TimingAddress(i) else NULL_POINTER
  }

  /** A pointer that an earlier call returned: NULL to start, or the timing at i - 1. */
  predicate Resumes(list: ModeList, prev: nat, i: nat) {
    if i == 0 then prev == NULL_POINTER else i <= Count(list) && prev == Timing(list, i - 1)
  }

  /** The address arithmetic of one call that resumes at i. */
  lemma PointerStep(layout: Layout, i: nat)
    requires layout.Valid()
    ensures i == 0 ==> layout.ModeAddress(i) == layout.base
    ensures i > 0 ==>
      var prev := layout.TimingAddress(i - 1);
      prev >= layout.offset && prev != NULL_POINTER
      && CastTimingToMode(layout, prev) + layout.size == layout.ModeAddress(i)
    ensures layout.ModeAddress(i) >= layout.base > NULL_POINTER && IndexOf(layout, layout.ModeAddress(i)) == i
  {
    CastInvertsTiming(layout, i);
    IndexOfMode(layout, i);
    if i > 0 {
      CastInvertsTiming(layout, i - 1);
      NextMode(layout, i - 1);
    }
  }

  method ModeListGetNext(list: ModeList, prevTiming: nat, ghost i: nat) returns (timing: nat)
    requires WellFormed(list) && Resumes(list, prevTiming, i)
    ensures timing == Timing(list, i)
  {
    var m := if list.NoModes? then NULL_POINTER else list.layout.base;
    if list.Modes? {
      PointerStep(list.layout, i);
    }
    if prevTiming != NULL_POINTER {
      m := CastTimingToMode(list.layout, prevTiming) + list.layout.size;
    }
    if m != NULL_POINTER && list.modes[IndexOf(list.layout, m)].pixelClockKHz == 0 {
      m := NULL_POINTER;
    }
    timing := if m != NULL_POINTER then m + list.layout.offset else NULL_POINTER;
  }

  /** A client's loop: from NULL, ask for the next timing until there is none. */
  method Enumerate(list: ModeList) returns (timings: seq<nat>)
    requires WellFormed(list)
    ensures list.NoModes? ==> timings == []
    ensures list.Modes? ==>
      && |timings| < |list.modes| && list.modes[|timings|].pixelClockKHz == 0
      && forall k :: 0 <= k < |timings| ==>
           && list.modes[k].pixelClockKHz != 0
           && timings[k] == list.layout.base + k * list.layout.size + list.layout.offset
    ensures forall j, k :: 0 <= j < k < |timings| ==> timings[j] != timings[k]
  {
    timings := [];
    var timing := ModeListGetNext(list, NULL_POINTER, 0);
    if list.Modes? {
      CastInvertsTiming(list.layout, 0);
    }
    while timing != NULL_POINTER
      invariant |timings| <= Count(list) && timing == Timing(list, |timings|)
      invariant forall k :: 0 <= k < |timings| ==> timings[k] == list.layout.TimingAddress(k)
      invariant |timings| < Count(list) ==> timing != NULL_POINTER
      decreases Count(list) - |timings|
    {
      timings := timings + [timing];
      timing := ModeListGetNext(list, timing, |timings|);
      CastInvertsTiming(list.layout, |timings|);
    }
    forall j, k | 0 <= j < k < |timings| ensures timings[j] != timings[k] {
      LaterIsHigher(list.layout, j, k);
    }
  }

  lemma {:induction false} LaterIsHigher(layout: Layout, j: nat, k: nat)
    requires layout.Valid() && j < k
    ensures layout.TimingAddress(j) < layout.TimingAddress(k)
  {
    NextMode(layout, k - 1);
    if j < k - 1 {
      LaterIsHigher(layout, j, k - 1);
    }
  }

  // ------------------------------------------------------------------
  // Extensions
  // ------------------------------------------------------------------

  /** The entry of the first matching key before the end of the list. */
  function FirstMatch(exts: seq<KeyVal>, key: string): Option<KeyVal> {
    if exts == [] || exts[0].key.None? then None
    else if exts[0].key.value == key then Some(exts[0])
    else FirstMatch(exts[1..], key)
  }

  /** Entry k is the first one with that key, and no terminator precedes it. */
  ghost predicate FirstKey(exts: seq<KeyVal>, key: string, k: int) {
    && 0 <= k < |exts| && exts[k].key == Some(key)
    && forall j :: 0 <= j < k ==> exts[j].key.Some? && exts[j].key != Some(key)
  }

  lemma {:induction false} FirstMatchIsFirstKey(exts: seq<KeyVal>, key: string)
    ensures FirstMatch(exts, key).Some? <==> exists k :: FirstKey(exts, key, k)
    ensures forall k :: FirstKey(exts, key, k) ==> FirstMatch(exts, key) == Some(exts[k])
  {
    if exts == [] || exts[0].key.None? {
    } else if exts[0].key.value == key {
      assert FirstKey(exts, key, 0);
    } else {
      var rest := exts[1..];
      FirstMatchIsFirstKey(rest, key);
      forall k | FirstKey(exts, key, k) ensures FirstKey(rest, key, k - 1) {
        assert forall j :: 0 <= j < |rest| ==> rest[j] == exts[j + 1];
      }
      forall k | FirstKey(rest, key, k) ensures FirstKey(exts, key, k + 1) {
        assert forall j :: 1 <= j < |exts| ==> exts[j] == rest[j - 1];
      }
    }
  }

  /** found is the first entry of the list with that key, or none if there is no such entry
      before the end. */
  ghost predicate IsFirst(list: ExtList, key: string, found: Option<KeyVal>) {
    if list.None? then found.None?
    else
      && (found.Some? <==> exists k :: FirstKey(list.value, key, k))
      && forall k :: FirstKey(list.value, key, k) ==> found == Some(list.value[k])
  }

  function Extension(list: ExtList, key: string): Option<KeyVal> {
    match list case None => None case Some(exts) => FirstMatch(exts, key)
  }

  ghost predicate Terminated(list: ExtList) {
    list.Some? ==> exists k :: 0 <= k < |list.value| && list.value[k].key.None?
  }

  method GetExtFromList(list: ExtList, key: string) returns (found: Option<KeyVal>)
    requires Terminated(list)
    ensures found == Extension(list, key) && IsFirst(list, key, found)
  {
    if list.Some? {
      FirstMatchIsFirstKey(list.value, key);
    }
    if list.None? {
      return None;
    }
    var exts := list.value;
    ghost var last :| 0 <= last < |exts| && exts[last].key.None?;
    var i := 0;
    assert exts[0..] == exts;
    while true
      invariant 0 <= i <= last
      invariant FirstMatch(exts, key) == FirstMatch(exts[i..], key)
      decreases last - i
    {
      assert exts[i..][1..] == exts[i + 1..];
      if exts[i].key.None? {
        return None;
      } else if exts[i].key.value == key {
        return Some(exts[i]);
      }
      i := i + 1;
    }
  }

  /** The extension list reached through a timing is that of its own mode. */
  method ModeGetExtension(list: ModeList, timing: nat, key: string, ghost i: nat) returns (found: Option<KeyVal>)
    requires WellFormed(list) && i < Count(list) && timing == list.layout.TimingAddress(i)
    requires Terminated(list.modes[i].extList)
    ensures found == Extension(list.modes[i].extList, key) && IsFirst(list.modes[i].extList, key, found)
  {
    CastInvertsTiming(list.layout, i);
    IndexOfMode(list.layout, i);
    var mode := list.modes[IndexOf(list.layout, CastTimingToMode(list.layout, timing))];
    found := GetExtFromList(mode.extList, key);
  }
}
