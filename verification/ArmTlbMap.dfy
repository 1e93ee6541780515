/**
  What a finished translation table means for every 32-bit address.
 */
module ArmTlbMap {
  import opened Word32
  import opened ArmTlb

  // ------------------------------------------------------------------
  // Predicates a caller can check on the region table
  // ------------------------------------------------------------------

  predicate AttrsOk(rs: seq<Region>) {
    forall r :: r in rs ==> AttrOk(r.attr)
  }

  /** Each region starts at or after the last section its predecessor claims. */
  predicate Sorted(rs: seq<Region>) {
    forall k :: 0 <= k < |rs| - 1 ==> First(rs[k]) + Pages(rs[k].len) <= First(rs[k + 1])
  }

  predicate Covers(r: Region, i: nat) {
    First(r) <= i < First(r) + Pages(r.len)
  }

  /** Region k writes a slot although it starts below the cursor its predecessors left. */
  predicate StartsBehind(rs: seq<Region>, k: nat)
    requires k < |rs|
  {
    var c := Cursor(rs[..k]);
    Count(c, rs[k]) > 0 && First(rs[k]) < c
  }

  predicate NoOverlap(rs: seq<Region>) {
    forall k :: 0 <= k < |rs| ==> !StartsBehind(rs, k)
  }

  // ------------------------------------------------------------------
  // Slots
  // ------------------------------------------------------------------

  lemma NoOverlapPrefix(rs: seq<Region>)
    requires rs != []
    ensures NoOverlap(rs) <==> NoOverlap(rs[..|rs| - 1]) && !StartsBehind(rs, |rs| - 1)
  {
    var prior := rs[..|rs| - 1];
    assert forall k :: 0 <= k < |prior| ==> prior[..k] == rs[..k];
    assert forall k :: 0 <= k < |prior| ==> StartsBehind(prior, k) == StartsBehind(rs, k);
  }

  /** Every slot maps at or below its own section, whatever the table. */
  lemma {:induction false} SectionAtOrBelow(rs: seq<Region>, i: nat)
    requires i < TLB_SIZE
    ensures Slot(rs, i).Section() <= i
  {
    if rs != [] {
      SectionAtOrBelow(rs[..|rs| - 1], i);
    }
  }

  lemma {:induction false} SlotAttrOk(rs: seq<Region>, i: nat)
    requires i < TLB_SIZE && AttrsOk(rs)
    ensures AttrOk(Slot(rs, i).attr)
  {
    if rs != [] {
      SlotAttrOk(rs[..|rs| - 1], i);
    }
  }

  lemma {:induction false} NoOverlapIsIdentity(rs: seq<Region>, i: nat)
    requires i < TLB_SIZE && NoOverlap(rs)
    ensures Slot(rs, i).Section() == i
  {
    if rs != [] {
      NoOverlapPrefix(rs);
      NoOverlapIsIdentity(rs[..|rs| - 1], i);
      var k := |rs| - 1;
      assert !StartsBehind(rs, k);
    }
  }

  /** Later regions never rewrite a slot. */
  lemma {:induction false} SlotStable(rs: seq<Region>, k: nat, i: nat)
    requires k <= |rs| && i < Cursor(rs[..k])
    ensures i < Cursor(rs) && Slot(rs, i) == Slot(rs[..k], i)
    decreases |rs|
  {
    if k < |rs| {
      var prior := rs[..|rs| - 1];
      assert prior[..k] == rs[..k];
      SlotStable(prior, k, i);
    } else {
      assert rs[..k] == rs;
    }
  }

  /** Any table, sorted or not, pointwise: the slots that region k writes carry its attributes
      and consecutive sections from its first one on ... */
  lemma WrittenSlot(rs: seq<Region>, k: nat, i: nat)
    requires k < |rs|
    requires var c := Cursor(rs[..k]); var begin := Max(c, First(rs[k])); begin <= i < begin + Count(c, rs[k])
    ensures Slot(rs, i).attr == rs[k].attr
    ensures Slot(rs, i).Section() == First(rs[k]) + (i - Max(Cursor(rs[..k]), First(rs[k])))
  {
    var upto := rs[..k + 1];
    assert upto[..k] == rs[..k] && upto[k] == rs[k];
    SlotStable(rs, k + 1, i);
  }

  /** ... the slots it skips are holes ... */
  lemma SkippedSlot(rs: seq<Region>, k: nat, i: nat)
    requires k < |rs| && Cursor(rs[..k]) <= i < First(rs[k])
    ensures Slot(rs, i) == Hole(i)
  {
    var upto := rs[..k + 1];
    assert upto[..k] == rs[..k] && upto[k] == rs[k];
    SlotStable(rs, k + 1, i);
  }

  /** ... and so are the slots after the last region. */
  lemma TailSlot(rs: seq<Region>, i: nat)
    requires Cursor(rs) <= i < TLB_SIZE
    ensures Slot(rs, i) == Hole(i)
  {
  }

  /** These cases cover every slot. */
  lemma {:induction false} EverySlot(rs: seq<Region>, i: nat)
    requires i < Cursor(rs)
    ensures exists k :: 0 <= k < |rs| && Cursor(rs[..k]) <= i < Cursor(rs[..k + 1])
  {
    var n := |rs| - 1;
    assert rs[..n + 1] == rs;
    if i < Cursor(rs[..n]) {
      EverySlot(rs[..n], i);
      var k :| 0 <= k < n && Cursor(rs[..n][..k]) <= i < Cursor(rs[..n][..k + 1]);
      assert rs[..n][..k] == rs[..k] && rs[..n][..k + 1] == rs[..k + 1];
    }
  }

  /** A region that starts behind the cursor misplaces the slot at the cursor. */
  lemma OverlapBreaksIdentity(rs: seq<Region>, k: nat)
    requires k < |rs| && StartsBehind(rs, k)
    ensures var i := Cursor(rs[..k]); i < TLB_SIZE && Slot(rs, i).Section() == First(rs[k]) < i
  {
    var i := Cursor(rs[..k]);
    var upto := rs[..k + 1];
    assert upto[..k] == rs[..k] && upto[k] == rs[k];
    SlotStable(rs, k + 1, i);
  }

  // ------------------------------------------------------------------
  // Addresses
  // ------------------------------------------------------------------

  /** The walk of va through the slot of its section. */
  lemma WalkSlot(rs: seq<Region>, va: word)
    requires AttrsOk(rs)
    ensures var e := Slot(rs, va / PAGE_SIZE);
      Walk(Table(rs), va) == Section(e.Section() * PAGE_SIZE + va % PAGE_SIZE,
                                     Field(e.attr, 8, 2) == 1, Field(e.attr, 4, 2) == 1, 15, 3)
  {
    var e := Slot(rs, va / PAGE_SIZE);
    SlotAttrOk(rs, va / PAGE_SIZE);
    RegionDecode(e.base, e.attr);
  }

  /** Totality: any table whose attributes keep sections sections maps every address, with
      domain 15 and read/write access, at or below itself and with the same page offset. */
  lemma EveryAddressIsMapped(rs: seq<Region>, va: word)
    requires AttrsOk(rs)
    ensures var m := Walk(Table(rs), va);
      && m.Section? && m.domain == 15 && m.ap == 3
      && m.pa <= va && m.pa % PAGE_SIZE == va % PAGE_SIZE
  {
    WalkSlot(rs, va);
    SectionAtOrBelow(rs, va / PAGE_SIZE);
    LowerSection(Slot(rs, va / PAGE_SIZE).Section(), va);
  }

  lemma LowerSection(s: nat, va: word)
    requires s <= va / PAGE_SIZE
    ensures var pa := s * PAGE_SIZE + va % PAGE_SIZE;
      && pa <= va && pa % PAGE_SIZE == va % PAGE_SIZE
      && (pa == va <==> s == va / PAGE_SIZE)
  {
    DivModUnique(s * PAGE_SIZE + va % PAGE_SIZE, PAGE_SIZE, s, va % PAGE_SIZE);
  }

  /** The address at which a region behind the cursor shows: it maps to the region's start
      section, below itself. */
  lemma MisplacedAddress(rs: seq<Region>, k: nat)
    requires AttrsOk(rs) && k < |rs| && StartsBehind(rs, k)
    ensures var va := Cursor(rs[..k]) * PAGE_SIZE;
      va < WORD_LIMIT && Walk(Table(rs), va).Section?
      && Walk(Table(rs), va).pa == First(rs[k]) * PAGE_SIZE < va
  {
    OverlapBreaksIdentity(rs, k);
    var va: word := Cursor(rs[..k]) * PAGE_SIZE;
    assert va / PAGE_SIZE == Cursor(rs[..k]) && va % PAGE_SIZE == 0;
    WalkSlot(rs, va);
  }

  ghost predicate FlatMap(tlb: seq<word>)
    requires |tlb| == TLB_SIZE
  {
    forall va: word :: Walk(tlb, va).Section? && Walk(tlb, va).pa == va
  }

  /** The exact condition for a flat map, for tables in any order. */
  lemma FlatMapIff(rs: seq<Region>)
    requires AttrsOk(rs)
    ensures FlatMap(Table(rs)) <==> NoOverlap(rs)
  {
    if NoOverlap(rs) {
      forall va: word ensures Walk(Table(rs), va).Section? && Walk(Table(rs), va).pa == va {
        WalkSlot(rs, va);
        NoOverlapIsIdentity(rs, va / PAGE_SIZE);
      }
    } else {
      var k :| 0 <= k < |rs| && StartsBehind(rs, k);
      MisplacedAddress(rs, k);
    }
  }

  // ------------------------------------------------------------------
  // Sorted tables
  // ------------------------------------------------------------------

  lemma {:induction false} SortedCursor(rs: seq<Region>)
    requires Sorted(rs) && rs != []
    ensures Cursor(rs) == Min(First(rs[|rs| - 1]) + Pages(rs[|rs| - 1].len), TLB_SIZE)
    ensures Cursor(rs[..|rs| - 1]) <= First(rs[|rs| - 1])
  {
    var prior := rs[..|rs| - 1];
    if prior != [] {
      SortedCursor(prior);
    }
  }

  lemma {:induction false} SortedNoOverlap(rs: seq<Region>)
    requires Sorted(rs)
    ensures NoOverlap(rs)
  {
    if rs != [] {
      SortedNoOverlap(rs[..|rs| - 1]);
      SortedCursor(rs);
      NoOverlapPrefix(rs);
    }
  }

  /** The flat map of the header's own description: unaligned starts and regions that run
      past 4G included. */
  lemma SortedIsFlat(rs: seq<Region>)
    requires Sorted(rs) && AttrsOk(rs)
    ensures FlatMap(Table(rs))
  {
    SortedNoOverlap(rs);
    FlatMapIff(rs);
  }

  lemma {:induction false} SortedPairwise(rs: seq<Region>, j: nat, k: nat)
    requires Sorted(rs) && j < k < |rs|
    ensures First(rs[j]) + Pages(rs[j].len) <= First(rs[k])
  {
    if j + 1 < k {
      SortedPairwise(rs, j, k - 1);
    }
  }

  /** The cursor loops are a per-slot lookup. A slot covered by region k carries k's
      attributes and its own section ... */
  lemma {:induction false} SortedCovered(rs: seq<Region>, k: nat, i: nat)
    requires Sorted(rs) && k < |rs| && i < TLB_SIZE && Covers(rs[k], i)
    ensures i < Cursor(rs)
    ensures Slot(rs, i).Section() == i && Slot(rs, i).attr == rs[k].attr
    decreases |rs|
  {
    SortedCursor(rs);
    if k < |rs| - 1 {
      SortedCovered(rs[..|rs| - 1], k, i);
      SortedPairwise(rs, k, |rs| - 1);
    }
  }

  /** ... any other slot is an uncached hole ... */
  lemma {:induction false} SortedUncovered(rs: seq<Region>, i: nat)
    requires Sorted(rs) && i < TLB_SIZE
    requires forall k :: 0 <= k < |rs| ==> !Covers(rs[k], i)
    ensures Slot(rs, i).Section() == i && Slot(rs, i).attr == 0
  {
    if rs != [] {
      SortedCursor(rs);
      assert !Covers(rs[|rs| - 1], i);
      SortedUncovered(rs[..|rs| - 1], i);
    }
  }

  /** ... and at most one region covers it. */
  lemma SortedUnique(rs: seq<Region>, j: nat, k: nat, i: nat)
    requires Sorted(rs) && j < |rs| && k < |rs| && Covers(rs[j], i) && Covers(rs[k], i)
    ensures j == k
  {
    if j < k {
      SortedPairwise(rs, j, k);
    } else if k < j {
      SortedPairwise(rs, k, j);
    }
  }

  lemma WalkOwnSection(rs: seq<Region>, va: word, attr: word)
    requires AttrsOk(rs)
    requires var e := Slot(rs, va / PAGE_SIZE); e.Section() == va / PAGE_SIZE && e.attr == attr
    ensures Walk(Table(rs), va) == Section(va, Field(attr, 8, 2) == 1, Field(attr, 4, 2) == 1, 15, 3)
  {
    WalkSlot(rs, va);
  }

  /** The same for addresses: identity, with the cacheability of the covering region ... */
  lemma CoveredAddress(rs: seq<Region>, k: nat, va: word)
    requires Sorted(rs) && AttrsOk(rs) && k < |rs| && Covers(rs[k], va / PAGE_SIZE)
    ensures Walk(Table(rs), va)
         == Section(va, Field(rs[k].attr, 8, 2) == 1, Field(rs[k].attr, 4, 2) == 1, 15, 3)
  {
    SortedCovered(rs, k, va / PAGE_SIZE);
    WalkOwnSection(rs, va, rs[k].attr);
  }

  /** ... and uncached and unbuffered where no region covers the address. */
  lemma UncoveredAddress(rs: seq<Region>, va: word)
    requires Sorted(rs) && AttrsOk(rs)
    requires forall k :: 0 <= k < |rs| ==> !Covers(rs[k], va / PAGE_SIZE)
    ensures Walk(Table(rs), va) == Section(va, false, false, 15, 3)
  {
    SortedUncovered(rs, va / PAGE_SIZE);
    WalkOwnSection(rs, va, 0);
  }

  // ------------------------------------------------------------------
  // The table in plain numbers
  // ------------------------------------------------------------------

  /** 0xDE2 is bit 1, domain 15 in bits 5 to 8 and access 3 in bits 10 and 11. C and B do not
      overlap it. */
  lemma CacheBitsAdd(attr: word, common: nat)
    requires (attr == 0 || attr == 4 || attr == 8 || attr == 12) && common == 0xDE2
    ensures Or(attr, common) == attr + common
  {
    var low, high: nat := common % 16, common / 16;
    Pow2Values();
    OrBetween(attr / 4, attr, low, high, common - low);
  }

  /** The bits of x lie above low and below h. */
  lemma OrBetween(a: nat, x: nat, low: nat, high: nat, h: nat)
    requires x == a * Pow2(2) && h == high * Pow2(4)
    requires low < Pow2(2) && low < Pow2(4) && x + low < Pow2(4)
    ensures Or(x, h + low) == x + (h + low)
  {
    OrConcat(a, low, 2);
    OrConcat(high, low, 4);
    OrConcat(high, x + low, 4);
    OrRegroup(x, low, h);
  }

  lemma OrRegroup(x: nat, low: nat, h: nat)
    requires Or(x, low) == x + low && Or(h, low) == h + low && Or(h, x + low) == h + (x + low)
    ensures Or(x, h + low) == x + (h + low)
  {
    OrComm(h, low);
    OrComm(h, Or(x, low));
    OrAssoc(x, low, h);
  }

  /** Without regions every section maps to itself, uncached and unbuffered. */
  lemma EmptyTable(i: nat)
    requires i < 4096
    ensures Cursor([]) == 0 && Table([])[i] == i * 0x10_0000 + 0xDE2
  {
    HoleWord(i);
  }

  lemma HoleWord(i: nat)
    requires i < 4096
    ensures HoleDescriptor(i) == i * 0x10_0000 + 0xDE2
  {
    PlainWord(i, 0);
  }

  /** A section with C and B attributes: no two parts of its word overlap. */
  lemma PlainWord(section: nat, attr: word)
    requires section < 4096 && (attr == 0 || attr == 4 || attr == 8 || attr == 12)
    ensures RegionDescriptor(section * PAGE_SIZE, attr) == section * 0x10_0000 + attr + 0xDE2
  {
    var base: word := section * PAGE_SIZE;
    CacheBitsAdd(attr, COMMON);
    RegionSum(base, attr);
  }

  /** One more region moves the cursor past its first section and its ceil(len / 1M) pages, as
      far as the table goes. */
  lemma CursorGrows(rs: seq<Region>, r: Region)
    ensures var c, first, pages := Cursor(rs), r.start / 0x10_0000, (r.len + 0xF_FFFF) / 0x10_0000;
      var begin := if c < first then first else c;
      Cursor(rs + [r]) == if begin + pages < 4096 then begin + pages else 4096
  {
    assert (rs + [r])[..|rs|] == rs;
  }

  /** What it does to the table: below the old cursor nothing, then holes up to its first
      section, then its own words up to the new cursor, then holes. */
  lemma TableGrows(rs: seq<Region>, r: Region, i: nat, common: nat)
    requires i < 4096 && common == 0xDE2
    ensures var c, first := Cursor(rs), r.start / 0x10_0000;
      var begin := if c < first then first else c;
      Table(rs + [r])[i] ==
        if i < c then Table(rs)[i]
        else if begin <= i < Cursor(rs + [r]) then Or(Or((first + (i - begin)) * 0x10_0000, r.attr), common)
        else i * 0x10_0000 + common
  {
    SlotGrows(rs, r, i);
    var begin := Max(Cursor(rs), First(r));
    if i < Cursor(rs) {
    } else if begin <= i < Cursor(rs + [r]) {
      RegionWord(r.start, i - begin, r.attr, common);
    } else {
      HoleWord(i);
    }
  }

  lemma RegionWord(start: word, k: nat, attr: word, common: nat)
    requires start + k * PAGE_SIZE < WORD_LIMIT && common == 0xDE2
    ensures RegionDescriptor(start + k * PAGE_SIZE, attr)
         == Or(Or((start / 0x10_0000 + k) * 0x10_0000, attr), common)
  {
    SectionAfter(start, k);
  }

  lemma SlotGrows(rs: seq<Region>, r: Region, i: nat)
    requires i < TLB_SIZE
    ensures var c, begin := Cursor(rs), Max(Cursor(rs), First(r));
      var end := begin + Count(c, r);
      && Cursor(rs + [r]) == end
      && if i < c then Slot(rs + [r], i) == Slot(rs, i)
         else if begin <= i < end then
           r.start + (i - begin) * PAGE_SIZE < WORD_LIMIT
           && Slot(rs + [r], i) == Entry(r.start + (i - begin) * PAGE_SIZE, r.attr)
         else Slot(rs + [r], i) == Hole(i)
  {
    assert (rs + [r])[..|rs|] == rs;
  }

  lemma SectionAfter(start: word, k: nat)
    requires start + k * PAGE_SIZE < WORD_LIMIT
    ensures SectionBase(start + k * PAGE_SIZE) == (start / 0x10_0000 + k) * 0x10_0000
  {
  }

  /** Sorted tables with C and B attributes, as the words of the finished table. */
  lemma SortedWords(rs: seq<Region>, i: nat)
    requires forall k :: 0 <= k < |rs| - 1 ==>
      rs[k].start / 0x10_0000 + (rs[k].len + 0xF_FFFF) / 0x10_0000 <= rs[k + 1].start / 0x10_0000
    requires forall r :: r in rs ==> r.attr == 0 || r.attr == 4 || r.attr == 8 || r.attr == 12
    requires i < 4096
    ensures forall k | 0 <= k < |rs| ::
      rs[k].start / 0x10_0000 <= i < rs[k].start / 0x10_0000 + (rs[k].len + 0xF_FFFF) / 0x10_0000 ==>
        Table(rs)[i] == i * 0x10_0000 + rs[k].attr + 0xDE2
    ensures (forall k :: 0 <= k < |rs| ==>
      !(rs[k].start / 0x10_0000 <= i < rs[k].start / 0x10_0000 + (rs[k].len + 0xF_FFFF) / 0x10_0000)) ==>
        Table(rs)[i] == i * 0x10_0000 + 0xDE2
  {
    forall k | 0 <= k < |rs| && Covers(rs[k], i) ensures Table(rs)[i] == i * 0x10_0000 + rs[k].attr + 0xDE2 {
      SortedCovered(rs, k, i);
      OwnWord(rs, i, rs[k].attr);
    }
    if forall k :: 0 <= k < |rs| ==> !Covers(rs[k], i) {
      SortedUncovered(rs, i);
      OwnWord(rs, i, 0);
    }
  }

  lemma OwnWord(rs: seq<Region>, i: nat, attr: word)
    requires i < 4096 && Slot(rs, i).Section() == i && Slot(rs, i).attr == attr
    requires attr == 0 || attr == 4 || attr == 8 || attr == 12
    ensures Table(rs)[i] == i * 0x10_0000 + attr + 0xDE2
  {
    RegionSum(Slot(rs, i).base, attr);
    CacheBitsAdd(attr, COMMON);
  }

  /** The walk of such a word: C is bit 3 and B is bit 2. */
  lemma WalkOfWord(tlb: seq<word>, va: word, section: nat, attr: word)
    requires |tlb| == 4096 && section < 4096 && (attr == 0 || attr == 4 || attr == 8 || attr == 12)
    requires tlb[va / 0x10_0000] == section * 0x10_0000 + attr + 0xDE2
    ensures Walk(tlb, va)
         == Section(section * 0x10_0000 + va % 0x10_0000, attr == 8 || attr == 12, attr == 4 || attr == 12, 15, 3)
  {
    PlainWord(section, attr);
    CacheBitsOnly(attr);
    WalkDescriptor(tlb, va, section, attr, attr == 8 || attr == 12, attr == 4 || attr == 12);
  }

  lemma WalkDescriptor(tlb: seq<word>, va: word, section: nat, attr: word, c: bool, b: bool)
    requires |tlb| == TLB_SIZE && section < TLB_SIZE && AttrOk(attr)
    requires c == (Field(attr, 8, 2) == 1) && b == (Field(attr, 4, 2) == 1)
    requires tlb[va / PAGE_SIZE] == RegionDescriptor(section * PAGE_SIZE, attr)
    ensures Walk(tlb, va) == Section(section * PAGE_SIZE + va % PAGE_SIZE, c, b, 15, 3)
  {
    var base: word := section * PAGE_SIZE;
    RegionDecode(base, attr);
    WalkFields(tlb, va, RegionDescriptor(base, attr), section, c, b);
  }

  lemma WalkFields(tlb: seq<word>, va: word, d: word, section: nat, c: bool, b: bool)
    requires |tlb| == TLB_SIZE && tlb[va / PAGE_SIZE] == d
    requires d % 4 == 2 && Field(d, 0x4_0000, 2) == 0 && d / PAGE_SIZE == section
    requires Field(d, 0x20, 0x10) == 15 && Field(d, 0x400, 4) == 3
    requires c == (Field(d, 8, 2) == 1) && b == (Field(d, 4, 2) == 1)
    ensures Walk(tlb, va) == Section(section * PAGE_SIZE + va % PAGE_SIZE, c, b, 15, 3)
  {
  }

  // ------------------------------------------------------------------
  // Unaligned regions, and examples
  // ------------------------------------------------------------------

  /** The start and length offsets within a megabyte carry into one more section than the
      page count allows for. */
  predicate Carries(r: Region) {
    && r.len > 0 && r.start + r.len <= WORD_LIMIT
    && r.start % PAGE_SIZE + (r.len - 1) % PAGE_SIZE >= PAGE_SIZE
  }

  /** Whether all addresses of a region fall into the sections it claims. The page count is
      taken from len alone, so the tail of an unaligned region can be left out; a region that
      runs past 4G claims everything up to the end. */
  lemma RegionBytesCovered(r: Region)
    ensures (forall va: word :: r.start <= va < r.start + r.len ==> Covers(r, va / PAGE_SIZE)) <==> !Carries(r)
  {
    if Carries(r) {
      var last: word := r.start + r.len - 1;
      LastByteOutside(r);
      assert !Covers(r, last / PAGE_SIZE);
    } else if r.len > 0 {
      forall va: word | r.start <= va < r.start + r.len ensures Covers(r, va / PAGE_SIZE) {
        ByteInside(r, va);
      }
    }
  }

  lemma LastByteOutside(r: Region)
    requires Carries(r)
    ensures (r.start + r.len - 1) / PAGE_SIZE == First(r) + Pages(r.len)
  {
  }

  lemma ByteInside(r: Region, va: word)
    requires r.start <= va < r.start + r.len && !Carries(r)
    ensures Covers(r, va / PAGE_SIZE)
  {
    if r.start + r.len <= WORD_LIMIT {
      assert va / PAGE_SIZE <= (r.start + r.len - 1) / PAGE_SIZE == First(r) + (r.len - 1) / PAGE_SIZE;
    }
  }

  /** On the finished table: the last byte of such a region is uncached and unbuffered,
      unless the next region starts in just that section. */
  lemma CarriedTailUncached(rs: seq<Region>, k: nat)
    requires Sorted(rs) && AttrsOk(rs) && k < |rs| && Carries(rs[k])
    requires k + 1 < |rs| ==> First(rs[k + 1]) != First(rs[k]) + Pages(rs[k].len)
    ensures var last := rs[k].start + rs[k].len - 1;
      Walk(Table(rs), last) == Section(last, false, false, 15, 3)
  {
    var last: word := rs[k].start + rs[k].len - 1;
    LastByteOutside(rs[k]);
    forall j | 0 <= j < |rs| ensures !Covers(rs[j], last / PAGE_SIZE) {
      if j < k {
        SortedPairwise(rs, j, k);
      } else if j > k + 1 {
        SortedPairwise(rs, k + 1, j);
      }
    }
    UncoveredAddress(rs, last);
  }

  /** Two overlapping cached regions: the table is not flat, the third megabyte maps to the
      second (by MisplacedAddress). */
  lemma OverlapExample()
    ensures var rs := [Region(0, 0x20_0000, 12), Region(0x10_0000, 0x10_0000, 12)];
      && AttrsOk(rs) && StartsBehind(rs, 1) && Cursor(rs[..1]) == 2 && !FlatMap(Table(rs))
      && Walk(Table(rs), 0x20_0000).Section? && Walk(Table(rs), 0x20_0000).pa == 0x10_0000
  {
    var r, q := Region(0, 0x20_0000, 12), Region(0x10_0000, 0x10_0000, 12);
    var rs := [r, q];
    CursorOfTwo(r, q);
    CacheBitsOnly(12);
    assert StartsBehind(rs, 1);
    assert !NoOverlap(rs);
    FlatMapIff(rs);
    MisplacedAddress(rs, 1);
  }

  lemma CursorOfTwo(r: Region, q: Region)
    ensures Cursor([r, q][..1]) == First(r) + Count(0, r)
  {
    assert [r, q][..1] == [r] && [r][..0] == [];
  }

  /** One unaligned region of 1M: its second half is left uncached. */
  lemma UnalignedExample()
    ensures var rs := [Region(0x8_0000, 0x10_0000, 12)];
      && Walk(Table(rs), 0x8_0000) == Section(0x8_0000, true, true, 15, 3)
      && Walk(Table(rs), 0x10_0000) == Section(0x10_0000, false, false, 15, 3)
  {
    var rs := [Region(0x8_0000, 0x10_0000, 12)];
    CoveredAddress(rs, 0, 0x8_0000);
    UncoveredAddress(rs, 0x10_0000);
  }
}
