/**
  The first-level translation table that arm_setup_tlb builds: 4096 section
  descriptors, one for each megabyte of the 32-bit address space.
 */
module ArmTlb {
  import opened Word32

  const PAGE_SIZE: word := 0x10_0000
  const TLB_SIZE := 0x1000

  const SECTION: word := 2
  const DOMAIN_15: word := 15 * 0x20
  const AP_RW: word := 3 * 0x400
  const B_DIS: word := 0
  const C_DIS: word := 0

  /** SECTION | AP_RW | DOMAIN_15; lemma CommonBits shows that the sum is the bitwise or. */
  const COMMON: word := SECTION + AP_RW + DOMAIN_15

  const BA_MASK: word := 0xFFF0_0000

  /** The start value that ends a region table: -1 as a 32-bit unsigned long. */
  const SENTINEL: word := 0xFFFF_FFFF

  datatype Region = Region(start: word, len: word, attr: word)

  // ------------------------------------------------------------------
  // Descriptors
  // ------------------------------------------------------------------

  /** base & BA_MASK (lemma BaseMask) */
  function SectionBase(base: word): word {
    base / PAGE_SIZE * PAGE_SIZE
  }

  lemma BaseMask(base: word)
    ensures And(base, BA_MASK) == And(base, 0xFFF0_0000) == base / 0x10_0000 * 0x10_0000 == SectionBase(base)
  {
    AndTop12(base);
  }

  function RegionDescriptor(base: word, attr: word): word {
    OrWord(OrWord(SectionBase(base), attr), COMMON)
  }

  /** An unclaimed megabyte: identity section with B_DIS and C_DIS (lemma HoleExpression). */
  function HoleDescriptor(offset: nat): word
    requires offset < TLB_SIZE
  {
    RegionDescriptor(offset * PAGE_SIZE, 0)
  }

  /** What a first-level descriptor says about the addresses of its megabyte. */
  datatype Mapping =
    | Unmapped
    | Section(pa: word, cacheable: bool, bufferable: bool, domain: nat, ap: nat)

  /** The first-level walk; only 1M sections are followed. */
  function Walk(tlb: seq<word>, va: word): Mapping
    requires |tlb| == TLB_SIZE
  {
    var d := tlb[va / PAGE_SIZE];
    if d % 4 == 2 && Field(d, 0x4_0000, 2) == 0 then
      Section(d / PAGE_SIZE * PAGE_SIZE + va % PAGE_SIZE,
              Field(d, 8, 2) == 1, Field(d, 4, 2) == 1, Field(d, 0x20, 0x10), Field(d, 0x400, 4))
    else
      Unmapped
  }

  /** attr touches neither bit 0 of the type nor bits 18 and up. Attributes made of
      C_ENA and B_ENA only are of this kind (lemma CacheBitsOnly). */
  predicate AttrOk(attr: word) {
    attr % 2 == 0 && attr < 0x4_0000
  }

  predicate ConfinedToCB(attr: word) {
    attr == 0 || attr == 4 || attr == 8 || attr == 12
  }

  lemma CacheBitsOnly(attr: word)
    requires ConfinedToCB(attr)
    ensures AttrOk(attr)
    ensures Field(attr, 8, 2) == (if attr >= 8 then 1 else 0)
    ensures Field(attr, 4, 2) == (if attr % 8 >= 4 then 1 else 0)
  {
  }

  lemma CommonBits()
    ensures Or(Or(SECTION, AP_RW), DOMAIN_15) == COMMON == 0xDE2
  {
    var sec, ap, dom: word := SECTION, AP_RW, DOMAIN_15;
    assert Pow2(5) == 32 && Pow2(10) == 1024;
    OrComm(sec, ap);
    OrAssoc(ap, sec, dom);
    OrComm(sec, dom);
    OrConcat(15, sec, 5);
    OrConcat(3, 482, 10);
  }

  /** The hole fill or-s its parts one by one; that is the region form without attributes. */
  lemma HoleExpression(x: nat, section: nat, ap: nat, domain: nat, off: nat)
    requires section == SECTION && ap == AP_RW && domain == DOMAIN_15 && off == B_DIS == C_DIS
    ensures Or(Or(Or(Or(Or(x, section), ap), domain), off), off) == Or(Or(x, off), COMMON)
  {
    CommonBits();
    OrChain(x, section, ap, domain);
  }

  /** The bits below the section base are those of attr and of COMMON. */
  lemma RegionSum(base: word, attr: word)
    requires attr < PAGE_SIZE
    ensures RegionDescriptor(base, attr) == SectionBase(base) + Or(attr, COMMON)
    ensures Or(attr, COMMON) < PAGE_SIZE
  {
    var sec, low: nat := base / PAGE_SIZE, COMMON;
    Pow2Values();
    OrAssoc(SectionBase(base), attr, low);
    OrBound(attr, low, 20);
    OrConcat(sec, Or(attr, low), 20);
  }

  lemma RegionOnes(attr: word, lo: nat, n: nat, p: nat, q: nat)
    requires p == Pow2(lo) && q == Pow2(n) && Field(COMMON, p, q) == q - 1
    ensures Field(Or(attr, COMMON), p, q) == q - 1
  {
    OrField(attr, COMMON, lo, n, p, q);
    OrOnes(Field(attr, p, q), n);
  }

  lemma TypeField(attr: word)
    requires attr % 2 == 0
    ensures Or(attr, COMMON) % 4 == 2
  {
    Pow2Values();
    OrField(attr, COMMON, 0, 2, 1, 4);
    assert attr % 4 == 0 || attr % 4 == 2;
  }

  lemma SizeField(attr: word)
    requires attr < 0x4_0000
    ensures Or(attr, COMMON) < 0x4_0000
  {
    Pow2Values();
    OrBound(attr, COMMON, 18);
  }

  lemma DomainField(attr: word)
    ensures Field(Or(attr, COMMON), 0x20, 0x10) == 15
  {
    Pow2Values();
    RegionOnes(attr, 5, 4, 0x20, 0x10);
  }

  lemma AccessField(attr: word)
    ensures Field(Or(attr, COMMON), 0x400, 4) == 3
  {
    Pow2Values();
    RegionOnes(attr, 10, 2, 0x400, 4);
  }

  lemma BufferField(attr: word)
    ensures Field(Or(attr, COMMON), 4, 2) == Field(attr, 4, 2)
  {
    Pow2Values();
    OrField(attr, COMMON, 2, 1, 4, 2);
    OrZero(Field(attr, 4, 2));
  }

  lemma CacheField(attr: word)
    ensures Field(Or(attr, COMMON), 8, 2) == Field(attr, 8, 2)
  {
    Pow2Values();
    OrField(attr, COMMON, 3, 1, 8, 2);
    OrZero(Field(attr, 8, 2));
  }

  /** A descriptor decodes to its own section whatever its attributes add, as long as they
      keep it a section: domain and access bits are forced, C and B come from attr. */
  lemma RegionDecode(base: word, attr: word)
    requires AttrOk(attr)
    ensures var d := RegionDescriptor(base, attr);
      && d % 4 == 2 && Field(d, 0x4_0000, 2) == 0 && d / PAGE_SIZE == base / PAGE_SIZE
      && Field(d, 0x20, 0x10) == 15 && Field(d, 0x400, 4) == 3
      && Field(d, 4, 2) == Field(attr, 4, 2) && Field(d, 8, 2) == Field(attr, 8, 2)
  {
    RegionSum(base, attr);
    TypeField(attr);
    SizeField(attr);
    DomainField(attr);
    AccessField(attr);
    BufferField(attr);
    CacheField(attr);
    FieldsBelow(base / PAGE_SIZE, Or(attr, COMMON));
  }

  lemma FieldsBelow(sec: nat, low: nat)
    requires low < 0x4_0000
    ensures var d := sec * PAGE_SIZE + low;
      && d % 4 == low % 4 && Field(d, 0x4_0000, 2) == 0 && d / PAGE_SIZE == sec
      && Field(d, 0x20, 0x10) == Field(low, 0x20, 0x10) && Field(d, 0x400, 4) == Field(low, 0x400, 4)
      && Field(d, 4, 2) == Field(low, 4, 2) && Field(d, 8, 2) == Field(low, 8, 2)
  {
    FieldBelow(sec, low, 1, 4, 0x4_0000);
    FieldBelow(sec, low, 4, 2, 0x2_0000);
    FieldBelow(sec, low, 8, 2, 0x1_0000);
    FieldBelow(sec, low, 0x20, 0x10, 0x800);
    FieldBelow(sec, low, 0x400, 4, 0x100);
    FieldBelow(sec, low, 0x4_0000, 2, 2);
    DivModUnique(sec * PAGE_SIZE + low, PAGE_SIZE, sec, low);
  }

  /** Adding whole sections does not disturb a field below them. */
  lemma FieldBelow(sec: nat, low: nat, p: nat, q: nat, r: nat)
    requires p > 0 && q > 0 && r * (p * q) == PAGE_SIZE
    ensures Field(sec * PAGE_SIZE + low, p, q) == Field(low, p, q)
  {
    var h := sec * r;
    assert sec * (r * (p * q)) == h * (p * q) == (h * q) * p;
    DivModUnique(low, p, low / p, low % p);
    assert (h * q + low / p) * p == h * q * p + low / p * p;
    DivModUnique(sec * PAGE_SIZE + low, p, h * q + low / p, low % p);
    var x := low / p;
    assert (h + x / q) * q == h * q + x / q * q;
    DivModUnique(h * q + x, q, h + x / q, x % q);
  }

  // ------------------------------------------------------------------
  // What the table should hold, over unbounded integers
  // ------------------------------------------------------------------

  /** The operands of one slot: RegionDescriptor(base, attr). */
  datatype Entry = Entry(base: word, attr: word) {
    function Encode(): word { RegionDescriptor(base, attr) }
    function Section(): nat { base / PAGE_SIZE }
  }

  function Hole(i: nat): Entry
    requires i < TLB_SIZE
  {
    Entry(i * PAGE_SIZE, 0)
  }

  /** The first section of a region; an unaligned start is rounded down. */
  function First(r: Region): (n: nat)
    ensures n < TLB_SIZE
  {
    r.start / PAGE_SIZE
  }

  /** ceil(len / 1M) */
  function Pages(len: word): (n: nat)
    ensures n <= TLB_SIZE
  {
    (len + PAGE_SIZE - 1) / PAGE_SIZE
  }

  function Max(a: nat, b: nat): nat { if a < b then b else a }

  function Min(a: nat, b: nat): nat { if a < b then a else b }

  /** The slots a region writes when the cursor stands at c. */
  function Count(c: nat, r: Region): nat
    requires c <= TLB_SIZE
  {
    Min(Pages(r.len), TLB_SIZE - Max(c, First(r)))
  }

  /** The cursor left by a sequence of regions. */
  function Cursor(rs: seq<Region>): (c: nat)
    ensures c <= TLB_SIZE
  {
    if rs == [] then 0
    else
      var r, c := rs[|rs| - 1], Cursor(rs[..|rs| - 1]);
      Max(c, First(r)) + Count(c, r)
  }

  function Slot(rs: seq<Region>, i: nat): Entry
    requires i < TLB_SIZE
  {
    if rs == [] then Hole(i)
    else
      var r, prior := rs[|rs| - 1], rs[..|rs| - 1];
      var c := Cursor(prior);
      var begin := Max(c, First(r));
      if i < c then Slot(prior, i)
      else if begin <= i < begin + Count(c, r) then Entry(r.start + (i - begin) * PAGE_SIZE, r.attr)
      else Hole(i)
  }

  function Table(rs: seq<Region>): (tlb: seq<word>)
    ensures |tlb| == TLB_SIZE
    ensures forall i :: 0 <= i < TLB_SIZE ==> tlb[i] == Slot(rs, i).Encode()
  {
    seq(TLB_SIZE, i requires 0 <= i < TLB_SIZE => Slot(rs, i).Encode())
  }

  // ------------------------------------------------------------------
  // arm_setup_tlb
  // ------------------------------------------------------------------

  /** The first n slots hold what rs asks for. */
  ghost predicate Filled(tlb: seq<word>, rs: seq<Region>, n: nat) {
    n <= |tlb| == TLB_SIZE && forall j :: 0 <= j < n ==> tlb[j] == Slot(rs, j).Encode()
  }

  /** One more region: what its hole fill and its region fill must have left in the table. */
  lemma FilledStep(before: seq<word>, after: seq<word>, prior: seq<Region>, r: Region)
    requires Filled(before, prior, Cursor(prior)) && |after| == TLB_SIZE
    requires forall j :: 0 <= j < Cursor(prior) ==> after[j] == before[j]
    requires var begin := Max(Cursor(prior), First(r));
      && (forall j :: Cursor(prior) <= j < begin ==> after[j] == HoleDescriptor(j))
      && forall j :: begin <= j < begin + Count(Cursor(prior), r) ==>
           r.start + (j - begin) * PAGE_SIZE < WORD_LIMIT
           && after[j] == RegionDescriptor(r.start + (j - begin) * PAGE_SIZE, r.attr)
    ensures Filled(after, prior + [r], Cursor(prior + [r]))
  {
    var rs := prior + [r];
    assert rs[..|rs| - 1] == prior;
    forall j | 0 <= j < Cursor(rs) ensures after[j] == Slot(rs, j).Encode() {
    }
  }

  lemma FilledRest(tlb: seq<word>, rs: seq<Region>)
    requires Filled(tlb, rs, Cursor(rs))
    requires forall j :: Cursor(rs) <= j < TLB_SIZE ==> tlb[j] == HoleDescriptor(j)
    ensures tlb == Table(rs)
  {
    forall j | Cursor(rs) <= j < TLB_SIZE ensures Slot(rs, j) == Hole(j) {
    }
  }

  function Range(from: nat, to: nat): (s: seq<nat>)
    requires from <= to
    ensures |s| == to - from && forall k :: 0 <= k < |s| ==> s[k] == from + k
  {
    seq(to - from, k requires 0 <= k => from + k)
  }

  lemma RangeConcat(a: nat, b: nat, c: nat)
    requires a <= b <= c
    ensures Range(a, b) + Range(b, c) == Range(a, c)
  {
  }

  /** The hole fill and the tail fill. */
  method FillHoles(tlb: array<word>, from: nat, to: nat) returns (ghost writes: seq<nat>)
    requires from <= to <= TLB_SIZE == tlb.Length
    modifies tlb
    ensures forall j :: from <= j < to ==> tlb[j] == HoleDescriptor(j)
    ensures forall j :: 0 <= j < from || to <= j < TLB_SIZE ==> tlb[j] == old(tlb[j])
    ensures writes == Range(from, to)
  {
    writes := [];
    var offset := from;
    while offset < to
      invariant from <= offset <= to && writes == Range(from, offset)
      invariant forall j :: from <= j < offset ==> tlb[j] == HoleDescriptor(j)
      invariant forall j :: 0 <= j < from || offset <= j < TLB_SIZE ==> tlb[j] == old(tlb[j])
    {
      tlb[offset] := HoleDescriptor(offset);
      writes := writes + [offset];
      offset := offset + 1;
    }
  }

  /** The three-part loop guard on the wrapping counter is a plain bound on the number of
      rounds: within that bound base has not wrapped, and at it the guard fails. */
  lemma GuardIsCount(r: Region, begin: nat, k: nat, base: word)
    requires First(r) <= begin <= TLB_SIZE && k <= Count(begin, r)
    requires base == (r.start + k * PAGE_SIZE) % WORD_LIMIT
    ensures (base >= r.start && r.len > base - r.start && begin + k < TLB_SIZE) <==> k < Count(begin, r)
    ensures k < Count(begin, r) ==> base == r.start + k * PAGE_SIZE
    ensures (base + PAGE_SIZE) % WORD_LIMIT == (r.start + (k + 1) * PAGE_SIZE) % WORD_LIMIT
  {
    if begin + k < TLB_SIZE {
      assert r.start + k * PAGE_SIZE < WORD_LIMIT;
      assert k < Pages(r.len) <==> k * PAGE_SIZE < r.len;
    }
  }

  /** The rounds of the region loop from (offset, base) on, base wrapping at 32 bits. */
  function Rounds(r: Region, offset: nat, base: word): nat
    decreases TLB_SIZE - offset
  {
    if base >= r.start && r.len > base - r.start && offset < TLB_SIZE then
      1 + Rounds(r, offset + 1, (base + PAGE_SIZE) % WORD_LIMIT)
    else 0
  }

  /** The same loop over unbounded integers. */
  function WideRounds(r: Region, offset: nat, base: nat): nat
    decreases TLB_SIZE - offset
  {
    if base >= r.start && r.len > base - r.start && offset < TLB_SIZE then
      1 + WideRounds(r, offset + 1, base + PAGE_SIZE)
    else 0
  }

  /** The wrap-around never decides the exit: after k rounds of either loop the remaining
      rounds are those that the page count and the table size leave. */
  lemma {:induction false} WrapNeverDecides(r: Region, begin: nat, k: nat)
    requires First(r) <= begin <= TLB_SIZE && k <= Count(begin, r)
    ensures var base := r.start + k * PAGE_SIZE;
      Rounds(r, begin + k, base % WORD_LIMIT) == WideRounds(r, begin + k, base) == Count(begin, r) - k
    decreases Count(begin, r) - k
  {
    var base := r.start + k * PAGE_SIZE;
    GuardIsCount(r, begin, k, base % WORD_LIMIT);
    if k < Count(begin, r) {
      WrapNeverDecides(r, begin, k + 1);
    }
  }

  /** The region fill, with base a 32-bit counter that wraps around. */
  method FillRegion(r: Region, tlb: array<word>, begin: nat) returns (offset: nat, ghost writes: seq<nat>)
    requires First(r) <= begin <= TLB_SIZE == tlb.Length
    modifies tlb
    ensures offset == begin + Count(begin, r)
    ensures forall j :: begin <= j < offset ==>
      r.start + (j - begin) * PAGE_SIZE < WORD_LIMIT
      && tlb[j] == RegionDescriptor(r.start + (j - begin) * PAGE_SIZE, r.attr)
    ensures forall j :: 0 <= j < begin || offset <= j < TLB_SIZE ==> tlb[j] == old(tlb[j])
    ensures writes == Range(begin, offset)
  {
    writes := [];
    offset := begin;
    var base := r.start;
    while base >= r.start && r.len > base - r.start && offset < TLB_SIZE
      invariant begin <= offset <= begin + Count(begin, r) && writes == Range(begin, offset)
      invariant base == (r.start + (offset - begin) * PAGE_SIZE) % WORD_LIMIT
      invariant forall j :: begin <= j < offset ==>
        r.start + (j - begin) * PAGE_SIZE < WORD_LIMIT
        && tlb[j] == RegionDescriptor(r.start + (j - begin) * PAGE_SIZE, r.attr)
      invariant forall j :: 0 <= j < begin || offset <= j < TLB_SIZE ==> tlb[j] == old(tlb[j])
      decreases TLB_SIZE - offset
    {
      GuardIsCount(r, begin, offset - begin, base);
      tlb[offset] := RegionDescriptor(base, r.attr);
      base := (base + PAGE_SIZE) % WORD_LIMIT;
      writes := writes + [offset];
      offset := offset + 1;
      assert offset - begin == offset - 1 - begin + 1;
    }
    GuardIsCount(r, begin, offset - begin, base);
  }

  /** One round of the table walk: the hole below r, then r itself. */
  method AddRegion(r: Region, tlb: array<word>, offset: nat, ghost prior: seq<Region>)
    returns (next: nat, ghost writes: seq<nat>)
    requires tlb.Length == TLB_SIZE && offset == Cursor(prior) && Filled(tlb[..], prior, offset)
    modifies tlb
    ensures next == Cursor(prior + [r]) && Filled(tlb[..], prior + [r], next)
    ensures offset <= next && writes == Range(offset, next)
  {
    assert (prior + [r])[..|prior|] == prior;
    var begin := Max(offset, r.start / PAGE_SIZE);
    ghost var before := tlb[..];
    writes := FillHoles(tlb, offset, begin);
    ghost var middle := tlb[..];
    assert forall j :: 0 <= j < offset ==> middle[j] == before[j];
    assert forall j :: offset <= j < begin ==> middle[j] == HoleDescriptor(j);
    ghost var filled;
    next, filled := FillRegion(r, tlb, begin);
    ghost var after := tlb[..];
    assert forall j :: 0 <= j < begin ==> after[j] == middle[j];
    assert Count(begin, r) == Count(offset, r);
    assert forall j :: begin <= j < next ==>
      r.start + (j - begin) * PAGE_SIZE < WORD_LIMIT
      && after[j] == RegionDescriptor(r.start + (j - begin) * PAGE_SIZE, r.attr);
    writes := writes + filled;
    RangeConcat(offset, begin, next);
    FilledStep(before, after, prior, r);
  }

  /** The tail fill after the last region. */
  method FillTail(tlb: array<word>, offset: nat, ghost rs: seq<Region>) returns (ghost writes: seq<nat>)
    requires tlb.Length == TLB_SIZE && offset == Cursor(rs) && Filled(tlb[..], rs, offset)
    modifies tlb
    ensures tlb[..] == Table(rs) && writes == Range(offset, TLB_SIZE)
  {
    ghost var before := tlb[..];
    writes := FillHoles(tlb, offset, TLB_SIZE);
    ghost var after := tlb[..];
    assert forall j :: 0 <= j < offset ==> after[j] == before[j];
    FilledRest(after, rs);
  }

  /** Fills tlb in place from the regions that precede the first one whose start is -1 as a
      32-bit unsigned long. writes records the slots in the order they are stored to. */
  method ArmSetupTlb(table: array?<Region>, tlb: array<word>) returns (ghost writes: seq<nat>)
    requires table != null ==> exists t :: 0 <= t < table.Length && table[t].start == 0xFFFF_FFFF
    requires tlb.Length == 0x1000
    modifies tlb
    ensures table == null ==> tlb[..] == Table([])
    ensures table != null ==>
      forall t | 0 <= t < table.Length && old(table[t].start) == 0xFFFF_FFFF
                 && (forall i :: 0 <= i < t ==> old(table[i].start) != 0xFFFF_FFFF) ::
        tlb[..] == Table(old(table[..t]))
    ensures writes == Range(0, 0x1000)
  {
    ghost var s := if table == null then [] else table[..];
    ghost var last: nat := if table == null then 0 else var i :| 0 <= i < |s| && s[i].start == SENTINEL; i;
    writes := [];
    var offset := 0;
    var t := 0;
    while table != null && table[t].start != SENTINEL
      invariant table == null ==> t == 0
      invariant table != null ==> table[..] == s && t <= last
      invariant forall i :: 0 <= i < t ==> s[i].start != SENTINEL
      invariant t <= |s| && offset == Cursor(s[..t]) && Filled(tlb[..], s[..t], offset)
      invariant writes == Range(0, offset)
      decreases last - t
    {
      var next;
      ghost var filled;
      next, filled := AddRegion(table[t], tlb, offset, s[..t]);
      assert s[..t + 1] == s[..t] + [s[t]];
      RangeConcat(0, offset, next);
      writes := writes + filled;
      offset, t := next, t + 1;
    }
    ghost var filled := FillTail(tlb, offset, s[..t]);
    RangeConcat(0, offset, TLB_SIZE);
    writes := writes + filled;
    assert table != null ==> old(table[..]) == s && old(table[..t]) == s[..t];
  }
}
