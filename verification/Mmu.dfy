/** The rewriting of the MMU tables of a process to read, write and execute permissions
    (section B4.7 of the ARM Architecture Reference Manual, ARM DDI 0100I). Memory is a function from
    word addresses to words. */
module Mmu {

  const L1_ENTRIES: nat := 1024
  const L2_ENTRIES: nat := 256

  type Words = nat -> bv32

  datatype DescType = TranslationFault | CoarsePageTable | Section | Supersection | Reserved | LargePage | SmallPage

  /** L1Descriptor__GetType */
  function L1Type(d: bv32): DescType {
    if d & 3 == 0 then TranslationFault
    else if d & 3 == 1 then CoarsePageTable
    else if d & 3 == 2 then (if d & 0x4_0000 == 0 then Section else Supersection)
    else Reserved
  }

  /** L2Descriptor__GetType */
  function L2Type(d: bv32): (t: DescType)
    ensures t == LargePage || t == SmallPage || t == TranslationFault
  {
    if d & 3 == 1 then LargePage else if d & 2 == 2 then SmallPage else TranslationFault
  }

  /** Word address of the second-level table of a coarse page table descriptor. Its address field has 21
      bits here, so bit 31 of the descriptor does not count. */
  function L2Table(d: bv32): nat {
    (((d & 0x7FFF_FC00) - 0x4000_0000) >> 2) as nat
  }

  // ------------------------------------------------------------------------------------------
  // Reading

  function L1Index(va: bv32): (i: nat)
    ensures va < 0x4000_0000 ==> i < L1_ENTRIES
  {
    SmallIndex(va);
    (va >> 20) as nat
  }

  function L2Index(va: bv32): (i: nat)
    ensures i < L2_ENTRIES
  {
    MiddleIndex(va);
    ((va << 12) >> 24) as nat
  }

  lemma SmallIndex(va: bv32)
    ensures va < 0x4000_0000 ==> (va >> 20) as nat < L1_ENTRIES
  {
    assert va < 0x4000_0000 ==> va >> 20 < 1024;
  }

  lemma MiddleIndex(va: bv32)
    ensures ((va << 12) >> 24) as nat < L2_ENTRIES
  {
    assert (va << 12) >> 24 < 256;
  }

  /** Physical addresses: the address field of the descriptor (12, 8, 16 or 20 bits), and the rest of the
      virtual address. */
  function SectionPA(d: bv32, va: bv32): bv32 { (d & 0xFFF0_0000) | (va & 0x000F_FFFF) }
  function SupersectionPA(d: bv32, va: bv32): bv32 { (d & 0xFF00_0000) | (va & 0x00FF_FFFF) }
  function LargePagePA(d: bv32, va: bv32): bv32 { (d & 0xFFFF_0000) | (va & 0x0000_FFFF) }
  function SmallPagePA(d: bv32, va: bv32): bv32 { (d & 0xFFFF_F000) | (va & 0x0000_0FFF) }

  /** L1MMUTable__GetPAFromVA and L2MMUTable__GetPAFromVA; 0 for an address that is not mapped. */
  function GetPA(m: Words, table: nat, va: bv32): bv32 {
    var d := m(table + L1Index(va));
    match L1Type(d)
    case CoarsePageTable => L2GetPA(m, L2Table(d), va)
    case Section => SectionPA(d, va)
    case Supersection => SupersectionPA(d, va)
    case _ => 0
  }

  function L2GetPA(m: Words, table: nat, va: bv32): bv32 {
    var d := m(table + L2Index(va));
    match L2Type(d)
    case LargePage => LargePagePA(d, va)
    case SmallPage => SmallPagePA(d, va)
    case _ => 0
  }

  /** User permissions out of the ap, apx and xn fields: 1 for read, 2 for write, 4 for execute. */
  function Perm(ap: bv32, apx: bool, xn: bool): bv32 {
    if ap >> 1 == 0 then 0
    else 1 | (if !apx && ap & 1 == 1 then 2 else 0) | (if xn then 0 else 4)
  }

  function SectionPerm(d: bv32): bv32 { Perm((d >> 10) & 3, d & 0x8000 != 0, d & 0x10 != 0) }
  function SupersectionPerm(d: bv32): bv32 { Perm((d >> 10) & 3, false, d & 0x10 != 0) }
  function LargePagePerm(d: bv32): bv32 { Perm((d >> 4) & 3, d & 0x200 != 0, d & 0x8000 != 0) }
  function SmallPagePerm(d: bv32): bv32 { Perm((d >> 4) & 3, d & 0x200 != 0, d & 1 != 0) }

  /** L1MMUTable__GetAddressUserPerm and L2MMUTable__GetAddressUserPerm */
  function GetUserPerm(m: Words, table: nat, va: bv32): bv32 {
    var d := m(table + L1Index(va));
    match L1Type(d)
    case CoarsePageTable => L2GetUserPerm(m, L2Table(d), va)
    case Section => SectionPerm(d)
    case Supersection => SupersectionPerm(d)
    case _ => 0
  }

  function L2GetUserPerm(m: Words, table: nat, va: bv32): bv32 {
    var d := m(table + L2Index(va));
    match L2Type(d)
    case LargePage => LargePagePerm(d)
    case SmallPage => SmallPagePerm(d)
    case _ => 0
  }

  /** The address is mapped. */
  predicate Mapped(m: Words, table: nat, va: bv32) {
    var d := m(table + L1Index(va));
    match L1Type(d)
    case CoarsePageTable => L2Type(m(L2Table(d) + L2Index(va))) != TranslationFault
    case Section => true
    case Supersection => true
    case _ => false
  }

  // In bits: which of them come from a descriptor, and which from the address

  lemma TypesInBits(d: bv32)
    ensures L1Type(d) == TranslationFault <==> d & 3 == 0
    ensures L1Type(d) == CoarsePageTable <==> d & 3 == 1
    ensures L1Type(d) == Section <==> d & 3 == 2 && d & 0x4_0000 == 0
    ensures L1Type(d) == Supersection <==> d & 3 == 2 && d & 0x4_0000 == 0x4_0000
    ensures L2Type(d) == LargePage <==> d & 3 == 1
    ensures L2Type(d) == SmallPage <==> d & 2 == 2
  {
  }

  /** The bits `upper` of `pa` are those of `d`, the others those of `va`. */
  ghost predicate Joins(pa: bv32, d: bv32, upper: bv32, va: bv32) {
    pa & upper == d & upper && pa & !upper == va & !upper
  }

  lemma SectionInBits(d: bv32, va: bv32)
    ensures Joins(SectionPA(d, va), d, 0xFFF0_0000, va)
  {
  }

  lemma SupersectionInBits(d: bv32, va: bv32)
    ensures Joins(SupersectionPA(d, va), d, 0xFF00_0000, va)
  {
  }

  lemma LargePageInBits(d: bv32, va: bv32)
    ensures Joins(LargePagePA(d, va), d, 0xFFFF_0000, va)
  {
  }

  lemma SmallPageInBits(d: bv32, va: bv32)
    ensures Joins(SmallPagePA(d, va), d, 0xFFFF_F000, va)
  {
  }

  /** Where the words are that an address is translated by: bits 20 to 31 of the address are the index in the first
      table, bits 12 to 19 that in the second, which begins at the address in bits 10 to 30 of the descriptor. */
  lemma IndexInBits(d: bv32, va: bv32)
    ensures L1Index(va) == (va / 0x10_0000) as nat && L2Index(va) == (va / 0x1000 % 0x100) as nat
    ensures L2Table(d) == (((d & 0x7FFF_FC00) - 0x4000_0000) / 4) as nat
  {
  }

  /** All of it: the address found has its upper bits from the last descriptor on the way, 12, 8, 16 or 20 of them,
      and the others from the address. */
  lemma GetPAInBits(m: Words, table: nat, va: bv32)
    ensures
      var d, pa := m(table + L1Index(va)), GetPA(m, table, va);
      var e := m(L2Table(d) + L2Index(va));
      match L1Type(d)
      case Section => Joins(pa, d, 0xFFF0_0000, va)
      case Supersection => Joins(pa, d, 0xFF00_0000, va)
      case CoarsePageTable =>
        (match L2Type(e)
         case LargePage => Joins(pa, e, 0xFFFF_0000, va)
         case SmallPage => Joins(pa, e, 0xFFFF_F000, va)
         case _ => pa == 0)
      case _ => pa == 0
  {
    hide L1Type, L2Type, L2Table, L1Index, L2Index, SectionPA, SupersectionPA, LargePagePA, SmallPagePA, Joins;
    var d := m(table + L1Index(va));
    var e := m(L2Table(d) + L2Index(va));
    if L1Type(d) == Section {
      SectionInBits(d, va);
    } else if L1Type(d) == Supersection {
      SupersectionInBits(d, va);
    } else if L1Type(d) == CoarsePageTable {
      if L2Type(e) == LargePage {
        LargePageInBits(e, va);
      } else if L2Type(e) == SmallPage {
        SmallPageInBits(e, va);
      }
    }
  }

  /** Reading (1) with ap 2 or 3; besides, writing (2) with ap 3 if apx is clear, and executing (4) if xn is clear. */
  ghost predicate Allows(perm: bv32, ap: bv32, apx: bool, xn: bool) {
    && perm < 8
    && (perm & 1 == 1 <==> ap == 2 || ap == 3)
    && (perm & 2 == 2 <==> ap == 3 && !apx)
    && (perm & 4 == 4 <==> (ap == 2 || ap == 3) && !xn)
  }

  /** Where the four kinds of descriptors have these fields. */
  ghost predicate SectionRule(perm: bv32, d: bv32) {
    Allows(perm, (d / 0x400) & 3, d & 0x8000 == 0x8000, d & 0x10 == 0x10)
  }

  ghost predicate SupersectionRule(perm: bv32, d: bv32) {
    Allows(perm, (d / 0x400) & 3, false, d & 0x10 == 0x10)
  }

  ghost predicate LargePageRule(perm: bv32, d: bv32) {
    Allows(perm, (d / 0x10) & 3, d & 0x200 == 0x200, d & 0x8000 == 0x8000)
  }

  ghost predicate SmallPageRule(perm: bv32, d: bv32) {
    Allows(perm, (d / 0x10) & 3, d & 0x200 == 0x200, d & 1 == 1)
  }

  lemma SectionAllows(d: bv32)
    ensures SectionRule(SectionPerm(d), d)
  {
  }

  lemma SupersectionAllows(d: bv32)
    ensures SupersectionRule(SupersectionPerm(d), d)
  {
  }

  lemma LargePageAllows(d: bv32)
    ensures LargePageRule(LargePagePerm(d), d)
  {
  }

  lemma SmallPageAllows(d: bv32)
    ensures SmallPageRule(SmallPagePerm(d), d)
  {
  }

  /** The permissions found, by the fields of the last descriptor on the way. */
  lemma GetUserPermInBits(m: Words, table: nat, va: bv32)
    ensures
      var d, perm := m(table + L1Index(va)), GetUserPerm(m, table, va);
      var e := m(L2Table(d) + L2Index(va));
      match L1Type(d)
      case Section => SectionRule(perm, d)
      case Supersection => SupersectionRule(perm, d)
      case CoarsePageTable =>
        (match L2Type(e)
         case LargePage => LargePageRule(perm, e)
         case SmallPage => SmallPageRule(perm, e)
         case _ => perm == 0)
      case _ => perm == 0
  {
    hide L1Type, L2Type, L2Table, L1Index, L2Index, SectionPerm, SupersectionPerm, LargePagePerm, SmallPagePerm;
    hide SectionRule, SupersectionRule, LargePageRule, SmallPageRule;
    var d := m(table + L1Index(va));
    SectionAllows(d);
    SupersectionAllows(d);
    LargePageAllows(m(L2Table(d) + L2Index(va)));
    SmallPageAllows(m(L2Table(d) + L2Index(va)));
  }

  // ------------------------------------------------------------------------------------------
  // Rewriting

  /** xn = 0, apx = 0, ap = 3 */
  function SectionRwx(d: bv32): bv32 { (d & !0x8010) | 0xC00 }

  /** xn = 0, ap = 3; the code knows no apx field here */
  function SupersectionRwx(d: bv32): bv32 { (d & !0x10) | 0xC00 }

  /** The new first-level descriptor. */
  function L1Rwx(d: bv32): bv32 {
    match L1Type(d)
    case Section => SectionRwx(d)
    case Supersection => SupersectionRwx(d)
    case _ => d
  }

  /** xn = 0, apx = 0, ap = 3 */
  function LargePageRwx(d: bv32): bv32 { (d & !0x8200) | 0x30 }
  function SmallPageRwx(d: bv32): bv32 { (d & !0x201) | 0x30 }

  /** The new second-level descriptor. */
  function L2Rwx(d: bv32): bv32 {
    match L2Type(d)
    case LargePage => LargePageRwx(d)
    case SmallPage => SmallPageRwx(d)
    case _ => d
  }

  /** The ap field becomes 3, xn and apx become 0 (of a supersection only xn), and all other bits stay. */
  lemma SectionRwxInBits(d: bv32)
    ensures
      var r := SectionRwx(d);
      r & 0x0000_0C00 == 0x0000_0C00 && r & 0x0000_8010 == 0 && r & 0xFFFF_73EF == d & 0xFFFF_73EF
  {
  }

  lemma SupersectionRwxInBits(d: bv32)
    ensures
      var r := SupersectionRwx(d);
      r & 0x0000_0C00 == 0x0000_0C00 && r & 0x0000_0010 == 0 && r & 0xFFFF_F3EF == d & 0xFFFF_F3EF
  {
  }

  lemma LargePageRwxInBits(d: bv32)
    ensures
      var r := LargePageRwx(d);
      r & 0x0000_0030 == 0x0000_0030 && r & 0x0000_8200 == 0 && r & 0xFFFF_7DCF == d & 0xFFFF_7DCF
  {
  }

  lemma SmallPageRwxInBits(d: bv32)
    ensures
      var r := SmallPageRwx(d);
      r & 0x0000_0030 == 0x0000_0030 && r & 0x0000_0201 == 0 && r & 0xFFFF_FDCE == d & 0xFFFF_FDCE
  {
  }

  class Memory {
    var word: Words

    constructor (word: Words)
      ensures this.word == word
    {
      this.word := word;
    }

    method Store(p: nat, v: bv32)
      modifies this
      ensures word(p) == v && forall q: nat :: q != p ==> word(q) == old(word)(q)
    {
      var before := word;
      word := (q: nat) => if q == p then v else before(q);
    }

    /** L2MMUTable__RWXForAll */
    method L2RwxForAll(table: nat)
      modifies this
      ensures forall q: nat :: word(q) == if table <= q < table + L2_ENTRIES then L2Rwx(old(word)(q)) else old(word)(q)
    {
      hide L2Rwx;
      var p := table;
      while p != table + L2_ENTRIES
        invariant table <= p <= table + L2_ENTRIES
        invariant forall q: nat :: word(q) == if table <= q < p then L2Rwx(old(word)(q)) else old(word)(q)
      {
        var d := word(p);
        L2RwxCases(d);
        match L2Type(d) {
          case LargePage => Store(p, LargePageRwx(d));
          case SmallPage => Store(p, SmallPageRwx(d));
          case _ =>
        }
        p := p + 1;
      }
    }

    /** One pass through the loop of L1MMUTable__RWXForAll: entry `n`. */
    method RewriteEntry(table: nat, n: nat, ghost m: Words)
      requires Disjoint(m, table) && n < L1_ENTRIES
      requires forall q: nat :: word(q) == Rewritten(m, table, n, q)
      modifies this
      ensures forall q: nat :: word(q) == Rewritten(m, table, n + 1, q)
    {
      hide L1Rwx, L2Rwx, L2Table, L1Type, Rewritten, Disjoint;
      var d := word(table + n);
      ghost var before := word;
      StillThere(m, table, n);
      L1RwxCases(d);
      match L1Type(d) {
        case CoarsePageTable => L2RwxForAll(L2Table(d));
        case Section => Store(table + n, SectionRwx(d));
        case Supersection => Store(table + n, SupersectionRwx(d));
        case _ =>
      }
      forall q: nat
        ensures word(q) == Rewritten(m, table, n + 1, q)
      {
        RewriteStep(m, table, n, before, word, q);
      }
    }

    /** L1MMUTable__RWXForAll */
    method L1RwxForAll(table: nat)
      requires Disjoint(word, table)
      modifies this
      ensures IsRewritten(old(word), word, table)
    {
      hide Rewritten, Disjoint;
      var p := table;
      ghost var m := word;
      NothingRewritten(m, table);
      while p != table + L1_ENTRIES
        invariant table <= p <= table + L1_ENTRIES
        invariant forall q: nat :: word(q) == Rewritten(m, table, p - table, q)
      {
        RewriteEntry(table, p - table, m);
        p := p + 1;
      }
    }
  }

  lemma NothingRewritten(m: Words, table: nat)
    ensures forall q: nat :: Rewritten(m, table, 0, q) == m(q)
  {
  }

  lemma L2RwxCases(d: bv32)
    ensures L2Rwx(d) == if L2Type(d) == LargePage then LargePageRwx(d)
                        else if L2Type(d) == SmallPage then SmallPageRwx(d) else d
  {
  }

  lemma L1RwxCases(d: bv32)
    ensures L1Rwx(d) == if L1Type(d) == Section then SectionRwx(d)
                        else if L1Type(d) == Supersection then SupersectionRwx(d) else d
  {
  }

  /** Word `q` belongs to the second-level table of one of the first `n` entries. */
  ghost predicate InL2(m: Words, table: nat, n: nat, q: nat) {
    exists i :: 0 <= i < n && L2Holds(m, table, i, q)
  }

  ghost predicate L2Holds(m: Words, table: nat, i: nat, q: nat) {
    var d := m(table + i);
    L1Type(d) == CoarsePageTable && L2Table(d) <= q < L2Table(d) + L2_ENTRIES
  }

  /** No second-level table overlaps the first-level table. (They may overlap each other.) */
  ghost predicate Disjoint(m: Words, table: nat) {
    forall q: nat :: table <= q < table + L1_ENTRIES ==> !InL2(m, table, L1_ENTRIES, q)
  }

  /** Word `q` when the first `n` entries have been rewritten. */
  ghost function Rewritten(m: Words, table: nat, n: nat, q: nat): bv32 {
    if table <= q < table + n then L1Rwx(m(q))
    else if InL2(m, table, n, q) then L2Rwx(m(q))
    else m(q)
  }

  lemma StillThere(m: Words, table: nat, n: nat)
    requires Disjoint(m, table) && n < L1_ENTRIES
    ensures Rewritten(m, table, n, table + n) == m(table + n)
  {
    hide L2Holds;
    assert !InL2(m, table, L1_ENTRIES, table + n);
  }

  lemma LargePageStays(d: bv32)
    requires L2Type(d) == LargePage
    ensures L2Type(LargePageRwx(d)) == LargePage && LargePageRwx(LargePageRwx(d)) == LargePageRwx(d)
  {
  }

  lemma SmallPageStays(d: bv32)
    requires L2Type(d) == SmallPage
    ensures L2Type(SmallPageRwx(d)) == SmallPage && SmallPageRwx(SmallPageRwx(d)) == SmallPageRwx(d)
  {
  }

  lemma L2RwxTwice(d: bv32)
    ensures L2Rwx(L2Rwx(d)) == L2Rwx(d) && L2Type(L2Rwx(d)) == L2Type(d)
  {
    hide L2Type, LargePageRwx, SmallPageRwx;
    if L2Type(d) == LargePage {
      LargePageStays(d);
    } else if L2Type(d) == SmallPage {
      SmallPageStays(d);
    }
  }

  lemma SectionStays(d: bv32)
    requires L1Type(d) == Section
    ensures L1Type(SectionRwx(d)) == Section && SectionRwx(SectionRwx(d)) == SectionRwx(d)
  {
  }

  lemma SupersectionStays(d: bv32)
    requires L1Type(d) == Supersection
    ensures L1Type(SupersectionRwx(d)) == Supersection && SupersectionRwx(SupersectionRwx(d)) == SupersectionRwx(d)
  {
  }

  lemma L1RwxTwice(d: bv32)
    ensures L1Rwx(L1Rwx(d)) == L1Rwx(d) && L1Type(L1Rwx(d)) == L1Type(d)
    ensures L1Type(d) == CoarsePageTable ==> L1Rwx(d) == d
  {
    hide L1Type, SectionRwx, SupersectionRwx;
    if L1Type(d) == Section {
      SectionStays(d);
    } else if L1Type(d) == Supersection {
      SupersectionStays(d);
    }
  }

  /** One more entry. */
  lemma RewriteStep(m: Words, table: nat, n: nat, before: Words, after: Words, q: nat)
    requires Disjoint(m, table) && n < L1_ENTRIES
    requires before(q) == Rewritten(m, table, n, q)
    requires
      var d := m(table + n);
      after(q) == if L1Type(d) == CoarsePageTable then (if L2Table(d) <= q < L2Table(d) + L2_ENTRIES then L2Rwx(before(q)) else before(q))
                  else if q == table + n then L1Rwx(d) else before(q)
    ensures after(q) == Rewritten(m, table, n + 1, q)
  {
    hide L1Rwx, L2Rwx, L2Table, L1Type;
    L1RwxTwice(m(table + n));
    L2RwxTwice(m(q));
    StillThere(m, table, n);
    MoreL2(m, table, n, q);
  }

  lemma MoreL2(m: Words, table: nat, n: nat, q: nat)
    requires Disjoint(m, table) && n < L1_ENTRIES
    ensures InL2(m, table, n + 1, q) <==> InL2(m, table, n, q) || L2Holds(m, table, n, q)
    ensures table <= q < table + L1_ENTRIES ==> !InL2(m, table, n + 1, q)
  {
    hide L2Holds;
    if i :| 0 <= i < n + 1 && L2Holds(m, table, i, q) {
      assert InL2(m, table, L1_ENTRIES, q);
    }
    if L2Holds(m, table, n, q) {
      assert InL2(m, table, n + 1, q);
    }
  }

  // ------------------------------------------------------------------------------------------
  // What the rewriting does and does not change

  /** Memory after the rewriting. */
  ghost predicate IsRewritten(m: Words, m': Words, table: nat) {
    forall q: nat :: m'(q) == Rewritten(m, table, L1_ENTRIES, q)
  }

  /** In numbers: the first-level table has 1024 words, the second-level tables have 256. All other words stay. */
  lemma OthersStay(m: Words, m': Words, table: nat, q: nat)
    requires IsRewritten(m, m', table) && !(table <= q < table + 1024) && !InL2(m, table, 1024, q)
    ensures m'(q) == m(q)
    ensures forall i: nat :: L2Holds(m, table, i, q) <==>
              L1Type(m(table + i)) == CoarsePageTable && L2Table(m(table + i)) <= q < L2Table(m(table + i)) + 256
  {
    hide L1Type, L2Table, L1Rwx, L2Rwx, InL2;
    assert m'(q) == Rewritten(m, table, L1_ENTRIES, q);
  }

  /** The words through which an address below 2^30 is translated. */
  lemma WordsFor(m: Words, m': Words, table: nat, va: bv32)
    requires Disjoint(m, table) && IsRewritten(m, m', table) && va < 0x4000_0000
    ensures m'(table + L1Index(va)) == L1Rwx(m(table + L1Index(va)))
    ensures L1Type(m(table + L1Index(va))) == CoarsePageTable ==>
              m'(table + L1Index(va)) == m(table + L1Index(va))
              && m'(L2Table(m(table + L1Index(va))) + L2Index(va)) == L2Rwx(m(L2Table(m(table + L1Index(va))) + L2Index(va)))
  {
    hide L1Rwx, L2Rwx, L2Table, L1Type;
    var d := m(table + L1Index(va));
    assert m'(table + L1Index(va)) == Rewritten(m, table, L1_ENTRIES, table + L1Index(va));
    L1RwxTwice(d);
    if L1Type(d) == CoarsePageTable {
      var q := L2Table(d) + L2Index(va);
      assert L2Holds(m, table, L1Index(va), q);
      assert InL2(m, table, L1_ENTRIES, q);
      assert m'(q) == Rewritten(m, table, L1_ENTRIES, q);
    }
  }

  lemma SectionField(d: bv32)
    ensures ((d & !0x8010) | 0xC00) & 0xFFF0_0000 == d & 0xFFF0_0000
  {
  }

  lemma SupersectionField(d: bv32)
    ensures ((d & !0x10) | 0xC00) & 0xFF00_0000 == d & 0xFF00_0000
  {
  }

  lemma LargePageField(d: bv32)
    ensures ((d & !0x8200) | 0x30) & 0xFFFF_0000 == d & 0xFFFF_0000
  {
  }

  lemma SmallPageField(d: bv32)
    ensures ((d & !0x201) | 0x30) & 0xFFFF_F000 == d & 0xFFFF_F000
  {
  }

  lemma SectionAddress(d: bv32, va: bv32)
    ensures SectionPA(SectionRwx(d), va) == SectionPA(d, va)
    ensures SupersectionPA(SupersectionRwx(d), va) == SupersectionPA(d, va)
  {
    SectionField(d);
    SupersectionField(d);
  }

  lemma PageAddress(d: bv32, va: bv32)
    ensures LargePagePA(LargePageRwx(d), va) == LargePagePA(d, va)
    ensures SmallPagePA(SmallPageRwx(d), va) == SmallPagePA(d, va)
  {
    LargePageField(d);
    SmallPageField(d);
  }

  /** For every address below 2^30 and any tables: the translation is the same as before. */
  lemma TranslationKept(m: Words, m': Words, table: nat, va: bv32)
    requires Disjoint(m, table) && IsRewritten(m, m', table) && va < 0x4000_0000
    ensures GetPA(m', table, va) == GetPA(m, table, va)
  {
    hide Disjoint, IsRewritten, L1Type, L2Type, L2Table, L1Index, L2Index, SectionRwx, SupersectionRwx, LargePageRwx,
         SmallPageRwx, SectionPA, SupersectionPA, LargePagePA, SmallPagePA;
    hide L1Rwx, L2Rwx;
    var d := m(table + L1Index(va));
    WordsFor(m, m', table, va);
    L1RwxTwice(d);
    L1RwxCases(d);
    if L1Type(d) == CoarsePageTable {
      var e := m(L2Table(d) + L2Index(va));
      L2RwxTwice(e);
      L2RwxCases(e);
      PageAddress(e, va);
    } else {
      SectionAddress(d, va);
    }
  }

  /** So are the types of all descriptors. */
  lemma TypesKept(m: Words, m': Words, table: nat, va: bv32)
    requires Disjoint(m, table) && IsRewritten(m, m', table) && va < 0x4000_0000
    ensures Mapped(m', table, va) == Mapped(m, table, va)
    ensures L1Type(m'(table + L1Index(va))) == L1Type(m(table + L1Index(va)))
    ensures L1Type(m(table + L1Index(va))) == CoarsePageTable ==>
              var d := m(table + L1Index(va));
              m'(table + L1Index(va)) == d
                  && L2Type(m'(L2Table(d) + L2Index(va))) == L2Type(m(L2Table(d) + L2Index(va)))
  {
    hide Disjoint, IsRewritten, L1Type, L2Type, L2Table, L1Index, L2Index, SectionRwx, SupersectionRwx, LargePageRwx,
         SmallPageRwx;
    var d := m(table + L1Index(va));
    WordsFor(m, m', table, va);
    L1RwxTwice(d);
    L2RwxTwice(m(L2Table(d) + L2Index(va)));
  }

  lemma SectionAll(d: bv32)
    ensures SectionPerm(SectionRwx(d)) == 7 && SupersectionPerm(SupersectionRwx(d)) == 7
  {
    var e, f := SectionRwx(d), SupersectionRwx(d);
    assert (e >> 10) & 3 == 3 && e & 0x8000 == 0 && e & 0x10 == 0;
    assert (f >> 10) & 3 == 3 && f & 0x10 == 0;
  }

  lemma PageAll(d: bv32)
    ensures LargePagePerm(LargePageRwx(d)) == 7 && SmallPagePerm(SmallPageRwx(d)) == 7
  {
    var e, f := LargePageRwx(d), SmallPageRwx(d);
    assert (e >> 4) & 3 == 3 && e & 0x200 == 0 && e & 0x8000 == 0;
    assert (f >> 4) & 3 == 3 && f & 0x200 == 0 && f & 1 == 0;
  }

  /** Every mapped address below 2^30 can be read, written and executed, and no other. */
  lemma AllPermissions(m: Words, m': Words, table: nat, va: bv32)
    requires Disjoint(m, table) && IsRewritten(m, m', table) && va < 0x4000_0000
    ensures GetUserPerm(m', table, va) == if Mapped(m, table, va) then 7 else 0
  {
    hide Disjoint, IsRewritten, L1Type, L2Type, L2Table, L1Index, L2Index, SectionRwx, SupersectionRwx, LargePageRwx,
         SmallPageRwx, SectionPerm, SupersectionPerm, LargePagePerm, SmallPagePerm;
    var d := m(table + L1Index(va));
    var e := m(L2Table(d) + L2Index(va));
    WordsFor(m, m', table, va);
    L1RwxTwice(d);
    L2RwxTwice(e);
    SectionAll(d);
    PageAll(e);
  }

  /** Rewriting once more changes nothing. */
  lemma Idempotent(m: Words, m': Words, table: nat)
    requires Disjoint(m, table) && IsRewritten(m, m', table)
    ensures Disjoint(m', table) && IsRewritten(m', m', table)
  {
    hide L1Rwx, L2Rwx, L2Table, L1Type, L2Holds;
    forall q: nat
      ensures InL2(m', table, L1_ENTRIES, q) <==> InL2(m, table, L1_ENTRIES, q)
    {
      forall i | 0 <= i < L1_ENTRIES
        ensures L2Holds(m', table, i, q) <==> L2Holds(m, table, i, q)
      {
        SameL2(m, m', table, i, q);
      }
    }
    forall q: nat
      ensures m'(q) == Rewritten(m', table, L1_ENTRIES, q)
    {
      assert m'(q) == Rewritten(m, table, L1_ENTRIES, q);
      L1RwxTwice(m(q));
      L2RwxTwice(m(q));
    }
  }

  lemma SameL2(m: Words, m': Words, table: nat, i: nat, q: nat)
    requires Disjoint(m, table) && IsRewritten(m, m', table) && i < L1_ENTRIES
    ensures L2Holds(m', table, i, q) <==> L2Holds(m, table, i, q)
  {
    hide L1Rwx, L2Rwx, L2Table, L1Type;
    assert m'(table + i) == Rewritten(m, table, L1_ENTRIES, table + i);
    L1RwxTwice(m(table + i));
  }

  /** The architecture has an APX bit in supersections, too, which the code leaves alone: by the
      architecture a rewritten supersection is writable if and only if that bit was clear. */
  lemma SupersectionApx(d: bv32)
    requires L1Type(d) == Supersection
    ensures
      var e := L1Rwx(d);
      SectionPerm(e) == if d & 0x8000 == 0 then 7 else 5
  {
    var e := SupersectionRwx(d);
    assert (e >> 10) & 3 == 3 && e & 0x8000 == d & 0x8000 && e & 0x10 == 0;
  }
}
