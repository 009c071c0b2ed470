/**
  Address translation as `translated_ptr(token, va)` performs it: the page table
  named by the task's token sends the virtual page of `va` to a physical frame,
  and the offset inside the page is kept. Only the resulting leaf mapping
  (virtual page number to physical page number) is modelled, not the walk.
 */
module Paging {

  const PAGE_SIZE: nat := 4096

  /** The leaf mappings of one address space: virtual page number to physical page number. */
  type PageTable = map<nat, nat>

  function PageOf(va: nat): nat { va / PAGE_SIZE }

  function OffsetOf(va: nat): nat { va % PAGE_SIZE }

  /** `va` lies on a page the table maps. */
  predicate Mapped(pt: PageTable, va: nat)
  {
    PageOf(va) in pt
  }

  /** No two virtual pages share a physical frame. */
  predicate Injective(pt: PageTable)
  {
    forall v1, v2 :: v1 in pt && v2 in pt && v1 != v2 ==> pt[v1] != pt[v2]
  }

  /** The physical address a mapped virtual address resolves to. */
  function Translate(pt: PageTable, va: nat): (pa: nat)
    requires Mapped(pt, va)
    ensures PageOf(pa) == pt[PageOf(va)]
    ensures OffsetOf(pa) == OffsetOf(va)
  {
    pt[PageOf(va)] * PAGE_SIZE + OffsetOf(va)
  }

  /** Translation through a frame-per-page table keeps distinct addresses distinct. */
  lemma TranslateInjective(pt: PageTable, va1: nat, va2: nat)
    requires Injective(pt) && Mapped(pt, va1) && Mapped(pt, va2)
    requires va1 != va2
    ensures Translate(pt, va1) != Translate(pt, va2)
  {
  }

  /**
    Two addresses less than a page apart sit at different offsets inside their
    pages, so on any page table they translate to different physical addresses.
   */
  lemma NearbyTranslateDistinct(pt: PageTable, va1: nat, va2: nat)
    requires Mapped(pt, va1) && Mapped(pt, va2)
    requires va1 != va2 && va1 < va2 + PAGE_SIZE && va2 < va1 + PAGE_SIZE
    ensures Translate(pt, va1) != Translate(pt, va2)
  {
  }

  /**
    Translating once and adding the field offset `k` lands where translating
    `va + k` lands exactly when `va + k` stays on the page of `va`, or lies on
    the next page and that page's frame follows the first one physically.
    This is why a structure that may straddle a page is written field by field.
   */
  lemma OffsetAfterTranslation(pt: PageTable, va: nat, k: nat)
    requires Mapped(pt, va) && Mapped(pt, va + k)
    requires k < PAGE_SIZE
    ensures Translate(pt, va + k) == Translate(pt, va) + k
        <==> PageOf(va + k) == PageOf(va) || pt[PageOf(va + k)] == pt[PageOf(va)] + 1
  {
  }

  /** All `size` bytes of the scalar at `va` lie on the page of `va`. */
  predicate ScalarInPage(va: nat, size: nat)
  {
    size == 0 || PageOf(va + size - 1) == PageOf(va)
  }

  /**
    A naturally aligned scalar of 1, 4 or 8 bytes never crosses a page, so one
    translation of its address reaches all of its bytes.
   */
  lemma AlignedScalarInOnePage(va: nat, size: nat)
    requires size == 1 || size == 4 || size == 8
    requires va % size == 0
    ensures ScalarInPage(va, size)
  {
  }
}
