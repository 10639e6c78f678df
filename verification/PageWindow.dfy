/** The slide and the high-half window (`kaslr_pick_slide`, `kaslr_map_window`; constants of boot/kaslr.h). */
module PageWindow {
  import opened Machine
  import opened ModArith
  import opened Radix

  const LINK_BASE: nat := 0xFFFF_FFFF_8000_0000
  const ALIGN: nat := 0x20_0000
  const WINDOW: nat := 0x2000_0000
  const SLOTS: nat := 768
  const PAGES: nat := 256

  // --------------------------------------------------------------- the slide

  /** `kaslr_pick_slide`. */
  function PickSlide(rnd: nat, slots: nat): nat {
    if slots <= 1 then 0 else (rnd % (if slots > SLOTS then SLOTS else slots)) * ALIGN
  }

  /** A slide on a 2 MiB boundary that keeps the window inside the top 2 GiB. */
  predicate Slide(slide: nat) {
    slide % ALIGN == 0 && slide < SLOTS * ALIGN
  }

  lemma PickSlideFits(rnd: nat, slots: nat)
    ensures Slide(PickSlide(rnd, slots))
    ensures slots >= 1 ==> PickSlide(rnd, slots) < slots * ALIGN
  {}

  /** Every slot can be drawn. */
  lemma PickSlideOnto(slots: nat, k: nat)
    requires k < slots <= SLOTS
    ensures PickSlide(k, slots) == k * ALIGN
  {
    if slots > 1 {
      DivUnique(k, 0, k, slots);
    }
  }

  // --------------------------------------------------------- relocated fields

  function SignExtend32(x: nat): nat {
    if x >= 0x8000_0000 then x + 0xFFFF_FFFF_0000_0000 else x
  }

  /** Both kinds of field that hold a link address come to hold the address moved by the slide. */
  lemma RelocatedAddress(a: nat, slide: nat)
    requires LINK_BASE <= a < LINK_BASE + WINDOW && Slide(slide)
    ensures (a + slide) % TWO_TO_64 == a + slide
    ensures SignExtend32(a % 0x1_0000_0000) == a
    ensures SignExtend32((a % 0x1_0000_0000 + slide) % 0x1_0000_0000) == a + slide
  {}

  // --------------------------------------------------------------- the tables

  /** Bits 21 and up, and bits 30 and up, of page `i` of the window. */
  function PageNumber(slide: nat, i: nat): nat { (LINK_BASE + slide + i * ALIGN) % TWO_TO_64 / ALIGN }

  function InA(slide: nat, i: nat): bool { PageNumber(slide, i) / 512 % 512 == 510 }

  /** A large-page entry that is present and writable. */
  function LargePage(phys: nat): int { Or(64, phys, 0x83) }

  /** How many entries after the first page of the window entry `k` lies, going round. */
  function Offset(slide: nat, k: nat): nat { (k - PageNumber(slide, 0)) % 512 }

  /** Entry `k` of directory A or B after the window for `slide` has been filled in. */
  function Entry(slide: nat, a: bool, k: nat): int {
    Partial(slide, a, k, PAGES)
  }

  /** Entry `k` once the first `n` pages are in place. */
  function Partial(slide: nat, a: bool, k: nat, n: nat): int {
    var i := Offset(slide, k);
    if i < n && InA(slide, i) == a then LargePage(i * ALIGN) else 0
  }

  /** Page `i` is entry `k` of its directory exactly when `k` lies `i` entries after the first one. */
  lemma PageIndex(slide: nat, i: nat, k: nat)
    requires slide < TWO_TO_64 && i < 512 && k < 512
    ensures k == PageNumber(slide, i) % 512 <==> Offset(slide, k) == i
  {
    var p, q := PageNumber(slide, 0), PageNumber(slide, i);
    Consecutive(LINK_BASE + slide, i);
    assert q % 512 == (p + i) % 512;
    RingIndex(p, i, k);
  }

  lemma Consecutive(v: nat, i: nat)
    requires i < 512 && v < 2 * TWO_TO_64
    ensures ((v + i * ALIGN) % TWO_TO_64 / ALIGN) % 512 == (v % TWO_TO_64 / ALIGN + i) % 512
  {
    var x, y := v % TWO_TO_64, (v + i * ALIGN) % TWO_TO_64;
    assert y == x + i * ALIGN || y == x + i * ALIGN - TWO_TO_64;
    assert (x + i * ALIGN) / ALIGN == x / ALIGN + i;
  }

  lemma RingIndex(p: nat, i: nat, k: nat)
    requires i < 512 && k < 512
    ensures k == (p + i) % 512 <==> (k - p) % 512 == i
  {}

  // ---------------------------------------------------------------- the code

  /** `kaslr_map_window`; `baseA` and `baseB` are the addresses of the two directories. */
  method MapWindow(pdpt: array<int>, pdtA: array<int>, pdtB: array<int>, baseA: nat, baseB: nat, slide: nat)
    requires pdpt.Length == 512 && pdtA.Length == 512 && pdtB.Length == 512 && pdpt != pdtA && pdpt != pdtB
    requires pdtA != pdtB
    requires slide < TWO_TO_64
    modifies pdpt, pdtA, pdtB
    ensures Mapped(pdpt[..], pdtA[..], pdtB[..], baseA, baseB, slide)
    ensures forall k :: 0 <= k < 510 ==> pdpt[k] == old(pdpt[k])
  {
    for i := 0 to 512
      invariant forall k :: 0 <= k < i ==> pdtA[k] == 0 && pdtB[k] == 0
      modifies pdtA, pdtB
    {
      pdtA[i], pdtB[i] := 0, 0;
    }
    for i := 0 to PAGES
      invariant Filled(pdtA[..], slide, true, i) && Filled(pdtB[..], slide, false, i)
      modifies pdtA, pdtB
    {
      PutPage(pdtA, pdtB, slide, i);
    }
    pdpt[510], pdpt[511] := Or(64, baseA, 3), Or(64, baseB, 3);
  }

  ghost predicate Filled(t: seq<int>, slide: nat, a: bool, n: nat) {
    |t| == 512 && forall k :: 0 <= k < 512 ==> t[k] == Partial(slide, a, k, n)
  }

  /** The body of the loop. */
  method PutPage(pdtA: array<int>, pdtB: array<int>, slide: nat, i: nat)
    requires pdtA.Length == 512 && pdtB.Length == 512 && pdtA != pdtB && slide < TWO_TO_64 && i < PAGES
    requires Filled(pdtA[..], slide, true, i) && Filled(pdtB[..], slide, false, i)
    modifies pdtA, pdtB
    ensures Filled(pdtA[..], slide, true, i + 1) && Filled(pdtB[..], slide, false, i + 1)
  {
    var page := PageNumber(slide, i);
    forall k | 0 <= k < 512 ensures k == page % 512 <==> Offset(slide, k) == i {
      PageIndex(slide, i, k);
    }
    if page / 512 % 512 == 510 {
      pdtA[page % 512] := LargePage(i * ALIGN);
    } else {
      pdtB[page % 512] := LargePage(i * ALIGN);
    }
  }

  ghost predicate Mapped(pdpt: seq<int>, a: seq<int>, b: seq<int>, baseA: nat, baseB: nat, slide: nat) {
    && |pdpt| == 512 && |a| == 512 && |b| == 512
    && pdpt[510] == Or(64, baseA, 3) && pdpt[511] == Or(64, baseB, 3)
    && Filled(a, slide, true, PAGES) && Filled(b, slide, false, PAGES)
  }

  // ------------------------------------------------------------ the page walk

  datatype Translation = To(phys: nat) | Fault | Elsewhere

  /** The last two levels of the walk for an address in the top 512 GiB; directories are found by their addresses. */
  function Walk(pdpt: seq<int>, a: seq<int>, b: seq<int>, baseA: nat, baseB: nat, va: nat): Translation
    requires |pdpt| == 512 && |a| == 512 && |b| == 512
  {
    var e := pdpt[va / 0x4000_0000 % 512];
    if e % 2 == 0 then Fault
    else
      var table := e / 4096 * 4096;
      if table == baseA then Leaf(a[va / ALIGN % 512], va)
      else if table == baseB then Leaf(b[va / ALIGN % 512], va)
      else Elsewhere
  }

  function Leaf(e: int, va: nat): Translation {
    if e % 2 == 0 then Fault
    else if e / 128 % 2 == 1 && e >= 0 then To(e / ALIGN * ALIGN + va % ALIGN)
    else Elsewhere
  }

  lemma LargePageIs(i: nat)
    requires i < PAGES
    ensures LargePage(i * ALIGN) == i * ALIGN + 0x83
  {
    TwoToThe();
    OrDisjoint(64, 21, i * ALIGN, 0x83);
  }

  lemma TablePointerIs(base: nat)
    requires base < TWO_TO_64 && base % 4096 == 0
    ensures Or(64, base, 3) == base + 3
  {
    TwoToThe();
    OrDisjoint(64, 12, base, 3);
  }

  lemma TwoToThe()
    ensures Pow(2, 12) == 4096 && Pow(2, 21) == ALIGN && Pow(2, 64) == TWO_TO_64
  {
    Word();
    assert Pow(2, 6) == 64;
    PowAdd(2, 6, 6);
    PowAdd(2, 12, 9);
    assert Pow(2, 9) == 512;
  }

  const FIRST_PAGE: nat := 0x7FF_FFFF_FC00

  /** For a proper slide the pages are consecutive and do not wrap. */
  lemma PageNumberIs(s: nat, i: nat)
    requires s < SLOTS && i < PAGES
    ensures PageNumber(s * ALIGN, i) == FIRST_PAGE + s + i
    ensures InA(s * ALIGN, i) <==> s + i < 512
  {
    var v := LINK_BASE + s * ALIGN + i * ALIGN;
    assert v == (FIRST_PAGE + s + i) * ALIGN && v < TWO_TO_64;
    assert v % TWO_TO_64 == v && v / ALIGN == FIRST_PAGE + s + i;
    assert (FIRST_PAGE + s + i) / 512 == FIRST_PAGE / 512 + (s + i) / 512;
  }

  lemma OffsetIs(s: nat, k: nat)
    requires s < SLOTS && k < 512
    ensures Offset(s * ALIGN, k) == if k >= s then k - s else if k + 512 >= s then k + 512 - s else k + 1024 - s
  {
    PageNumberIs(s, 0);
    assert FIRST_PAGE % 512 == 0;
  }

  /** In the top 2 GiB, entry `k` of directory A or B stands for page `n` of the 1024. */
  lemma EntryMeaning(s: nat, a: bool, k: nat)
    requires s < SLOTS && k < 512
    ensures var n := if a then k else 512 + k;
            Entry(s * ALIGN, a, k) == if s <= n < s + PAGES then (n - s) * ALIGN + 0x83 else 0
  {
    OffsetIs(s, k);
    var i := Offset(s * ALIGN, k);
    if i < PAGES {
      PageNumberIs(s, i);
      LargePageIs(i);
    }
  }

  /** The entry for page `n` of the top 2 GiB when the window starts at page `s`. */
  function PageEntry(s: nat, n: nat): int {
    if s <= n < s + PAGES then (n - s) * ALIGN + 0x83 else 0
  }

  /** The directories hold the pages of a window that starts at page `s`. */
  ghost predicate Window(a: seq<int>, b: seq<int>, s: nat) {
    |a| == 512 && |b| == 512 && forall k :: 0 <= k < 512 ==> a[k] == PageEntry(s, k) && b[k] == PageEntry(s, 512 + k)
  }

  lemma FilledIsWindow(a: seq<int>, b: seq<int>, s: nat)
    requires s < SLOTS && Filled(a, s * ALIGN, true, PAGES) && Filled(b, s * ALIGN, false, PAGES)
    ensures Window(a, b, s)
  {
    forall k | 0 <= k < 512 ensures a[k] == PageEntry(s, k) && b[k] == PageEntry(s, 512 + k) {
      EntryMeaning(s, true, k);
      EntryMeaning(s, false, k);
      assert Entry(s * ALIGN, true, k) == a[k] && Entry(s * ALIGN, false, k) == b[k];
    }
  }

  /** Where the walk finds the page of an address in the top 2 GiB. */
  lemma Indices(va: nat, n: nat)
    requires LINK_BASE <= va < TWO_TO_64 && n == va / ALIGN - FIRST_PAGE
    ensures 0 <= n < 1024 && va / 0x4000_0000 % 512 == (if n < 512 then 510 else 511) && va / ALIGN % 512 == n % 512
    ensures va == LINK_BASE + n * ALIGN + va % ALIGN
  {
    var q, r := n / 512, n % 512;
    assert va / ALIGN == FIRST_PAGE + n && FIRST_PAGE * ALIGN == LINK_BASE;
    DivUnique(va / ALIGN, FIRST_PAGE / 512 + q, r, 512);
    DivUnique(va, FIRST_PAGE / 512 + q, r * ALIGN + va % ALIGN, 0x4000_0000);
  }

  lemma WalkDirectory(pdpt: seq<int>, a: seq<int>, b: seq<int>, baseA: nat, baseB: nat, va: nat, n: nat)
    requires |pdpt| == 512 && |a| == 512 && |b| == 512 && pdpt[510] == baseA + 3 && pdpt[511] == baseB + 3
    requires baseA % 4096 == 0 && baseB % 4096 == 0 && baseA != baseB && n < 1024
    requires va / 0x4000_0000 % 512 == (if n < 512 then 510 else 511) && va / ALIGN % 512 == n % 512
    ensures Walk(pdpt, a, b, baseA, baseB, va) == Leaf(if n < 512 then a[n] else b[n - 512], va)
  {
    TableOf(baseA);
    TableOf(baseB);
  }

  lemma TableOf(base: nat)
    requires base % 4096 == 0
    ensures (base + 3) % 2 == 1 && (base + 3) / 4096 * 4096 == base
  {}

  lemma LeafIs(i: nat, va: nat)
    ensures Leaf(i * ALIGN + 0x83, va) == To(i * ALIGN + va % ALIGN)
  {
    var e := i * ALIGN + 0x83;
    DivUnique(e, i, 0x83, ALIGN);
    DivUnique(e, i * 0x4000 + 1, 3, 128);
    DivUnique(e, i * 0x10_0000 + 0x41, 1, 2);
    DivUnique(i * 0x4000 + 1, i * 0x2000, 1, 2);
  }

  lemma WindowLeaf(s: nat, n: nat, va: nat)
    requires va == LINK_BASE + n * ALIGN + va % ALIGN
    ensures Leaf(PageEntry(s, n), va)
         == if LINK_BASE + s * ALIGN <= va < LINK_BASE + s * ALIGN + WINDOW then To(va - s * ALIGN - LINK_BASE)
            else Fault
  {
    if s <= n < s + PAGES {
      LeafIs(n - s, va);
    }
  }

  /** The window maps physical memory 0 to 512 MiB at the moved link base and nothing else of the top 2 GiB. */
  lemma WalkWindow(pdpt: seq<int>, a: seq<int>, b: seq<int>, baseA: nat, baseB: nat, slide: nat, va: nat)
    requires Mapped(pdpt, a, b, baseA, baseB, slide) && Slide(slide) && LINK_BASE <= va < TWO_TO_64
    requires baseA < TWO_TO_64 && baseB < TWO_TO_64 && baseA % 4096 == 0 && baseB % 4096 == 0 && baseA != baseB
    ensures Walk(pdpt, a, b, baseA, baseB, va)
         == if LINK_BASE + slide <= va < LINK_BASE + slide + WINDOW then To(va - slide - LINK_BASE) else Fault
  {
    TablePointerIs(baseA);
    TablePointerIs(baseB);
    FilledIsWindow(a, b, slide / ALIGN);
    WalkPages(pdpt, a, b, baseA, baseB, slide / ALIGN, va);
  }

  lemma WalkPages(pdpt: seq<int>, a: seq<int>, b: seq<int>, baseA: nat, baseB: nat, s: nat, va: nat)
    requires |pdpt| == 512 && Window(a, b, s) && pdpt[510] == baseA + 3 && pdpt[511] == baseB + 3
    requires baseA % 4096 == 0 && baseB % 4096 == 0 && baseA != baseB && LINK_BASE <= va < TWO_TO_64
    ensures Walk(pdpt, a, b, baseA, baseB, va)
         == if LINK_BASE + s * ALIGN <= va < LINK_BASE + s * ALIGN + WINDOW then To(va - s * ALIGN - LINK_BASE)
            else Fault
  {
    var n := va / ALIGN - FIRST_PAGE;
    Indices(va, n);
    WalkDirectory(pdpt, a, b, baseA, baseB, va, n);
    WindowLeaf(s, n, va);
  }

  /** A link address, relocated and looked up in the tables, is the physical byte it was loaded at. */
  lemma RelocatedReachesSameByte(pdpt: seq<int>, a: seq<int>, b: seq<int>, baseA: nat, baseB: nat, rnd: nat,
                                 slots: nat, link: nat)
    requires Mapped(pdpt, a, b, baseA, baseB, PickSlide(rnd, slots)) && LINK_BASE <= link < LINK_BASE + WINDOW
    requires baseA < TWO_TO_64 && baseB < TWO_TO_64 && baseA % 4096 == 0 && baseB % 4096 == 0 && baseA != baseB
    ensures var slide := PickSlide(rnd, slots);
            && Walk(pdpt, a, b, baseA, baseB, (link + slide) % TWO_TO_64) == To(link - LINK_BASE)
            && Walk(pdpt, a, b, baseA, baseB, SignExtend32((link % 0x1_0000_0000 + slide) % 0x1_0000_0000))
               == To(link - LINK_BASE)
  {
    var slide := PickSlide(rnd, slots);
    PickSlideFits(rnd, slots);
    RelocatedAddress(link, slide);
    WalkWindow(pdpt, a, b, baseA, baseB, slide, link + slide);
  }

  /** How many of the numbers below `n` satisfy `p`. */
  function Count(p: nat -> bool, n: nat): nat {
    if n == 0 then 0 else Count(p, n - 1) + (if p(n - 1) then 1 else 0)
  }

  lemma {:induction false} CountRange(p: nat -> bool, s: nat, len: nat, n: nat)
    requires forall k :: 0 <= k < n ==> (p(k) <==> s <= k < s + len)
    ensures Count(p, n) == if n <= s then 0 else if n < s + len then n - s else len
  {
    if n > 0 {
      CountRange(p, s, len, n - 1);
      assert p(n - 1) <==> s <= n - 1 < s + len;
    }
  }

  /** Whether entry `n` of the two directories, A before B, is present. */
  function Present(a: seq<int>, b: seq<int>): nat -> bool
    requires |a| == 512 && |b| == 512
  {
    (n: nat) => if n < 512 then a[n] % 2 == 1 else if n < 1024 then b[n - 512] % 2 == 1 else false
  }

  lemma PresentIs(a: seq<int>, b: seq<int>, s: nat, n: nat)
    requires Window(a, b, s) && n < 1024
    ensures Present(a, b)(n) <==> s <= n < s + PAGES
  {
    if n < 512 {
      assert a[n] == PageEntry(s, n);
    } else {
      assert b[n - 512] == PageEntry(s, 512 + (n - 512));
    }
  }

  /** Exactly 256 of the 1024 entries are present. */
  lemma WindowHas256Pages(pdpt: seq<int>, a: seq<int>, b: seq<int>, baseA: nat, baseB: nat, slide: nat)
    requires Mapped(pdpt, a, b, baseA, baseB, slide) && Slide(slide)
    ensures Count(Present(a, b), 1024) == PAGES
  {
    var s := slide / ALIGN;
    FilledIsWindow(a, b, s);
    forall k | 0 <= k < 1024 ensures Present(a, b)(k) <==> s <= k < s + PAGES {
      PresentIs(a, b, s, k);
    }
    CountRange(Present(a, b), s, PAGES, 1024);
  }
}
