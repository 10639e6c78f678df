/**
 * The Multiboot2 relocator (`kaslr_boot_mb2`, `kaslr_apply`, `kaslr_set_guard`, `kaslr_hdr_valid`) as a
 * machine: the header, the image memory and the page tables, over any sequence of calls.
 */
module KaslrBoot {
  import opened Machine
  import opened ModArith
  import opened LittleEndian
  import opened Relocate
  import opened BootOptions
  import opened Mixer
  import PageWindow

  const MAGIC: nat := 0x4C53414B
  const VERSION: nat := 2

  const ST_APPLIED: nat := 0x01
  const ST_RANDOM: nat := 0x02
  const ST_OFF_BUILD: nat := 0x04
  const ST_OFF_CMD: nat := 0x08
  const ST_MB2: nat := 0x20
  const ST_CANARY: nat := 0x40
  const F_DISABLED: nat := 0x01

  /** `struct kaslr_hdr`. The table of entries follows it in memory and is part of the machine. */
  datatype Header = Header(magic: nat, version: nat, flags: nat, count: nat, slots: nat, linkBase: nat, align: nat,
                           slide: nat, source: nat, state: nat, guardPhys: nat)

  /** Whether the flag with a single bit `b` is set in `x`. */
  predicate Flag(x: nat, b: nat)
    requires b > 0
  {
    x / b % 2 == 1
  }

  /** `x | b` for a single bit `b`. */
  function SetFlag(x: nat, b: nat): nat
    requires b > 0
  {
    if Flag(x, b) then x else x + b
  }

  /** `kaslr_hdr_valid` on a header that is there. */
  predicate Valid(h: Header) {
    && h.magic == MAGIC && h.version == VERSION && h.linkBase == PageWindow.LINK_BASE && h.align == PageWindow.ALIGN
    && h.slots <= PageWindow.SLOTS
  }

  /** The guard used when the mixed draw leaves nothing above its low byte. */
  const FALLBACK: nat := 0x5EC0_5EC0_5EC0_5E00

  /** The guard value made of a mixed draw: its low byte is zero and the rest is not. */
  function GuardOf(mixed: nat): nat {
    var g := mixed - mixed % 256;
    if g == 0 then FALLBACK else g
  }

  function Guard(draw: u64): nat {
    GuardOf(Mix(draw))
  }

  lemma GuardOfShape(mixed: nat)
    requires mixed < TWO_TO_64
    ensures 0 < GuardOf(mixed) < TWO_TO_64 && GuardOf(mixed) % 256 == 0
    ensures GuardOf(mixed) == if mixed < 256 then 0x5EC0_5EC0_5EC0_5E00 else mixed / 256 * 256
  {}

  /** The guard is the mixed draw with its low byte cleared, or a constant if nothing is left. */
  lemma GuardShape(draw: u64)
    ensures 0 < Guard(draw) < TWO_TO_64 && Guard(draw) % 256 == 0
    ensures Guard(draw) == if Mix(draw) < 256 then 0x5EC0_5EC0_5EC0_5E00 else Mix(draw) / 256 * 256
  {
    GuardOfShape(Mix(draw));
  }

  /** The mixed draw lies where it gives the guard `g`. */
  predicate Hits(mixed: nat, g: nat) {
    g <= mixed < g + 256 || (g == FALLBACK && mixed < 256)
  }

  lemma GuardOfExact(mixed: nat, g: nat)
    requires g > 0 && g % 256 == 0
    ensures GuardOf(mixed) == g <==> Hits(mixed, g)
  {}

  /** The draws that give the guard `g`, `unmix` undoing the mixing. */
  function DrawsOf(unmix: u64 -> u64, g: nat): set<u64>
    requires g + 256 <= TWO_TO_64
  {
    if g == FALLBACK then Images(unmix, g, 256) + Images(unmix, g - FALLBACK, 256) else Images(unmix, g, 256)
  }

  lemma DrawsHit(mix: u64 -> u64, unmix: u64 -> u64, g: nat, draw: u64)
    requires Inverse(mix, unmix) && g + 256 <= TWO_TO_64
    ensures draw in DrawsOf(unmix, g) <==> Hits(mix(draw), g)
  {
    ImagesExact(mix, unmix, g, 256, draw);
    if g == FALLBACK {
      ImagesExact(mix, unmix, g - FALLBACK, 256, draw);
    }
  }

  lemma DrawsSize(mix: u64 -> u64, unmix: u64 -> u64, g: nat)
    requires Inverse(mix, unmix) && g + 256 <= TWO_TO_64
    ensures |DrawsOf(unmix, g)| == if g == FALLBACK then 512 else 256
  {
    ImagesSize(mix, unmix, g, 256);
    if g == FALLBACK {
      ImagesSize(mix, unmix, g - FALLBACK, 256);
      ImagesApart(mix, unmix, g - FALLBACK, g, 256);
    }
  }

  /** Every guard comes from exactly 256 draws, the fallback from as many again. */
  lemma GuardDraws(g: nat, draw: u64)
    requires 0 < g <= TWO_TO_64 - 256 && g % 256 == 0
    ensures |DrawsOf(Unmix, g)| == if g == FALLBACK then 512 else 256
    ensures draw in DrawsOf(Unmix, g) <==> Guard(draw) == g
  {
    MixInverse();
    DrawsSize(Mix, Unmix, g);
    DrawsHit(Mix, Unmix, g, draw);
    GuardOfExact(Mix(draw), g);
  }

  /** What one call gets from outside: the boot information and two draws of entropy. */
  datatype Input = Input(mem: Memory, magic: nat, info: nat, draw: nat, source: nat, guard: u64)

  /** The header, the entries and the image. */
  datatype Kernel = Kernel(h: Header, entries: seq<nat>, image: seq<byte>)

  /** The table of a valid header is there, and its fields and the guard, if any, lie inside the image memory. */
  ghost predicate Sound(m: Kernel) {
    Valid(m.h) ==>
      && m.h.count <= |m.entries| && AllInside(Fields(m), |m.image|)
      && (m.h.guardPhys != 0 ==> Inside(GuardField(m.h), |m.image|))
  }

  function Fields(m: Kernel): seq<Field>
    requires m.h.count <= |m.entries|
  {
    FieldsOf(m.entries[..m.h.count])
  }

  function GuardField(h: Header): Field { Field(h.guardPhys, 8) }

  /** `kaslr_apply`: refused (false) for a bad header or one that was already applied. */
  function Apply(m: Kernel, slide: nat, source: nat, state: nat): (r: (Kernel, bool))
    requires Sound(m)
  {
    if !Valid(m.h) || Flag(m.h.state, ST_APPLIED) then (m, false)
    else
      (Kernel(m.h.(slide := slide, source := source, state := SetFlag(state, ST_APPLIED)), m.entries,
               Relocated(m.image, Fields(m), slide)), true)
  }

  /** `kaslr_set_guard`. */
  function SetGuard(m: Kernel, draw: u64): Kernel
    requires Sound(m)
  {
    if !Valid(m.h) || m.h.guardPhys == 0 || Flag(m.h.state, ST_CANARY) then m
    else Kernel(m.h.(state := SetFlag(m.h.state, ST_CANARY)), m.entries, Write(m.image, GuardField(m.h), Guard(draw)))
  }

  /** The slide, the state bits and the source that the relocator chooses. */
  function Choose(h: Header, i: Input): (nat, nat, nat) {
    if Flag(h.flags, F_DISABLED) then (0, ST_MB2 + ST_OFF_BUILD, 0)
    else if BlockAnswers(HasOption, i.mem, i.magic, i.info) then (0, ST_MB2 + ST_OFF_CMD, 0)
    else (PageWindow.PickSlide(i.draw, h.slots), ST_MB2 + ST_RANDOM, i.source)
  }

  /** `kaslr_boot_mb2` up to the page tables: the new machine and the slide. */
  function Boot(m: Kernel, i: Input): (r: (Kernel, nat))
    requires Sound(m)
  {
    if !Valid(m.h) then (m, 0)
    else if Flag(m.h.state, ST_APPLIED) then (m, m.h.slide)
    else
      var (slide, state, source) := Choose(m.h, i);
      var (m', ok) := Apply(m, slide, source, state);
      (SetGuard(m', i.guard), if ok then slide else 0)
  }

  lemma SetFlagSets(x: nat, b: nat)
    requires b > 0
    ensures Flag(SetFlag(x, b), b)
  {
    NextMultiple(x, b);
  }

  lemma NextMultiple(x: nat, b: nat)
    requires b > 0
    ensures (x + b) / b == x / b + 1
  {
    DivUnique(x + b, x / b + 1, x % b, b);
  }

  /** Setting the canary bit does not clear the applied bit. */
  lemma CanaryKeepsApplied(x: nat)
    ensures Flag(SetFlag(x, ST_CANARY), ST_APPLIED) == Flag(x, ST_APPLIED)
  {}

  lemma BootSound(m: Kernel, i: Input)
    requires Sound(m)
    ensures Sound(Boot(m, i).0)
  {}

  /** After one call on a valid header the relocations are marked as applied, with the slide that was returned. */
  lemma BootApplies(m: Kernel, i: Input)
    requires Sound(m) && Valid(m.h)
    ensures var (m', slide) := Boot(m, i);
            Valid(m'.h) && Flag(m'.h.state, ST_APPLIED) && m'.h.slide == slide
  {
    if !Flag(m.h.state, ST_APPLIED) {
      var (slide, state, source) := Choose(m.h, i);
      SetFlagSets(state, ST_APPLIED);
      CanaryKeepsApplied(SetFlag(state, ST_APPLIED));
    }
  }

  /** A second call changes nothing and returns the same slide, whatever its inputs. */
  lemma BootOnce(m: Kernel, i: Input, j: Input)
    requires Sound(m)
    ensures Sound(Boot(m, i).0) && Boot(Boot(m, i).0, j) == Boot(m, i)
  {
    BootSound(m, i);
    if Valid(m.h) {
      BootApplies(m, i);
    }
  }

  /** The machine after a sequence of calls. */
  function Run(m: Kernel, calls: seq<Input>): (m': Kernel)
    requires Sound(m)
    ensures Sound(m')
  {
    if calls == [] then m
    else
      var before := Run(m, calls[..|calls| - 1]);
      BootSound(before, calls[|calls| - 1]);
      Boot(before, calls[|calls| - 1]).0
  }

  /** Over any sequence of calls the image is relocated once: it stays as the first call left it. */
  lemma {:induction false} RunOnce(m: Kernel, calls: seq<Input>)
    requires Sound(m) && calls != []
    ensures Run(m, calls) == Boot(m, calls[0]).0
    ensures forall j: Input :: Boot(Run(m, calls), j).1 == Boot(m, calls[0]).1
  {
    var n := |calls| - 1;
    if n == 0 {
      assert calls[..0] == [];
    } else {
      RunOnce(m, calls[..n]);
      BootOnce(m, calls[0], calls[n]);
    }
    forall j: Input ensures Boot(Run(m, calls), j).1 == Boot(m, calls[0]).1 {
      BootOnce(m, calls[0], j);
    }
  }

  // ------------------------------------------------- what the first call does

  /** The guard, if any, lies apart from every relocated field. */
  ghost predicate GuardApart(m: Kernel)
    requires m.h.count <= |m.entries|
  {
    m.h.guardPhys != 0 ==> forall k :: 0 <= k < |Fields(m)| ==> Apart(GuardField(m.h), Fields(m)[k])
  }

  /** A header that is valid and not yet applied, with a well-formed table. */
  ghost predicate Ready(m: Kernel) {
    Sound(m) && Valid(m.h) && !Flag(m.h.state, ST_APPLIED) && WellFormed(Fields(m), |m.image|) && GuardApart(m)
  }

  lemma ChosenSlideFits(h: Header, i: Input)
    ensures PageWindow.Slide(Choose(h, i).0)
  {
    PageWindow.PickSlideFits(i.draw, h.slots);
  }

  /** The first call moves every listed field by the slide it returns, modulo the width of the field. */
  lemma BootMovesFields(m: Kernel, i: Input, k: nat)
    requires Ready(m) && k < m.h.count
    ensures var (m', slide) := Boot(m, i); var f := Fields(m)[k];
            PageWindow.Slide(slide) && |m'.image| == |m.image| && Read(m'.image, f) == Moved(Read(m.image, f), slide, f)
  {
    var (slide, state, source) := Choose(m.h, i);
    var f := Fields(m)[k];
    ChosenSlideFits(m.h, i);
    FieldsMove(m.image, Fields(m), slide, k);
    var (m1, ok) := Apply(m, slide, source, state);
    if m.h.guardPhys != 0 {
      assert Apart(GuardField(m.h), f);
      ReadApart(m1.image, GuardField(m.h), Guard(i.guard), f);
    }
  }

  /** Bytes outside the listed fields and the guard are left alone. */
  lemma BootKeepsOthers(m: Kernel, i: Input, b: nat)
    requires Ready(m) && b < |m.image| && Uncovered(Fields(m), b) && (m.h.guardPhys == 0 || !Covers(GuardField(m.h), b))
    ensures |Boot(m, i).0.image| == |m.image| && Boot(m, i).0.image[b] == m.image[b]
  {
    var (slide, state, source) := Choose(m.h, i);
    OthersStay(m.image, Fields(m), slide, b);
    var (m1, ok) := Apply(m, slide, source, state);
    if m.h.guardPhys != 0 {
      WriteFrame(m1.image, GuardField(m.h), Guard(i.guard), b);
    }
  }

  // ------------------------------------------------------- which slide is taken

  /** A header that fails any of the checks: the machine is left alone and the slide is 0. */
  lemma BootRefused(m: Kernel, i: Input)
    requires Sound(m)
    requires || m.h.magic != 0x4C53_414B || m.h.version != 2 || m.h.linkBase != 0xFFFF_FFFF_8000_0000
             || m.h.align != 0x20_0000 || m.h.slots > 768
    ensures Boot(m, i) == (m, 0)
  {}

  /** The header after the first call, whether KASLR is off by build (`off`), by the option (`cmd`), or on. */
  predicate Decided(before: Header, after: Header, slide: nat, i: Input, off: bool, cmd: bool) {
    && slide == (if off || cmd || before.slots <= 1 then 0 else i.draw % before.slots * 0x20_0000)
    && after.slide == slide
    && after.source == (if off || cmd then 0 else i.source)
    && after.state == 0x21 + (if off then 0x04 else if cmd then 0x08 else 0x02)
                    + (if before.guardPhys != 0 then 0x40 else 0)
  }

  lemma BootDecides(m: Kernel, i: Input, cmd: bool)
    requires Ready(m) && BlockAnswers(HasOption, i.mem, i.magic, i.info) == cmd
    ensures Decided(m.h, Boot(m, i).0.h, Boot(m, i).1, i, m.h.flags % 2 == 1, cmd)
  {
    var (slide, state, source) := Choose(m.h, i);
    var bits := ChosenState(m.h, i, cmd);
    BootHeader(m, i, slide, bits, source);
  }

  lemma ChosenState(h: Header, i: Input, cmd: bool) returns (bits: nat)
    requires BlockAnswers(HasOption, i.mem, i.magic, i.info) == cmd && h.slots <= 768
    ensures var off := h.flags % 2 == 1;
            && bits == (if off then 0x04 else if cmd then 0x08 else 0x02)
            && Choose(h, i) == (if off || cmd || h.slots <= 1 then 0 else i.draw % h.slots * 0x20_0000,
                                0x20 + bits, if off || cmd then 0 else i.source)
  {
    bits := if h.flags % 2 == 1 then 0x04 else if cmd then 0x08 else 0x02;
  }

  lemma BootHeader(m: Kernel, i: Input, slide: nat, bits: nat, source: nat)
    requires Ready(m) && Choose(m.h, i) == (slide, 0x20 + bits, source) && (bits == 2 || bits == 4 || bits == 8)
    ensures var canary := if m.h.guardPhys != 0 then 0x40 else 0;
            Boot(m, i).0.h == m.h.(slide := slide, source := source, state := 0x21 + bits + canary)
    ensures Boot(m, i).1 == slide
  {
    var m1 := Relocation(m, i);
    SetGuardHeader(m1, i.guard);
  }

  lemma SetGuardHeader(m: Kernel, draw: u64)
    requires Sound(m) && Valid(m.h) && !Flag(m.h.state, ST_CANARY)
    ensures SetGuard(m, draw).h == if m.h.guardPhys == 0 then m.h else m.h.(state := m.h.state + ST_CANARY)
  {}

  /**
    With a well-formed boot information block, the first call takes slide 0 if KASLR is disabled by build or
    by "nokaslr" on the first command line, and otherwise the drawn slot times 2 MiB.
   */
  lemma BootSlide(m: Kernel, i: Input, ts: seq<Tag>)
    requires Ready(m) && i.magic == 0x36d7_6289 && i.info != 0 && AllValid(ts)
    requires |EncodeBlock(ts)| <= 0x10_0000 && Holds(i.mem, i.info, EncodeBlock(ts))
    ensures Decided(m.h, Boot(m, i).0.h, Boot(m, i).1, i, m.h.flags % 2 == 1, TagsAnswer(HasOption, ts))
  {
    BlockAnswer(HasOption, i.mem, i.info, ts);
    BootDecides(m, i, TagsAnswer(HasOption, ts));
  }

  /** Without a usable block there is no option, and only the build can disable KASLR. */
  lemma BootWithoutBlock(m: Kernel, i: Input)
    requires Ready(m)
    requires i.magic != 0x36d7_6289 || i.info == 0 || !(16 <= U32(i.mem, i.info) <= 0x10_0000)
    ensures Decided(m.h, Boot(m, i).0.h, Boot(m, i).1, i, m.h.flags % 2 == 1, false)
  {
    BootDecides(m, i, false);
  }

  /** The second draw, mixed and with its low byte cleared, is stored where the header says. */
  lemma BootStoresGuard(m: Kernel, i: Input)
    requires Ready(m) && m.h.guardPhys != 0
    ensures |Boot(m, i).0.image| == |m.image|
    ensures Read(Boot(m, i).0.image, Field(m.h.guardPhys, 8)) == Guard(i.guard)
  {
    var m1 := Relocation(m, i);
    GuardShape(i.guard);
    SetGuardStores(m1, i.guard, Guard(i.guard));
  }

  /** The machine between `kaslr_apply` and `kaslr_set_guard`. */
  lemma Relocation(m: Kernel, i: Input) returns (m1: Kernel)
    requires Ready(m)
    ensures Sound(m1) && Valid(m1.h) && !Flag(m1.h.state, ST_CANARY) && |m1.image| == |m.image|
    ensures var (slide, state, source) := Choose(m.h, i);
            m1.h == m.h.(slide := slide, source := source, state := state + 1) && Boot(m, i).1 == slide
    ensures Boot(m, i).0 == SetGuard(m1, i.guard)
  {
    var (slide, state, source) := Choose(m.h, i);
    assert state == 0x24 || state == 0x28 || state == 0x22;
    m1 := Applied(m, slide, source, state);
  }

  lemma Applied(m: Kernel, slide: nat, source: nat, state: nat) returns (m1: Kernel)
    requires Ready(m) && (state == 0x24 || state == 0x28 || state == 0x22)
    ensures Apply(m, slide, source, state) == (m1, true)
    ensures Sound(m1) && Valid(m1.h) && !Flag(m1.h.state, ST_CANARY) && |m1.image| == |m.image|
    ensures m1.h == m.h.(slide := slide, source := source, state := state + 1)
  {
    m1 := Apply(m, slide, source, state).0;
  }

  lemma SetGuardStores(m: Kernel, draw: u64, g: nat)
    requires Sound(m) && Valid(m.h) && !Flag(m.h.state, ST_CANARY) && m.h.guardPhys != 0
    requires g == Guard(draw) && g < TWO_TO_64
    ensures |SetGuard(m, draw).image| == |m.image|
    ensures Read(SetGuard(m, draw).image, Field(m.h.guardPhys, 8)) == g
  {
    ReadStored(m.image, m.h.guardPhys, g);
  }

  lemma ReadStored(image: seq<byte>, addr: nat, g: nat)
    requires Inside(Field(addr, 8), |image|) && g < TWO_TO_64
    ensures Read(Write(image, Field(addr, 8), g), Field(addr, 8)) == g
  {
    ReadWrite(image, Field(addr, 8), g);
    WordRanges();
    DivUnique(g, 0, g, TWO_TO_64);
  }

  // ---------------------------------------------------- pointers after the first call

  /** What a field of either width holds for a link address, and the address that code reads back from it. */
  function Stored(f: Field, link: nat): nat { if f.width == 4 then link % 0x1_0000_0000 else link }

  function Pointer(f: Field, v: nat): nat { if f.width == 4 then PageWindow.SignExtend32(v) else v }

  /**
   * A pointer in the image, relocated by the first call and followed through the page tables built by the same
   * call, reaches the physical byte it was linked to.
   */
  lemma PointersReachSameByte(m: Kernel, i: Input, k: nat, link: nat, pdpt: seq<int>, a: seq<int>, b: seq<int>,
                              baseA: nat, baseB: nat)
    requires Ready(m) && k < m.h.count
    requires PageWindow.LINK_BASE <= link < PageWindow.LINK_BASE + PageWindow.WINDOW
    requires Read(m.image, Fields(m)[k]) == Stored(Fields(m)[k], link)
    requires PageWindow.Mapped(pdpt, a, b, baseA, baseB, Boot(m, i).1)
    requires baseA < TWO_TO_64 && baseB < TWO_TO_64 && baseA % 4096 == 0 && baseB % 4096 == 0 && baseA != baseB
    ensures var f := Fields(m)[k]; var m' := Boot(m, i).0;
            |m'.image| == |m.image|
            && PageWindow.Walk(pdpt, a, b, baseA, baseB, Pointer(f, Read(m'.image, f)))
               == PageWindow.To(link - PageWindow.LINK_BASE)
  {
    var f, slide := Fields(m)[k], Boot(m, i).1;
    BootMovesFields(m, i, k);
    PointerMoved(f, link, slide);
    PageWindow.WalkWindow(pdpt, a, b, baseA, baseB, slide, link + slide);
  }

  lemma PointerMoved(f: Field, link: nat, slide: nat)
    requires PageWindow.LINK_BASE <= link < PageWindow.LINK_BASE + PageWindow.WINDOW && PageWindow.Slide(slide)
    requires f.width == 4 || f.width == 8
    ensures Pointer(f, Moved(Stored(f, link), slide, f)) == link + slide
  {
    WordRanges();
    PageWindow.RelocatedAddress(link, slide);
  }

  // ---------------------------------------------------------------- the code

  class Relocator {
    var h: Header
    const entries: seq<nat>
    const image: array<byte>

    constructor (h0: Header, e: seq<nat>, img: array<byte>)
      ensures h == h0 && entries == e && image == img
    {
      h, entries, image := h0, e, img;
    }

    ghost function Contents(): Kernel
      reads this, image
    {
      Kernel(h, entries, image[..])
    }

    /** `kaslr_apply`. */
    method ApplySlide(slide: nat, source: nat, state: nat) returns (ok: bool)
      requires Sound(Contents())
      modifies this, image
      ensures (Contents(), ok) == Apply(old(Contents()), slide, source, state)
    {
      if !Valid(h) || Flag(h.state, ST_APPLIED) {
        return false;
      }
      RelocateFields(image, entries, h.count, slide);
      h := h.(slide := slide);
      h := h.(source := source);
      h := h.(state := SetFlag(state, ST_APPLIED));
      return true;
    }

    /** `kaslr_set_guard`. */
    method StoreGuard(draw: u64)
      requires Sound(Contents())
      modifies this, image
      ensures Contents() == SetGuard(old(Contents()), draw)
    {
      if !Valid(h) || h.guardPhys == 0 || Flag(h.state, ST_CANARY) {
        return;
      }
      Store(image, GuardField(h), Guard(draw));
      h := h.(state := SetFlag(h.state, ST_CANARY));
    }

    /** `kaslr_boot_mb2`. */
    method BootMb2(i: Input, pdpt: array<int>, pdtA: array<int>, pdtB: array<int>, baseA: nat, baseB: nat)
      returns (slide: nat)
      requires Sound(Contents()) && h.slide < TWO_TO_64
      requires pdpt.Length == 512 && pdtA.Length == 512 && pdtB.Length == 512 && pdpt != pdtA && pdpt != pdtB
      requires pdtA != pdtB
      modifies this, image, pdpt, pdtA, pdtB
      ensures (Contents(), slide) == Boot(old(Contents()), i)
      ensures slide < TWO_TO_64 && PageWindow.Mapped(pdpt[..], pdtA[..], pdtB[..], baseA, baseB, slide)
    {
      slide := 0;
      if Valid(h) && Flag(h.state, ST_APPLIED) {
        slide := h.slide;
      } else if Valid(h) {
        slide := Relocate(i);
      }
      PageWindow.MapWindow(pdpt, pdtA, pdtB, baseA, baseB, slide);
    }

    /** The branch of `kaslr_boot_mb2` that relocates. */
    method Relocate(i: Input) returns (slide: nat)
      requires Sound(Contents()) && Valid(h) && !Flag(h.state, ST_APPLIED)
      modifies this, image
      ensures (Contents(), slide) == Boot(old(Contents()), i) && slide < TWO_TO_64
    {
      var state, source := ST_MB2, 0;
      slide := 0;
      if Flag(h.flags, F_DISABLED) {
        state := state + ST_OFF_BUILD;
      } else {
        var off := Mb2NoKaslr(i.mem, i.magic, i.info);
        if off {
          state := state + ST_OFF_CMD;
        } else {
          slide := PageWindow.PickSlide(i.draw, h.slots);
          source := i.source;
          state := state + ST_RANDOM;
        }
      }
      ChosenSlideFits(h, i);
      var ok := ApplySlide(slide, source, state);
      var kept: int := slide;
      if !ok {
        kept := 0;
      }
      slide := kept;
      StoreGuard(i.guard);
    }
  }
}
