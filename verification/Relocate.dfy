/** Relocation of 32-bit and 64-bit fields in place (`kaslr_apply`; table format in boot/kaslr.h). */
module Relocate {
  import opened Machine
  import opened LittleEndian

  /** A little-endian integer stored at an address. */
  datatype Field = Field(addr: nat, width: nat)

  /** A table entry: bit 31 marks a 32-bit field, the other bits are its address. */
  function FieldOf(e: nat): Field {
    Field(e % 0x8000_0000, if e / 0x8000_0000 % 2 == 1 then 4 else 8)
  }

  /** Entries below 2^31 name 64-bit fields, the others 32-bit fields. */
  lemma FieldOfEntry(addr: nat)
    requires addr < 0x8000_0000
    ensures FieldOf(addr) == Field(addr, 8) && FieldOf(0x8000_0000 + addr) == Field(addr, 4)
  {}

  predicate Inside(f: Field, n: nat) {
    f.addr + f.width <= n
  }

  predicate Apart(f: Field, g: Field) {
    f.addr + f.width <= g.addr || g.addr + g.width <= f.addr
  }

  predicate Covers(f: Field, k: nat) {
    f.addr <= k < f.addr + f.width
  }

  /** Fields inside the memory that do not overlap. */
  ghost predicate WellFormed(fs: seq<Field>, n: nat) {
    && (forall i :: 0 <= i < |fs| ==> Inside(fs[i], n) && (fs[i].width == 4 || fs[i].width == 8))
    && (forall i, j :: 0 <= i < j < |fs| ==> Apart(fs[i], fs[j]))
  }

  ghost predicate AllInside(fs: seq<Field>, n: nat) {
    forall i :: 0 <= i < |fs| ==> Inside(fs[i], n)
  }

  /** No field contains byte `k`. */
  ghost predicate Uncovered(fs: seq<Field>, k: nat) {
    forall i :: 0 <= i < |fs| ==> !Covers(fs[i], k)
  }

  function Read(m: seq<byte>, f: Field): nat
    requires Inside(f, |m|)
  {
    Value(m[f.addr..f.addr + f.width])
  }

  /** The low bytes of `v` stored in the field. */
  function Write(m: seq<byte>, f: Field, v: nat): (r: seq<byte>)
    requires Inside(f, |m|)
    ensures |r| == |m|
  {
    m[..f.addr] + Bytes(v, f.width) + m[f.addr + f.width..]
  }

  function AddAt(m: seq<byte>, f: Field, slide: nat): (r: seq<byte>)
    requires Inside(f, |m|)
    ensures |r| == |m|
  {
    Write(m, f, Read(m, f) + slide)
  }

  /** The memory after the slide has been added to each field in turn. */
  function Relocated(m: seq<byte>, fs: seq<Field>, slide: nat): (r: seq<byte>)
    requires AllInside(fs, |m|)
    ensures |r| == |m|
  {
    if fs == [] then m else AddAt(Relocated(m, fs[..|fs| - 1], slide), fs[|fs| - 1], slide)
  }

  // ------------------------------------------------------------ one field

  lemma ReadWrite(m: seq<byte>, f: Field, v: nat)
    requires Inside(f, |m|)
    ensures Read(Write(m, f, v), f) == v % Range(f.width)
  {
    assert Write(m, f, v)[f.addr..f.addr + f.width] == Bytes(v, f.width);
    ValueOfBytes(v, f.width);
  }

  lemma ReadApart(m: seq<byte>, f: Field, v: nat, g: Field)
    requires Inside(f, |m|) && Inside(g, |m|) && Apart(f, g)
    ensures Read(Write(m, f, v), g) == Read(m, g)
  {
    assert Write(m, f, v)[g.addr..g.addr + g.width] == m[g.addr..g.addr + g.width];
  }

  lemma WriteFrame(m: seq<byte>, f: Field, v: nat, k: nat)
    requires Inside(f, |m|) && k < |m| && !Covers(f, k)
    ensures Write(m, f, v)[k] == m[k]
  {}

  lemma AddAtFrame(m: seq<byte>, f: Field, slide: nat, k: nat)
    requires Inside(f, |m|) && k < |m| && !Covers(f, k)
    ensures AddAt(m, f, slide)[k] == m[k]
  {
    WriteFrame(m, f, Read(m, f) + slide, k);
  }

  // ----------------------------------------------------------- all fields

  lemma WellFormedPrefix(fs: seq<Field>, n: nat)
    requires WellFormed(fs, n) && fs != []
    ensures WellFormed(fs[..|fs| - 1], n)
  {}

  lemma AddAtReads(m: seq<byte>, f: Field, slide: nat)
    requires Inside(f, |m|)
    ensures Read(AddAt(m, f, slide), f) == Moved(Read(m, f), slide, f)
  {
    ReadWrite(m, f, Read(m, f) + slide);
  }

  lemma AddAtApart(m: seq<byte>, f: Field, slide: nat, g: Field)
    requires Inside(f, |m|) && Inside(g, |m|) && Apart(f, g)
    ensures Read(AddAt(m, f, slide), g) == Read(m, g)
  {
    ReadApart(m, f, Read(m, f) + slide, g);
  }

  /** Every listed field is moved by the slide modulo its width. */
  lemma {:induction false} FieldsMove(m: seq<byte>, fs: seq<Field>, slide: nat, i: nat)
    requires WellFormed(fs, |m|) && i < |fs|
    ensures Read(Relocated(m, fs, slide), fs[i]) == Moved(Read(m, fs[i]), slide, fs[i])
  {
    WellFormedPrefix(fs, |m|);
    if i == |fs| - 1 {
      LastMoves(m, fs, slide);
    } else {
      FieldsMove(m, fs[..|fs| - 1], slide, i);
      EarlierStay(m, fs, slide, i);
    }
  }

  function Moved(x: nat, slide: nat, f: Field): nat {
    (x + slide) % Range(f.width)
  }

  lemma LastMoves(m: seq<byte>, fs: seq<Field>, slide: nat)
    requires WellFormed(fs, |m|) && fs != []
    ensures var f := fs[|fs| - 1]; Read(Relocated(m, fs, slide), f) == Moved(Read(m, f), slide, f)
  {
    var n := |fs| - 1;
    WellFormedPrefix(fs, |m|);
    StaysApart(m, fs[..n], slide, fs[n]);
    AddAtReads(Relocated(m, fs[..n], slide), fs[n], slide);
  }

  lemma EarlierStay(m: seq<byte>, fs: seq<Field>, slide: nat, i: nat)
    requires WellFormed(fs, |m|) && i < |fs| - 1
    ensures Read(Relocated(m, fs, slide), fs[i]) == Read(Relocated(m, fs[..|fs| - 1], slide), fs[i])
  {
    var n := |fs| - 1;
    AddAtApart(Relocated(m, fs[..n], slide), fs[n], slide, fs[i]);
  }

  /** A field apart from all the others is not touched by them. */
  lemma {:induction false} StaysApart(m: seq<byte>, fs: seq<Field>, slide: nat, g: Field)
    requires WellFormed(fs, |m|) && Inside(g, |m|) && forall i :: 0 <= i < |fs| ==> Apart(fs[i], g)
    ensures Read(Relocated(m, fs, slide), g) == Read(m, g)
  {
    if fs != [] {
      var n := |fs| - 1;
      WellFormedPrefix(fs, |m|);
      StaysApart(m, fs[..n], slide, g);
      AddAtApart(Relocated(m, fs[..n], slide), fs[n], slide, g);
    }
  }

  /** Every byte outside the listed fields is unchanged. */
  lemma {:induction false} OthersStay(m: seq<byte>, fs: seq<Field>, slide: nat, k: nat)
    requires AllInside(fs, |m|) && Uncovered(fs, k) && k < |m|
    ensures Relocated(m, fs, slide)[k] == m[k]
  {
    if fs != [] {
      var n := |fs| - 1;
      assert Inside(fs[n], |m|) && !Covers(fs[n], k);
      OthersStay(m, fs[..n], slide, k);
      AddAtFrame(Relocated(m, fs[..n], slide), fs[n], slide, k);
    }
  }

  /** Memories that agree on every field and on every other byte are equal. */
  lemma SameMemory(m: seq<byte>, r: seq<byte>, fs: seq<Field>)
    requires |m| == |r| && WellFormed(fs, |m|)
    requires forall i :: 0 <= i < |fs| ==> Read(m, fs[i]) == Read(r, fs[i])
    requires forall k :: 0 <= k < |m| && Uncovered(fs, k) ==> m[k] == r[k]
    ensures m == r
  {
    forall k | 0 <= k < |m| ensures m[k] == r[k] {
      if i :| 0 <= i < |fs| && Covers(fs[i], k) {
        var a, b := fs[i].addr, fs[i].addr + fs[i].width;
        ValueInjective(m[a..b], r[a..b]);
        assert m[k] == m[a..b][k - a] && r[k] == r[a..b][k - a];
      }
    }
  }

  /** Subtracting the slide modulo 2^64 undoes the relocation. */
  lemma RelocationUndone(m: seq<byte>, fs: seq<Field>, slide: nat)
    requires WellFormed(fs, |m|) && slide < TWO_TO_64
    ensures Relocated(Relocated(m, fs, slide), fs, TWO_TO_64 - slide) == m
  {
    var r := Relocated(m, fs, slide);
    var u := Relocated(r, fs, TWO_TO_64 - slide);
    forall i | 0 <= i < |fs| ensures Read(u, fs[i]) == Read(m, fs[i]) {
      FieldRestored(m, fs, slide, i);
    }
    forall k | 0 <= k < |m| && Uncovered(fs, k) ensures u[k] == m[k] {
      OthersStay(m, fs, slide, k);
      OthersStay(r, fs, TWO_TO_64 - slide, k);
    }
    SameMemory(u, m, fs);
  }

  lemma FieldRestored(m: seq<byte>, fs: seq<Field>, slide: nat, i: nat)
    requires WellFormed(fs, |m|) && slide < TWO_TO_64 && i < |fs|
    ensures Read(Relocated(Relocated(m, fs, slide), fs, TWO_TO_64 - slide), fs[i]) == Read(m, fs[i])
  {
    FieldsMove(m, fs, slide, i);
    FieldsMove(Relocated(m, fs, slide), fs, TWO_TO_64 - slide, i);
    ValueBound(m[fs[i].addr..fs[i].addr + fs[i].width]);
    MovedBack(Read(m, fs[i]), slide, fs[i]);
  }

  lemma MovedBack(x: nat, slide: nat, f: Field)
    requires (f.width == 4 || f.width == 8) && x < Range(f.width) && slide < TWO_TO_64
    ensures Moved(Moved(x, slide, f), TWO_TO_64 - slide, f) == x
  {
    WordRanges();
    AddThenSubtract(x, slide, Range(f.width));
  }

  lemma AddThenSubtract(x: nat, slide: nat, w: nat)
    requires (w == 0x1_0000_0000 || w == TWO_TO_64) && x < w && slide < TWO_TO_64
    ensures ((x + slide) % w + (TWO_TO_64 - slide)) % w == x
  {}

  // ---------------------------------------------------------------- the code

  function FieldsOf(e: seq<nat>): (fs: seq<Field>)
    ensures |fs| == |e|
  {
    seq(|e|, i requires 0 <= i < |e| => FieldOf(e[i]))
  }

  /** `*p = v` through a pointer to a field. */
  method Store(mem: array<byte>, f: Field, v: nat)
    requires Inside(f, mem.Length)
    modifies mem
    ensures mem[..] == Write(old(mem[..]), f, v)
  {
    var s := Bytes(v, f.width);
    for k := 0 to f.width
      invariant forall j :: 0 <= j < mem.Length ==>
                  mem[j] == if f.addr <= j < f.addr + k then s[j - f.addr] else old(mem[j])
    {
      mem[f.addr + k] := s[k];
    }
  }

  /** `*p = *p + slide` through a pointer to a field. */
  method AddTo(mem: array<byte>, f: Field, slide: nat)
    requires Inside(f, mem.Length)
    modifies mem
    ensures mem[..] == AddAt(old(mem[..]), f, slide)
  {
    Store(mem, f, Value(mem[f.addr..f.addr + f.width]) + slide);
  }

  /** The loop of `kaslr_apply` over the first `count` entries. */
  method RelocateFields(mem: array<byte>, e: seq<nat>, count: nat, slide: nat)
    requires count <= |e| && AllInside(FieldsOf(e[..count]), mem.Length)
    modifies mem
    ensures mem[..] == Relocated(old(mem[..]), FieldsOf(e[..count]), slide)
  {
    ghost var fs := FieldsOf(e[..count]);
    for i := 0 to count
      invariant mem[..] == Relocated(old(mem[..]), fs[..i], slide)
    {
      assert fs[..i + 1][..i] == fs[..i] && fs[i] == FieldOf(e[i]) && Inside(fs[i], mem.Length);
      AddTo(mem, FieldOf(e[i]), slide);
    }
    assert fs[..count] == fs;
  }
}
