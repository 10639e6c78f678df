/** The slide-independent measurement of the kernel image (`kaslr_sha256_unrelocated`). */
module Measurement {
  import opened Machine
  import opened ModArith
  import opened LittleEndian
  import opened DigitSlices
  import opened Slices
  import opened Relocate
  import opened Hashes

  /** The fields in increasing order of address, without overlap. */
  ghost predicate Ascending(fs: seq<Field>, n: nat) {
    && (forall i :: 0 <= i < |fs| ==> Inside(fs[i], n) && (fs[i].width == 4 || fs[i].width == 8))
    && (forall i, j :: 0 <= i < j < |fs| ==> Before(fs[i], fs[j]))
  }

  predicate Before(f: Field, g: Field) {
    f.addr + f.width <= g.addr
  }

  lemma AscendingIsWellFormed(fs: seq<Field>, n: nat)
    requires Ascending(fs, n)
    ensures WellFormed(fs, n)
  {
    forall i, j | 0 <= i < j < |fs| ensures Apart(fs[i], fs[j]) {
      assert Before(fs[i], fs[j]);
    }
  }

  function Stop(f: Field): nat { f.addr + f.width }

  /** The field lies across the address `a`. */
  predicate Straddles(f: Field, a: nat) {
    f.addr < a < Stop(f)
  }

  /** Where the field that lies across `start` ends, or `start` if there is none. */
  function Lead(fs: seq<Field>, start: nat): (a: nat)
    ensures a >= start
  {
    if fs == [] then start
    else if Straddles(fs[|fs| - 1], start) then Stop(fs[|fs| - 1])
    else Lead(fs[..|fs| - 1], start)
  }

  /** At most one field lies across `start`. */
  lemma {:induction false} LeadOf(fs: seq<Field>, n: nat, start: nat, j: nat)
    requires Ascending(fs, n) && j < |fs| && Straddles(fs[j], start)
    ensures Lead(fs, start) == Stop(fs[j])
  {
    if j < |fs| - 1 {
      assert Before(fs[j], fs[|fs| - 1]);
      LeadOf(fs[..|fs| - 1], n, start, j);
    }
  }

  lemma {:induction false} LeadCases(fs: seq<Field>, n: nat, start: nat)
    requires Ascending(fs, n) && start <= n
    ensures Lead(fs, start) <= n
    ensures Lead(fs, start) == start || exists j :: 0 <= j < |fs| && Straddles(fs[j], start)
  {
    if fs != [] && !Straddles(fs[|fs| - 1], start) {
      var front := fs[..|fs| - 1];
      LeadCases(front, n, start);
      if j :| 0 <= j < |front| && Straddles(front[j], start) {
        assert Straddles(fs[j], start);
      }
    }
  }

  /** Fields that begin in the range begin after the one across its start. */
  lemma AfterLead(fs: seq<Field>, n: nat, start: nat, i: nat)
    requires Ascending(fs, n) && start <= n && i < |fs| && fs[i].addr >= start
    ensures fs[i].addr >= Lead(fs, start)
  {
    LeadCases(fs, n, start);
    if j :| 0 <= j < |fs| && Straddles(fs[j], start) {
      LeadOf(fs, n, start, j);
      if j < i {
        assert Before(fs[j], fs[i]);
      }
    }
  }

  /** The bytes of a field with the slide subtracted again: the low part of `v - slide` on 64 bits. */
  function Reverted(m: seq<byte>, f: Field, slide: nat): (s: seq<byte>)
    requires Inside(f, |m|) && slide < TWO_TO_64
    ensures |s| == f.width
  {
    Bytes((Read(m, f) + (TWO_TO_64 - slide)) % TWO_TO_64, f.width)
  }

  /** They are the bytes of the file. */
  lemma RevertedIsOriginal(m: seq<byte>, fs: seq<Field>, slide: nat, i: nat)
    requires WellFormed(fs, |m|) && slide < TWO_TO_64 && i < |fs|
    ensures Reverted(Relocated(m, fs, slide), fs[i], slide) == m[fs[i].addr..fs[i].addr + fs[i].width]
  {
    var f := fs[i];
    FieldsMove(m, fs, slide, i);
    MovedReverts(m[f.addr..f.addr + f.width], f, slide, Read(Relocated(m, fs, slide), f));
  }

  lemma MovedReverts(s: seq<byte>, f: Field, slide: nat, x: nat)
    requires |s| == f.width && (f.width == 4 || f.width == 8) && slide < TWO_TO_64 && x == Moved(Value(s), slide, f)
    ensures Bytes((x + (TWO_TO_64 - slide)) % TWO_TO_64, f.width) == s
  {
    ValueBound(s);
    MovedBack(Value(s), slide, f);
    LowBytes(x + (TWO_TO_64 - slide), f);
    BytesOfValue(s);
  }

  /** Truncation to 64 bits does not matter for the bytes of a field. */
  lemma LowBytes(v: nat, f: Field)
    requires f.width == 4 || f.width == 8
    ensures Bytes(v % TWO_TO_64, f.width) == Bytes(v % Range(f.width), f.width)
  {
    WordRanges();
    BytesModulo(v % TWO_TO_64, f.width);
    TruncateTwice(v, Range(f.width));
  }

  lemma TruncateTwice(v: nat, w: nat)
    requires w == 0x1_0000_0000 || w == TWO_TO_64
    ensures v % TWO_TO_64 % w == v % w
  {}

  lemma {:induction false} NoSlide(m: seq<byte>, fs: seq<Field>)
    requires AllInside(fs, |m|)
    ensures Relocated(m, fs, 0) == m
  {
    if fs != [] {
      var n := |fs| - 1;
      NoSlide(m, fs[..n]);
      BytesOfValue(m[fs[n].addr..fs[n].addr + fs[n].width]);
    }
  }

  // -------------------------------------------------------------- what is hashed

  /** The image up to `lead`, and the file from there. */
  function Seen(m: seq<byte>, image: seq<byte>, lead: nat): (s: seq<byte>)
    requires lead <= |m| == |image|
    ensures |s| == |m| && forall k :: 0 <= k < |s| ==> s[k] == if k < lead then image[k] else m[k]
  {
    image[..lead] + m[lead..]
  }

  /**
    What `kaslr_sha256_unrelocated` hashes: the file, but for the rest of a field that lies across the start;
    nothing if the range is empty.
   */
  function Measured(m: seq<byte>, fs: seq<Field>, slide: nat, header: bool, start: nat, end: nat): seq<byte>
    requires Ascending(fs, |m|) && end <= |m|
  {
    if start > end then []
    else
      AscendingIsWellFormed(fs, |m|);
      LeadCases(fs, |m|, start);
      var image := Relocated(m, fs, slide);
      if header && slide != 0 then Seen(m, image, Lead(fs, start))[start..end] else image[start..end]
  }

  /** Without a header, or with slide 0, the image is measured as it lies in memory. */
  lemma MeasuredAsLoaded(m: seq<byte>, fs: seq<Field>, slide: nat, header: bool, start: nat, end: nat)
    requires Ascending(fs, |m|) && start <= end <= |m| && AllInside(fs, |m|) && (!header || slide == 0)
    ensures Measured(m, fs, slide, header, start, end) == Relocated(m, fs, slide)[start..end]
  {}

  /**
    Adding the slide leaves alone bytes `o` to `t` of a field that holds `v`: nothing is carried out of the bytes
    below them, or the carry runs through all of them.
   */
  predicate Spares(v: nat, slide: nat, o: nat, t: nat) {
    var sum := v % Range(o) + slide % Range(t);
    sum < Range(o) || sum >= Range(t)
  }

  /** Bytes `o` to `t` of a moved field are those of the file exactly when the slide spares them. */
  lemma FieldSpared(m: seq<byte>, image: seq<byte>, f: Field, slide: nat, o: nat, t: nat, lo: nat, hi: nat)
    requires Inside(f, |m|) && |m| == |image| && Read(image, f) == Moved(Read(m, f), slide, f)
    requires o <= t <= f.width && lo == f.addr + o && hi == f.addr + t
    ensures image[lo..hi] == m[lo..hi] <==> Spares(Read(m, f), slide, o, t)
  {
    SliceOfSlice(m, f.addr, Stop(f), o, t);
    SliceOfSlice(image, f.addr, Stop(f), o, t);
    MovedSlice(m[f.addr..Stop(f)], image[f.addr..Stop(f)], slide, f, o, t);
  }

  lemma MovedSlice(s: seq<byte>, s': seq<byte>, slide: nat, f: Field, o: nat, t: nat)
    requires |s| == |s'| == f.width && Value(s') == Moved(Value(s), slide, f) && o <= t <= f.width
    ensures s'[o..t] == s[o..t] <==> Spares(Value(s), slide, o, t)
  {
    var v := Value(s);
    SliceValue(s, o, t);
    SliceValue(s', o, t);
    RangeSplit(t, f.width);
    RangeSplit(o, t);
    LowRemainder(v + slide, Range(t), Range(f.width - t), Range(f.width));
    DigitsKept(v, slide, Range(o), Range(t - o), Range(t));
    if Value(s'[o..t]) == Value(s[o..t]) {
      ValueInjective(s'[o..t], s[o..t]);
    }
  }

  /** Where a range that starts in the field leaves it, counted from the field's first byte. */
  function CutOff(f: Field, end: nat): nat
    requires f.addr <= end
  {
    if Stop(f) <= end then f.width else end - f.addr
  }

  /** The slide spares what the range has of the field. */
  predicate Harmless(m: seq<byte>, f: Field, slide: nat, start: nat, end: nat)
    requires Inside(f, |m|) && f.addr <= start <= end
  {
    Spares(Read(m, f), slide, start - f.addr, CutOff(f, end))
  }

  /**
    With a table, the range is measured as the file exactly when no field lies across its start, or adding the
    slide to the one that does neither carries into the bytes in the range nor changes them.
   */
  lemma MeasuredExact(m: seq<byte>, fs: seq<Field>, slide: nat, start: nat, end: nat)
    requires Ascending(fs, |m|) && start <= end <= |m|
    ensures Measured(m, fs, slide, true, start, end) == m[start..end]
       <==> forall j :: 0 <= j < |fs| && Straddles(fs[j], start) ==> Harmless(m, fs[j], slide, start, end)
  {
    LeadCases(fs, |m|, start);
    if j :| 0 <= j < |fs| && Straddles(fs[j], start) {
      StraddleExact(m, fs, slide, start, end, j);
      forall i | 0 <= i < |fs| && Straddles(fs[i], start) ensures i == j {
        OneStraddles(fs, |m|, start, i, j);
      }
    } else {
      AscendingIsWellFormed(fs, |m|);
      MeasuredFrom(m, fs, slide, start, end, Relocated(m, fs, slide), start);
    }
  }

  lemma OneStraddles(fs: seq<Field>, n: nat, start: nat, i: nat, j: nat)
    requires Ascending(fs, n) && i < |fs| && j < |fs| && Straddles(fs[i], start) && Straddles(fs[j], start)
    ensures i == j
  {
    LeadOf(fs, n, start, i);
    LeadOf(fs, n, start, j);
    assert i < j ==> Before(fs[i], fs[j]);
    assert j < i ==> Before(fs[j], fs[i]);
  }

  /** What is measured is the file exactly when the image agrees with it up to the end of a field across the start. */
  lemma MeasuredFrom(m: seq<byte>, fs: seq<Field>, slide: nat, start: nat, end: nat, image: seq<byte>, hi: nat)
    requires Ascending(fs, |m|) && AllInside(fs, |m|) && start <= end <= |m| && image == Relocated(m, fs, slide)
    requires hi == if Lead(fs, start) <= end then Lead(fs, start) else end
    ensures Measured(m, fs, slide, true, start, end) == m[start..end] <==> image[start..hi] == m[start..hi]
  {
    LeadCases(fs, |m|, start);
    NoSlide(m, fs);
    if slide != 0 {
      var s := Seen(m, image, Lead(fs, start));
      SameTail(s, m, start, hi, end);
      assert s[start..hi] == image[start..hi];
    }
  }

  lemma StraddleExact(m: seq<byte>, fs: seq<Field>, slide: nat, start: nat, end: nat, j: nat)
    requires Ascending(fs, |m|) && start <= end <= |m| && j < |fs| && Straddles(fs[j], start)
    ensures Measured(m, fs, slide, true, start, end) == m[start..end] <==> Harmless(m, fs[j], slide, start, end)
  {
    AscendingIsWellFormed(fs, |m|);
    FieldsMove(m, fs, slide, j);
    LeadOf(fs, |m|, start, j);
    var hi := fs[j].addr + CutOff(fs[j], end);
    MeasuredFrom(m, fs, slide, start, end, Relocated(m, fs, slide), hi);
    HarmlessBytes(m, Relocated(m, fs, slide), fs[j], slide, start, end, hi);
  }

  lemma HarmlessBytes(m: seq<byte>, image: seq<byte>, f: Field, slide: nat, start: nat, end: nat, hi: nat)
    requires Inside(f, |m|) && |m| == |image| && Read(image, f) == Moved(Read(m, f), slide, f)
    requires start <= end && Straddles(f, start) && hi == f.addr + CutOff(f, end)
    ensures image[start..hi] == m[start..hi] <==> Harmless(m, f, slide, start, end)
  {
    FieldSpared(m, image, f, slide, start - f.addr, CutOff(f, end), start, hi);
  }

  /** No field across the start: the digest is that of the file, whatever the slide. */
  lemma MeasuredIsFile(m: seq<byte>, fs: seq<Field>, slide: nat, start: nat, end: nat)
    requires Ascending(fs, |m|) && start <= end <= |m|
    requires forall i :: 0 <= i < |fs| ==> !Straddles(fs[i], start)
    ensures Measured(m, fs, slide, true, start, end) == m[start..end]
  {
    MeasuredExact(m, fs, slide, start, end);
  }

  /** A range that starts two bytes into a field of zeros is not measured as the file when the slide is 2 MiB. */
  lemma MeasuredDiffers(m: seq<byte>, fs: seq<Field>)
    requires m == Bytes(0, 8) && fs == [Field(0, 8)]
    ensures Ascending(fs, |m|) && Measured(m, fs, 0x20_0000, true, 2, 8) != m[2..8]
  {
    ValueOfBytes(0, 8);
    WordRanges();
    assert m[0..8] == m;
    SlideMoves(Read(m, fs[0]));
    StraddleExact(m, fs, 0x20_0000, 2, 8, 0);
  }

  lemma SlideMoves(v: nat)
    requires v == 0
    ensures !Spares(v, 0x20_0000, 2, 8)
  {
    WordRanges();
    assert Range(2) == 0x1_0000;
    DivUnique(0x20_0000, 0, 0x20_0000, Range(8));
    DivUnique(0, 0, 0, Range(2));
  }

  // ---------------------------------------------------------------- the code

  /** Fields before `i` are done with; of the others, only one across the start reaches below `cur`. */
  ghost predicate Standing(fs: seq<Field>, i: nat, start: nat, cur: nat, end: nat) {
    && i <= |fs| && start <= cur
    && (forall j :: 0 <= j < i ==> Stop(fs[j]) <= cur || cur == end || Straddles(fs[j], start))
    && (forall j :: i <= j < |fs| ==>
          Stop(fs[j]) <= cur || fs[j].addr >= cur || (Straddles(fs[j], start) && cur == start))
  }

  /** Nothing is left to revert between `lo` and `hi`, from `lead` on. */
  ghost predicate Clear(fs: seq<Field>, lead: nat, lo: nat, hi: nat) {
    forall k :: lo <= k < hi && lead <= k ==> Uncovered(fs, k)
  }

  lemma ClearUpTo(fs: seq<Field>, n: nat, i: nat, start: nat, cur: nat, end: nat, hi: nat)
    requires Ascending(fs, n) && Standing(fs, i, start, cur, end) && hi <= end && (i < |fs| ==> fs[i].addr >= hi)
    ensures Clear(fs, Lead(fs, start), cur, hi)
  {
    forall k | cur <= k < hi && Lead(fs, start) <= k ensures Uncovered(fs, k) {
      forall j | 0 <= j < |fs| ensures !Covers(fs[j], k) {
        if i < j {
          assert Before(fs[i], fs[j]);
        } else if Straddles(fs[j], start) {
          LeadOf(fs, n, start, j);
        }
      }
    }
  }

  lemma NextStanding(fs: seq<Field>, n: nat, i: nat, start: nat, cur: nat, end: nat, cur': nat)
    requires Ascending(fs, n) && Standing(fs, i, start, cur, end) && i < |fs|
    requires || (cur' == cur && (Stop(fs[i]) <= cur || fs[i].addr < cur))
             || (cur <= fs[i].addr < end && cur' == if Stop(fs[i]) <= end then Stop(fs[i]) else end)
    ensures Standing(fs, i + 1, start, cur', end)
  {
    forall j | i < j < |fs|
      ensures Stop(fs[j]) <= cur' || fs[j].addr >= cur' || (Straddles(fs[j], start) && cur' == start)
    {
      assert Before(fs[i], fs[j]);
    }
  }

  /** One field inside the range: the bytes before it, then its own bytes reverted and cut at the end. */
  method OneField(c: Sha256, image: seq<byte>, f: Field, slide: nat, cur: nat, end: nat) returns (cur': nat)
    requires c.Valid() && slide < TWO_TO_64 && cur <= f.addr < end <= |image| && Inside(f, |image|)
    modifies c, c.core, c.core.buf
    ensures c.Valid() && cur' == (if Stop(f) <= end then Stop(f) else end)
    ensures c.core.msg == old(c.core.msg) + image[cur..f.addr] + Reverted(image, f, slide)[..cur' - f.addr]
  {
    c.Update(image[cur..f.addr]);
    var orig := Reverted(image, f, slide);
    var n := if Stop(f) <= end then f.width else end - f.addr;
    c.Update(orig[..n]);
    cur' := f.addr + n;
  }

  /** Where nothing is to be reverted, the image is what should be seen. */
  lemma GapIsSeen(m: seq<byte>, fs: seq<Field>, slide: nat, lead: nat, lo: nat, hi: nat)
    requires AllInside(fs, |m|) && lead <= |m| && lo <= hi <= |m| && Clear(fs, lead, lo, hi)
    ensures Relocated(m, fs, slide)[lo..hi] == Seen(m, Relocated(m, fs, slide), lead)[lo..hi]
  {
    forall k | lo <= k < hi && lead <= k ensures Relocated(m, fs, slide)[k] == m[k] {
      OthersStay(m, fs, slide, k);
    }
  }

  lemma OneFieldIsSeen(m: seq<byte>, fs: seq<Field>, slide: nat, i: nat, lead: nat, start: nat, cur: nat, cur': nat)
    requires WellFormed(fs, |m|) && slide < TWO_TO_64 && i < |fs| && start <= cur <= fs[i].addr <= cur' <= Stop(fs[i])
    requires lead <= fs[i].addr && Clear(fs, lead, cur, fs[i].addr)
    ensures var image := Relocated(m, fs, slide);
            var s := Seen(m, image, lead);
            s[start..cur] + image[cur..fs[i].addr] + Reverted(image, fs[i], slide)[..cur' - fs[i].addr]
              == s[start..cur']
  {
    var image := Relocated(m, fs, slide);
    var s := Seen(m, image, lead);
    GapIsSeen(m, fs, slide, lead, cur, fs[i].addr);
    RevertedIsOriginal(m, fs, slide, i);
    assert s[fs[i].addr..Stop(fs[i])] == m[fs[i].addr..Stop(fs[i])];
    ThreeParts(s, start, cur, fs[i].addr, cur', Stop(fs[i]));
  }

  /** The body of the loop over the table, for a field in the range. */
  method NextField(c: Sha256, image: seq<byte>, fs: seq<Field>, i: nat, slide: nat, ghost start: nat, cur: nat,
                   end: nat, ghost m: seq<byte>, ghost lead: nat)
    returns (cur': nat)
    requires c.Valid() && slide < TWO_TO_64 && start <= cur <= end <= |image| && i < |fs| && cur <= fs[i].addr < end
    requires Ascending(fs, |m|) && WellFormed(fs, |m|) && |m| == |image| && image == Relocated(m, fs, slide)
    requires lead == Lead(fs, start) <= |m| && Standing(fs, i, start, cur, end)
    requires c.core.msg == Seen(m, image, lead)[start..cur]
    modifies c, c.core, c.core.buf
    ensures c.Valid() && start <= cur' <= end && c.core.msg == Seen(m, image, lead)[start..cur']
    ensures Standing(fs, i + 1, start, cur', end)
  {
    ClearUpTo(fs, |m|, i, start, cur, end, fs[i].addr);
    AfterLead(fs, |m|, start, i);
    cur' := OneField(c, image, fs[i], slide, cur, end);
    OneFieldIsSeen(m, fs, slide, i, lead, start, cur, cur');
    NextStanding(fs, |m|, i, start, cur, end, cur');
  }

  /** The bytes fed so far: those to be seen up to `cur`, or none in an empty range. */
  ghost predicate Fed(msg: seq<byte>, m: seq<byte>, image: seq<byte>, lead: nat, start: nat, cur: nat, end: nat) {
    if start > end then cur == start && msg == []
    else start <= cur <= end <= |m| == |image| && lead <= |m| && msg == Seen(m, image, lead)[start..cur]
  }

  /** The loop over the table. */
  method EachField(c: Sha256, image: seq<byte>, fs: seq<Field>, slide: nat, start: nat, end: nat, ghost m: seq<byte>,
                   ghost lead: nat)
    returns (cur: nat)
    requires c.Valid() && c.core.msg == [] && slide < TWO_TO_64 && end <= |image|
    requires Ascending(fs, |m|) && AllInside(fs, |m|) && |m| == |image| && image == Relocated(m, fs, slide)
    requires lead == Lead(fs, start) && (start <= end ==> lead <= |m|)
    modifies c, c.core, c.core.buf
    ensures c.Valid() && Fed(c.core.msg, m, image, lead, start, cur, end)
    ensures start <= end ==> Clear(fs, lead, cur, end)
  {
    AscendingIsWellFormed(fs, |m|);
    cur := start;
    for i := 0 to |fs|
      invariant c.Valid() && Fed(c.core.msg, m, image, lead, start, cur, end)
      invariant start <= end ==> Standing(fs, i, start, cur, end)
    {
      var f := fs[i];
      if f.addr + f.width <= cur {
        if start <= end {
          NextStanding(fs, |m|, i, start, cur, end, cur);
        }
      } else if f.addr >= end {
        if start <= end {
          ClearUpTo(fs, |m|, i, start, cur, end, end);
        }
        return;
      } else if f.addr < cur {
        if start <= end {
          NextStanding(fs, |m|, i, start, cur, end, cur);
        }
      } else {
        cur := NextField(c, image, fs, i, slide, start, cur, end, m, lead);
      }
    }
    if start <= end {
      ClearUpTo(fs, |m|, |fs|, start, cur, end, end);
    }
  }

  /** Everything before the last update. */
  method Scan(c: Sha256, image: seq<byte>, fs: seq<Field>, header: bool, slide: nat, start: nat, end: nat,
              ghost m: seq<byte>)
    returns (cur: nat)
    requires c.Valid() && c.core.msg == [] && slide < TWO_TO_64 && end <= |image|
    requires Ascending(fs, |m|) && AllInside(fs, |m|) && |m| == |image| && image == Relocated(m, fs, slide)
    modifies c, c.core, c.core.buf
    ensures c.Valid() && start <= cur && (cur > end ==> c.core.msg == Measured(m, fs, slide, header, start, end))
    ensures cur <= end ==> c.core.msg + image[cur..end] == Measured(m, fs, slide, header, start, end)
  {
    cur := start;
    if start <= end {
      LeadCases(fs, |m|, start);
    }
    if header && slide != 0 {
      cur := EachField(c, image, fs, slide, start, end, m, Lead(fs, start));
      if start <= end {
        GapIsSeen(m, fs, slide, Lead(fs, start), cur, end);
        TwoParts(Seen(m, image, Lead(fs, start)), start, cur, end);
      }
    }
  }

  /** `kaslr_sha256_unrelocated`. Addresses are physical; `m` is the image as it is in the file. */
  method Measure(f: Compressor, image: seq<byte>, e: seq<nat>, count: nat, header: bool, slide: nat, start: nat,
                 end: nat, ghost m: seq<byte>)
    returns (out: seq<byte>)
    requires count <= |e| && slide < TWO_TO_64 && end <= |image| && |m| == |image|
    requires Ascending(FieldsOf(e[..count]), |m|) && AllInside(FieldsOf(e[..count]), |m|)
    requires image == Relocated(m, FieldsOf(e[..count]), slide)
    ensures out == Hash256(f, Measured(m, FieldsOf(e[..count]), slide, header, start, end))
  {
    var c := new Sha256(f);
    var cur := Scan(c, image, FieldsOf(e[..count]), header, slide, start, end, m);
    if cur < end {
      c.Update(image[cur..end]);
    } else if cur == end {
      assert c.core.msg + image[cur..end] == c.core.msg;
    }
    out := c.Final();
  }
}
