/**
  The boot-option parsers (`kaslr_cmdline_nokaslr`, `kaslr_mb2_nokaslr`). Memory is a function from
  addresses to bytes.
 */
module BootOptions {
  import opened Machine
  import opened Radix
  import opened LittleEndian
  import opened CStrings

  type Memory = nat -> byte

  /** `kc_is_sep`: NUL, space, tab, newline, carriage return. */
  predicate IsSeparator(c: byte) {
    c == 0 || c == 32 || c == 9 || c == 10 || c == 13
  }

  /** "nokaslr". */
  const NOKASLR: seq<byte> := [110, 111, 107, 97, 115, 108, 114]

  /** The command line: at most `n` bytes, up to the first NUL. */
  function Line(mem: Memory, s: nat, n: nat): (l: seq<byte>)
    ensures |l| <= n
    decreases n
  {
    if n == 0 || mem(s) == 0 then [] else [mem(s)] + Line(mem, s + 1, n - 1)
  }

  /** The pieces of a line between separators. */
  function Split(l: seq<byte>): (ws: seq<seq<byte>>)
    ensures |ws| >= 1
  {
    if l == [] then [[]]
    else
      var ws := Split(l[1..]);
      if IsSeparator(l[0]) then [[]] + ws else [[l[0]] + ws[0]] + ws[1..]
  }

  /** What the boot option means: it is one of the words of the line. */
  predicate HasOption(l: seq<byte>) {
    NOKASLR in Split(l)
  }

  // ------------------------------------------------------- words by position

  /** The bytes before the first separator. */
  function Head(l: seq<byte>): (h: seq<byte>)
    ensures h == Split(l)[0]
  {
    if l == [] || IsSeparator(l[0]) then [] else [l[0]] + Head(l[1..])
  }

  predicate StartsWord(l: seq<byte>, i: nat) {
    i <= |l| && (i == 0 || IsSeparator(l[i - 1]))
  }

  /** A word starts at `i` and is `w`. */
  predicate WordAt(l: seq<byte>, i: nat, w: seq<byte>) {
    StartsWord(l, i) && Head(l[i..]) == w
  }

  /** The pieces are the heads at the places where a word may start. */
  lemma {:induction false} SplitWords(l: seq<byte>, w: seq<byte>)
    ensures w in Split(l) <==> exists i :: WordAt(l, i, w)
  {
    if w in Split(l) {
      var i := SplitGivesWord(l, w);
    }
    if i :| WordAt(l, i, w) {
      WordIsInSplit(l, w, i);
    }
  }

  lemma {:induction false} SplitGivesWord(l: seq<byte>, w: seq<byte>) returns (i: nat)
    requires w in Split(l)
    ensures WordAt(l, i, w)
  {
    assert l[0..] == l;
    if w == Split(l)[0] {
      i := 0;
    } else {
      var t := l[1..];
      if IsSeparator(l[0]) {
        i := SplitGivesWord(t, w);
      } else {
        i := LaterWord(t, w);
      }
      assert t[i..] == l[i + 1..];
      i := i + 1;
    }
  }

  /** A word that is not only the first starts after a separator. */
  lemma {:induction false} LaterWord(l: seq<byte>, w: seq<byte>) returns (i: nat)
    requires w in Split(l)[1..]
    ensures i > 0 && WordAt(l, i, w)
  {
    var t := l[1..];
    if IsSeparator(l[0]) {
      i := SplitGivesWord(t, w);
    } else {
      i := LaterWord(t, w);
    }
    assert t[i..] == l[i + 1..];
    i := i + 1;
  }

  lemma {:induction false} WordIsInSplit(l: seq<byte>, w: seq<byte>, i: nat)
    requires WordAt(l, i, w)
    ensures w in Split(l) && (i > 0 ==> w in Split(l)[1..])
  {
    if i == 0 {
      assert l[0..] == l;
    } else {
      var t := l[1..];
      assert t[i - 1..] == l[i..];
      WordIsInSplit(t, w, i - 1);
    }
  }

  /** The head is a given word without separators exactly when it is spelled out and then ends. */
  lemma {:induction false} HeadIs(l: seq<byte>, w: seq<byte>)
    requires forall k :: 0 <= k < |w| ==> !IsSeparator(w[k])
    ensures Head(l) == w <==> |w| <= |l| && l[..|w|] == w && (|l| == |w| || IsSeparator(l[|w|]))
  {
    if w != [] && l != [] {
      HeadIs(l[1..], w[1..]);
      assert l == [l[0]] + l[1..] && w == [w[0]] + w[1..];
      if |w| <= |l| {
        assert l[..|w|] == [l[0]] + l[1..][..|w| - 1];
      }
    }
  }

  lemma {:induction false} LineBytes(mem: Memory, s: nat, n: nat)
    ensures var l := Line(mem, s, n);
            && (forall i :: 0 <= i < |l| ==> l[i] == mem(s + i) != 0)
            && (|l| < n ==> mem(s + |l|) == 0)
    decreases n
  {
    if n > 0 && mem(s) != 0 {
      LineBytes(mem, s + 1, n - 1);
      var l, t := Line(mem, s, n), Line(mem, s + 1, n - 1);
      forall i | 0 <= i < |l| ensures l[i] == mem(s + i) != 0 {
        if i > 0 {
          assert l[i] == t[i - 1];
        }
      }
    }
  }

  lemma LineEnd(mem: Memory, s: nat, n: nat, i: nat)
    requires i <= |Line(mem, s, n)| && (i >= n || mem(s + i) == 0)
    ensures i == |Line(mem, s, n)|
  {
    if i < |Line(mem, s, n)| {
      LineByte(mem, s, n, i);
    }
  }

  lemma LineByte(mem: Memory, s: nat, n: nat, i: nat)
    requires i < |Line(mem, s, n)|
    ensures i < n && mem(s + i) != 0
  {
    LineBytes(mem, s, n);
    assert Line(mem, s, n)[i] == mem(s + i);
  }

  /** The option is spelled out at `i`, starting and ending a word. */
  lemma OptionAt(l: seq<byte>, i: nat)
    requires i <= |l|
    ensures WordAt(l, i, NOKASLR) <==>
      (i == 0 || IsSeparator(l[i - 1])) && i + 7 <= |l| && l[i..i + 7] == NOKASLR
        && (i + 7 == |l| || IsSeparator(l[i + 7]))
  {
    HeadIs(l[i..], NOKASLR);
  }

  /** The word "nokaslr" stands at `i`, with a blank or an end of the line on either side. */
  predicate SpelledOut(l: seq<byte>, i: nat) {
    var blanks: seq<byte> := [0x00, 0x09, 0x0A, 0x0D, 0x20];
    && i + 7 <= |l| && Spells(l[i..i + 7], "nokaslr")
    && (i == 0 || l[i - 1] in blanks) && (i + 7 == |l| || l[i + 7] in blanks)
  }

  /** The option is set exactly when "nokaslr" stands somewhere in the line as a word of its own. */
  lemma HasOptionMeaning(l: seq<byte>)
    ensures HasOption(l) <==> exists i :: SpelledOut(l, i)
  {
    SplitWords(l, NOKASLR);
    forall i: nat ensures WordAt(l, i, NOKASLR) == SpelledOut(l, i) {
      if i <= |l| {
        OptionAt(l, i);
        if i + 7 <= |l| {
          SpellsOption(l[i..i + 7]);
        }
      }
    }
    if i: nat :| WordAt(l, i, NOKASLR) {
      assert SpelledOut(l, i);
    }
  }

  lemma SpellsOption(s: seq<byte>)
    ensures Spells(s, "nokaslr") <==> s == NOKASLR
  {
    if s == NOKASLR {
      assert s[0] == 'n' as int && s[1] == 'o' as int && s[2] == 'k' as int && s[3] == 'a' as int;
    }
  }

  // ------------------------------------------------------- the command line

  /** The inner loop: whether the option is spelled out at `i`. */
  method Spelled(mem: Memory, s: nat, n: nat, i: nat) returns (k: nat)
    requires i < n
    ensures k <= 7 && (k == 7 <==> i + 7 <= n && forall j :: 0 <= j < 7 ==> mem(s + i + j) == NOKASLR[j])
  {
    k := 0;
    while k < 7 && i + k < n && mem(s + i + k) == NOKASLR[k]
      invariant k <= 7 && i + k <= n && forall j :: 0 <= j < k ==> mem(s + i + j) == NOKASLR[j]
    {
      k := k + 1;
    }
  }

  /** The body of the loop: whether the option is the word that starts at `i`. */
  method OptionStarts(mem: Memory, s: nat, n: nat, i: nat) returns (found: bool)
    requires i < |Line(mem, s, n)|
    ensures found <==> WordAt(Line(mem, s, n), i, NOKASLR)
  {
    ghost var l := Line(mem, s, n);
    LineBytes(mem, s, n);
    OptionAt(l, i);
    if i > 0 && !IsSeparator(mem(s + (i - 1))) {
      return false;
    }
    var k := Spelled(mem, s, n, i);
    SpelledInLine(mem, s, n, i);
    return k == 7 && (i + 7 >= n || IsSeparator(mem(s + (i + 7))));
  }

  lemma SpelledInLine(mem: Memory, s: nat, n: nat, i: nat)
    requires i <= |Line(mem, s, n)|
    ensures var l := Line(mem, s, n);
            (i + 7 <= n && forall j :: 0 <= j < 7 ==> mem(s + i + j) == NOKASLR[j])
              <==> i + 7 <= |l| && l[i..i + 7] == NOKASLR
  {
    var l := Line(mem, s, n);
    LineBytes(mem, s, n);
    assert |l| < n && |l| < i + 7 ==> NOKASLR[|l| - i] != 0 && mem(s + i + (|l| - i)) == 0;
    if i + 7 <= |l| {
      assert l[i..i + 7] == NOKASLR <==> forall j :: 0 <= j < 7 ==> l[i + j] == NOKASLR[j];
    }
  }

  /** The option is not a word that starts before `i`. */
  ghost predicate NoneBefore(l: seq<byte>, i: nat) {
    forall j :: 0 <= j < i ==> !WordAt(l, j, NOKASLR)
  }

  lemma Found(l: seq<byte>, i: nat)
    requires WordAt(l, i, NOKASLR)
    ensures HasOption(l)
  {
    WordIsInSplit(l, NOKASLR, i);
  }

  lemma NotFound(l: seq<byte>)
    requires NoneBefore(l, |l|)
    ensures !HasOption(l)
  {
    OptionAt(l, |l|);
    SplitWords(l, NOKASLR);
  }

  /** `kaslr_cmdline_nokaslr`; a null pointer is address 0. */
  method CmdlineNoKaslr(mem: Memory, s: nat, n: nat) returns (found: bool)
    ensures found <==> s != 0 && HasOption(Line(mem, s, n))
  {
    if s == 0 {
      return false;
    }
    ghost var l := Line(mem, s, n);
    LineBytes(mem, s, n);
    var i := 0;
    while i < n && mem(s + i) != 0
      invariant i <= |l| && NoneBefore(l, i)
    {
      found := OptionStarts(mem, s, n, i);
      if found {
        Found(l, i);
        return;
      }
      i := i + 1;
    }
    LineEnd(mem, s, n, i);
    NotFound(l);
    return false;
  }

  // ---------------------------------------------------- the Multiboot2 block

  function U32(mem: Memory, p: nat): nat {
    mem(p) as nat + 0x100 * (mem(p + 1) as nat) + 0x1_0000 * (mem(p + 2) as nat) + 0x100_0000 * (mem(p + 3) as nat)
  }

  /** A question about a command line. */
  type Question = seq<byte> -> bool

  /** A question about the command line at an address, of at most so many bytes. */
  type LineQuestion = (nat, nat) -> bool

  function AskIn(ask: Question, mem: Memory): LineQuestion {
    (s: nat, n: nat) => ask(Line(mem, s, n))
  }

  function WordsIn(mem: Memory): nat -> nat {
    (p: nat) => U32(mem, p)
  }

  /** The walk over the tags from `p`: the answer for the first command line. */
  predicate WalkTags(ask: LineQuestion, word: nat -> nat, p: nat, end: nat)
    decreases end - p
  {
    if p + 8 > end then false
    else
      var kind, size := word(p), word(p + 4);
      if kind == 0 || size < 8 then false
      else if kind == 1 then ask(p + 8, size - 8)
      else WalkTags(ask, word, p + (size + 7) / 8 * 8, end)
  }

  const MULTIBOOT2: nat := 0x36d76289

  /** The checks on the block, and the walk over its tags. */
  predicate WalkBlock(ask: LineQuestion, word: nat -> nat, magic: nat, info: nat) {
    && magic == MULTIBOOT2 && info != 0 && 16 <= word(info) <= 0x10_0000
    && WalkTags(ask, word, info + 8, info + word(info))
  }

  predicate BlockAnswers(ask: Question, mem: Memory, magic: nat, info: nat) {
    WalkBlock(AskIn(ask, mem), WordsIn(mem), magic, info)
  }

  /** `kaslr_mb2_nokaslr`. */
  method Mb2NoKaslr(mem: Memory, magic: nat, info: nat) returns (found: bool)
    ensures found <==> BlockAnswers(HasOption, mem, magic, info)
  {
    ReadsMemory(mem);
    found := ReadBlock(mem, magic, info, AskIn(HasOption, mem), WordsIn(mem));
  }

  method ReadBlock(mem: Memory, magic: nat, info: nat, ghost ask: LineQuestion, ghost word: nat -> nat)
    returns (found: bool)
    requires Reads(ask, word, mem)
    ensures found <==> WalkBlock(ask, word, magic, info)
  {
    if magic != MULTIBOOT2 || info == 0 {
      return false;
    }
    var total := ReadWord(mem, info, ask, word);
    if total < 16 || total > 0x10_0000 {
      return false;
    }
    found := EachTag(mem, info + 8, info + total, ask, word);
  }

  /** The end of the highest bytes that the walk looks at or compares with the end. */
  function Reach(mem: Memory, p: nat, end: nat): nat
    decreases if p <= end then end - p else 0
  {
    if p + 8 > end then p + 8
    else
      var kind, size := U32(mem, p), U32(mem, p + 4);
      if kind == 0 || size < 8 then p + 8
      else if kind == 1 then p + size
      else Reach(mem, p + (size + 7) / 8 * 8, end)
  }

  lemma U32Below(mem: Memory, p: nat)
    ensures U32(mem, p) < 0x1_0000_0000
  {}

  /** No address of the walk is more than 2^32 + 16 bytes above the end. */
  lemma {:induction false} ReachBound(mem: Memory, p: nat, end: nat)
    requires p <= end + 0x1_0000_0008
    ensures Reach(mem, p, end) <= end + 0x1_0000_0010
    decreases if p <= end then end - p else 0
  {
    if p + 8 <= end {
      U32Below(mem, p + 4);
      var size := U32(mem, p + 4);
      if U32(mem, p) > 1 && size >= 8 {
        ReachBound(mem, p + (size + 7) / 8 * 8, end);
      }
    }
  }

  /** With the block below 2^64 - 2^33, no address wraps, so that unbounded addresses are exact. */
  lemma NoWrap(mem: Memory, info: nat)
    requires U32(mem, info) <= 0x10_0000 && info <= TWO_TO_64 - 0x2_0000_0000
    ensures Reach(mem, info + 8, info + U32(mem, info)) < TWO_TO_64
  {
    ReachBound(mem, info + 8, info + U32(mem, info));
  }

  /** `ask` and `word` look for the option and read words in `mem`. */
  ghost predicate Reads(ask: LineQuestion, word: nat -> nat, mem: Memory) {
    forall p: nat, n: nat :: ReadsAt(ask, word, mem, p, n)
  }

  predicate ReadsAt(ask: LineQuestion, word: nat -> nat, mem: Memory, p: nat, n: nat) {
    word(p) == U32(mem, p) && (ask(p, n) <==> HasOption(Line(mem, p, n)))
  }

  lemma ReadsMemory(mem: Memory)
    ensures Reads(AskIn(HasOption, mem), WordsIn(mem), mem)
  {}

  /** The command line of a tag. */
  method AskTag(mem: Memory, p: nat, size: nat, ghost ask: LineQuestion, ghost word: nat -> nat) returns (found: bool)
    requires Reads(ask, word, mem) && size >= 8
    ensures found <==> ask(p + 8, size - 8)
  {
    found := CmdlineNoKaslr(mem, p + 8, size - 8);
    assert ReadsAt(ask, word, mem, p + 8, size - 8);
  }

  method ReadWord(mem: Memory, p: nat, ghost ask: LineQuestion, ghost word: nat -> nat) returns (w: nat)
    requires Reads(ask, word, mem)
    ensures w == word(p)
  {
    assert ReadsAt(ask, word, mem, p, 0);
    w := U32(mem, p);
  }

  /** The loop of `kaslr_mb2_nokaslr`. */
  method EachTag(mem: Memory, start: nat, end: nat, ghost ask: LineQuestion, ghost word: nat -> nat)
    returns (found: bool)
    requires Reads(ask, word, mem)
    ensures found <==> WalkTags(ask, word, start, end)
  {
    var p := start;
    ghost var goal := WalkTags(ask, word, start, end);
    while p + 8 <= end
      invariant goal == WalkTags(ask, word, p, end)
      decreases end - p
    {
      var kind := ReadWord(mem, p, ask, word);
      var size := ReadWord(mem, p + 4, ask, word);
      if kind == 0 || size < 8 {
        break;
      }
      if kind == 1 {
        found := AskTag(mem, p, size, ask, word);
        return;
      }
      p := p + (size + 7) / 8 * 8;
    }
    return false;
  }

  // -------------------------------------------------------- well-formed blocks

  /** A tag with its padding to a multiple of 8 bytes. */
  datatype Tag = Tag(kind: nat, body: seq<byte>, pad: seq<byte>)

  predicate ValidTag(t: Tag) {
    0 < t.kind < 0x1_0000_0000 && 8 + |t.body| < 0x1_0000_0000 && |t.pad| < 8 && (|t.body| + |t.pad|) % 8 == 0
  }

  ghost predicate AllValid(ts: seq<Tag>) {
    forall i :: 0 <= i < |ts| ==> ValidTag(ts[i])
  }

  function Encode(t: Tag): seq<byte> {
    Bytes(t.kind, 4) + Bytes(8 + |t.body|, 4) + t.body + t.pad
  }

  function EndTag(): (s: seq<byte>)
    ensures |s| == 8
  {
    Bytes(0, 4) + Bytes(8, 4)
  }

  /** The tags in order, then the end tag. */
  function EncodeTags(ts: seq<Tag>): seq<byte> {
    if ts == [] then EndTag() else Encode(ts[0]) + EncodeTags(ts[1..])
  }

  /** Multiboot2 specification, section 3.6: total size, a reserved word, the tags. */
  function EncodeBlock(ts: seq<Tag>): seq<byte> {
    Bytes(8 + |EncodeTags(ts)|, 4) + Bytes(0, 4) + EncodeTags(ts)
  }

  /** The answer for the first command-line tag. */
  predicate TagsAnswer(ask: Question, ts: seq<Tag>) {
    ts != [] && if ts[0].kind == 1 then ask(UpToNul(ts[0].body)) else TagsAnswer(ask, ts[1..])
  }

  ghost predicate Holds(mem: Memory, p: nat, s: seq<byte>) {
    forall i :: 0 <= i < |s| ==> HoldsAt(mem, p, s, i)
  }

  predicate HoldsAt(mem: Memory, p: nat, s: seq<byte>, i: nat) {
    i < |s| && mem(p + i) == s[i]
  }

  lemma HoldsPart(mem: Memory, p: nat, a: seq<byte>, b: seq<byte>, c: seq<byte>)
    requires Holds(mem, p, a + b + c)
    ensures Holds(mem, p + |a|, b)
  {
    var s := a + b + c;
    var q := p + |a|;
    forall i | 0 <= i < |b| ensures HoldsAt(mem, q, b, i) {
      assert HoldsAt(mem, p, s, |a| + i);
    }
  }

  lemma U32Of(mem: Memory, p: nat, n: nat)
    requires n < 0x1_0000_0000 && Holds(mem, p, Bytes(n, 4))
    ensures U32(mem, p) == n
  {
    var s := Bytes(n, 4);
    assert HoldsAt(mem, p, s, 0) && HoldsAt(mem, p, s, 1) && HoldsAt(mem, p, s, 2) && HoldsAt(mem, p, s, 3);
    FourBytes(s);
    ValueOfBytes(n, 4);
    WordRanges();
  }

  lemma {:induction false} LineOf(mem: Memory, p: nat, b: seq<byte>)
    requires Holds(mem, p, b)
    ensures Line(mem, p, |b|) == UpToNul(b)
    decreases |b|
  {
    if b != [] {
      assert HoldsAt(mem, p, b, 0);
      assert b == [b[0]] + b[1..] + [];
      HoldsPart(mem, p, [b[0]], b[1..], []);
      LineOf(mem, p + 1, b[1..]);
    }
  }

  /** The walk over encoded tags gives the answer for the first command-line tag. */
  lemma {:induction false} WalkEncoded(ask: Question, mem: Memory, p: nat, end: nat, ts: seq<Tag>)
    requires Holds(mem, p, EncodeTags(ts)) && AllValid(ts) && end == p + |EncodeTags(ts)|
    ensures WalkTags(AskIn(ask, mem), WordsIn(mem), p, end) == TagsAnswer(ask, ts)
    decreases |ts|
  {
    if ts == [] {
      WalkEnd(ask, mem, p);
    } else {
      var first, rest := Encode(ts[0]), EncodeTags(ts[1..]);
      assert ValidTag(ts[0]) && AllValid(ts[1..]);
      HoldsRest(mem, p, first, rest);
      WalkEncoded(ask, mem, p + |first|, end, ts[1..]);
      WalkCons(ask, mem, p, end, ts, first, rest);
    }
  }

  lemma WalkCons(ask: Question, mem: Memory, p: nat, end: nat, ts: seq<Tag>, first: seq<byte>, rest: seq<byte>)
    requires ts != [] && ValidTag(ts[0]) && first == Encode(ts[0]) && Holds(mem, p, first + rest)
    requires end == p + |first| + |rest|
    requires WalkTags(AskIn(ask, mem), WordsIn(mem), p + |first|, end) == TagsAnswer(ask, ts[1..])
    ensures WalkTags(AskIn(ask, mem), WordsIn(mem), p, end) == TagsAnswer(ask, ts)
  {
    WalkTag(ask, mem, p, end, ts[0], first, rest);
  }

  lemma HoldsRest(mem: Memory, p: nat, a: seq<byte>, b: seq<byte>)
    requires Holds(mem, p, a + b)
    ensures Holds(mem, p + |a|, b)
  {
    assert a + b == a + b + [];
    HoldsPart(mem, p, a, b, []);
  }

  lemma WalkTag(ask: Question, mem: Memory, p: nat, end: nat, t: Tag, first: seq<byte>, rest: seq<byte>)
    requires ValidTag(t) && first == Encode(t) && Holds(mem, p, first + rest) && end == p + |first| + |rest|
    ensures WalkTags(AskIn(ask, mem), WordsIn(mem), p, end)
         == if t.kind == 1 then ask(UpToNul(t.body)) else WalkTags(AskIn(ask, mem), WordsIn(mem), p + |first|, end)
  {
    TagShows(ask, mem, p, t, rest);
    AlignedSize(t);
    WalkShown(AskIn(ask, mem), WordsIn(mem), p, end, t.kind, 8 + |t.body|, ask(UpToNul(t.body)));
  }

  /** The tag at `p` has this type and size, and the question about its body this answer. */
  predicate Shows(ask: LineQuestion, word: nat -> nat, p: nat, kind: nat, size: nat, answer: bool) {
    word(p) == kind && word(p + 4) == size >= 8 && ask(p + 8, size - 8) == answer
  }

  lemma TagShows(ask: Question, mem: Memory, p: nat, t: Tag, rest: seq<byte>)
    requires ValidTag(t) && Holds(mem, p, Encode(t) + rest)
    ensures Shows(AskIn(ask, mem), WordsIn(mem), p, t.kind, 8 + |t.body|, ask(UpToNul(t.body)))
  {
    ReadTag(mem, p, t, rest);
  }

  lemma WalkShown(ask: LineQuestion, word: nat -> nat, p: nat, end: nat, kind: nat, size: nat, answer: bool)
    requires Shows(ask, word, p, kind, size, answer) && 0 < kind && p + 8 <= end
    ensures WalkTags(ask, word, p, end)
         == if kind == 1 then answer else WalkTags(ask, word, p + (size + 7) / 8 * 8, end)
  {}

  lemma WalkEnd(ask: Question, mem: Memory, p: nat)
    requires Holds(mem, p, EndTag())
    ensures !WalkTags(AskIn(ask, mem), WordsIn(mem), p, p + |EndTag()|)
  {
    assert EndTag() == Bytes(0, 4) + Bytes(8, 4) + [];
    HeaderParts(mem, p, Bytes(0, 4), Bytes(8, 4), []);
    U32Of(mem, p, 0);
  }

  lemma AlignedSize(t: Tag)
    requires ValidTag(t)
    ensures (8 + |t.body| + 7) / 8 * 8 == |Encode(t)|
  {
    RoundUp(|t.body|, |t.pad|);
  }

  lemma RoundUp(n: nat, pad: nat)
    requires pad < 8 && (n + pad) % 8 == 0
    ensures (8 + n + 7) / 8 * 8 == 8 + n + pad
  {}

  lemma ReadTag(mem: Memory, p: nat, t: Tag, rest: seq<byte>)
    requires ValidTag(t) && Holds(mem, p, Encode(t) + rest)
    ensures U32(mem, p) == t.kind && U32(mem, p + 4) == 8 + |t.body|
    ensures Line(mem, p + 8, |t.body|) == UpToNul(t.body) && Holds(mem, p + |Encode(t)|, rest)
  {
    TagParts(mem, p, Bytes(t.kind, 4), Bytes(8 + |t.body|, 4), t.body, t.pad, rest);
    U32Of(mem, p, t.kind);
    U32Of(mem, p + 4, 8 + |t.body|);
    LineOf(mem, p + 8, t.body);
  }

  lemma TagParts(mem: Memory, p: nat, k: seq<byte>, z: seq<byte>, body: seq<byte>, pad: seq<byte>, rest: seq<byte>)
    requires |k| == 4 && |z| == 4 && Holds(mem, p, k + z + body + pad + rest)
    ensures Holds(mem, p, k) && Holds(mem, p + 4, z) && Holds(mem, p + 8, body)
    ensures Holds(mem, p + |k + z + body + pad|, rest)
  {
    var s := k + z + body + pad + rest;
    assert s == [] + k + (z + body + pad + rest);
    HoldsPart(mem, p, [], k, z + body + pad + rest);
    assert s == k + z + (body + pad + rest);
    HoldsPart(mem, p, k, z, body + pad + rest);
    assert s == (k + z) + body + (pad + rest);
    HoldsPart(mem, p, k + z, body, pad + rest);
    assert s == (k + z + body + pad) + rest + [];
    HoldsPart(mem, p, k + z + body + pad, rest, []);
  }

  /** For every well-formed block the answer is that of the first command-line tag before the end tag. */
  lemma BlockAnswer(ask: Question, mem: Memory, info: nat, ts: seq<Tag>)
    requires info != 0 && Holds(mem, info, EncodeBlock(ts)) && |EncodeBlock(ts)| <= 0x10_0000
    requires AllValid(ts)
    ensures BlockAnswers(ask, mem, MULTIBOOT2, info) == TagsAnswer(ask, ts)
  {
    var total := 8 + |EncodeTags(ts)|;
    TagsLength(ts);
    ReadHeader(mem, info, EncodeTags(ts));
    WalkEncoded(ask, mem, info + 8, info + total, ts);
    BlockIsWalk(AskIn(ask, mem), WordsIn(mem), info, total);
  }

  lemma BlockIsWalk(ask: LineQuestion, word: nat -> nat, info: nat, total: nat)
    requires info != 0 && word(info) == total && 16 <= total <= 0x10_0000
    ensures WalkBlock(ask, word, MULTIBOOT2, info) == WalkTags(ask, word, info + 8, info + total)
  {}

  lemma ReadHeader(mem: Memory, info: nat, e: seq<byte>)
    requires 8 + |e| < 0x1_0000_0000 && Holds(mem, info, Bytes(8 + |e|, 4) + Bytes(0, 4) + e)
    ensures WordsIn(mem)(info) == 8 + |e| && Holds(mem, info + 8, e)
  {
    HeaderParts(mem, info, Bytes(8 + |e|, 4), Bytes(0, 4), e);
    U32Of(mem, info, 8 + |e|);
  }

  lemma HeaderParts(mem: Memory, p: nat, n: seq<byte>, z: seq<byte>, e: seq<byte>)
    requires |n| == 4 && |z| == 4 && Holds(mem, p, n + z + e)
    ensures Holds(mem, p, n) && Holds(mem, p + 8, e)
  {
    assert n + z + e == [] + n + (z + e);
    HoldsPart(mem, p, [], n, z + e);
    assert n + z + e == (n + z) + e + [];
    HoldsPart(mem, p, n + z, e, []);
  }

  lemma {:induction false} TagsLength(ts: seq<Tag>)
    ensures |EncodeTags(ts)| >= 8
  {
    if ts != [] {
      TagsLength(ts[1..]);
    }
  }
}
