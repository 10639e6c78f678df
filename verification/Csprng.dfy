/** The random number generator (`csprng_get`, `reseed`, `init_locked`) as a state machine, over any 32-byte hash. */
module Csprng {
  import opened Machine
  import opened ModArith
  import opened LittleEndian
  import opened CStrings
  import opened Streaming
  import opened Hashes

  type Octets = seq<byte>

  const RESEED_BYTES: nat := 0x10_0000

  /** A hash to 32 bytes. */
  type Hash = h: Octets -> Octets | Gives32(h) witness (m: Octets) => Zeros(32)

  ghost predicate Gives32(h: Octets -> Octets) {
    forall m :: |h(m)| == 32
  }

  /** `g_key`, `g_counter`, `g_since_reseed`, `g_ready`. */
  datatype State = State(key: Octets, counter: nat, since: nat, ready: bool)

  /** What one reseed collects: hardware words, 256 time stamp differences, ticks, a time stamp, the interrupt pool. */
  datatype Entropy = Entropy(hw: Octets, jitter: Octets, ticks: nat, tsc: nat, pool: Octets)

  predicate Collected(e: Entropy) {
    |e.jitter| == 2048 && |e.pool| == 64
  }

  /** A call: `csprng_init`, or `csprng_get` with a length; each with the entropy for the reseeds it may make. */
  datatype Call = Start(first: Entropy) | Get(first: Entropy, again: Entropy, len: nat)

  /** A request of any size a `size_t` can hold. */
  predicate Possible(c: Call) {
    Collected(c.first) && (c.Get? ==> Collected(c.again) && c.len < TWO_TO_64)
  }

  // ---------------------------------------------------------- hashed messages

  function SeedMessage(s: State, e: Entropy): Octets {
    s.key + e.hw + e.jitter + (Bytes(e.ticks, 8) + Bytes(e.tsc, 8) + Bytes(s.counter, 8)) + e.pool
  }

  function BlockMessage(key: Octets, req: nat, blk: nat): Octets {
    key + Bytes(req, 8) + Bytes(blk, 8)
  }

  /** "rekey". */
  const REKEY: Octets := [114, 101, 107, 101, 121]

  function RekeyMessage(key: Octets, req: nat): Octets {
    key + REKEY + Bytes(req, 8)
  }

  // -------------------------------------------------------------- transitions

  /** `reseed`. */
  function AfterReseed(h: Hash, s: State, e: Entropy): State {
    s.(key := h(SeedMessage(s, e)), since := 0)
  }

  /** `init_locked`. */
  function InitLocked(h: Hash, s: State, e: Entropy): State {
    if s.ready then s else AfterReseed(h, s, e).(ready := true)
  }

  /** The state in which a request starts to generate. */
  function Prepared(h: Hash, s: State, c: Call): State
    requires c.Get?
  {
    var t := InitLocked(h, s, c.first);
    if t.since >= RESEED_BYTES then AfterReseed(h, t, c.again) else t
  }

  function NextRequest(s: State): nat { (s.counter + 1) % TWO_TO_64 }

  /** The state once a prepared request has been answered. */
  function Answered(h: Hash, t: State, len: nat): State {
    State(h(RekeyMessage(t.key, NextRequest(t))), NextRequest(t), (t.since + len) % TWO_TO_64, t.ready)
  }

  function Step(h: Hash, s: State, c: Call): State {
    match c
    case Start(e) => InitLocked(h, s, e)
    case Get(_, _, len) => Answered(h, Prepared(h, s, c), len)
  }

  /** How many blocks a request hashes. */
  function BlockCount(len: nat): nat { (len + 31) / 32 }

  function Stream(h: Hash, key: Octets, req: nat, n: nat): (r: Octets)
    ensures |r| == 32 * n
  {
    if n == 0 then [] else Stream(h, key, req, n - 1) + h(BlockMessage(key, req, n - 1))
  }

  /** What a prepared request returns. */
  function Answers(h: Hash, t: State, len: nat): (r: Octets)
    ensures |r| == len
  {
    Stream(h, t.key, NextRequest(t), BlockCount(len))[..len]
  }

  function Output(h: Hash, s: State, c: Call): (r: Octets)
    requires c.Get?
    ensures |r| == c.len
  {
    Answers(h, Prepared(h, s, c), c.len)
  }

  /** The key that a request leaves does not depend on how much was asked for. */
  lemma NextKeyIgnoresLength(h: Hash, s: State, e: Entropy, e': Entropy, len: nat, len': nat)
    ensures Step(h, s, Get(e, e', len)).key == Step(h, s, Get(e, e', len')).key
    ensures Step(h, s, Get(e, e', len)).counter == Step(h, s, Get(e, e', len')).counter
  {}

  lemma {:induction false} StreamPrefix(h: Hash, key: Octets, req: nat, m: nat, n: nat)
    requires m <= n
    ensures Stream(h, key, req, n)[..32 * m] == Stream(h, key, req, m)
  {
    if m < n {
      StreamPrefix(h, key, req, m, n - 1);
      assert Stream(h, key, req, n)[..32 * m] == Stream(h, key, req, n - 1)[..32 * m];
    }
  }

  /** Asking for less gives a prefix. */
  lemma OutputPrefix(h: Hash, s: State, e: Entropy, e': Entropy, len: nat, len': nat)
    requires len <= len'
    ensures Output(h, s, Get(e, e', len')) [..len] == Output(h, s, Get(e, e', len))
  {
    var t := Prepared(h, s, Get(e, e', len));
    var m, n := BlockCount(len), BlockCount(len');
    StreamPrefix(h, t.key, NextRequest(t), m, n);
    var long := Stream(h, t.key, NextRequest(t), n);
    assert long[..len] == long[..32 * m][..len];
  }

  // ------------------------------------------------- what a request hashes and returns

  /** The key of a request: the one before, or after a reseed the hash of that key, the entropy and the counter. */
  lemma PreparedKey(h: Hash, s: State, e: Entropy, e': Entropy, len: nat)
    ensures var t := Prepared(h, s, Get(e, e', len));
            && t.counter == s.counter
            && t.key == (if s.ready && s.since < 0x10_0000 then s.key
                         else
                           var x := if s.ready then e' else e;
                           h(s.key + x.hw + x.jitter + (Bytes(x.ticks, 8) + Bytes(x.tsc, 8) + Bytes(s.counter, 8))
                             + x.pool))
            && t.since == if s.ready && s.since < 0x10_0000 then s.since else 0
  {}

  /** `csprng_init` seeds a generator that is not ready, and does nothing to one that is. */
  lemma StartState(h: Hash, s: State, e: Entropy)
    ensures s.ready ==> Step(h, s, Start(e)) == s
    ensures !s.ready ==> Step(h, s, Start(e)) == State(
              h(s.key + e.hw + e.jitter + (Bytes(e.ticks, 8) + Bytes(e.tsc, 8) + Bytes(s.counter, 8)) + e.pool),
              s.counter, 0, true)
  {}

  /** Byte `32 b + i` of the output is byte `i` of the hash of the key, the request number and `b`. */
  lemma OutputBytes(h: Hash, s: State, e: Entropy, e': Entropy, len: nat, b: nat, i: nat)
    requires i < 32 && 32 * b + i < len
    ensures var c := Get(e, e', len);
            var k, n := Prepared(h, s, c).key, (s.counter + 1) % TWO_TO_64;
            Output(h, s, c)[32 * b + i] == h(k + Bytes(n, 8) + Bytes(b, 8))[i]
  {
    var t := Prepared(h, s, Get(e, e', len));
    StreamByte(h, t.key, NextRequest(t), BlockCount(len), b, i);
  }

  lemma StreamByte(h: Hash, key: Octets, req: nat, n: nat, b: nat, i: nat)
    requires b < n && i < 32
    ensures Stream(h, key, req, n)[32 * b + i] == h(key + Bytes(req, 8) + Bytes(b, 8))[i]
  {
    StreamPrefix(h, key, req, b + 1, n);
    assert Stream(h, key, req, n)[32 * b + i] == Stream(h, key, req, b + 1)[32 * b + i];
  }

  /** A request leaves the hash of the key, "rekey" and the request number as the key. */
  lemma NextState(h: Hash, s: State, e: Entropy, e': Entropy, len: nat, rekey: Octets)
    requires Spells(rekey, "rekey")
    ensures var c := Get(e, e', len);
            var t, n := Prepared(h, s, c), (s.counter + 1) % TWO_TO_64;
            Step(h, s, c) == State(h(t.key + rekey + Bytes(n, 8)), n, (t.since + len) % TWO_TO_64, true)
  {
    SpellsRekey(rekey);
    StepIs(h, s, Get(e, e', len));
  }

  lemma StepIs(h: Hash, s: State, c: Call)
    requires c.Get?
    ensures var t, n := Prepared(h, s, c), (s.counter + 1) % TWO_TO_64;
            Step(h, s, c) == State(h(t.key + REKEY + Bytes(n, 8)), n, (t.since + c.len) % TWO_TO_64, true)
  {}

  lemma SpellsRekey(s: Octets)
    ensures Spells(s, "rekey") <==> s == REKEY
  {
    if s == REKEY {
      assert s[0] == 'r' as int && s[1] == 'e' as int && s[2] == 'k' as int && s[4] == 'y' as int;
    }
  }

  // -------------------------------------------------------------------- runs

  const INITIAL: State := State(Zeros(32), 0, 0, false)

  function Run(h: Hash, calls: seq<Call>): State {
    if calls == [] then INITIAL else Step(h, Run(h, calls[..|calls| - 1]), calls[|calls| - 1])
  }

  function Requests(calls: seq<Call>): nat {
    if calls == [] then 0 else Requests(calls[..|calls| - 1]) + (if calls[|calls| - 1].Get? then 1 else 0)
  }

  /** Request numbers are consecutive, so they strictly increase. */
  lemma {:induction false} CounterIsRequests(h: Hash, calls: seq<Call>)
    requires Requests(calls) < TWO_TO_64
    ensures Run(h, calls).counter == Requests(calls)
  {
    if calls != [] {
      var n := |calls| - 1;
      CounterIsRequests(h, calls[..n]);
      StepCounter(h, Run(h, calls[..n]), calls[n]);
    }
  }

  lemma StepCounter(h: Hash, s: State, c: Call)
    ensures Step(h, s, c).counter == if c.Get? then (s.counter + 1) % TWO_TO_64 else s.counter
  {}

  // ------------------------------------------------------------- byte counter

  /** What a call does that matters to the byte counter. */
  datatype Event = Reseeded | Produced(n: nat)

  /** Whether a call reseeds. */
  predicate Reseeds(s: State, c: Call) {
    !s.ready || (c.Get? && s.since >= RESEED_BYTES)
  }

  function EventsOf(s: State, c: Call): seq<Event> {
    (if Reseeds(s, c) then [Reseeded] else []) + (if c.Get? then [Produced(c.len)] else [])
  }

  function Events(h: Hash, calls: seq<Call>): seq<Event> {
    if calls == [] then []
    else Events(h, calls[..|calls| - 1]) + EventsOf(Run(h, calls[..|calls| - 1]), calls[|calls| - 1])
  }

  /** The bytes produced after the last reseed. */
  function SinceReseed(ev: seq<Event>): nat {
    if ev == [] then 0
    else match ev[|ev| - 1]
      case Reseeded => 0
      case Produced(n) => SinceReseed(ev[..|ev| - 1]) + n
  }

  lemma SinceSnoc(ev: seq<Event>, e: Event)
    ensures SinceReseed(ev + [e]) == match e case Reseeded => 0 case Produced(n) => SinceReseed(ev) + n
  {
    assert (ev + [e])[..|ev|] == ev;
  }

  ghost predicate AllPossible(calls: seq<Call>) {
    forall i :: 0 <= i < |calls| ==> Possible(calls[i])
  }

  /** Every request starts to generate below the reseed threshold. */
  lemma PreparedBelow(h: Hash, s: State, c: Call)
    requires c.Get?
    ensures Prepared(h, s, c).since < RESEED_BYTES
  {}

  function Length(c: Call): nat {
    if c.Get? then c.len else 0
  }

  lemma StepSince(h: Hash, s: State, c: Call)
    requires s.since < TWO_TO_64
    ensures Step(h, s, c).since == ((if Reseeds(s, c) then 0 else s.since) + Length(c)) % TWO_TO_64
  {}

  lemma EventsSince(ev: seq<Event>, s: State, c: Call)
    ensures SinceReseed(ev + EventsOf(s, c)) == (if Reseeds(s, c) then 0 else SinceReseed(ev)) + Length(c)
  {
    var seeds := if Reseeds(s, c) then [Reseeded] else [];
    if seeds == [] {
      assert ev + seeds == ev;
    } else {
      SinceSnoc(ev, Reseeded);
    }
    if c.Get? {
      assert ev + EventsOf(s, c) == (ev + seeds) + [Produced(c.len)];
      SinceSnoc(ev + seeds, Produced(c.len));
    } else {
      assert ev + EventsOf(s, c) == ev + seeds;
    }
  }

  lemma WrapExact(a: nat, m: nat)
    requires m > 0
    ensures 0 <= a % m < m && (a % m == a <==> a < m)
  {
    if a < m {
      DivUnique(a, 0, a, m);
    }
  }

  /** The byte counter is the output since the last reseed, over every run, as a 64-bit number. */
  lemma {:induction false} SinceIsOutput(h: Hash, calls: seq<Call>)
    ensures Run(h, calls).since == SinceReseed(Events(h, calls)) % TWO_TO_64
    ensures Run(h, calls).since == SinceReseed(Events(h, calls)) <==> SinceReseed(Events(h, calls)) < TWO_TO_64
  {
    if calls != [] {
      var n := |calls| - 1;
      SinceIsOutput(h, calls[..n]);
      SinceStep(h, Run(h, calls[..n]), calls[n], Events(h, calls[..n]));
    }
    WrapExact(SinceReseed(Events(h, calls)), TWO_TO_64);
  }

  lemma SinceStep(h: Hash, s: State, c: Call, ev: seq<Event>)
    requires s.since == SinceReseed(ev) % TWO_TO_64
    ensures Step(h, s, c).since == SinceReseed(ev + EventsOf(s, c)) % TWO_TO_64
  {
    StepSince(h, s, c);
    EventsSince(ev, s, c);
    AddWrapped(SinceReseed(ev), Length(c), TWO_TO_64);
  }

  // Reseeding happens between requests only, so one request can pass the threshold by any amount.

  lemma {:induction false} EventsSnoc(h: Hash, calls: seq<Call>, c: Call)
    ensures Run(h, calls + [c]) == Step(h, Run(h, calls), c)
    ensures Events(h, calls + [c]) == Events(h, calls) + EventsOf(Run(h, calls), c)
  {
    assert (calls + [c])[..|calls|] == calls;
  }

  /** The output that a call adds to, once the reseed before it is taken into account. */
  function Carried(h: Hash, calls: seq<Call>, c: Call): nat {
    if Reseeds(Run(h, calls), c) then 0 else SinceReseed(Events(h, calls))
  }

  /** The output after a call. */
  lemma OutputAfter(h: Hash, calls: seq<Call>, c: Call)
    ensures SinceReseed(Events(h, calls + [c])) == Carried(h, calls, c) + Length(c)
  {
    EventsSnoc(h, calls, c);
    EventsSince(Events(h, calls), Run(h, calls), c);
  }

  /** A first request of 2^20 + 1 bytes passes the threshold. */
  lemma OverlongRequest(h: Hash, e: Entropy, e': Entropy)
    ensures SinceReseed(Events(h, [Get(e, e', RESEED_BYTES + 1)])) == RESEED_BYTES + 1
  {
    OutputAfter(h, [], Get(e, e', RESEED_BYTES + 1));
    assert [] + [Get(e, e', RESEED_BYTES + 1)] == [Get(e, e', RESEED_BYTES + 1)];
  }

  /** A request keeps the output since the last reseed within the threshold exactly when it fits into what is left. */
  lemma WithinThreshold(h: Hash, calls: seq<Call>, c: Call)
    requires c.Get?
    ensures SinceReseed(Events(h, calls + [c])) <= RESEED_BYTES <==> c.len <= RESEED_BYTES - Carried(h, calls, c)
  {
    OutputAfter(h, calls, c);
  }

  ghost predicate AtMost(calls: seq<Call>, n: nat) {
    forall i :: 0 <= i < |calls| && calls[i].Get? ==> calls[i].len <= n
  }

  /** If no request is longer than n bytes, the output since the last reseed stays below 2^20 + n. */
  lemma {:induction false} OutputBound(h: Hash, calls: seq<Call>, n: nat)
    requires 0 < n <= TWO_TO_64 - RESEED_BYTES && AtMost(calls, n)
    ensures SinceReseed(Events(h, calls)) < RESEED_BYTES + n
  {
    if calls != [] {
      var k := |calls| - 1;
      OutputBound(h, calls[..k], n);
      assert calls == calls[..k] + [calls[k]];
      SinceIsOutput(h, calls[..k]);
      OutputAfter(h, calls[..k], calls[k]);
    }
  }

  function OneByteRequests(e: Entropy, e': Entropy, j: nat): seq<Call> {
    if j == 0 then [] else OneByteRequests(e, e', j - 1) + [Get(e, e', 1)]
  }

  lemma {:induction false} OneByteAtMost(e: Entropy, e': Entropy, j: nat)
    ensures AtMost(OneByteRequests(e, e', j), 1)
  {
    if j > 0 {
      OneByteAtMost(e, e', j - 1);
    }
  }

  /** `j` bytes have been produced since the first and only reseed. */
  predicate Reached(h: Hash, calls: seq<Call>, j: nat) {
    SinceReseed(Events(h, calls)) == j == Run(h, calls).since && (j > 0 ==> Run(h, calls).ready)
  }

  lemma ReachedStep(h: Hash, calls: seq<Call>, c: Call, j: nat)
    requires c.Get? && Reached(h, calls, j) && j < RESEED_BYTES && j + c.len < TWO_TO_64
    ensures Reached(h, calls + [c], j + c.len)
  {
    OutputAfter(h, calls, c);
    EventsSnoc(h, calls, c);
    StepSince(h, Run(h, calls), c);
  }

  lemma OneByteOutput(h: Hash, e: Entropy, e': Entropy, j: nat)
    requires j <= RESEED_BYTES
    ensures Reached(h, OneByteRequests(e, e', j), j)
  {
    var goal := (calls: seq<Call>, i: nat) => Reached(h, calls, i);
    NothingReached(h);
    forall calls, i: nat ensures MoreAt(goal, calls, e, e', i) {
      if 0 < i <= RESEED_BYTES && Reached(h, calls, i - 1) {
        OneByteMore(h, calls, e, e', i);
      }
    }
    OneByteInduction(goal, e, e', j);
  }

  /** One more request of one byte keeps `goal`, below the threshold. */
  predicate MoreAt(goal: (seq<Call>, nat) -> bool, calls: seq<Call>, e: Entropy, e': Entropy, i: nat) {
    0 < i <= RESEED_BYTES && goal(calls, i - 1) ==> goal(calls + [Get(e, e', 1)], i)
  }

  lemma {:induction false} OneByteInduction(goal: (seq<Call>, nat) -> bool, e: Entropy, e': Entropy, j: nat)
    requires j <= RESEED_BYTES && goal([], 0) && forall calls, i: nat :: MoreAt(goal, calls, e, e', i)
    ensures goal(OneByteRequests(e, e', j), j)
  {
    if j > 0 {
      OneByteInduction(goal, e, e', j - 1);
      assert MoreAt(goal, OneByteRequests(e, e', j - 1), e, e', j);
    }
  }

  lemma NothingReached(h: Hash)
    ensures Reached(h, [], 0)
  {}

  lemma OneByteMore(h: Hash, calls: seq<Call>, e: Entropy, e': Entropy, j: nat)
    requires 0 < j <= RESEED_BYTES && Reached(h, calls, j - 1)
    ensures Reached(h, calls + [Get(e, e', 1)], j)
  {
    ReachedStep(h, calls, Get(e, e', 1), j - 1);
  }

  /** The bound is attained: 2^20 - 1 requests of one byte, then one of n. */
  lemma BoundAttained(h: Hash, e: Entropy, e': Entropy, n: nat, j: nat)
    requires n > 0 && j == RESEED_BYTES - 1
    ensures var calls := OneByteRequests(e, e', j) + [Get(e, e', n)];
            AtMost(calls, n) && SinceReseed(Events(h, calls)) == RESEED_BYTES + n - 1
  {
    OneByteAtMost(e, e', j);
    OneByteOutput(h, e, e', j);
    OutputAfter(h, OneByteRequests(e, e', j), Get(e, e', n));
  }

  ghost predicate BoundedAt(h: Hash, calls: seq<Call>, n: nat) {
    AtMost(calls, n) ==> SinceReseed(Events(h, calls)) < RESEED_BYTES + n
  }

  /** Requests of 2^20 - 1 and 2^64 - 2^20 + 1 bytes turn the byte counter over, so that no reseed follows. */
  function Overturn(e: Entropy, e': Entropy, n: nat): seq<Call> {
    [Get(e, e', RESEED_BYTES - 1), Get(e, e', TWO_TO_64 - RESEED_BYTES + 1), Get(e, e', n)]
  }

  lemma OverturnOutput(h: Hash, e: Entropy, e': Entropy, n: nat)
    ensures SinceReseed(Events(h, Overturn(e, e', n))) == TWO_TO_64 + n
  {
    var a, b, c := Get(e, e', RESEED_BYTES - 1), Get(e, e', TWO_TO_64 - RESEED_BYTES + 1), Get(e, e', n);
    assert Overturn(e, e', n) == ([a] + [b]) + [c] && [] + [a] == [a];
    ReachedStep(h, [], a, 0);
    OutputAfter(h, [a], b);
    EventsSnoc(h, [a], b);
    SinceIsOutput(h, [a] + [b]);
    OutputAfter(h, [a] + [b], c);
  }

  /** The bound holds of every run exactly when no request is longer than 2^64 - 2^20 bytes. */
  lemma BoundExact(h: Hash, e: Entropy, e': Entropy, n: nat)
    requires n > 0
    ensures (forall calls :: BoundedAt(h, calls, n)) <==> n <= TWO_TO_64 - RESEED_BYTES
  {
    if n <= TWO_TO_64 - RESEED_BYTES {
      forall calls ensures BoundedAt(h, calls, n) {
        if AtMost(calls, n) {
          OutputBound(h, calls, n);
        }
      }
    } else {
      OverturnOutput(h, e, e', n);
      assert !BoundedAt(h, Overturn(e, e', n), n);
    }
  }

  // ------------------------------------------------- separation of the messages

  /** What a hashed message is for, and the key in the state that hashed it. */
  datatype Tag =
    | Seed(key: Octets, counter: nat)
    | Block(key: Octets, req: nat, blk: nat)
    | NewKey(key: Octets, req: nat)

  /** The numbers in a tag fit their 8-byte fields. */
  predicate Small(t: Tag) {
    match t
    case Seed(_, c) => c < TWO_TO_64
    case Block(_, r, b) => r < TWO_TO_64 && b < TWO_TO_64
    case NewKey(_, r) => r < TWO_TO_64
  }

  /** The key comes first in the message, and the numbers at the place its length gives. */
  predicate Carries(m: Octets, t: Tag) {
    && |t.key| == 32 <= |m| && m[..32] == t.key
    && match t
       case Seed(_, c) => |m| >= 2168 && m[|m| - 72..|m| - 64] == Bytes(c, 8)
       case Block(_, r, b) => |m| == 48 && m[32..40] == Bytes(r, 8) && m[40..48] == Bytes(b, 8)
       case NewKey(_, r) => |m| == 45 && Spells(m[32..37], "rekey") && m[37..45] == Bytes(r, 8)
  }

  /** A message carries one tag only. */
  lemma TagUnique(m: Octets, t: Tag, t': Tag)
    requires Carries(m, t) && Carries(m, t') && Small(t) && Small(t')
    ensures t == t'
  {
    WordRanges();
    match t {
      case Seed(_, c) => BytesInjective(c, t'.counter, 8);
      case Block(_, r, b) =>
        BytesInjective(r, t'.req, 8);
        BytesInjective(b, t'.blk, 8);
      case NewKey(_, r) => BytesInjective(r, t'.req, 8);
    }
  }

  /** The messages of blocks 0 to n-1. */
  function BlockMessages(key: Octets, req: nat, n: nat): (ms: seq<Octets>)
    ensures |ms| == n
  {
    seq(n, b requires 0 <= b < n => BlockMessage(key, req, b))
  }

  /** The messages of the reseeds that a call makes. */
  function SeedMessages(h: Hash, s: State, c: Call): seq<Octets> {
    var i := InitLocked(h, s, c.first);
    (if s.ready then [] else [SeedMessage(s, c.first)])
    + (if c.Get? && i.since >= RESEED_BYTES then [SeedMessage(i, c.again)] else [])
  }

  /** The messages of a prepared request. */
  function AnswerMessages(t: State, len: nat): seq<Octets> {
    BlockMessages(t.key, NextRequest(t), BlockCount(len)) + [RekeyMessage(t.key, NextRequest(t))]
  }

  /** Everything a call hashes, in order. */
  function Messages(h: Hash, s: State, c: Call): seq<Octets> {
    if c.Get? then SeedMessages(h, s, c) + AnswerMessages(Prepared(h, s, c), c.len) else SeedMessages(h, s, c)
  }

  function SeedTags(s: State, c: Call): seq<Tag> {
    if Reseeds(s, c) then [Seed(s.key, s.counter)] else []
  }

  function BlockTags(key: Octets, req: nat, n: nat): (ts: seq<Tag>)
    ensures |ts| == n
  {
    seq(n, b requires 0 <= b < n => Block(key, req, b))
  }

  function AnswerTags(key: Octets, req: nat, len: nat): seq<Tag> {
    BlockTags(key, req, BlockCount(len)) + [NewKey(key, req)]
  }

  /** The tags of those messages: a reseed hashes the key it replaces, the answer the key after the reseeds. */
  function Tags(h: Hash, s: State, c: Call): seq<Tag> {
    if c.Get? then SeedTags(s, c) + AnswerTags(Prepared(h, s, c).key, NextRequest(s), c.len) else SeedTags(s, c)
  }

  /** Everything a run hashes. */
  function Log(h: Hash, calls: seq<Call>): seq<Octets> {
    if calls == [] then []
    else Log(h, calls[..|calls| - 1]) + Messages(h, Run(h, calls[..|calls| - 1]), calls[|calls| - 1])
  }

  function LogTags(h: Hash, calls: seq<Call>): seq<Tag> {
    if calls == [] then []
    else LogTags(h, calls[..|calls| - 1]) + Tags(h, Run(h, calls[..|calls| - 1]), calls[|calls| - 1])
  }

  ghost predicate AllCarry(ms: seq<Octets>, ts: seq<Tag>) {
    |ms| == |ts| && forall i :: 0 <= i < |ms| ==> Carries(ms[i], ts[i])
  }

  lemma AllCarryConcat(ms: seq<Octets>, ts: seq<Tag>, ms': seq<Octets>, ts': seq<Tag>)
    requires AllCarry(ms, ts) && AllCarry(ms', ts')
    ensures AllCarry(ms + ms', ts + ts')
  {}

  lemma SeedCarries(s: State, e: Entropy)
    requires |s.key| == 32 && Collected(e)
    ensures Carries(SeedMessage(s, e), Seed(s.key, s.counter))
  {
    var m := SeedMessage(s, e);
    var front := s.key + e.hw + e.jitter + (Bytes(e.ticks, 8) + Bytes(e.tsc, 8));
    assert m == front + Bytes(s.counter, 8) + e.pool;
    assert m[..32] == s.key;
  }

  lemma BlockCarries(key: Octets, req: nat, b: nat)
    requires |key| == 32
    ensures Carries(BlockMessage(key, req, b), Block(key, req, b))
  {}

  lemma RekeyCarries(key: Octets, req: nat)
    requires |key| == 32
    ensures Carries(RekeyMessage(key, req), NewKey(key, req))
  {
    SpellsRekey(REKEY);
    assert RekeyMessage(key, req)[32..37] == REKEY;
  }

  lemma MessagesCarry(h: Hash, s: State, c: Call)
    requires |s.key| == 32 && Possible(c)
    ensures AllCarry(Messages(h, s, c), Tags(h, s, c))
  {
    SeedsCarry(h, s, c);
    if c.Get? {
      PreparedKeeps(h, s, c);
      AnswersJoin(SeedMessages(h, s, c), SeedTags(s, c), Prepared(h, s, c), c.len, NextRequest(s));
    }
  }

  lemma PreparedKeeps(h: Hash, s: State, c: Call)
    requires |s.key| == 32 && c.Get?
    ensures |Prepared(h, s, c).key| == 32 && NextRequest(Prepared(h, s, c)) == NextRequest(s)
  {}

  lemma AnswersJoin(ms: seq<Octets>, ts: seq<Tag>, t: State, len: nat, req: nat)
    requires AllCarry(ms, ts) && |t.key| == 32 && req == NextRequest(t)
    ensures AllCarry(ms + AnswerMessages(t, len), ts + AnswerTags(t.key, req, len))
  {
    AnswersCarry(t, len);
    AllCarryConcat(ms, ts, AnswerMessages(t, len), AnswerTags(t.key, req, len));
  }

  lemma AnswersCarry(t: State, len: nat)
    requires |t.key| == 32
    ensures AllCarry(AnswerMessages(t, len), AnswerTags(t.key, NextRequest(t), len))
  {
    var req, n := NextRequest(t), BlockCount(len);
    BlocksCarry(t.key, req, n);
    RekeyCarries(t.key, req);
    AllCarryConcat(BlockMessages(t.key, req, n), BlockTags(t.key, req, n), [RekeyMessage(t.key, req)],
                   [NewKey(t.key, req)]);
  }

  lemma SeedsCarry(h: Hash, s: State, c: Call)
    requires |s.key| == 32 && Possible(c)
    ensures AllCarry(SeedMessages(h, s, c), SeedTags(s, c))
  {
    SeedCarries(s, c.first);
    if c.Get? {
      SeedCarries(InitLocked(h, s, c.first), c.again);
    }
  }

  lemma BlocksCarry(key: Octets, req: nat, n: nat)
    requires |key| == 32
    ensures AllCarry(BlockMessages(key, req, n), BlockTags(key, req, n))
  {
    forall b | 0 <= b < n ensures Carries(BlockMessage(key, req, b), Block(key, req, b)) {
      BlockCarries(key, req, b);
    }
  }

  lemma {:induction false} LogCarries(h: Hash, calls: seq<Call>)
    requires AllPossible(calls)
    ensures |Run(h, calls).key| == 32 && AllCarry(Log(h, calls), LogTags(h, calls))
  {
    if calls != [] {
      var n := |calls| - 1;
      var s := Run(h, calls[..n]);
      assert Possible(calls[n]);
      LogCarries(h, calls[..n]);
      MessagesCarry(h, s, calls[n]);
      AllCarryConcat(Log(h, calls[..n]), LogTags(h, calls[..n]), Messages(h, s, calls[n]), Tags(h, s, calls[n]));
    }
  }

  /** A tag that may have been used before the state `s`. */
  predicate Past(t: Tag, s: State) {
    s.ready && match t
    case Seed(_, c) => c < s.counter || (c == s.counter && s.since == 0)
    case Block(_, r, b) => r <= s.counter && b < TWO_TO_64
    case NewKey(_, r) => r <= s.counter
  }

  ghost predicate AllPast(ts: seq<Tag>, s: State) {
    forall i :: 0 <= i < |ts| ==> Past(ts[i], s)
  }

  ghost predicate Distinct<T>(ts: seq<T>) {
    forall i, j :: 0 <= i < j < |ts| ==> ts[i] != ts[j]
  }

  /** The tags of one call are distinct, new, and in the past afterwards. */
  lemma NewTags(h: Hash, s: State, c: Call, i: nat)
    requires Possible(c) && (c.Get? ==> s.counter + 1 < TWO_TO_64) && i < |Tags(h, s, c)|
    ensures !Past(Tags(h, s, c)[i], s) && Past(Tags(h, s, c)[i], Step(h, s, c))
  {
    TagAt(h, s, c, i);
    StepFields(h, s, c);
  }

  lemma TagAt(h: Hash, s: State, c: Call, i: nat)
    requires i < |Tags(h, s, c)|
    ensures match Tags(h, s, c)[i]
            case Seed(_, n) => n == s.counter && Reseeds(s, c)
            case Block(_, r, b) => c.Get? && r == NextRequest(s) && b < BlockCount(c.len)
            case NewKey(_, r) => c.Get? && r == NextRequest(s)
  {}

  lemma StepFields(h: Hash, s: State, c: Call)
    ensures var s' := Step(h, s, c);
            && s'.ready && s'.counter == (if c.Get? then NextRequest(s) else s.counter)
            && (Reseeds(s, c) && !c.Get? ==> s'.since == 0)
  {}

  lemma TagsDistinct(h: Hash, s: State, c: Call)
    ensures Distinct(Tags(h, s, c))
  {}

  /** The past stays past. */
  lemma PastStays(h: Hash, s: State, c: Call, t: Tag)
    requires Possible(c) && (c.Get? ==> s.counter + 1 < TWO_TO_64) && Past(t, s)
    ensures Past(t, Step(h, s, c))
  {}

  lemma {:induction false} LogTagsDistinct(h: Hash, calls: seq<Call>)
    requires AllPossible(calls) && Requests(calls) < TWO_TO_64
    ensures Distinct(LogTags(h, calls)) && AllPast(LogTags(h, calls), Run(h, calls))
  {
    if calls != [] {
      var n := |calls| - 1;
      var s, c := Run(h, calls[..n]), calls[n];
      assert Possible(c);
      LogTagsDistinct(h, calls[..n]);
      CounterIsRequests(h, calls[..n]);
      ExtendTags(h, LogTags(h, calls[..n]), s, c);
    }
  }

  lemma ExtendTags(h: Hash, ts: seq<Tag>, s: State, c: Call)
    requires Possible(c) && (c.Get? ==> s.counter + 1 < TWO_TO_64) && Distinct(ts) && AllPast(ts, s)
    ensures Distinct(ts + Tags(h, s, c)) && AllPast(ts + Tags(h, s, c), Step(h, s, c))
  {
    var more := Tags(h, s, c);
    TagsDistinct(h, s, c);
    forall i | 0 <= i < |more| ensures !Past(more[i], s) && Past(more[i], Step(h, s, c)) {
      NewTags(h, s, c, i);
    }
    forall i | 0 <= i < |ts| ensures Past(ts[i], Step(h, s, c)) {
      PastStays(h, s, c, ts[i]);
    }
  }

  /** Over any run of fewer than 2^64 requests no two hashed messages are equal. */
  lemma MessagesDistinct(h: Hash, calls: seq<Call>)
    requires AllPossible(calls) && Requests(calls) < TWO_TO_64
    ensures Distinct(Log(h, calls))
  {
    var ms, ts := Log(h, calls), LogTags(h, calls);
    LogCarries(h, calls);
    LogTagsDistinct(h, calls);
    CounterIsRequests(h, calls);
    forall i, j | 0 <= i < j < |ms| ensures ms[i] != ms[j] {
      assert Past(ts[i], Run(h, calls)) && Past(ts[j], Run(h, calls));
      if ms[i] == ms[j] {
        TagUnique(ms[i], ts[i], ts[j]);
      }
    }
  }

  // ---------------------------------------------------------------- the code

  function Sha256(f: BlockFunction, m: Octets): (d: Octets)
    ensures |d| == 32
  {
    Sha256Length(f, m);
    Hash256(f, m)
  }

  function Sha256Of(f: BlockFunction): Hash {
    (m: Octets) => Sha256(f, m)
  }

  ghost predicate IsSha256(h: Hash, f: BlockFunction) {
    forall m :: IsSha256At(h, f, m)
  }

  predicate IsSha256At(h: Hash, f: BlockFunction, m: Octets) {
    h(m) == Sha256(f, m)
  }

  lemma OfIsSha256(f: BlockFunction)
    ensures IsSha256(Sha256Of(f), f)
  {}

  /** A digest of several parts, one update each. */
  method Digest3(f: BlockFunction, a: Octets, b: Octets, c: Octets, ghost h: Hash) returns (d: Octets)
    requires IsSha256(h, f)
    ensures d == h(a + b + c)
  {
    d := HashChunks256(f, [a, b, c]);
    Flatten3(a, b, c);
    assert IsSha256At(h, f, a + b + c);
  }

  lemma Flatten3(a: Octets, b: Octets, c: Octets)
    ensures Flatten([a, b, c]) == a + b + c
  {
    assert [a, b, c][..2] == [a, b] && [a, b][..1] == [a] && [a][..0] == [];
    assert Flatten([a]) == [] + a == a;
    assert Flatten([a, b]) == a + b;
  }

  /** The globals of crypto/csprng.c; `log` lists what has been hashed. */
  class Generator {
    const f: BlockFunction
    ghost const h: Hash
    var key: Octets
    var counter: nat
    var since: nat
    var ready: bool
    ghost var log: seq<Octets>

    ghost function Globals(): State
      reads this
    {
      State(key, counter, since, ready)
    }

    ghost predicate Valid()
      reads this
    {
      IsSha256(h, f) && |key| == 32 && counter < TWO_TO_64 && since < TWO_TO_64
    }

    constructor (g: BlockFunction)
      ensures Valid() && f == g && h == Sha256Of(g) && Globals() == INITIAL && log == []
    {
      f, h := g, Sha256Of(g);
      key, counter, since, ready := Zeros(32), 0, 0, false;
      log := [];
      OfIsSha256(g);
    }

    /** `reseed`, with the entropy it collects. */
    method Reseed(e: Entropy)
      requires Valid()
      modifies this
      ensures Valid() && Globals() == AfterReseed(h, old(Globals()), e)
      ensures log == old(log) + [SeedMessage(old(Globals()), e)]
    {
      ghost var m := SeedMessage(Globals(), e);
      var misc := Bytes(e.ticks, 8) + Bytes(e.tsc, 8) + Bytes(counter, 8);
      assert m == key + (e.hw + e.jitter) + (misc + e.pool);
      key := Digest3(f, key, e.hw + e.jitter, misc + e.pool, h);
      since := 0;
      log := log + [m];
    }

    /** `init_locked`. */
    method Init(e: Entropy)
      requires Valid()
      modifies this
      ensures Valid() && Globals() == Step(h, old(Globals()), Start(e))
      ensures log == old(log) + Messages(h, old(Globals()), Start(e))
    {
      if ready {
        return;
      }
      Reseed(e);
      ready := true;
    }

    /** What `csprng_get` does before it generates. */
    method Prepare(first: Entropy, again: Entropy, ghost len: nat)
      requires Valid()
      modifies this
      ensures Valid() && Globals() == Prepared(h, old(Globals()), Call.Get(first, again, len))
      ensures log == old(log) + SeedMessages(h, old(Globals()), Call.Get(first, again, len))
    {
      Init(first);
      if since >= RESEED_BYTES {
        Reseed(again);
      }
    }

    /** `csprng_get`. */
    method Get(first: Entropy, again: Entropy, out: array<byte>, len: nat)
      requires Valid() && len <= out.Length && len < TWO_TO_64
      modifies this, out
      ensures Valid()
      ensures Globals() == Step(h, old(Globals()), Call.Get(first, again, len))
      ensures log == old(log) + Messages(h, old(Globals()), Call.Get(first, again, len))
      ensures out[..] == Output(h, old(Globals()), Call.Get(first, again, len)) + old(out[..])[len..]
    {
      ghost var c, s, l := Call.Get(first, again, len), Globals(), log;
      Prepare(first, again, len);
      Answer(out, len);
      Regroup(l, SeedMessages(h, s, c), AnswerMessages(Prepared(h, s, c), len));
    }

    /** The rest of `csprng_get`: generate, then replace the key. */
    method Answer(out: array<byte>, len: nat)
      requires Valid() && len <= out.Length
      modifies this, out
      ensures Valid() && Globals() == Answered(h, old(Globals()), len)
      ensures log == old(log) + AnswerMessages(old(Globals()), len)
      ensures out[..] == Answers(h, old(Globals()), len) + old(out[..])[len..]
    {
      ghost var l, t := log, Globals();
      AnswerBlocks(out, len);
      ReplaceKey(counter);
      Regroup(l, BlockMessages(t.key, counter, BlockCount(len)), [RekeyMessage(t.key, counter)]);
    }

    /** The request number and the output. */
    method AnswerBlocks(out: array<byte>, len: nat)
      requires Valid() && len <= out.Length
      modifies this, out
      ensures Valid() && key == old(key) && ready == old(ready)
      ensures counter == NextRequest(old(Globals())) && since == (old(since) + len) % TWO_TO_64
      ensures log == old(log) + BlockMessages(key, counter, BlockCount(len))
      ensures out[..] == Answers(h, old(Globals()), len) + old(out[..])[len..]
    {
      ghost var t, before := Globals(), out[..];
      counter := (counter + 1) % TWO_TO_64;
      Generate(counter, out, len);
      GeneratedAnswer(h, t, len, out[..], before);
    }

    /** The rekeying at the end of `csprng_get`. */
    method ReplaceKey(req: nat)
      requires Valid()
      modifies this`key, this`log
      ensures Valid() && key == h(RekeyMessage(old(key), req)) && log == old(log) + [RekeyMessage(old(key), req)]
    {
      log := log + [RekeyMessage(key, req)];
      key := Digest3(f, key, REKEY, Bytes(req, 8), h);
    }

    /** The output loop. */
    method Generate(req: nat, out: array<byte>, len: nat)
      requires Valid() && len <= out.Length
      modifies this`since, this`log, out
      ensures since == (old(since) + len) % TWO_TO_64
      ensures log == old(log) + BlockMessages(key, req, BlockCount(len))
      ensures Generated(h, key, req, len, out[..], old(out[..]))
    {
      var blk, done := 0, 0;
      ghost var l, base, before := log, since, out[..];
      WrapExact(since, TWO_TO_64);
      NothingGenerated(h, key, req, before);
      while done < len
        invariant done <= len && since == (base + done) % TWO_TO_64 && blk == BlockCount(done)
        invariant done < len ==> done == 32 * blk
        invariant log == l + BlockMessages(key, req, blk)
        invariant Generated(h, key, req, done, out[..], before)
      {
        done := GenerateBlock(req, blk, out, done, len, base, before);
        NextMessage(key, req, blk);
        Regroup(l, BlockMessages(key, req, blk), [BlockMessage(key, req, blk)]);
        blk := blk + 1;
      }
    }

    /** The body of the output loop. */
    method GenerateBlock(req: nat, blk: nat, out: array<byte>, done: nat, len: nat, ghost base: nat,
                         ghost before: Octets)
      returns (done': nat)
      requires Valid() && since == (base + done) % TWO_TO_64
      requires done == 32 * blk < len <= out.Length == |before| && Generated(h, key, req, done, out[..], before)
      modifies this`since, this`log, out
      ensures done < done' <= len && BlockCount(done') == blk + 1 && (done' < len ==> done' == 32 * (blk + 1))
      ensures since == (base + done') % TWO_TO_64 && log == old(log) + [BlockMessage(key, req, blk)]
      ensures Generated(h, key, req, done', out[..], before)
    {
      var n := if len - done < 32 then len - done else 32;
      EmitBlock(f, key, req, blk, out, n, h, before);
      log := log + [BlockMessage(key, req, blk)];
      BlockCounts(blk, n);
      AddWrapped(base + done, n, TWO_TO_64);
      since := (since + n) % TWO_TO_64;
      done' := done + n;
    }
  }

  lemma Regroup<T>(a: seq<T>, b: seq<T>, c: seq<T>)
    ensures a + b + c == a + (b + c)
  {}

  /** The first `done` bytes of `out` are output, the others are as they were. */
  ghost predicate Generated(h: Hash, key: Octets, req: nat, done: nat, out: Octets, before: Octets) {
    done <= |before| && out == Stream(h, key, req, BlockCount(done))[..done] + before[done..]
  }

  lemma NothingGenerated(h: Hash, key: Octets, req: nat, before: Octets)
    ensures Generated(h, key, req, 0, before, before)
  {}

  lemma NextMessage(key: Octets, req: nat, blk: nat)
    ensures BlockMessages(key, req, blk + 1) == BlockMessages(key, req, blk) + [BlockMessage(key, req, blk)]
  {}

  /** The body of the output loop: block `blk`, whole or cut. */
  lemma GeneratedAnswer(h: Hash, t: State, len: nat, out: Octets, before: Octets)
    requires len <= |before| && Generated(h, t.key, NextRequest(t), len, out, before)
    ensures out == Answers(h, t, len) + before[len..]
  {}

  method EmitBlock(f: BlockFunction, key: Octets, req: nat, blk: nat, out: array<byte>, n: nat, ghost h: Hash,
                   ghost before: Octets)
    requires IsSha256(h, f) && 0 < n <= 32 && 32 * blk + n <= out.Length == |before|
    requires Generated(h, key, req, 32 * blk, out[..], before)
    modifies out
    ensures Generated(h, key, req, 32 * blk + n, out[..], before)
  {
    var dg := Digest3(f, key, Bytes(req, 8), Bytes(blk, 8), h);
    ghost var was := out[..];
    CopyBlock(dg, out, 32 * blk, n);
    Emitted(h, key, req, blk, n, was, out[..], before);
  }

  lemma Emitted(h: Hash, key: Octets, req: nat, blk: nat, n: nat, was: Octets, out: Octets, before: Octets)
    requires 0 < n <= 32 && 32 * blk + n <= |was| == |before| && Generated(h, key, req, 32 * blk, was, before)
    requires out == was[..32 * blk] + h(BlockMessage(key, req, blk))[..n] + was[32 * blk + n..]
    ensures Generated(h, key, req, 32 * blk + n, out, before)
  {
    BlockCounts(blk, n);
    StreamStep(h, key, req, blk, n);
    var s := Stream(h, key, req, blk);
    assert s[..32 * blk] == s;
    assert was[..32 * blk] == s && was[32 * blk + n..] == before[32 * blk + n..];
  }

  lemma BlockCounts(blk: nat, n: nat)
    requires 0 < n <= 32
    ensures BlockCount(32 * blk) == blk && BlockCount(32 * blk + n) == blk + 1
  {}

  method CopyBlock(dg: Octets, out: array<byte>, done: nat, n: nat)
    requires n <= |dg| && done + n <= out.Length
    modifies out
    ensures out[..] == old(out[..done]) + dg[..n] + old(out[done + n..])
  {
    for i := 0 to n
      invariant forall j :: 0 <= j < out.Length ==> out[j] == if done <= j < done + i then dg[j - done] else old(out[j])
    {
      out[done + i] := dg[i];
    }
  }

  lemma StreamStep(h: Hash, key: Octets, req: nat, blk: nat, n: nat)
    requires n <= 32
    ensures Stream(h, key, req, blk + 1)[..32 * blk + n]
            == Stream(h, key, req, blk) + h(BlockMessage(key, req, blk))[..n]
  {}
}
