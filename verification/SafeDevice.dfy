/**
 vfs/redolog.go's device wrapper: a 64-slot most-recently-used cache in front of a device,
 and a before-image logged around each write.
 */
module SafeDevice {
  import opened Wrappers
  import opened Bytes
  import opened RedoLog

  const CACHE_SLOTS := 64

  /** A byte range a caller may ask for. */
  datatype Span = Span(off: nat, len: nat) {
    predicate Has(x: int) {
      off <= x < off + len
    }

    predicate Inside(s: Span) {
      s.off <= off && off + len <= s.off + s.len
    }

    predicate Meets(s: Span) {
      off < s.off + s.len && s.off < off + len
    }
  }

  /** Any two ranges are nested or disjoint, as whole blocks and ranges inside one block are. */
  ghost predicate Laminar(pattern: set<Span>) {
    forall s, t | s in pattern && t in pattern && s.Meets(t) :: s.Inside(t) || t.Inside(s)
  }

  datatype CacheBlock = CacheBlock(offset: nat, data: seq<byte>) {
    function Range(): Span {
      Span(offset, |data|)
    }
  }

  // ----- the cache invariant -----

  /** Overlapping blocks are nested, the larger one in front. */
  ghost predicate Nested(cache: seq<CacheBlock>) {
    forall i, j | 0 <= i < j < |cache| && cache[i].Range().Meets(cache[j].Range()) ::
      cache[j].Range().Inside(cache[i].Range())
  }

  /** No block before i covers x. */
  ghost predicate First(cache: seq<CacheBlock>, i: nat, x: int) {
    i < |cache| && cache[i].Range().Has(x) && forall j | 0 <= j < i :: !cache[j].Range().Has(x)
  }

  /** Each byte is up to date in the frontmost block that has it; blocks behind may be stale. */
  ghost predicate FrontFresh(cache: seq<CacheBlock>, dev: seq<byte>) {
    forall i: nat, x: int | First(cache, i, x) :: x < |dev| && cache[i].data[x - cache[i].offset] == dev[x]
  }

  ghost predicate CacheOk(cache: seq<CacheBlock>, dev: seq<byte>, pattern: set<Span>) {
    && |cache| <= CACHE_SLOTS
    && (forall i | 0 <= i < |cache| :: |cache[i].data| > 0 && cache[i].Range() in pattern)
    && Nested(cache) && FrontFresh(cache, dev)
  }

  /** The scan of lookupCache and updateCache: the first block that holds the whole range. */
  ghost predicate FirstHolding(cache: seq<CacheBlock>, i: nat, s: Span) {
    && i <= |cache| && (i < |cache| ==> s.Inside(cache[i].Range()))
    && forall j | 0 <= j < i :: !s.Inside(cache[j].Range())
  }

  lemma BothHave(a: Span, b: Span, x: int)
    ensures a.Has(x) && b.Has(x) ==> a.Meets(b)
  {
  }

  lemma LookupIsFresh(cache: seq<CacheBlock>, dev: seq<byte>, pattern: set<Span>, i: nat, s: Span)
    requires Laminar(pattern) && CacheOk(cache, dev, pattern) && s in pattern
    requires FirstHolding(cache, i, s) && i < |cache|
    ensures s.len > 0 ==> s.off + s.len <= |dev|
    ensures s.off + s.len <= |dev| ==> cache[i].data[s.off - cache[i].offset..][..s.len] == dev[s.off..s.off + s.len]
  {
    forall x: int | s.Has(x) ensures First(cache, i, x) {
      forall j | 0 <= j < i ensures !cache[j].Range().Has(x) {
        BothHave(cache[j].Range(), s, x);
        BothHave(cache[j].Range(), cache[i].Range(), x);
      }
    }
    if s.len > 0 {
      assert First(cache, i, s.off + s.len - 1);
    }
    if s.off + s.len <= |dev| {
      var a, b := cache[i].data[s.off - cache[i].offset..][..s.len], dev[s.off..s.off + s.len];
      forall k | 0 <= k < s.len ensures a[k] == b[k] {
        assert First(cache, i, s.off + k);
      }
    }
  }

  // ----- updating the cache -----

  /** updateCache when block i holds the range: patched and moved to the front. */
  function Patched(cache: seq<CacheBlock>, i: nat, off: nat, p: seq<byte>): seq<CacheBlock>
    requires i < |cache| && Span(off, |p|).Inside(cache[i].Range())
  {
    var b := cache[i];
    [CacheBlock(b.offset, Overwrite(b.data, off - b.offset, p))] + cache[..i] + cache[i + 1..]
  }

  /** updateCache when no block holds the range: a new block in front, the last one dropped. */
  function Pushed(cache: seq<CacheBlock>, off: nat, p: seq<byte>): seq<CacheBlock> {
    [CacheBlock(off, p)] + if |cache| >= CACHE_SLOTS then cache[..|cache| - 1] else cache
  }

  /** Blocks in front of the first one that holds a range do not even touch that block. */
  lemma FrontApart(cache: seq<CacheBlock>, i: nat, s: Span)
    requires Nested(cache) && FirstHolding(cache, i, s) && i < |cache|
    ensures forall j | 0 <= j < i :: !cache[j].Range().Meets(cache[i].Range())
  {
  }

  /** Where block k of the patched cache was before. */
  function OldIndex(i: nat, k: nat): nat {
    if k == 0 then i else if k <= i then k - 1 else k
  }

  lemma PatchedShape(cache: seq<CacheBlock>, i: nat, off: nat, p: seq<byte>)
    requires i < |cache| && Span(off, |p|).Inside(cache[i].Range())
    ensures var c := Patched(cache, i, off, p);
            && |c| == |cache|
            && (forall k | 0 <= k < |c| :: c[k].Range() == cache[OldIndex(i, k)].Range())
            && forall k | 0 < k < |c| :: c[k] == cache[OldIndex(i, k)]
  {
  }

  lemma PatchedOk(cache: seq<CacheBlock>, dev: seq<byte>, pattern: set<Span>, i: nat, off: nat, p: seq<byte>)
    requires CacheOk(cache, dev, pattern) && FirstHolding(cache, i, Span(off, |p|)) && i < |cache|
    requires off + |p| <= |dev|
    ensures CacheOk(Patched(cache, i, off, p), Overwrite(dev, off, p), pattern)
  {
    var c, dev1 := Patched(cache, i, off, p), Overwrite(dev, off, p);
    PatchedShape(cache, i, off, p);
    FrontApart(cache, i, Span(off, |p|));
    PatchedNested(cache, i, off, p);
    forall k: nat, x: int | First(c, k, x) ensures x < |dev1| && c[k].data[x - c[k].offset] == dev1[x] {
      PatchedFirst(cache, i, off, p, k, x);
      assert First(cache, OldIndex(i, k), x);
      if k > 0 {
        assert !c[0].Range().Has(x);
      }
    }
  }

  lemma PatchedNested(cache: seq<CacheBlock>, i: nat, off: nat, p: seq<byte>)
    requires Nested(cache) && FirstHolding(cache, i, Span(off, |p|)) && i < |cache|
    ensures Nested(Patched(cache, i, off, p))
  {
    var c := Patched(cache, i, off, p);
    PatchedShape(cache, i, off, p);
    FrontApart(cache, i, Span(off, |p|));
    hide Patched;
    forall j, k | 0 <= j < k < |c| && c[j].Range().Meets(c[k].Range()) ensures c[k].Range().Inside(c[j].Range()) {
      var u, v := OldIndex(i, j), OldIndex(i, k);
      assert cache[u].Range().Meets(cache[v].Range());
      assert u < v || (u == i && v < i);
    }
  }

  /** Frontmost cover in the patched cache is frontmost cover in the old one. */
  lemma PatchedFirst(cache: seq<CacheBlock>, i: nat, off: nat, p: seq<byte>, k: nat, x: int)
    requires Nested(cache) && FirstHolding(cache, i, Span(off, |p|)) && i < |cache|
    requires First(Patched(cache, i, off, p), k, x)
    ensures First(cache, OldIndex(i, k), x)
  {
    var c := Patched(cache, i, off, p);
    PatchedShape(cache, i, off, p);
    FrontApart(cache, i, Span(off, |p|));
    hide Patched;
    forall j | 0 <= j < OldIndex(i, k) ensures !cache[j].Range().Has(x) {
      if k == 0 {
        assert !cache[j].Range().Meets(cache[i].Range());
      } else {
        var m := if j < i then j + 1 else if j == i then 0 else j;
        assert OldIndex(i, m) == j && m < k;
        assert c[m].Range() == cache[j].Range();
      }
    }
  }

  lemma PushedOk(cache: seq<CacheBlock>, dev: seq<byte>, pattern: set<Span>, off: nat, p: seq<byte>)
    requires Laminar(pattern) && CacheOk(cache, dev, pattern) && FirstHolding(cache, |cache|, Span(off, |p|))
    requires off + |p| <= |dev| && p != [] && Span(off, |p|) in pattern
    ensures CacheOk(Pushed(cache, off, p), Overwrite(dev, off, p), pattern)
  {
    var c, dev1, s := Pushed(cache, off, p), Overwrite(dev, off, p), Span(off, |p|);
    assert c[0].Range() == s && forall k | 0 < k < |c| :: c[k] == cache[k - 1];
    forall k | 0 < k < |c| && s.Meets(c[k].Range()) ensures c[k].Range().Inside(s) {
      assert !s.Inside(cache[k - 1].Range());
    }
    assert Nested(c);
    forall k: nat, x: int | First(c, k, x) ensures x < |dev1| && c[k].data[x - c[k].offset] == dev1[x] {
      if k > 0 {
        forall j | 0 <= j < k - 1 ensures !cache[j].Range().Has(x) {
          assert !c[j + 1].Range().Has(x);
        }
        assert First(cache, k - 1, x);
        assert !c[0].Range().Has(x);
      }
    }
  }

  lemma OverwriteWithItself(dev: seq<byte>, off: nat, n: nat)
    requires off + n <= |dev|
    ensures Overwrite(dev, off, dev[off..off + n]) == dev
  {
  }

  // ----- runs of reads and writes -----

  /** The scan of lookupCache and updateCache: the first block that holds the range, or none. */
  function Holder(cache: seq<CacheBlock>, s: Span): (i: nat)
    ensures FirstHolding(cache, i, s)
  {
    if cache == [] || s.Inside(cache[0].Range()) then 0
    else
      var i := Holder(cache[1..], s);
      assert forall j | 0 < j <= |cache[1..]| :: cache[1..][j - 1] == cache[j];
      1 + i
  }

  /** lookupCache */
  function Lookup(cache: seq<CacheBlock>, s: Span): (r: Option<seq<byte>>)
    ensures r.Some? ==> |r.value| == s.len
  {
    var i := Holder(cache, s);
    if i < |cache| then Some(cache[i].data[s.off - cache[i].offset..][..s.len]) else None
  }

  /** updateCache */
  function Updated(cache: seq<CacheBlock>, off: nat, p: seq<byte>): seq<CacheBlock> {
    var i := Holder(cache, Span(off, |p|));
    if p == [] then cache else if i < |cache| then Patched(cache, i, off, p) else Pushed(cache, off, p)
  }

  /** What was read or written is in front, so the same range is answered with it; at most 64 blocks stay. */
  lemma UpdatedAnswers(cache: seq<CacheBlock>, off: nat, p: seq<byte>)
    requires p != []
    ensures var c := Updated(cache, off, p);
            && |c| > 0 && Holder(c, Span(off, |p|)) == 0 && Lookup(c, Span(off, |p|)) == Some(p)
            && (Holder(cache, Span(off, |p|)) < |cache| ==> |c| == |cache|)
            && (Holder(cache, Span(off, |p|)) == |cache| < 64 ==> c == [CacheBlock(off, p)] + cache)
            && (Holder(cache, Span(off, |p|)) == |cache| == 64 ==> c == [CacheBlock(off, p)] + cache[..63])
  {
    var i := Holder(cache, Span(off, |p|));
    if i < |cache| {
      var b := cache[i];
      OverwriteParts(b.data, off - b.offset, p);
      assert Overwrite(b.data, off - b.offset, p)[off - b.offset..][..|p|] == p;
    } else {
      assert p[0..][..|p|] == p;
    }
  }

  datatype Op = Read(s: Span) | Write(s: Span, p: seq<byte>)

  datatype State = State(dev: seq<byte>, cache: seq<CacheBlock>) {
    /** The cache after a read: a miss is filled from the device. */
    function Loaded(s: Span): seq<CacheBlock>
      requires s.off + s.len <= |dev|
    {
      if Lookup(cache, s).Some? then cache else Updated(cache, s.off, dev[s.off..s.off + s.len])
    }

    function Step(op: Op): State
      requires op.s.off + op.s.len <= |dev| && (op.Write? ==> |op.p| == op.s.len)
    {
      match op
      case Read(s) => State(dev, Loaded(s))
      case Write(s, p) => if p == [] then this else State(Overwrite(dev, s.off, p), Updated(Loaded(s), s.off, p))
    }

    /** What a read of the range returns. */
    function Answer(s: Span): seq<byte>
      requires s.off + s.len <= |dev|
    {
      if Lookup(cache, s).Some? then Lookup(cache, s).value else dev[s.off..s.off + s.len]
    }
  }

  /** The operation asks for a range of the pattern on a device of n bytes. */
  ghost predicate Allowed(op: Op, pattern: set<Span>, n: nat) {
    op.s in pattern && op.s.off + op.s.len <= n && (op.Write? ==> |op.p| == op.s.len)
  }

  ghost predicate AllAllowed(ops: seq<Op>, pattern: set<Span>, n: nat) {
    forall i | 0 <= i < |ops| :: Allowed(ops[i], pattern, n)
  }

  ghost function Run(st: State, ops: seq<Op>, pattern: set<Span>): (r: State)
    requires AllAllowed(ops, pattern, |st.dev|)
    ensures |r.dev| == |st.dev|
    decreases |ops|
  {
    if ops == [] then st
    else
      assert Allowed(ops[0], pattern, |st.dev|);
      Run(st.Step(ops[0]), ops[1..], pattern)
  }

  ghost predicate OnDevice(pattern: set<Span>, n: nat) {
    forall s | s in pattern :: s.len > 0 && s.off + s.len <= n
  }

  /** After every run of reads and writes of the pattern, every read of it returns the device's bytes. */
  ghost predicate ReadsExact(pattern: set<Span>, n: nat)
    requires OnDevice(pattern, n)
  {
    forall dev: seq<byte>, ops: seq<Op>, s: Span ::
      |dev| == n && AllAllowed(ops, pattern, n) && s in pattern ==> ExactAfter(State(dev, []), ops, pattern, s)
  }

  ghost predicate ExactAfter(st: State, ops: seq<Op>, pattern: set<Span>, s: Span)
    requires AllAllowed(ops, pattern, |st.dev|) && s.off + s.len <= |st.dev|
  {
    var r := Run(st, ops, pattern);
    r.Answer(s) == r.dev[s.off..s.off + s.len]
  }

  lemma UpdatedOk(cache: seq<CacheBlock>, dev: seq<byte>, pattern: set<Span>, off: nat, p: seq<byte>)
    requires Laminar(pattern) && CacheOk(cache, dev, pattern) && off + |p| <= |dev| && Span(off, |p|) in pattern
    ensures CacheOk(Updated(cache, off, p), Overwrite(dev, off, p), pattern)
  {
    hide CacheOk, Laminar, Patched, Pushed, Overwrite, Holder;
    var i := Holder(cache, Span(off, |p|));
    if p == [] {
      OverwriteNothing(dev, off);
    } else if i < |cache| {
      PatchedOk(cache, dev, pattern, i, off, p);
    } else {
      PushedOk(cache, dev, pattern, off, p);
    }
  }

  lemma OverwriteNothing(dev: seq<byte>, off: nat)
    requires off <= |dev|
    ensures Overwrite(dev, off, []) == dev
  {
  }

  lemma LoadedOk(st: State, pattern: set<Span>, s: Span)
    requires Laminar(pattern) && CacheOk(st.cache, st.dev, pattern) && s.off + s.len <= |st.dev| && s in pattern
    ensures CacheOk(st.Loaded(s), st.dev, pattern)
  {
    hide CacheOk, Laminar, Updated, Overwrite, Lookup;
    OverwriteWithItself(st.dev, s.off, s.len);
    UpdatedOk(st.cache, st.dev, pattern, s.off, st.dev[s.off..s.off + s.len]);
  }

  lemma {:induction false} RunOk(st: State, ops: seq<Op>, pattern: set<Span>)
    requires Laminar(pattern) && CacheOk(st.cache, st.dev, pattern) && AllAllowed(ops, pattern, |st.dev|)
    ensures CacheOk(Run(st, ops, pattern).cache, Run(st, ops, pattern).dev, pattern)
    decreases |ops|
  {
    hide CacheOk, Laminar, Updated, Overwrite, Lookup, State.Loaded;
    if ops != [] {
      var op := ops[0];
      assert Allowed(op, pattern, |st.dev|);
      LoadedOk(st, pattern, op.s);
      if op.Write? && op.p != [] {
        UpdatedOk(st.Loaded(op.s), st.dev, pattern, op.s.off, op.p);
      }
      RunOk(st.Step(op), ops[1..], pattern);
    }
  }

  /** With the invariant, a cached read is a read of the device. */
  lemma AnswerExact(st: State, pattern: set<Span>, s: Span)
    requires Laminar(pattern) && CacheOk(st.cache, st.dev, pattern) && s.off + s.len <= |st.dev| && s in pattern
    ensures st.Answer(s) == st.dev[s.off..s.off + s.len]
  {
    hide CacheOk, Laminar, Holder;
    if Holder(st.cache, s) < |st.cache| {
      LookupIsFresh(st.cache, st.dev, pattern, Holder(st.cache, s), s);
    }
  }

  /**
   Two ranges that overlap without nesting go stale: read s, read t, write t, and the block
   found for s still has the old byte wherever the write changed one they share.
   */
  lemma OverlapGoesStale(dev: seq<byte>, s: Span, t: Span, p: seq<byte>, x: nat)
    requires s.off + s.len <= |dev| && t.off + t.len == t.off + |p| <= |dev|
    requires s.Meets(t) && !s.Inside(t) && !t.Inside(s)
    requires s.Has(x) && t.Has(x) && p[x - t.off] != dev[x]
    ensures var st := State(dev, []).Step(Read(s)).Step(Read(t)).Step(Write(t, p));
            && st.dev == Overwrite(dev, t.off, p)
            && st.Answer(s) == dev[s.off..s.off + s.len] != st.dev[s.off..s.off + s.len]
  {
    hide Overwrite, State.Step, State.Answer;
    var a := CacheBlock(s.off, dev[s.off..s.off + s.len]);
    ReadEmpty(dev, s);
    ReadMiss(dev, a, t);
    WriteFront(dev, a, t, p);
    var st := State(Overwrite(dev, t.off, p), [CacheBlock(t.off, p), a]);
    SecondAnswers(st, CacheBlock(t.off, p), a, s);
    OverwriteByte(dev, t.off, p, x);
    assert dev[s.off..s.off + s.len][x - s.off] != st.dev[s.off..s.off + s.len][x - s.off];
  }

  lemma ReadEmpty(dev: seq<byte>, s: Span)
    requires s.off + s.len <= |dev| && s.len > 0
    ensures State(dev, []).Step(Read(s)) == State(dev, [CacheBlock(s.off, dev[s.off..s.off + s.len])])
  {
  }

  lemma ReadMiss(dev: seq<byte>, a: CacheBlock, t: Span)
    requires t.off + t.len <= |dev| && t.len > 0 && !t.Inside(a.Range())
    ensures State(dev, [a]).Step(Read(t)) == State(dev, [CacheBlock(t.off, dev[t.off..t.off + t.len]), a])
  {
    assert [a][1..] == [];
    assert Holder([a], t) == 1;
  }

  lemma WriteFront(dev: seq<byte>, a: CacheBlock, t: Span, p: seq<byte>)
    requires t.off + t.len == t.off + |p| <= |dev| && p != []
    ensures State(dev, [CacheBlock(t.off, dev[t.off..t.off + t.len]), a]).Step(Write(t, p))
         == State(Overwrite(dev, t.off, p), [CacheBlock(t.off, p), a])
  {
    var cache := [CacheBlock(t.off, dev[t.off..t.off + t.len]), a];
    assert cache[0].Range() == t && Holder(cache, t) == 0;
    assert Overwrite(cache[0].data, 0, p) == p;
    assert Patched(cache, 0, t.off, p) == [CacheBlock(t.off, p), a];
  }

  lemma SecondAnswers(st: State, b: CacheBlock, a: CacheBlock, s: Span)
    requires st.cache == [b, a] && !s.Inside(b.Range()) && a.Range() == s && s.off + s.len <= |st.dev|
    ensures st.Answer(s) == a.data
  {
    assert st.cache[1..] == [a];
    assert Holder([a], s) == 0;
    assert Holder(st.cache, s) == 1;
    assert a.data[0..][..s.len] == a.data;
  }

  /**
   Cached reads of a pattern of non-empty ranges on the device are exact in every run if and
   only if any two of the ranges are nested or disjoint.
   */
  lemma ReadsExactIff(pattern: set<Span>, n: nat)
    requires OnDevice(pattern, n)
    ensures ReadsExact(pattern, n) <==> Laminar(pattern)
  {
    if Laminar(pattern) {
      forall dev: seq<byte>, ops: seq<Op>, s: Span | |dev| == n && AllAllowed(ops, pattern, n) && s in pattern
        ensures ExactAfter(State(dev, []), ops, pattern, s)
      {
        hide CacheOk, Run, Laminar, AllAllowed, State.Answer;
        EmptyOk(dev, pattern);
        RunOk(State(dev, []), ops, pattern);
        AnswerExact(Run(State(dev, []), ops, pattern), pattern, s);
      }
    } else {
      var s, t :| s in pattern && t in pattern && s.Meets(t) && !s.Inside(t) && !t.Inside(s);
      NotExact(pattern, n, s, t);
    }
  }

  lemma EmptyOk(dev: seq<byte>, pattern: set<Span>)
    ensures CacheOk([], dev, pattern)
  {
  }

  lemma NotExact(pattern: set<Span>, n: nat, s: Span, t: Span)
    requires OnDevice(pattern, n) && s in pattern && t in pattern
    requires s.Meets(t) && !s.Inside(t) && !t.Inside(s)
    ensures !ReadsExact(pattern, n)
  {
    hide State.Step, State.Answer;
    var dev, p := Zeros(n), seq(t.len, _ => 1);
    var ops := [Read(s), Read(t), Write(t, p)];
    var x := if s.off < t.off then t.off else s.off;
    assert forall i | 0 <= i < |ops| :: Allowed(ops[i], pattern, n);
    OverlapGoesStale(dev, s, t, p, x);
    ThreeSteps(State(dev, []), ops, pattern);
    assert !ExactAfter(State(dev, []), ops, pattern, s);
  }

  lemma ThreeSteps(st: State, ops: seq<Op>, pattern: set<Span>)
    requires |ops| == 3 && AllAllowed(ops, pattern, |st.dev|)
    ensures && Allowed(ops[0], pattern, |st.dev|) && Allowed(ops[1], pattern, |st.dev|) && Allowed(ops[2], pattern, |st.dev|)
            && Run(st, ops, pattern) == st.Step(ops[0]).Step(ops[1]).Step(ops[2])
  {
    hide State.Step;
    assert ops[1..][1..] == [ops[2]] && ops[1..][0] == ops[1] && [ops[2]][1..] == [];
    StepLen(st, ops[0]);
    StepLen(st.Step(ops[0]), ops[1]);
    var b := st.Step(ops[0]).Step(ops[1]);
    assert Run(b, [ops[2]], pattern) == Run(b.Step(ops[2]), [], pattern);
  }

  lemma StepLen(st: State, op: Op)
    requires op.s.off + op.s.len <= |st.dev| && (op.Write? ==> |op.p| == op.s.len)
    ensures |st.Step(op).dev| == |st.dev|
  {
  }

  // ----- the device -----

  class SafeDevice {
    /** The ranges this device will be asked for; they never change. */
    ghost const pattern: set<Span>
    var inner: seq<byte>
    var logFile: seq<byte>
    var logPos: nat
    var cache: seq<CacheBlock>

    ghost predicate Valid()
      reads this
    {
      Laminar(pattern) && CacheOk(cache, inner, pattern)
    }

    ghost function Now(): State
      reads this
    {
      State(inner, cache)
    }

    constructor (dev: seq<byte>, log: seq<byte>, ghost pattern: set<Span>)
      ensures (Laminar(pattern) ==> Valid()) && Now() == State(dev, []) && this.pattern == pattern && logPos == 0 && logFile == log
    {
      this.pattern, this.inner := pattern, dev;
      this.logFile, this.logPos, this.cache := log, 0, [];
    }

    /**
     NewSafeDevice: replay what the log holds and clear it, start with an empty cache. A log
     without a whole entry is kept as it is. A pending entry outside the device makes the open
     fail; dev1 is the device left behind.
     */
    static method NewSafeDevice(dev: seq<byte>, file: seq<byte>, ghost pattern: set<Span>)
      returns (d: SafeDevice?, dev1: seq<byte>)
      ensures d != null <==> Replay(dev, Pending(file)).Some?
      ensures d != null ==>
        && fresh(d) && (Laminar(pattern) ==> d.Valid()) && d.pattern == pattern && d.cache == [] && Replay(dev, Pending(file)) == Some(d.inner)
        && d.logFile == Leftover(file) && d.logPos == 0 && Idle(d.logFile, d.logPos)
    {
      dev1 := dev;
      var entries := ReadPending(file);
      for i := 0 to |entries|
        invariant Replay(dev1, entries[i..]) == Replay(dev, Pending(file))
      {
        assert entries[i..][1..] == entries[i + 1..];
        if entries[i].offset < 0 || entries[i].offset + |entries[i].data| > |dev1| {
          return null, dev1;
        }
        dev1 := Overwrite(dev1, entries[i].offset, entries[i].data);
      }
      d := new SafeDevice(dev1, if |entries| > 0 then [] else file, pattern);
    }

    /** The parse loop of readPending. */
    static method ReadPending(data: seq<byte>) returns (entries: seq<Entry>)
      ensures entries == Pending(data)
    {
      hide Pending;
      entries := [];
      var pos := 0;
      assert data[0..] == data;
      while pos + HDR_SIZE <= |data|
        invariant pos <= |data|
        invariant entries + Pending(data[pos..]) == Pending(data)
      {
        PendingStep(data, pos);
        var off := ToInt64(Get64(data[pos..pos + 8]));
        var length := Get32(data[pos + 8..pos + 12]);
        pos := pos + HDR_SIZE;
        if pos + length > |data| {
          return;
        }
        var b := data[pos..pos + length];
        pos := pos + length;
        entries := entries + [Entry(off, b)];
      }
      NothingPending(data[pos..]);
    }

    static lemma PendingStep(data: seq<byte>, pos: nat)
      requires pos + HDR_SIZE <= |data|
      ensures var length, at := Get32(data[pos + 8..pos + 12]), pos + HDR_SIZE;
              Pending(data[pos..]) ==
              if at + length > |data| then []
              else [Entry(ToInt64(Get64(data[pos..pos + 8])), data[at..at + length])] + Pending(data[at + length..])
    {
      var rest, length := data[pos..], Get32(data[pos + 8..pos + 12]);
      assert rest[..8] == data[pos..pos + 8] && rest[8..12] == data[pos + 8..pos + 12];
      if pos + HDR_SIZE + length <= |data| {
        assert rest[HDR_SIZE..HDR_SIZE + length] == data[pos + HDR_SIZE..pos + HDR_SIZE + length];
        assert rest[HDR_SIZE + length..] == data[pos + HDR_SIZE + length..];
      }
    }

    static lemma NothingPending(rest: seq<byte>)
      requires |rest| < HDR_SIZE
      ensures Pending(rest) == []
    {
    }

    /** The range is one this device is asked for, and its cache is in order. */
    ghost predicate Fine(s: Span)
      reads this
    {
      Valid() && s in pattern
    }

    method LookupCache(off: nat, len: nat) returns (r: Option<seq<byte>>)
      ensures r == Lookup(cache, Span(off, len))
      ensures Fine(Span(off, len)) && r.Some? ==> off + len <= |inner| || len == 0
      ensures Fine(Span(off, len)) && r.Some? && off + len <= |inner| ==> r.value == inner[off..off + len]
    {
      r := None;
      for i := 0 to |cache|
        invariant FirstHoldingUpTo(i, Span(off, len))
      {
        var block := cache[i];
        if Span(off, len).Inside(block.Range()) {
          if Fine(Span(off, len)) {
            LookupIsFresh(cache, inner, pattern, i, Span(off, len));
          }
          return Some(block.data[off - block.offset..][..len]);
        }
      }
    }

    ghost predicate FirstHoldingUpTo(i: nat, s: Span)
      reads this
    {
      i <= |cache| && forall j | 0 <= j < i :: !s.Inside(cache[j].Range())
    }

    /** updateCache. dev is the device before it took p at off, or as it is if p was read there. */
    method UpdateCache(off: nat, p: seq<byte>, ghost dev: seq<byte>)
      requires off + |p| <= |dev| && inner == Overwrite(dev, off, p)
      modifies this`cache
      ensures cache == Updated(old(cache), off, p)
      ensures Laminar(pattern) && old(CacheOk(cache, dev, pattern)) && Span(off, |p|) in pattern ==> Valid()
    {
      hide CacheOk, Laminar, Patched, Pushed, Overwrite;
      if Laminar(pattern) && CacheOk(cache, dev, pattern) && Span(off, |p|) in pattern {
        UpdatedOk(cache, dev, pattern, off, p);
      }
      if |p| == 0 {
        return;
      }
      for i := 0 to |cache|
        invariant FirstHoldingUpTo(i, Span(off, |p|)) && cache == old(cache)
      {
        if Span(off, |p|).Inside(cache[i].Range()) {
          cache := Patched(cache, i, off, p);
          return;
        }
      }
      cache := Pushed(cache, off, p);
    }

    /**
     A read is one step of the run model and gives its answer: with the cache in order exactly the
     device's bytes, past the end cut short and not cached.
     */
    method ReadAt(off: nat, len: nat) returns (p: seq<byte>, eof: bool)
      modifies this`cache
      ensures off + len <= |inner| ==>
                !eof && p == old(Now().Answer(Span(off, len))) && Now() == old(Now()).Step(Read(Span(off, len)))
      ensures off + len > |inner| ==> cache == old(cache)
      ensures old(Fine(Span(off, len))) ==>
                && Valid()
                && (off + len <= |inner| ==> p == inner[off..off + len])
                && (off + len > |inner| && len > 0 ==> eof && p == if off <= |inner| then inner[off..] else [])
    {
      hide CacheOk, Laminar, Updated, Lookup, Overwrite;
      var r := LookupCache(off, len);
      if r.Some? {
        return r.value, false;
      }
      if off + len <= |inner| {
        p, eof := inner[off..off + len], false;
        OverwriteWithItself(inner, off, len);
        UpdateCache(off, p, inner);
      } else {
        p, eof := if off <= |inner| then inner[off..] else [], true;
      }
    }

    /**
     A write reaches the device whole, as one step of the run model; its before-image is logged and
     cut off again. With the cache in order the before-image is right.
     */
    method WriteAt(p: seq<byte>, off: nat) returns (n: nat, ghost before: seq<byte>)
      requires off + |p| <= |inner|
      modifies this
      ensures n == |p| && inner == Overwrite(old(inner), off, p)
      ensures Now() == old(Now()).Step(Write(Span(off, |p|), p))
      ensures p == [] ==> logFile == old(logFile) && logPos == old(logPos)
      ensures p != [] ==> before == old(Now().Answer(Span(off, |p|)))
                          && logFile == AfterWrite(old(logFile), old(logPos), EncodeEntry(off, before))
                          && logPos == old(logPos) + HDR_SIZE + |p|
      ensures old(Fine(Span(off, |p|))) ==> Valid() && before == old(inner)[off..off + |p|]
    {
      hide EncodeEntry, CacheOk, Laminar, Crashed, Loggable, FileWrite, Zeros, Overwrite, Updated, Lookup;
      before := [];
      if |p| == 0 {
        OverwriteNothing(inner, off);
        return 0, [];
      }
      var old_: seq<byte>;
      var r := LookupCache(off, |p|);
      if r.Some? {
        old_ := r.value;
      } else {
        old_ := inner[off..off + |p|];
        OverwriteWithItself(inner, off, |p|);
        UpdateCache(off, old_, inner);
      }
      before := old_;
      ghost var dev, file, pos := inner, logFile, logPos;
      ghost var right := before == dev[off..off + |p|] && Loggable(Entry(off, p));
      AppendEntry(off, old_);
      CrashBeforeDevice(dev, file, pos, off, p);
      assert right ==> Crashed(dev, file, pos, off, p, inner, logFile);
      inner := Overwrite(inner, off, p);
      CrashAfterDevice(dev, file, pos, off, p);
      assert right ==> Crashed(dev, file, pos, off, p, inner, logFile);
      UpdateCache(off, p, dev);
      RemoveLastEntry(|old_|);
      CrashAfterCut(dev, file, pos, off, p);
      assert right ==> Crashed(dev, file, pos, off, p, inner, logFile);
      n := |p|;
    }

    // The states WriteAt passes through are the ones Crashed lists.

    static lemma CrashBeforeDevice(dev: seq<byte>, file: seq<byte>, pos: nat, off: nat, p: seq<byte>)
      requires off + |p| <= |dev| && p != []
      ensures Loggable(Entry(off, p)) ==> Crashed(dev, file, pos, off, p, dev, FileWrite(file, pos, EncodeEntry(off, dev[off..off + |p|])))
    {
      hide EncodeEntry, FileWrite, Loggable;
      var entry := EncodeEntry(off, dev[off..off + |p|]);
      assert entry[..|entry|] == entry;
    }

    static lemma CrashAfterDevice(dev: seq<byte>, file: seq<byte>, pos: nat, off: nat, p: seq<byte>)
      requires off + |p| <= |dev| && p != []
      ensures Loggable(Entry(off, p)) ==> Crashed(dev, file, pos, off, p, Overwrite(dev, off, p), FileWrite(file, pos, EncodeEntry(off, dev[off..off + |p|])))
    {
      hide EncodeEntry, FileWrite, Loggable;
      assert TornWrite(dev, Overwrite(dev, off, p), off, |p|);
    }

    static lemma CrashAfterCut(dev: seq<byte>, file: seq<byte>, pos: nat, off: nat, p: seq<byte>)
      requires off + |p| <= |dev| && p != []
      ensures Loggable(Entry(off, p)) ==> Crashed(dev, file, pos, off, p, Overwrite(dev, off, p),
                      AfterWrite(file, pos, EncodeEntry(off, dev[off..off + |p|])))
    {
      hide EncodeEntry, FileWrite, Loggable;
    }

    /** appendEntry: header and data go to the file position, wherever the file ends. */
    method AppendEntry(off: nat, data: seq<byte>)
      modifies this`logFile, this`logPos
      ensures logFile == FileWrite(old(logFile), old(logPos), EncodeEntry(off, data))
      ensures logPos == old(logPos) + HDR_SIZE + |data|
    {
      logFile := FileWrite(logFile, logPos, EncodeEntry(off, data));
      logPos := logPos + HDR_SIZE + |data|;
    }

    /** removeLastEntry: the file is cut, its position stays. */
    method RemoveLastEntry(dataLen: nat)
      modifies this`logFile
      ensures logFile == CutOff(old(logFile), HDR_SIZE + dataLen)
    {
      var entrySize := HDR_SIZE + dataLen;
      var newSize := |logFile| - entrySize;
      if newSize < 0 {
        newSize := 0;
      }
      logFile := logFile[..newSize];
    }
  }
}
