/** HASH_JEN, the hash function of the table: its loop, its mixing step and its inverse. */
module Jenkins {
  import opened Bits
  import opened Seqs
  import opened Words

  /** The three words the hash works on: `_hj_i`, `_hj_j` and `hashv`. */
  datatype State = State(i: U32, j: U32, h: U32)

  // ----- the mixing step -----

  /** One line of HASH_JEN_MIX: two subtractions and an exclusive or. */
  function Step(x: U32, first: U32, second: U32, y: U32): U32 {
    Xor32(Sub32(Sub32(x, first), second), y)
  }

  function Unstep(r: U32, first: U32, second: U32, y: U32): U32 {
    Add32(Add32(Xor32(r, y), second), first)
  }

  lemma UnstepStep(x: U32, first: U32, second: U32, y: U32)
    ensures Unstep(Step(x, first, second, y), first, second, y) == x
  {
    AddSub(x, first);
    AddSub(Sub32(x, first), second);
    XorBack(Sub32(Sub32(x, first), second), y);
  }

  lemma StepUnstep(r: U32, first: U32, second: U32, y: U32)
    ensures Step(Unstep(r, first, second, y), first, second, y) == r
  {
    XorBack(r, y);
    AddSub(Xor32(r, y), second);
    AddSub(Add32(Xor32(r, y), second), first);
  }

  function MixI(s: State, k: nat): State {
    s.(i := Step(s.i, s.j, s.h, Shr32(s.h, k)))
  }

  function MixJ(s: State, k: nat): State {
    s.(j := Step(s.j, s.h, s.i, Shl32(s.i, k)))
  }

  function MixH(s: State, k: nat): State {
    s.(h := Step(s.h, s.i, s.j, Shr32(s.j, k)))
  }

  /** Three lines of the macro. */
  function Round(s: State, p: nat, q: nat, r: nat): State {
    MixH(MixJ(MixI(s, p), q), r)
  }

  function Unround(s: State, p: nat, q: nat, r: nat): State {
    var s2 := s.(h := Unstep(s.h, s.i, s.j, Shr32(s.j, r)));
    var s1 := s2.(j := Unstep(s2.j, s2.h, s2.i, Shl32(s2.i, q)));
    s1.(i := Unstep(s1.i, s1.j, s1.h, Shr32(s1.h, p)))
  }

  /** HASH_JEN_MIX as a function. */
  function Mix(s: State): State {
    Round(Round(Round(s, 13, 8, 13), 12, 16, 5), 3, 10, 15)
  }

  function Unmix(s: State): State {
    Unround(Unround(Unround(s, 3, 10, 15), 12, 16, 5), 13, 8, 13)
  }

  lemma UnroundRound(s: State, p: nat, q: nat, r: nat)
    ensures Unround(Round(s, p, q, r), p, q, r) == s
  {
    var s1 := MixI(s, p);
    var s2 := MixJ(s1, q);
    UnstepStep(s2.h, s2.i, s2.j, Shr32(s2.j, r));
    UnstepStep(s1.j, s1.h, s1.i, Shl32(s1.i, q));
    UnstepStep(s.i, s.j, s.h, Shr32(s.h, p));
  }

  lemma RoundUnround(s: State, p: nat, q: nat, r: nat)
    ensures Round(Unround(s, p, q, r), p, q, r) == s
  {
    var s2 := s.(h := Unstep(s.h, s.i, s.j, Shr32(s.j, r)));
    var s1 := s2.(j := Unstep(s2.j, s2.h, s2.i, Shl32(s2.i, q)));
    StepUnstep(s.h, s.i, s.j, Shr32(s.j, r));
    StepUnstep(s2.j, s2.h, s2.i, Shl32(s2.i, q));
    StepUnstep(s1.i, s1.j, s1.h, Shr32(s1.h, p));
  }

  /** The mixing step is a bijection on triples of words. */
  lemma MixBijective(s: State)
    ensures Unmix(Mix(s)) == s
    ensures Mix(Unmix(s)) == s
  {
    var s1 := Round(s, 13, 8, 13);
    var s2 := Round(s1, 12, 16, 5);
    UnroundRound(s2, 3, 10, 15);
    UnroundRound(s1, 12, 16, 5);
    UnroundRound(s, 13, 8, 13);
    var t1 := Unround(s, 3, 10, 15);
    var t2 := Unround(t1, 12, 16, 5);
    RoundUnround(t2, 13, 8, 13);
    RoundUnround(t1, 12, 16, 5);
    RoundUnround(s, 3, 10, 15);
  }

  lemma StepLine(x: U32, first: U32, second: U32, y: U32)
    ensures Step(x, first, second, y) == Xor((x - first - second) % 4294967296, y)
  {
    SubTwice(x, first, second);
  }

  /** The lines of a round as arithmetic on words. */
  lemma RoundLines(s: State, p: nat, q: nat, r: nat) returns (t: State)
    ensures t.i == Xor((s.i - s.j - s.h) % 4294967296, Shr32(s.h, p))
    ensures t.j == Xor((s.j - s.h - t.i) % 4294967296, Shl32(t.i, q))
    ensures t.h == Xor((s.h - t.i - t.j) % 4294967296, Shr32(t.j, r))
    ensures t == Round(s, p, q, r)
  {
    t := MixI(s, p);
    StepLine(s.i, s.j, s.h, Shr32(s.h, p));
    t := MixJ(t, q);
    StepLine(s.j, s.h, t.i, Shl32(t.i, q));
    t := MixH(t, r);
    StepLine(s.h, t.i, t.j, Shr32(t.j, r));
  }

  /** The nine lines of the macro with their shifts: 13, 8, 13, then 12, 16, 5, then 3, 10, 15. */
  lemma MixLines(s: State) returns (t: State, u: State, v: State)
    ensures t.i == Xor((s.i - s.j - s.h) % 4294967296, s.h / 8192)
    ensures t.j == Xor((s.j - s.h - t.i) % 4294967296, t.i * 256 % 4294967296)
    ensures t.h == Xor((s.h - t.i - t.j) % 4294967296, t.j / 8192)
    ensures u.i == Xor((t.i - t.j - t.h) % 4294967296, t.h / 4096)
    ensures u.j == Xor((t.j - t.h - u.i) % 4294967296, u.i * 65536 % 4294967296)
    ensures u.h == Xor((t.h - u.i - u.j) % 4294967296, u.j / 32)
    ensures v.i == Xor((u.i - u.j - u.h) % 4294967296, u.h / 8)
    ensures v.j == Xor((u.j - u.h - v.i) % 4294967296, v.i * 1024 % 4294967296)
    ensures v.h == Xor((u.h - v.i - v.j) % 4294967296, v.j / 32768)
    ensures v == Mix(s)
  {
    ShiftPowers();
    t := RoundLines(s, 13, 8, 13);
    Shifts(s.h, 13, t.i, 8, t.j, 13);
    u := RoundLines(t, 12, 16, 5);
    Shifts(t.h, 12, u.i, 16, u.j, 5);
    v := RoundLines(u, 3, 10, 15);
    Shifts(u.h, 3, v.i, 10, v.j, 15);
  }

  lemma Shifts(x: U32, p: nat, y: U32, q: nat, z: U32, r: nat)
    ensures Shr32(x, p) == x / Pow2(p) && Shl32(y, q) == y * Pow2(q) % WORD && Shr32(z, r) == z / Pow2(r)
  {
    ShrIsDiv(x, p);
    ShlIsTimes(y, q);
    ShrIsDiv(z, r);
  }

  lemma ShiftPowers()
    ensures Pow2(3) == 8 && Pow2(5) == 32 && Pow2(8) == 256 && Pow2(10) == 1024
    ensures Pow2(12) == 4096 && Pow2(13) == 8192 && Pow2(15) == 32768 && Pow2(16) == 65536
  {
    assert Pow2(8) == 256;
    assert Pow2(12) == 16 * Pow2(8);
    assert Pow2(16) == 16 * Pow2(12);
  }

  /** HASH_JEN_MIX. */
  method JenMix(a: U32, b: U32, c: U32) returns (i: U32, j: U32, h: U32)
    ensures State(i, j, h) == Mix(State(a, b, c))
  {
    i, j, h := a, b, c;
    i := Sub32(i, j); i := Sub32(i, h); i := Xor32(i, Shr32(h, 13));
    j := Sub32(j, h); j := Sub32(j, i); j := Xor32(j, Shl32(i, 8));
    h := Sub32(h, i); h := Sub32(h, j); h := Xor32(h, Shr32(j, 13));
    assert State(i, j, h) == Round(State(a, b, c), 13, 8, 13);
    i := Sub32(i, j); i := Sub32(i, h); i := Xor32(i, Shr32(h, 12));
    j := Sub32(j, h); j := Sub32(j, i); j := Xor32(j, Shl32(i, 16));
    h := Sub32(h, i); h := Sub32(h, j); h := Xor32(h, Shr32(j, 5));
    assert State(i, j, h) == Round(Round(State(a, b, c), 13, 8, 13), 12, 16, 5);
    i := Sub32(i, j); i := Sub32(i, h); i := Xor32(i, Shr32(h, 3));
    j := Sub32(j, h); j := Sub32(j, i); j := Xor32(j, Shl32(i, 10));
    h := Sub32(h, i); h := Sub32(h, j); h := Xor32(h, Shr32(j, 15));
  }

  // ----- absorbing the key -----

  /** The value of key byte `p`, or 0 behind the end of the key. */
  function ByteAt(key: seq<Byte>, p: nat): (v: nat)
    ensures v < 256
  {
    if p < |key| then Value(key[p]) else 0
  }

  /** Four bytes of the key from `p` on as a little-endian word. */
  function WordAt(key: seq<Byte>, p: nat): U32 {
    ByteAt(key, p) + 0x100 * ByteAt(key, p + 1) + 0x1_0000 * ByteAt(key, p + 2) + 0x100_0000 * ByteAt(key, p + 3)
  }

  /** The last three bytes, which leave the low byte of the word to the key length. */
  function HighBytesAt(key: seq<Byte>, p: nat): U32 {
    0x100 * ByteAt(key, p) + 0x1_0000 * ByteAt(key, p + 1) + 0x100_0000 * ByteAt(key, p + 2)
  }

  function Absorb(s: State, key: seq<Byte>, p: nat): State {
    State(Add32(s.i, WordAt(key, p)), Add32(s.j, WordAt(key, p + 4)), Add32(s.h, WordAt(key, p + 8)))
  }

  /** Adds the key length and the up to eleven bytes from `p` on. */
  function AbsorbTail(s: State, key: seq<Byte>, p: nat): State {
    State(Add32(s.i, WordAt(key, p)), Add32(s.j, WordAt(key, p + 4)), Add32(s.h, |key| + HighBytesAt(key, p + 8)))
  }

  const SEED := State(0x9e37_79b9, 0x9e37_79b9, 0xfeed_beef)

  /** The words after blocks `m` to `n - 1` of twelve bytes each, starting from `s`, with
      `mix` as the mixing step. */
  function Blocks(s: State, key: seq<Byte>, m: nat, n: nat, mix: State -> State): State
    requires m <= n
    decreases n - m
  {
    if m == n then s else Blocks(mix(Absorb(s, key, 12 * m)), key, m + 1, n, mix)
  }

  /** The words at the end, with `mix` as the mixing step. */
  function Finish(key: seq<Byte>, mix: State -> State): State {
    var n := |key| / 12;
    mix(AbsorbTail(Blocks(SEED, key, 0, n, mix), key, 12 * n))
  }

  function FinalState(key: seq<Byte>): State {
    Finish(key, Mix)
  }

  /** The hash value of a key. */
  function HashValue(key: seq<Byte>): U32 {
    FinalState(key).h
  }

  lemma Add32Twice(a: U32, x: nat, y: nat)
    ensures Add32(Add32(a, x), y) == Add32(a, x + y)
  {
  }

  // ----- reading the key -----

  /** Reads one byte of the key; `trace` lists the positions read so far. */
  method ReadByte(key: seq<Byte>, p: nat, ghost trace: seq<nat>) returns (v: nat, ghost trace': seq<nat>)
    requires p < |key|
    ensures v == Value(key[p]) && trace' == trace + [p]
  {
    v := Value(key[p]);
    trace' := trace + [p];
  }

  /** The positions `0` to `n - 1`. */
  function Upward(n: nat): seq<nat> {
    if n == 0 then [] else Upward(n - 1) + [n - 1]
  }

  /** The positions `p + hi - 1` down to `p + lo`. */
  function Downward(p: nat, lo: nat, hi: nat): seq<nat>
    decreases hi
  {
    if hi <= lo then [] else [p + hi - 1] + Downward(p, lo, hi - 1)
  }

  /** Every position below `n` is listed exactly once, and no other one. */
  ghost predicate EachOnce(trace: seq<nat>, n: nat) {
    forall q: nat {:trigger multiset(trace)[q]} :: multiset(trace)[q] == if q < n then 1 else 0
  }

  lemma {:induction false} UpwardOnce(n: nat, q: nat)
    ensures multiset(Upward(n))[q] == if q < n then 1 else 0
  {
    if n > 0 {
      UpwardOnce(n - 1, q);
    }
  }

  lemma {:induction false} DownwardOnce(p: nat, hi: nat, q: nat, trace: seq<nat>)
    requires trace == Downward(p, 0, hi)
    ensures multiset(trace)[q] == if p <= q < p + hi then 1 else 0
  {
    if hi > 0 {
      var rest := Downward(p, 0, hi - 1);
      assert trace == [p + hi - 1] + rest;
      DownwardOnce(p, hi - 1, q, rest);
      OneMoreRead(p + hi - 1, rest, q);
    }
  }

  lemma OneMoreRead(p: nat, trace: seq<nat>, q: nat)
    ensures multiset([p] + trace)[q] == multiset(trace)[q] + if p == q then 1 else 0
  {
  }

  /** Reading up to `p` and then the last `k` bytes backwards reads each byte once. */
  lemma BothOnce(p: nat, k: nat)
    ensures EachOnce(Upward(p) + Downward(p, 0, k), p + k)
  {
    forall q: nat
      ensures multiset(Upward(p) + Downward(p, 0, k))[q] == if q < p + k then 1 else 0
    {
      UpwardOnce(p, q);
      DownwardOnce(p, k, q, Downward(p, 0, k));
    }
  }

  lemma {:induction false} DownwardSplit(p: nat, lo: nat, mid: nat, hi: nat)
    requires lo <= mid <= hi
    ensures Downward(p, mid, hi) + Downward(p, lo, mid) == Downward(p, lo, hi)
    decreases hi
  {
    if mid < hi {
      DownwardSplit(p, lo, mid, hi - 1);
    }
  }

  lemma {:induction false} DownwardShift(p: nat, d: nat, hi: nat)
    ensures Downward(p + d, 0, hi) == Downward(p, d, d + hi)
  {
    if hi > 0 {
      DownwardShift(p, d, hi - 1);
    }
  }

  /** The fall-through switch of the macro: adds the bytes behind position `p`, last one first. */
  method JenTail(i0: U32, j0: U32, h0: U32, key: seq<Byte>, p: nat, k: nat, ghost trace: seq<nat>)
    returns (i: U32, j: U32, h: U32, ghost trace': seq<nat>)
    requires p + k == |key| && k < 12
    ensures State(i, j, h) == AbsorbTail(State(i0, j0, h0), key, p)
    ensures trace' == trace + Downward(p, 0, k)
  {
    h, trace' := JenTailHigh(Add32(h0, |key|), key, p, k, trace);
    Add32Twice(h0, |key|, HighBytesAt(key, p + 8));
    j, trace' := JenTailWord(j0, key, p + 4, if k > 4 then k - 4 else 0, trace');
    i, trace' := JenTailWord(i0, key, p, k, trace');
    TailTrace(p, k, trace);
  }

  /** The three parts of the switch go on where the one before stopped. */
  lemma TailTrace(p: nat, k: nat, trace: seq<nat>)
    requires k < 12
    ensures trace + Downward(p, 8, k) + Downward(p + 4, 0, Min(if k > 4 then k - 4 else 0, 4))
            + Downward(p, 0, Min(k, 4)) == trace + Downward(p, 0, k)
  {
    var mid := Min(if k > 4 then k - 4 else 0, 4);
    var high, middle, low := Downward(p, 8, k), Downward(p + 4, 0, mid), Downward(p, 0, Min(k, 4));
    assert high + (middle + low) == Downward(p, 0, k) by {
      DownwardShift(p, 4, mid);
      TailPieces(p, k, mid);
    }
    InFront(trace, high, middle, low, Downward(p, 0, k));
  }

  lemma InFront(s: seq<nat>, a: seq<nat>, b: seq<nat>, c: seq<nat>, all: seq<nat>)
    requires a + (b + c) == all
    ensures s + a + b + c == s + all
  {
    assert s + a + b + c == s + (a + (b + c));
  }

  lemma TailPieces(p: nat, k: nat, mid: nat)
    requires k < 12 && mid == Min(if k > 4 then k - 4 else 0, 4)
    ensures Downward(p, 8, k) + (Downward(p, 4, 4 + mid) + Downward(p, 0, Min(k, 4))) == Downward(p, 0, k)
  {
    if k > 4 {
      DownwardSplit(p, 0, 4, 4 + mid);
    }
    if k > 8 {
      DownwardSplit(p, 0, 8, k);
    }
  }

  /** Adds byte `q`, times `factor`, to a word that already holds `w0 + sum`. */
  method AddIn(w0: U32, w: U32, key: seq<Byte>, q: nat, factor: nat, ghost sum: nat, ghost trace: seq<nat>)
    returns (w': U32, ghost sum': nat, ghost trace': seq<nat>)
    requires w == Add32(w0, sum) && q < |key|
    ensures sum' == sum + factor * Value(key[q]) && w' == Add32(w0, sum')
    ensures trace' == trace + [q]
  {
    var v;
    v, trace' := ReadByte(key, q, trace);
    Add32Twice(w0, sum, factor * v);
    w' := Add32(w, factor * v);
    sum' := sum + factor * v;
  }

  /** Cases 11 to 9. */
  method JenTailHigh(h0: U32, key: seq<Byte>, p: nat, k: nat, ghost trace: seq<nat>)
    returns (h: U32, ghost trace': seq<nat>)
    requires p + k == |key| && k < 12
    ensures h == Add32(h0, HighBytesAt(key, p + 8)) && trace' == trace + Downward(p, 8, k)
  {
    h, trace' := h0, trace;
    ghost var sum := 0;
    if k >= 11 {
      h, sum, trace' := AddIn(h0, h, key, p + 10, 0x100_0000, sum, trace');
    }
    if k >= 10 {
      h, sum, trace' := AddIn(h0, h, key, p + 9, 0x1_0000, sum, trace');
    }
    if k >= 9 {
      h, sum, trace' := AddIn(h0, h, key, p + 8, 0x100, sum, trace');
    }
    assert sum == HighBytesAt(key, p + 8);
    DownwardThree(p, k);
  }

  lemma DownwardThree(p: nat, k: nat)
    requires k < 12
    ensures Downward(p, 8, k) == (if k >= 11 then [p + 10] else []) + (if k >= 10 then [p + 9] else [])
                                 + (if k >= 9 then [p + 8] else [])
  {
  }

  /** Cases 8 to 5, and 4 to 1: up to four bytes from `p` on. */
  method JenTailWord(w0: U32, key: seq<Byte>, p: nat, k: nat, ghost trace: seq<nat>)
    returns (w: U32, ghost trace': seq<nat>)
    requires k > 0 ==> p + k == |key|
    requires k == 0 ==> p >= |key|
    ensures w == Add32(w0, WordAt(key, p)) && trace' == trace + Downward(p, 0, Min(k, 4))
  {
    w, trace' := w0, trace;
    ghost var sum := 0;
    if k >= 4 {
      w, sum, trace' := AddIn(w0, w, key, p + 3, 0x100_0000, sum, trace');
    }
    if k >= 3 {
      w, sum, trace' := AddIn(w0, w, key, p + 2, 0x1_0000, sum, trace');
    }
    if k >= 2 {
      w, sum, trace' := AddIn(w0, w, key, p + 1, 0x100, sum, trace');
    }
    if k >= 1 {
      w, sum, trace' := AddIn(w0, w, key, p, 1, sum, trace');
    }
    assert sum == WordAt(key, p);
    DownwardFour(trace, p, Min(k, 4));
  }

  lemma DownwardFour(trace: seq<nat>, p: nat, k: nat)
    requires k <= 4
    ensures k == 0 ==> trace + Downward(p, 0, k) == trace
    ensures k == 1 ==> trace + Downward(p, 0, k) == trace + [p]
    ensures k == 2 ==> trace + Downward(p, 0, k) == trace + [p + 1] + [p]
    ensures k == 3 ==> trace + Downward(p, 0, k) == trace + [p + 2] + [p + 1] + [p]
    ensures k == 4 ==> trace + Downward(p, 0, k) == trace + [p + 3] + [p + 2] + [p + 1] + [p]
  {
  }

  /** Four bytes from `p` on, as one word. */
  method ReadWord(key: seq<Byte>, p: nat, ghost trace: seq<nat>) returns (w: U32, ghost trace': seq<nat>)
    requires p + 4 <= |key|
    ensures w == WordAt(key, p) && trace' == trace + [p, p + 1, p + 2, p + 3]
  {
    var a, b, c, d;
    a, trace' := ReadByte(key, p, trace);
    b, trace' := ReadByte(key, p + 1, trace');
    c, trace' := ReadByte(key, p + 2, trace');
    d, trace' := ReadByte(key, p + 3, trace');
    w := a + 0x100 * b + 0x1_0000 * c + 0x100_0000 * d;
  }

  /** The twelve reads of the block loop. */
  method JenBlock(i0: U32, j0: U32, h0: U32, key: seq<Byte>, p: nat, ghost trace: seq<nat>)
    returns (i: U32, j: U32, h: U32, ghost trace': seq<nat>)
    requires p + 12 <= |key| && trace == Upward(p)
    ensures State(i, j, h) == Absorb(State(i0, j0, h0), key, p)
    ensures trace' == Upward(p + 12)
  {
    var w;
    w, trace' := ReadWord(key, p, trace);
    i := Add32(i0, w);
    UpwardFour(p);
    w, trace' := ReadWord(key, p + 4, trace');
    j := Add32(j0, w);
    UpwardFour(p + 4);
    w, trace' := ReadWord(key, p + 8, trace');
    h := Add32(h0, w);
    UpwardFour(p + 8);
  }

  lemma UpwardFour(p: nat)
    ensures Upward(p + 4) == Upward(p) + [p, p + 1, p + 2, p + 3]
  {
    assert Upward(p + 2) == Upward(p) + [p, p + 1];
    assert Upward(p + 4) == Upward(p + 2) + [p + 2, p + 3];
  }

  /** The state of the block loop at the start of block `m` out of `n`: position `p`, with `k`
      bytes to go, and the bytes before it read once each. */
  ghost predicate Hashing(s: State, key: seq<Byte>, p: nat, k: nat, m: nat, n: nat, trace: seq<nat>) {
    && p == 12 * m && p + k == |key| && 12 * n <= |key| < 12 * n + 12 && m <= n
    && trace == Upward(p)
    && Blocks(s, key, m, n, Mix) == Blocks(SEED, key, 0, n, Mix)
  }

  lemma StartHashing(key: seq<Byte>, n: nat)
    requires n == |key| / 12
    ensures Hashing(SEED, key, 0, |key|, 0, n, [])
  {
  }

  /** The body of the block loop. */
  method JenRound(i0: U32, j0: U32, h0: U32, key: seq<Byte>, p: nat, ghost k: nat, ghost m: nat, ghost n: nat,
                  ghost trace: seq<nat>)
    returns (i: U32, j: U32, h: U32, ghost trace': seq<nat>)
    requires Hashing(State(i0, j0, h0), key, p, k, m, n, trace) && k >= 12
    ensures Hashing(State(i, j, h), key, p + 12, k - 12, m + 1, n, trace')
  {
    i, j, h, trace' := JenBlock(i0, j0, h0, key, p, trace);
    i, j, h := JenMix(i, j, h);
    BlocksNext(State(i0, j0, h0), State(i, j, h), key, m, n);
  }

  lemma BlocksNext(s: State, s': State, key: seq<Byte>, m: nat, n: nat)
    requires m < n && s' == Mix(Absorb(s, key, 12 * m))
    ensures Blocks(s', key, m + 1, n, Mix) == Blocks(s, key, m, n, Mix)
  {
  }

  /** The part behind the block loop. */
  method JenFinish(i0: U32, j0: U32, h0: U32, key: seq<Byte>, p: nat, k: nat, ghost m: nat, ghost n: nat,
                   ghost trace: seq<nat>)
    returns (i: U32, j: U32, h: U32, ghost trace': seq<nat>)
    requires Hashing(State(i0, j0, h0), key, p, k, m, n, trace) && k < 12
    ensures State(i, j, h) == FinalState(key) && EachOnce(trace', |key|)
  {
    i, j, h, trace' := JenTail(i0, j0, h0, key, p, k, trace);
    i, j, h := JenMix(i, j, h);
    FinalStep(State(i0, j0, h0), State(i, j, h), key, p, n);
    BothOnce(p, k);
  }

  lemma FinalStep(s: State, s': State, key: seq<Byte>, p: nat, n: nat)
    requires n == |key| / 12 && p == 12 * n
    requires Blocks(s, key, n, n, Mix) == Blocks(SEED, key, 0, n, Mix) && s' == Mix(AbsorbTail(s, key, p))
    ensures s' == FinalState(key)
  {
  }

  /** HASH_JEN, with its two further words and the positions of the bytes it reads. */
  method HashJen(key: seq<Byte>) returns (hashv: U32, i: U32, j: U32, ghost trace: seq<nat>)
    ensures State(i, j, hashv) == FinalState(key) && hashv == HashValue(key)
    ensures EachOnce(trace, |key|)
  {
    var k: nat, p: nat := |key|, 0;
    i, j, hashv := 0x9e37_79b9, 0x9e37_79b9, 0xfeed_beef;
    ghost var m: nat, n: nat := 0, |key| / 12;
    trace := [];
    StartHashing(key, n);
    while k >= 12
      invariant Hashing(State(i, j, hashv), key, p, k, m, n, trace)
    {
      i, j, hashv, trace := JenRound(i, j, hashv, key, p, k, m, n, trace);
      p := p + 12;
      k := k - 12;
      m := m + 1;
    }
    i, j, hashv, trace := JenFinish(i, j, hashv, key, p, k, m, n, trace);
  }

  // ----- keys that differ in one block -----

  lemma Digits(a: nat, b: nat, c: nat, d: nat, a': nat, b': nat, c': nat, d': nat)
    requires a < 256 && b < 256 && c < 256 && d < 256 && a' < 256 && b' < 256 && c' < 256 && d' < 256
    requires a + 0x100 * b + 0x1_0000 * c + 0x100_0000 * d == a' + 0x100 * b' + 0x1_0000 * c' + 0x100_0000 * d'
    ensures a == a' && b == b' && c == c' && d == d'
  {
    LowDigit(a, b + 0x100 * c + 0x1_0000 * d, a', b' + 0x100 * c' + 0x1_0000 * d');
    LowDigit(b, c + 0x100 * d, b', c' + 0x100 * d');
    LowDigit(c, d, c', d');
  }

  lemma LowDigit(a: nat, x: nat, a': nat, x': nat)
    requires a < 256 && a' < 256 && a + 256 * x == a' + 256 * x'
    ensures a == a' && x == x'
  {
  }

  lemma Add32Injective(a: U32, x: nat, y: nat, n: nat)
    requires x < WORD && y < WORD
    ensures Add32(a, n + x) == Add32(a, n + y) ==> x == y
  {
  }

  lemma Add32SameWord(a: U32, b: U32, n: nat)
    ensures Add32(a, n) == Add32(b, n) ==> a == b
  {
  }

  /** The two keys have the same bytes on `[lo..hi)`. */
  ghost predicate Agree(k1: seq<Byte>, k2: seq<Byte>, lo: nat, hi: nat) {
    |k1| == |k2| && forall p {:trigger k1[p]} {:trigger k2[p]} :: lo <= p < hi && p < |k1| ==> k1[p] == k2[p]
  }

  lemma WordsAgree(k1: seq<Byte>, k2: seq<Byte>, p: nat)
    requires Agree(k1, k2, p, p + 4)
    ensures WordAt(k1, p) == WordAt(k2, p)
  {
  }

  lemma WordDetermines(k1: seq<Byte>, k2: seq<Byte>, p: nat)
    requires |k1| == |k2| && WordAt(k1, p) == WordAt(k2, p)
    ensures Agree(k1, k2, p, p + 4)
  {
    Digits(ByteAt(k1, p), ByteAt(k1, p + 1), ByteAt(k1, p + 2), ByteAt(k1, p + 3),
           ByteAt(k2, p), ByteAt(k2, p + 1), ByteAt(k2, p + 2), ByteAt(k2, p + 3));
    forall q {:trigger k1[q]} {:trigger k2[q]} | p <= q < p + 4 && q < |k1|
      ensures k1[q] == k2[q]
    {
      assert ByteAt(k1, q) == ByteAt(k2, q);
      ValueInjective(k1[q], k2[q]);
    }
  }

  lemma HighBytesDetermine(k1: seq<Byte>, k2: seq<Byte>, p: nat)
    requires |k1| == |k2| && HighBytesAt(k1, p) == HighBytesAt(k2, p)
    ensures Agree(k1, k2, p, p + 3)
  {
    Digits(0, ByteAt(k1, p), ByteAt(k1, p + 1), ByteAt(k1, p + 2),
           0, ByteAt(k2, p), ByteAt(k2, p + 1), ByteAt(k2, p + 2));
    forall q {:trigger k1[q]} {:trigger k2[q]} | p <= q < p + 3 && q < |k1|
      ensures k1[q] == k2[q]
    {
      assert ByteAt(k1, q) == ByteAt(k2, q);
      ValueInjective(k1[q], k2[q]);
    }
  }

  /** Absorbing the same bytes keeps different states different; absorbing different bytes
      makes equal states different. */
  lemma AbsorbInjective(s1: State, s2: State, k1: seq<Byte>, k2: seq<Byte>, p: nat)
    requires |k1| == |k2| && Absorb(s1, k1, p) == Absorb(s2, k2, p)
    ensures Agree(k1, k2, p, p + 12) ==> s1 == s2
    ensures s1 == s2 ==> Agree(k1, k2, p, p + 12)
  {
    var a1, b1, c1 := WordAt(k1, p), WordAt(k1, p + 4), WordAt(k1, p + 8);
    var a2, b2, c2 := WordAt(k2, p), WordAt(k2, p + 4), WordAt(k2, p + 8);
    if Agree(k1, k2, p, p + 12) {
      WordsAgree(k1, k2, p);
      WordsAgree(k1, k2, p + 4);
      WordsAgree(k1, k2, p + 8);
    }
    WordsCancel(s1, s2, a1, b1, c1, a2, b2, c2);
    if s1 == s2 {
      WordDetermines(k1, k2, p);
      WordDetermines(k1, k2, p + 4);
      WordDetermines(k1, k2, p + 8);
    }
  }

  /** The states are equal exactly when the words added to them are. */
  lemma WordsCancel(s1: State, s2: State, a1: U32, b1: U32, c1: U32, a2: U32, b2: U32, c2: U32)
    requires Add32(s1.i, a1) == Add32(s2.i, a2) && Add32(s1.j, b1) == Add32(s2.j, b2)
    requires Add32(s1.h, c1) == Add32(s2.h, c2)
    ensures s1 == s2 <==> a1 == a2 && b1 == b2 && c1 == c2
  {
    WordsCancelBehind(s1, s2, a1, b1, c1, a2, b2, c2, 0);
  }

  lemma WordsCancelBehind(s1: State, s2: State, a1: U32, b1: U32, c1: U32, a2: U32, b2: U32, c2: U32, n: nat)
    requires Add32(s1.i, a1) == Add32(s2.i, a2) && Add32(s1.j, b1) == Add32(s2.j, b2)
    requires Add32(s1.h, n + c1) == Add32(s2.h, n + c2)
    ensures s1 == s2 <==> a1 == a2 && b1 == b2 && c1 == c2
  {
    WordCancels(s1.i, s2.i, a1, a2, 0);
    WordCancels(s1.j, s2.j, b1, b2, 0);
    WordCancels(s1.h, s2.h, c1, c2, n);
  }

  lemma WordCancels(w1: U32, w2: U32, a1: U32, a2: U32, n: nat)
    requires Add32(w1, n + a1) == Add32(w2, n + a2)
    ensures w1 == w2 <==> a1 == a2
  {
    if a1 == a2 {
      Add32SameWord(w1, w2, n + a1);
    }
    if w1 == w2 {
      Add32Injective(w1, a1, a2, n);
    }
  }

  lemma AbsorbTailInjective(s1: State, s2: State, k1: seq<Byte>, k2: seq<Byte>, p: nat)
    requires |k1| == |k2| < p + 12 && AbsorbTail(s1, k1, p) == AbsorbTail(s2, k2, p)
    ensures Agree(k1, k2, p, p + 12) ==> s1 == s2
    ensures s1 == s2 ==> Agree(k1, k2, p, p + 12)
  {
    var a1, b1, c1 := WordAt(k1, p), WordAt(k1, p + 4), HighBytesAt(k1, p + 8);
    var a2, b2, c2 := WordAt(k2, p), WordAt(k2, p + 4), HighBytesAt(k2, p + 8);
    if Agree(k1, k2, p, p + 12) {
      WordsAgree(k1, k2, p);
      WordsAgree(k1, k2, p + 4);
      HighBytesAgree(k1, k2, p + 8);
    }
    WordsCancelBehind(s1, s2, a1, b1, c1, a2, b2, c2, |k1|);
    if s1 == s2 {
      TailDetermined(k1, k2, p);
    }
  }

  lemma HighBytesAgree(k1: seq<Byte>, k2: seq<Byte>, p: nat)
    requires Agree(k1, k2, p, p + 3)
    ensures HighBytesAt(k1, p) == HighBytesAt(k2, p)
  {
  }

  lemma TailDetermined(k1: seq<Byte>, k2: seq<Byte>, p: nat)
    requires |k1| == |k2| < p + 12
    requires WordAt(k1, p) == WordAt(k2, p) && WordAt(k1, p + 4) == WordAt(k2, p + 4)
    requires HighBytesAt(k1, p + 8) == HighBytesAt(k2, p + 8)
    ensures Agree(k1, k2, p, p + 12)
  {
    WordDetermines(k1, k2, p);
    WordDetermines(k1, k2, p + 4);
    HighBytesDetermine(k1, k2, p + 8);
  }

  ghost predicate Injective(mix: State -> State) {
    forall s, t {:trigger mix(s), mix(t)} :: s != t ==> mix(s) != mix(t)
  }

  lemma MixInjective()
    ensures Injective(Mix)
  {
    forall s, t | s != t
      ensures Mix(s) != Mix(t)
    {
      MixSeparates(s, t);
    }
  }

  /** Different states stay different over the same bytes; equal ones become different over
      different bytes. */
  lemma DifferentAfter(s: State, t: State, k1: seq<Byte>, k2: seq<Byte>, p: nat)
    requires |k1| == |k2| && (s == t <==> !Agree(k1, k2, p, p + 12))
    ensures Absorb(s, k1, p) != Absorb(t, k2, p)
    ensures |k1| < p + 12 ==> AbsorbTail(s, k1, p) != AbsorbTail(t, k2, p)
  {
    if Absorb(s, k1, p) == Absorb(t, k2, p) {
      AbsorbInjective(s, t, k1, k2, p);
    }
    if |k1| < p + 12 && AbsorbTail(s, k1, p) == AbsorbTail(t, k2, p) {
      AbsorbTailInjective(s, t, k1, k2, p);
    }
  }

  lemma StepDifferent(s: State, t: State, k1: seq<Byte>, k2: seq<Byte>, p: nat, mix: State -> State)
    requires |k1| == |k2| && Injective(mix) && (s == t <==> !Agree(k1, k2, p, p + 12))
    ensures mix(Absorb(s, k1, p)) != mix(Absorb(t, k2, p))
  {
    DifferentAfter(s, t, k1, k2, p);
  }

  lemma AgreeWithin(k1: seq<Byte>, k2: seq<Byte>, lo: nat, hi: nat, lo': nat, hi': nat)
    requires Agree(k1, k2, lo, hi) && lo <= lo' && (hi' <= hi || |k1| <= hi)
    ensures Agree(k1, k2, lo', hi')
  {
  }

  lemma StepStaysDifferent(s: State, t: State, k1: seq<Byte>, k2: seq<Byte>, p: nat, mix: State -> State)
    requires Injective(mix) && Agree(k1, k2, p, p + 12) && s != t
    ensures mix(Absorb(s, k1, p)) != mix(Absorb(t, k2, p))
  {
    StepDifferent(s, t, k1, k2, p, mix);
  }

  lemma SameAfter(s: State, k1: seq<Byte>, k2: seq<Byte>, p: nat)
    requires Agree(k1, k2, p, p + 12)
    ensures Absorb(s, k1, p) == Absorb(s, k2, p)
  {
    WordsAgree(k1, k2, p);
    WordsAgree(k1, k2, p + 4);
    WordsAgree(k1, k2, p + 8);
  }

  /** Blocks that agree leave equal states equal. */
  lemma {:induction false} BlocksSame(s: State, k1: seq<Byte>, k2: seq<Byte>, m: nat, n: nat, mix: State -> State)
    requires m <= n && Agree(k1, k2, 12 * m, 12 * n)
    ensures Blocks(s, k1, m, n, mix) == Blocks(s, k2, m, n, mix)
    decreases n - m
  {
    if m < n {
      AgreeWithin(k1, k2, 12 * m, 12 * n, 12 * m, 12 * m + 12);
      SameAfter(s, k1, k2, 12 * m);
      BlocksSame(mix(Absorb(s, k1, 12 * m)), k1, k2, m + 1, n, mix);
    }
  }

  /** Blocks that agree leave different states different. */
  lemma {:induction false} BlocksStayDifferent(s: State, t: State, k1: seq<Byte>, k2: seq<Byte>, m: nat, n: nat,
                                               mix: State -> State)
    requires m <= n && Agree(k1, k2, 12 * m, 12 * n) && Injective(mix) && s != t
    ensures Blocks(s, k1, m, n, mix) != Blocks(t, k2, m, n, mix)
    decreases n - m
  {
    if m < n {
      AgreeWithin(k1, k2, 12 * m, 12 * n, 12 * m, 12 * m + 12);
      StepStaysDifferent(s, t, k1, k2, 12 * m, mix);
      BlocksStayDifferent(mix(Absorb(s, k1, 12 * m)), mix(Absorb(t, k2, 12 * m)), k1, k2, m + 1, n, mix);
    }
  }

  /** Running up to block `b` first, and then on from there. */
  lemma {:induction false} BlocksSplit(s: State, key: seq<Byte>, m: nat, b: nat, n: nat, mix: State -> State)
    requires m <= b <= n
    ensures Blocks(s, key, m, n, mix) == Blocks(Blocks(s, key, m, b, mix), key, b, n, mix)
    decreases b - m
  {
    if m < b {
      BlocksSplit(mix(Absorb(s, key, 12 * m)), key, m + 1, b, n, mix);
    }
  }

  /** The first block in which the keys differ makes equal states different. */
  lemma BlockSeparates(s: State, k1: seq<Byte>, k2: seq<Byte>, b: nat, n: nat, mix: State -> State)
    requires b < n && |k1| == |k2| && 12 * n <= |k1| && Injective(mix)
    requires !Agree(k1, k2, 12 * b, 12 * b + 12) && Agree(k1, k2, 12 * b + 12, |k1|)
    ensures Blocks(s, k1, b, n, mix) != Blocks(s, k2, b, n, mix)
  {
    var s1, s2 := mix(Absorb(s, k1, 12 * b)), mix(Absorb(s, k2, 12 * b));
    assert s1 != s2 by {
      StepDifferent(s, s, k1, k2, 12 * b, mix);
    }
    assert Blocks(s1, k1, b + 1, n, mix) != Blocks(s2, k2, b + 1, n, mix) by {
      RestSeparates(s1, s2, k1, k2, b + 1, n, mix);
    }
  }

  lemma RestSeparates(s: State, t: State, k1: seq<Byte>, k2: seq<Byte>, m: nat, n: nat, mix: State -> State)
    requires m <= n && 12 * n <= |k1| && Injective(mix) && s != t && Agree(k1, k2, 12 * m, |k1|)
    ensures Blocks(s, k1, m, n, mix) != Blocks(t, k2, m, n, mix)
  {
    AgreeWithin(k1, k2, 12 * m, |k1|, 12 * m, 12 * n);
    BlocksStayDifferent(s, t, k1, k2, m, n, mix);
  }

  lemma DifferAt(k1: seq<Byte>, k2: seq<Byte>) returns (q: nat)
    requires |k1| == |k2| && k1 != k2
    ensures q < |k1| && k1[q] != k2[q]
  {
    q :| q < |k1| && k1[q] != k2[q];
  }

  /** For any injective mixing step, the states before the last one differ. */
  lemma SeparatedBefore(k1: seq<Byte>, k2: seq<Byte>, b: nat, n: nat, mix: State -> State)
    requires |k1| == |k2| && k1 != k2 && Injective(mix) && n == |k1| / 12
    requires Agree(k1, k2, 0, 12 * b) && Agree(k1, k2, 12 * b + 12, |k1|)
    ensures AbsorbTail(Blocks(SEED, k1, 0, n, mix), k1, 12 * n)
            != AbsorbTail(Blocks(SEED, k2, 0, n, mix), k2, 12 * n)
  {
    var q := DifferAt(k1, k2);
    assert 12 * b <= q < 12 * b + 12;
    assert !Agree(k1, k2, 12 * b, 12 * b + 12);
    BlocksSame(SEED, k1, k2, 0, b, mix);
    if b < n {
      var s := Blocks(SEED, k1, 0, b, mix);
      BlocksSplit(SEED, k1, 0, b, n, mix);
      BlocksSplit(SEED, k2, 0, b, n, mix);
      BlockSeparates(s, k1, k2, b, n, mix);
      AgreeWithin(k1, k2, 12 * b + 12, |k1|, 12 * n, 12 * n + 12);
      TailSeparates(Blocks(SEED, k1, 0, n, mix), Blocks(SEED, k2, 0, n, mix), k1, k2, 12 * n, true);
    } else {
      assert b == n;
      TailSeparates(Blocks(SEED, k1, 0, n, mix), Blocks(SEED, k2, 0, n, mix), k1, k2, 12 * n, false);
    }
  }

  lemma TailSeparates(s: State, t: State, k1: seq<Byte>, k2: seq<Byte>, p: nat, agree: bool)
    requires |k1| == |k2| < p + 12 && Agree(k1, k2, p, p + 12) == agree && (s != t) == agree
    ensures AbsorbTail(s, k1, p) != AbsorbTail(t, k2, p)
  {
    DifferentAfter(s, t, k1, k2, p);
  }

  /** Keys of equal length that differ only inside block `b` (the last one may be the
      incomplete tail) leave the hash in different states. */
  lemma OneBlockSeparates(k1: seq<Byte>, k2: seq<Byte>, b: nat)
    requires |k1| == |k2| && k1 != k2
    requires Agree(k1, k2, 0, 12 * b) && Agree(k1, k2, 12 * b + 12, |k1|)
    ensures FinalState(k1) != FinalState(k2)
  {
    var n := |k1| / 12;
    MixInjective();
    SeparatedBefore(k1, k2, b, n, Mix);
    MixSeparates(AbsorbTail(Blocks(SEED, k1, 0, n, Mix), k1, 12 * n),
                 AbsorbTail(Blocks(SEED, k2, 0, n, Mix), k2, 12 * n));
  }

  /** Every byte of a key counts: changing one changes the state the hash ends in. */
  lemma EveryByteCounts(key: seq<Byte>, p: nat, b: Byte)
    requires p < |key| && key[p] != b
    ensures FinalState(key[p := b]) != FinalState(key)
  {
    OneBlockSeparates(key, key[p := b], p / 12);
  }

  lemma MixSeparates(s: State, t: State)
    requires s != t
    ensures Mix(s) != Mix(t)
  {
    MixBijective(s);
    MixBijective(t);
  }

  // ----- keys of different length -----

  /** Zero bytes behind a key are only seen in its length. */
  lemma PaddedWords(key: seq<Byte>, z: nat, p: nat)
    ensures WordAt(key + seq(z, _ => 0), p) == WordAt(key, p)
    ensures HighBytesAt(key + seq(z, _ => 0), p) == HighBytesAt(key, p)
  {
    PaddedByte(key, z, p);
    PaddedByte(key, z, p + 1);
    PaddedByte(key, z, p + 2);
    PaddedByte(key, z, p + 3);
  }

  lemma PaddedByte(key: seq<Byte>, z: nat, p: nat)
    ensures ByteAt(key + seq(z, _ => 0), p) == ByteAt(key, p)
  {
  }

  lemma {:induction false} PaddedBlocks(s: State, key: seq<Byte>, z: nat, m: nat, n: nat, mix: State -> State)
    requires m <= n
    ensures Blocks(s, key + seq(z, _ => 0), m, n, mix) == Blocks(s, key, m, n, mix)
    decreases n - m
  {
    if m < n {
      PaddedWords(key, z, 12 * m);
      PaddedWords(key, z, 12 * m + 4);
      PaddedWords(key, z, 12 * m + 8);
      PaddedBlocks(mix(Absorb(s, key, 12 * m)), key, z, m + 1, n, mix);
    }
  }

  lemma PaddedTail(s: State, key: seq<Byte>, z: nat, p: nat)
    requires 1 <= z < WORD
    ensures AbsorbTail(s, key + seq(z, _ => 0), p) != AbsorbTail(s, key, p)
  {
    PaddedWords(key, z, p + 8);
    LengthCounts(s.h, |key| + HighBytesAt(key, p + 8), z);
  }

  lemma LengthCounts(a: U32, n: nat, z: nat)
    requires 1 <= z < WORD
    ensures Add32(a, n + z) != Add32(a, n)
  {
    Add32Injective(a, z, 0, n);
  }

  /** The length of a key counts: zero bytes behind a key that do not begin another block leave the
      hash in a different state. */
  lemma LengthSeparates(key: seq<Byte>, z: nat)
    requires z >= 1 && (|key| + z) / 12 == |key| / 12
    ensures FinalState(key + seq(z, _ => 0)) != FinalState(key)
  {
    MixInjective();
    PaddedFinish(key, z, Mix);
  }

  lemma PaddedFinish(key: seq<Byte>, z: nat, mix: State -> State)
    requires z >= 1 && (|key| + z) / 12 == |key| / 12 && Injective(mix)
    ensures Finish(key + seq(z, _ => 0), mix) != Finish(key, mix)
  {
    var n, padded := |key| / 12, key + seq(z, _ => 0);
    PaddedBlocks(SEED, key, z, 0, n, mix);
    PaddedTail(Blocks(SEED, key, 0, n, mix), key, z, 12 * n);
    FinishDiffers(key, padded, n, mix);
  }

  lemma FinishDiffers(k1: seq<Byte>, k2: seq<Byte>, n: nat, mix: State -> State)
    requires n == |k1| / 12 == |k2| / 12 && Injective(mix)
    requires AbsorbTail(Blocks(SEED, k1, 0, n, mix), k1, 12 * n) != AbsorbTail(Blocks(SEED, k2, 0, n, mix), k2, 12 * n)
    ensures Finish(k1, mix) != Finish(k2, mix)
  {
  }

  // ----- the hash as arithmetic -----

  /** A block adds three little-endian words. */
  lemma BlockWords(s: State, key: seq<Byte>, p: nat)
    requires p + 12 <= |key|
    ensures Absorb(s, key, p) == State(
              (s.i + Value(key[p]) + 256 * Value(key[p + 1]) + 65536 * Value(key[p + 2])
               + 16777216 * Value(key[p + 3])) % 4294967296,
              (s.j + Value(key[p + 4]) + 256 * Value(key[p + 5]) + 65536 * Value(key[p + 6])
               + 16777216 * Value(key[p + 7])) % 4294967296,
              (s.h + Value(key[p + 8]) + 256 * Value(key[p + 9]) + 65536 * Value(key[p + 10])
               + 16777216 * Value(key[p + 11])) % 4294967296)
  {
  }

  /** So does the tail, which counts missing bytes as 0, except that the length of the key takes the
      place of the lowest byte of the last word, and moves the others up. */
  lemma TailWords(s: State, key: seq<Byte>, p: nat)
    ensures AbsorbTail(s, key, p) == State(
              (s.i + ByteAt(key, p) + 256 * ByteAt(key, p + 1) + 65536 * ByteAt(key, p + 2)
               + 16777216 * ByteAt(key, p + 3)) % 4294967296,
              (s.j + ByteAt(key, p + 4) + 256 * ByteAt(key, p + 5) + 65536 * ByteAt(key, p + 6)
               + 16777216 * ByteAt(key, p + 7)) % 4294967296,
              (s.h + |key| + 256 * ByteAt(key, p + 8) + 65536 * ByteAt(key, p + 9)
               + 16777216 * ByteAt(key, p + 10)) % 4294967296)
  {
  }

  lemma LastBlock(key: seq<Byte>, k: nat, mix: State -> State)
    ensures Blocks(SEED, key, 0, k + 1, mix) == mix(Absorb(Blocks(SEED, key, 0, k, mix), key, 12 * k))
  {
    BlocksSplit(SEED, key, 0, k, k + 1, mix);
    OneBlock(Blocks(SEED, key, 0, k, mix), key, k, mix);
  }

  lemma OneBlock(s: State, key: seq<Byte>, k: nat, mix: State -> State)
    ensures Blocks(s, key, k, k + 1, mix) == mix(Absorb(s, key, 12 * k))
  {
    var t := mix(Absorb(s, key, 12 * k));
    assert Blocks(t, key, k + 1, k + 1, mix) == t;
  }

  /** The words after each block. */
  lemma BlockStates(key: seq<Byte>, n: nat, mix: State -> State) returns (states: seq<State>)
    ensures |states| == n + 1 && states[0] == SEED && states[n] == Blocks(SEED, key, 0, n, mix)
    ensures forall k {:trigger states[k]} :: 0 <= k < n ==> states[k + 1] == mix(Absorb(states[k], key, 12 * k))
  {
    states := seq(n + 1, k requires 0 <= k <= n => Blocks(SEED, key, 0, k, mix));
    forall k {:trigger states[k]} | 0 <= k < n
      ensures states[k + 1] == mix(Absorb(states[k], key, 12 * k))
    {
      LastBlock(key, k, mix);
    }
  }

  /** The hash starts from its constants, absorbs and mixes block after block, and then the tail. */
  lemma HashRounds(key: seq<Byte>) returns (states: seq<State>)
    ensures |states| == |key| / 12 + 1 && states[0] == State(2654435769, 2654435769, 4276993775)
    ensures forall k {:trigger states[k]} :: 0 <= k < |key| / 12 ==>
              states[k + 1] == Mix(Absorb(states[k], key, 12 * k))
    ensures HashValue(key) == Mix(AbsorbTail(states[|key| / 12], key, 12 * (|key| / 12))).h
  {
    states := BlockStates(key, |key| / 12, Mix);
  }
}
