/**
 * The integer core of the Mersenne Twister MT19937 (numerical/mt19937.cpp): seeding by the
 * 69069 linear congruential generator, the twist that regenerates the 624-word state, the
 * read position, and tempering. Words are `unsigned long`, 64 bits wide, held as `bv64`.
 */
module MT19937 {

  type Word = bv64

  const N: nat := 624
  const M: nat := 397
  const LcgC: Word := 69069
  const MatrixA: Word := 0x9908_b0df
  const UpperMask: Word := 0x8000_0000
  const LowerMask: Word := 0x7fff_ffff
  const WordMask: Word := 0xffff_ffff
  const TemperB: Word := 0x9d2c_5680
  const TemperC: Word := 0xefc6_0000

  /** The word holds a 32-bit value: nothing above bit 31 is set. */
  predicate Fits(w: Word)
  {
    w <= WordMask
  }

  predicate AllFit(s: seq<Word>)
  {
    forall k :: 0 <= k < |s| ==> Fits(s[k])
  }

  /** One step of the seeding generator (line 24): `69069 * w mod 2^32`. */
  function Lcg(w: Word): (r: Word)
    ensures Fits(r)
  {
    ((LcgC as bv32) * ((w & WordMask) as bv32)) as Word
  }

  /** Masking with `0xffffffff` is reduction modulo 2^32. */
  lemma MaskIsMod(w: Word)
    ensures w & WordMask == w % 0x1_0000_0000
  {
  }

  /** Word `i` of a freshly seeded state (lines 22-24). */
  function SeedWord(seed: Word, i: nat): (r: Word)
    ensures Fits(r)
  {
    if i == 0 then seed & WordMask else Lcg(SeedWord(seed, i - 1))
  }

  /** The `N` words `sgenrand(seed)` is meant to store. */
  function Seeded(seed: Word): (s: seq<Word>)
    ensures |s| == N && AllFit(s)
  {
    seq(N, i requires 0 <= i => SeedWord(seed, i))
  }

  /**
   * `y` of lines 35, 39 and 42: the top bit of `upper` and the low 31 bits of `lower`,
   * multiplied by the twist matrix A: shifted right once, and xored with `MATRIX_A`
   * when it is odd (`mag01[y & 0x1]`).
   */
  function Mix(upper: Word, lower: Word): (r: Word)
    ensures Fits(r)
  {
    var y := (upper & UpperMask) | (lower & LowerMask);
    (y >> 1) ^ (if y & 1 == 1 then MatrixA else 0)
  }

  /**
   * The sequence the generator walks along, from the words `s` of a state: the first `N`
   * are `s`, and every later one follows the linear recurrence of the Mersenne Twister,
   * x[k + N] = x[k + M] ^ Mix(x[k], x[k + 1]).
   */
  function Recur(s: seq<Word>, j: nat): (r: Word)
    requires |s| == N
    decreases j
  {
    if j < N then s[j]
    else Next(Recur(s, j - N + M), Recur(s, j - N), Recur(s, j - N + 1))
  }

  /** One new word: the word `M` ahead, xored with the mix of the word and its successor. */
  function Next(ahead: Word, upper: Word, lower: Word): (r: Word)
    ensures Fits(ahead) ==> Fits(r)
  {
    ahead ^ Mix(upper, lower)
  }

  /** The `N` words of the walk starting at position `base`. */
  function Window(s: seq<Word>, base: nat): (w: seq<Word>)
    requires |s| == N
    ensures |w| == N && forall i :: 0 <= i < N ==> w[i] == Recur(s, base + i)
  {
    seq(N, i requires 0 <= i => Recur(s, base + i))
  }

  /** What one twist makes of the state `s`: the next `N` words of the recurrence. */
  function Twisted(s: seq<Word>): (t: seq<Word>)
    requires |s| == N
    ensures |t| == N
  {
    Window(s, N)
  }

  lemma RecurStep(s: seq<Word>, j: nat)
    requires |s| == N && j >= N
    ensures Recur(s, j) == Next(Recur(s, j - N + M), Recur(s, j - N), Recur(s, j - N + 1))
  {
  }

  /**
   * The state after the two loops of the twist: the last word (lines 42-43) reads the new
   * words at `0` and `M - 1`, and the twist is complete once it is stored.
   */
  lemma LastWord(s: seq<Word>, t: seq<Word>)
    requires |s| == N && |t| == N
    requires forall k :: 0 <= k < N - 1 ==> t[k] == Recur(s, N + k)
    requires t[N - 1] == s[N - 1]
    ensures Next(t[M - 1], t[N - 1], t[0]) == Recur(s, 2 * N - 1)
    ensures t[N - 1 := Recur(s, 2 * N - 1)] == Twisted(s)
  {
    RecurStep(s, 2 * N - 1);
    assert t[M - 1] == Recur(s, N + M - 1);
    assert t[0] == Recur(s, N);
  }

  /** Continuing the walk from a later window is the same walk. */
  lemma {:induction false} RecurShift(s: seq<Word>, base: nat, j: nat)
    requires |s| == N
    ensures Recur(Window(s, base), j) == Recur(s, base + j)
    decreases j
  {
    if j >= N {
      RecurShift(s, base, j - N + M);
      RecurShift(s, base, j - N);
      RecurShift(s, base, j - N + 1);
      RecurStep(Window(s, base), j);
      RecurStep(s, base + j);
    }
  }

  /** Every word of the walk from 32-bit words is a 32-bit word. */
  lemma {:induction false} RecurFits(s: seq<Word>, j: nat)
    requires |s| == N && AllFit(s)
    ensures Fits(Recur(s, j))
    decreases j
  {
    if j >= N {
      RecurFits(s, j - N + M);
      RecurStep(s, j);
    }
  }

  /** Twisting the window at `base` gives the window `N` further on. */
  lemma TwistedWindow(s: seq<Word>, base: nat)
    requires |s| == N
    ensures Twisted(Window(s, base)) == Window(s, base + N)
  {
    forall i | 0 <= i < N
      ensures Twisted(Window(s, base))[i] == Window(s, base + N)[i]
    {
      RecurShift(s, base, N + i);
    }
  }

  /** The four tempering steps of lines 48-51. */
  function Temper1(y: Word): Word { y ^ (y >> 11) }
  function Temper2(y: Word): Word { y ^ ((y << 7) & TemperB) }
  function Temper3(y: Word): Word { y ^ ((y << 15) & TemperC) }
  function Temper4(y: Word): Word { y ^ (y >> 18) }

  /** Tempering of the word read at `pos` (lines 47-51). */
  function Temper(y: Word): (r: Word)
    ensures Fits(y) ==> Fits(r)
  {
    Temper4(Temper3(Temper2(Temper1(y))))
  }

  /** Undoes `Temper1`: the shifted copies cancel pairwise. */
  function Untemper1(y: Word): Word { y ^ (y >> 11) ^ (y >> 22) }

  /** Undoes `Temper2`: each pass recovers seven more low bits. */
  function Untemper2(y: Word): Word
  {
    var x1 := y ^ ((y << 7) & TemperB);
    var x2 := y ^ ((x1 << 7) & TemperB);
    var x3 := y ^ ((x2 << 7) & TemperB);
    y ^ ((x3 << 7) & TemperB)
  }

  /** Tempering undone, step by step in reverse order; the last two steps undo themselves. */
  function Untemper(r: Word): Word
  {
    Untemper1(Untemper2(Temper3(Temper4(r))))
  }

  lemma Step1Inverse(y: Word)
    requires Fits(y)
    ensures Fits(Temper1(y)) && Untemper1(Temper1(y)) == y
  {
  }

  lemma Step2Inverse(y: Word)
    requires Fits(y)
    ensures Fits(Temper2(y)) && Untemper2(Temper2(y)) == y
  {
  }

  lemma Step3Inverse(y: Word)
    requires Fits(y)
    ensures Fits(Temper3(y)) && Temper3(Temper3(y)) == y
  {
  }

  lemma Step4Inverse(y: Word)
    requires Fits(y)
    ensures Fits(Temper4(y)) && Temper4(Temper4(y)) == y
  {
  }

  /** Tempering loses nothing: on 32-bit words it is undone by `Untemper`. */
  lemma TemperRoundTrip(y: Word)
    requires Fits(y)
    ensures Untemper(Temper(y)) == y
  {
    Step1Inverse(y);
    Step2Inverse(Temper1(y));
    Step3Inverse(Temper2(Temper1(y)));
    Step4Inverse(Temper3(Temper2(Temper1(y))));
  }

  /** Two 32-bit words that temper alike are equal. */
  lemma TemperInjective(y: Word, z: Word)
    requires Fits(y) && Fits(z) && Temper(y) == Temper(z)
    ensures y == z
  {
    TemperRoundTrip(y);
    TemperRoundTrip(z);
  }

  /** The generator object of lines 12-55. */
  class Generator {
    const state: array<Word>
    var pos: nat
    /** The words seeding put in place, and the start of the window the state holds. */
    ghost var origin: seq<Word>
    ghost var base: nat
    /** How many words have been drawn since seeding. */
    ghost var drawn: nat

    ghost predicate Valid()
      reads this, state
    {
      state.Length == N && pos <= N &&
      |origin| == N && AllFit(origin) &&
      state[..] == Window(origin, base) &&
      base + pos == drawn + N
    }

    /** The constructor of lines 17-19. */
    constructor (seed: Word)
      ensures Valid() && state[..] == Seeded(seed) && pos == N
      ensures origin == Seeded(seed) && drawn == 0
    {
      state := new Word[N];
      new;
      Sgenrand(seed);
    }

    /** `sgenrand(seed)` (lines 21-27), with the loop stopping at the last word, `N - 1`. */
    method Sgenrand(seed: Word)
      requires state.Length == N
      modifies this, state
      ensures Valid() && state[..] == Seeded(seed) && pos == N
      ensures origin == Seeded(seed) && drawn == 0
    {
      state[0] := seed & WordMask;
      var i := 1;
      while i < N
        invariant 1 <= i <= N
        invariant forall k :: 0 <= k < i ==> state[k] == SeedWord(seed, k)
      {
        ghost var w := SeedWord(seed, i);
        assert w == Lcg(SeedWord(seed, i - 1));
        state[i] := Lcg(state[i - 1]);
        assert state[i] == w;
        i := i + 1;
      }
      pos := N;
      origin, base, drawn := Seeded(seed), 0, 0;
      assert state[..] == Seeded(seed);
      assert Window(origin, 0) == origin;
    }

    /**
     * The regeneration of lines 34-43, with the second loop starting at `N - M` where the
     * first one stopped: the state becomes the next `N` words of the recurrence.
     */
    method Twist()
      requires state.Length == N
      modifies state
      ensures state[..] == Twisted(old(state[..]))
    {
      ghost var s := state[..];
      TwistHead();
      TwistTail(s);
      ghost var t := state[..];
      LastWord(s, t);
      state[N - 1] := Next(state[M - 1], state[N - 1], state[0]);
      assert state[..] == t[N - 1 := Recur(s, 2 * N - 1)];
    }

    /** The first loop of the twist (lines 34-37): the words below `N - M`. */
    method TwistHead()
      requires state.Length == N
      modifies state
      ensures forall k :: 0 <= k < N - M ==> state[k] == Recur(old(state[..]), N + k)
      ensures forall k :: N - M <= k < N ==> state[k] == old(state[k])
    {
      ghost var s := state[..];
      var i := 0;
      while i < N - M
        invariant 0 <= i <= N - M
        invariant forall k :: 0 <= k < i ==> state[k] == Recur(s, N + k)
        invariant forall k :: i <= k < N ==> state[k] == s[k]
      {
        RecurStep(s, N + i);
        state[i] := Next(state[i + M], state[i], state[i + 1]);
        i := i + 1;
      }
    }

    /** The second loop of the twist (lines 38-41), from `N - M` up to `N - 2`. */
    method TwistTail(ghost s: seq<Word>)
      requires state.Length == N && |s| == N
      requires forall k :: 0 <= k < N - M ==> state[k] == Recur(s, N + k)
      requires forall k :: N - M <= k < N ==> state[k] == s[k]
      modifies state
      ensures forall k :: 0 <= k < N - 1 ==> state[k] == Recur(s, N + k)
      ensures state[N - 1] == s[N - 1]
    {
      var i := N - M;
      while i < N - 1
        invariant N - M <= i <= N - 1
        invariant forall k :: 0 <= k < i ==> state[k] == Recur(s, N + k)
        invariant forall k :: i <= k < N ==> state[k] == s[k]
      {
        ghost var w := Recur(s, N + i);
        assert w == Next(Recur(s, i + M), s[i], s[i + 1]) by {
          RecurStep(s, N + i);
        }
        assert state[i + M - N] == Recur(s, i + M);
        state[i] := Next(state[i + M - N], state[i], state[i + 1]);
        assert state[i] == w;
        i := i + 1;
      }
    }

    /**
     * The integer part of `genrand()` (lines 29-51): twist when the state is used up, then
     * temper the word at `pos` and advance. The result is the numerator of line 53.
     */
    method NextWord() returns (y: Word)
      requires Valid()
      modifies this, state
      ensures Valid() && origin == old(origin) && drawn == old(drawn) + 1
      ensures y == Temper(Recur(origin, N + old(drawn))) && Fits(y)
      ensures 1 <= pos <= N
      ensures old(pos) >= N ==> state[..] == Twisted(old(state[..])) && pos == 1
      ensures old(pos) < N ==> state[..] == old(state[..]) && pos == old(pos) + 1
    {
      if pos >= N {
        Twist();
        TwistedWindow(origin, base);
        base := base + N;
        pos := 0;
      }
      assert state[pos] == Recur(origin, base + pos);
      RecurFits(origin, base + pos);
      y := state[pos];
      pos := pos + 1;
      drawn := drawn + 1;
      y := Temper(y);
    }
  }

  /** The indices the seeding loop of line 23 stores to as written (`i <= N`), from `i` on. */
  function SeedStoresAsWritten(i: nat): seq<nat>
    decreases N + 1 - i
  {
    if i <= N then [i] + SeedStoresAsWritten(i + 1) else []
  }

  lemma {:induction false} SeedStoresReachN(i: nat)
    requires i <= N
    ensures N in SeedStoresAsWritten(i)
    decreases N - i
  {
    if i < N {
      SeedStoresReachN(i + 1);
    }
  }

  /** As written, seeding stores to `state[N]`, one word past the `N`-word array. */
  lemma SeedOverrun()
    ensures exists k :: k in SeedStoresAsWritten(1) && k >= N
  {
    SeedStoresReachN(1);
  }

  /** `size_t` arithmetic, 64 bits wide. */
  function SizeT(x: int): nat
  {
    x % 0x1_0000_0000_0000_0000
  }

  /** The index `i + (M - N)` read by the second twist loop as written (line 40). */
  function TwistReadAsWritten(i: nat): nat
  {
    SizeT(i + SizeT(M - N))
  }

  /**
   * The second twist loop as written starts at `i = 0`: for every `i < N - M` the index
   * it reads wraps around to far past the array; from `N - M` on it is `i - (N - M)`.
   */
  lemma TwistOverrun()
    ensures forall i :: 0 <= i < N - M ==> TwistReadAsWritten(i) >= N
    ensures forall i :: N - M <= i < N - 1 ==> TwistReadAsWritten(i) == i + M - N
    ensures TwistReadAsWritten(0) == 0x1_0000_0000_0000_0000 - (N - M)
  {
  }
}
