/**
 * Properties of the Spritz state machine of module Spritz: the S-box stays a
 * permutation, w stays odd, the absorb counter a stays in [0, 128], Crush
 * orders mirrored pairs, absorbing is streaming and squeezing is prefix-closed.
 */
module SpritzFacts {
  import opened Spritz

  /** Every byte value occurs in s exactly once: the meaning of IsPermutation. */
  lemma {:induction false} IdentityCounts(n: nat, v: int)
    requires n <= 256
    ensures multiset(Identity()[..n])[v] == if 0 <= v < n then 1 else 0
  {
    if n > 0 {
      IdentityCounts(n - 1, v);
      assert Identity()[..n] == Identity()[..n - 1] + [n - 1];
    }
  }

  lemma PermutationCounts(s: seq<Byte>)
    requires |s| == 256
    ensures IsPermutation(s) <==> forall v :: 0 <= v < 256 ==> multiset(s)[v] == 1
  {
    assert Identity()[..256] == Identity();
    forall v | 0 <= v < 256
      ensures multiset(Identity())[v] == 1
    {
      IdentityCounts(256, v);
    }
    if forall v :: 0 <= v < 256 ==> multiset(s)[v] == 1 {
      forall v: Byte
        ensures multiset(s)[v] == multiset(Identity())[v]
      {
      }
      forall v: int | !(0 <= v < 256)
        ensures multiset(s)[v] == 0 == multiset(Identity())[v]
      {
        IdentityCounts(256, v);
      }
      assert multiset(s) == multiset(Identity());
    }
  }

  /** Swapping two entries only rearranges s. */
  lemma SwapKeeps(s: SBox, x: Byte, y: Byte)
    ensures multiset(Swap(s, x, y)) == multiset(s)
  {
  }

  /** What Update leaves alone: the contents of s, a, w and z. */
  ghost function Kept(st: State): (multiset<Byte>, Byte, Byte, Byte)
  {
    (multiset(st.s), st.a, st.w, st.z)
  }

  /** Update only swaps two entries of s and leaves a, w and z alone. */
  lemma UpdateKeeps(st: State)
    ensures Kept(Update(st)) == Kept(st)
  {
    var i := (st.i + st.w) % 256;
    var j := (st.k + st.s[(st.j + st.s[i]) % 256]) % 256;
    SwapKeeps(st.s, i, j);
  }

  lemma {:induction false} UpdatesKeep(st: State, n: nat)
    ensures Kept(Updates(st, n)) == Kept(st)
  {
    if n > 0 {
      UpdatesKeep(st, n - 1);
      UpdateKeeps(Updates(st, n - 1));
    }
  }

  /** Two distinct positions holding the same value make it occur at least twice. */
  lemma CountTwo(s: seq<Byte>, p: nat, q: nat)
    requires p < |s| && q < |s|
    ensures p != q && s[p] == s[q] ==> multiset(s)[s[p]] >= 2
  {
    if p != q && s[p] == s[q] {
      var lo := if p < q then p else q;
      var hi := if p < q then q else p;
      assert s == s[..hi] + s[hi..];
      assert s[..hi][lo] == s[p];
      assert s[hi..][0] == s[p];
      assert multiset(s) == multiset(s[..hi]) + multiset(s[hi..]);
    }
  }

  /** In a permutation every value sits at exactly one index. */
  lemma PermutationInjective(s: SBox, p: Byte, q: Byte)
    requires IsPermutation(s) && s[p] == s[q]
    ensures p == q
  {
    CountTwo(s, p, q);
    PermutationCounts(s);
  }

  /** The first index at or after p where s holds v; 256 when there is none. */
  function IndexFrom(s: SBox, v: Byte, p: nat): (r: nat)
    requires p <= 256
    ensures p <= r <= 256
    ensures r < 256 ==> s[r] == v
    ensures v in s[p..] ==> r < 256
    decreases 256 - p
  {
    if p == 256 then 256
    else if s[p] == v then p
    else
      assert s[p..] == [s[p]] + s[p + 1..];
      IndexFrom(s, v, p + 1)
  }

  /**
   * The inverse of Update on states whose S-box is a permutation: undo the
   * swap, recover k from the new k, then the index j + s[i] as the one
   * position that holds j' - k, and from it j; i steps back by w.
   */
  function Unupdate(st: State): State
  {
    var s := Swap(st.s, st.i, st.j);
    var i := (st.i - st.w) % 256;
    var k := (st.k - st.i - s[st.j]) % 256;
    var p := IndexFrom(s, (st.j - k) % 256, 0);
    var j := (p - s[st.i]) % 256;
    State(s, i, j, k, st.z, st.a, st.w)
  }

  /** Swapping the same two entries twice restores s. */
  lemma SwapTwice(s: SBox, x: Byte, y: Byte)
    ensures Swap(Swap(s, x, y), x, y) == s
  {
  }

  /** Stepping forward by d and then back by d, both mod 256, returns to x. */
  lemma StepBack(x: Byte, d: int)
    ensures ((x + d) % 256 - d) % 256 == x
  {
  }

  /** Update's swap undoes itself, and w, z and a are untouched. */
  lemma UpdateSwapBack(st: State)
    ensures Swap(Update(st).s, Update(st).i, Update(st).j) == st.s
    ensures Update(st).w == st.w && Update(st).z == st.z && Update(st).a == st.a
  {
    SwapTwice(st.s, Update(st).i, Update(st).j);
  }

  /** Unupdate steps Update's i and k back. */
  lemma UpdateRegistersBack(st: State)
    ensures (Update(st).i - Update(st).w) % 256 == st.i
    ensures (Update(st).k - Update(st).i - st.s[Update(st).j]) % 256 == st.k
  {
    var u := Update(st);
    assert u.k == (st.k + (u.i + st.s[u.j])) % 256;
    StepBack(st.i, st.w);
    StepBack(st.k, u.i + st.s[u.j]);
  }

  /**
   * Unupdate steps Update's j back: j' - k is the value at j + s[i], and
   * that index less s[i] is j.
   */
  lemma UpdateIndexBack(st: State)
    ensures (Update(st).j - st.k) % 256 == st.s[(st.j + st.s[Update(st).i]) % 256]
    ensures ((st.j + st.s[Update(st).i]) % 256 - st.s[Update(st).i]) % 256 == st.j
  {
    var u := Update(st);
    var x := (st.j + st.s[u.i]) % 256;
    assert u.j == (st.s[x] + st.k) % 256;
    StepBack(st.s[x], st.k);
    StepBack(st.j, st.s[u.i]);
  }

  /**
   * Unupdate takes u back to st when u's registers and S-box are related to
   * st's by the equations UpdateRegistersBack states.
   */
  lemma UnupdateBack(u: State, st: State, x: Byte)
    requires IsPermutation(st.s) && Swap(u.s, u.i, u.j) == st.s
    requires u.w == st.w && u.z == st.z && u.a == st.a
    requires (u.i - u.w) % 256 == st.i
    requires (u.k - u.i - st.s[u.j]) % 256 == st.k
    requires (u.j - st.k) % 256 == st.s[x]
    requires (x - st.s[u.i]) % 256 == st.j
    ensures Unupdate(u) == st
  {
    var p := IndexFrom(st.s, st.s[x], 0);
    assert p < 256 by { assert st.s[0..] == st.s; }
    PermutationInjective(st.s, p, x);
  }

  /**
   * Update loses nothing on states whose S-box is a permutation: Unupdate
   * takes the result back, so Update is injective there.
   */
  lemma UpdateReversible(st: State)
    requires IsPermutation(st.s)
    ensures Unupdate(Update(st)) == st
  {
    UpdateSwapBack(st);
    UpdateRegistersBack(st);
    UpdateIndexBack(st);
    UnupdateBack(Update(st), st, (st.j + st.s[Update(st).i]) % 256);
  }

  /**
   * Update takes st to u when st's registers and S-box are those Unupdate
   * computes from u, with p the index that holds j' - k.
   */
  lemma UpdateOnto(st: State, u: State, p: Byte)
    requires st.s == Swap(u.s, u.i, u.j)
    requires st.w == u.w && st.z == u.z && st.a == u.a
    requires st.i == (u.i - u.w) % 256
    requires st.k == (u.k - u.i - st.s[u.j]) % 256
    requires st.s[p] == (u.j - st.k) % 256
    requires st.j == (p - st.s[u.i]) % 256
    ensures Update(st) == u
  {
    SwapTwice(u.s, u.i, u.j);
    StepBack(u.i, -(u.w as int));
    StepBack(p, -(st.s[u.i] as int));
    StepBack(u.j, -(st.k as int));
    StepBack(u.k, -(u.i + st.s[u.j]));
  }

  /** Every byte value occurs in a permutation. */
  lemma PermutationHas(s: SBox, v: Byte)
    requires IsPermutation(s)
    ensures v in s
  {
    PermutationCounts(s);
    assert v in multiset(s);
  }

  /**
   * Every state whose S-box is a permutation is the Update of the state
   * Unupdate gives, so Update is onto such states; with UpdateReversible
   * and UpdateKeeps, Update is a bijection of them.
   */
  lemma UnupdateReversible(u: State)
    requires IsPermutation(u.s)
    ensures Update(Unupdate(u)) == u
  {
    var st := Unupdate(u);
    SwapKeeps(u.s, u.i, u.j);
    var v := (u.j - st.k) % 256;
    PermutationHas(st.s, v);
    assert st.s[0..] == st.s;
    UpdateOnto(st, u, IndexFrom(st.s, v, 0));
  }

  /** Whip leaves w odd, whatever it was before, and only permutes s. */
  lemma WhipKeeps(st: State, r: nat)
    ensures multiset(Whip(st, r).s) == multiset(st.s)
    ensures Whip(st, r).w % 2 == 1
    ensures Whip(st, r).a == st.a && Whip(st, r).z == st.z
  {
    UpdatesKeep(st, r);
  }

  lemma {:induction false} CrushUpToKeeps(s: SBox, n: nat)
    requires n <= 128
    ensures multiset(CrushUpTo(s, n)) == multiset(s)
  {
    if n > 0 {
      CrushUpToKeeps(s, n - 1);
    }
  }

  /**
   * After n steps of Crush, each of the first n mirrored pairs (v, 255 - v)
   * holds its two original values in ascending order; the rest is untouched.
   */
  lemma {:induction false} CrushUpToPairs(s: SBox, n: nat)
    requires n <= 128
    ensures forall v :: 0 <= v < n ==>
      CrushUpTo(s, n)[v] == Min(s[v], s[255 - v]) && CrushUpTo(s, n)[255 - v] == Max(s[v], s[255 - v])
    ensures forall v :: n <= v < 256 - n ==> CrushUpTo(s, n)[v] == s[v]
  {
    if n > 0 {
      CrushUpToPairs(s, n - 1);
    }
  }

  function Min(x: int, y: int): int { if x <= y then x else y }
  function Max(x: int, y: int): int { if x <= y then y else x }

  /**
   * Crush sorts every mirrored pair: the smaller value goes to the lower
   * position; the registers are untouched and s is only permuted.
   */
  lemma CrushSortsPairs(st: State)
    ensures multiset(Crush(st).s) == multiset(st.s)
    ensures Crush(st).(s := st.s) == st
    ensures forall v :: 0 <= v < 128 ==>
      Crush(st).s[v] == Min(st.s[v], st.s[255 - v]) && Crush(st).s[255 - v] == Max(st.s[v], st.s[255 - v])
  {
    CrushUpToKeeps(st.s, 128);
    CrushUpToPairs(st.s, 128);
  }

  /**
   * Crush is many-to-one on states: exchanging the two entries of a mirrored
   * pair gives a different state that crushes to the same result.
   */
  lemma CrushNotInjective(st: State, v: nat)
    requires v < 128 && st.s[v] != st.s[255 - v]
    ensures st.(s := Swap(st.s, v, 255 - v)) != st
    ensures Crush(st.(s := Swap(st.s, v, 255 - v))) == Crush(st)
  {
    var t := st.(s := Swap(st.s, v, 255 - v));
    assert t.s[v] != st.s[v];
    CrushSortsPairs(st);
    CrushSortsPairs(t);
    forall x | 0 <= x < 256
      ensures Crush(t).s[x] == Crush(st).s[x]
    {
      var p := if x < 128 then x else 255 - x;
      if p == v {
        assert t.s[p] == st.s[255 - p] && t.s[255 - p] == st.s[p];
      } else {
        assert t.s[p] == st.s[p] && t.s[255 - p] == st.s[255 - p];
      }
    }
    assert Crush(t).s == Crush(st).s;
  }

  /** Shuffle only permutes s, leaves w odd and empties the absorb counter. */
  lemma ShuffleKeeps(st: State)
    ensures multiset(Shuffle(st).s) == multiset(st.s)
    ensures Shuffle(st).w % 2 == 1 && Shuffle(st).a == 0 && Shuffle(st).z == st.z
  {
    var st1 := Whip(st, 512);
    WhipKeeps(st, 512);
    CrushSortsPairs(st1);
    var st3 := Whip(Crush(st1), 512);
    WhipKeeps(Crush(st1), 512);
    CrushSortsPairs(st3);
    WhipKeeps(Crush(st3), 512);
  }

  /**
   * AbsorbNibble keeps the invariant. With a < 128 it uses the next slot; with
   * a == 128 it shuffles first, so a restarts and ends at 1.
   */
  lemma AbsorbNibbleKeeps(st: State, x: nat)
    requires Invariant(st) && x < 16
    ensures Invariant(AbsorbNibble(st, x))
    ensures AbsorbNibble(st, x).a == if st.a == 128 then 1 else st.a + 1
    ensures st.a < 128 ==> AbsorbNibble(st, x).w == st.w
  {
    if st.a == 128 {
      var st1 := Shuffle(st);
      ShuffleKeeps(st);
      SwapKeeps(st1.s, 0, 128 + x);
    } else {
      SwapKeeps(st.s, st.a, 128 + x);
    }
  }

  lemma AbsorbByteKeeps(st: State, b: Byte)
    requires Invariant(st)
    ensures Invariant(AbsorbByte(st, b))
  {
    AbsorbNibbleKeeps(st, b % 16);
    AbsorbNibbleKeeps(AbsorbNibble(st, b % 16), b / 16);
  }

  lemma {:induction false} AbsorbBytesKeeps(st: State, data: seq<Byte>)
    requires Invariant(st)
    ensures Invariant(AbsorbBytes(st, data))
  {
    if |data| > 0 {
      AbsorbBytesKeeps(st, data[..|data| - 1]);
      AbsorbByteKeeps(AbsorbBytes(st, data[..|data| - 1]), data[|data| - 1]);
    }
  }

  /**
   * AbsorbStop keeps the invariant; below 128 it only advances a and leaves
   * s untouched, which is what separates "A, stop, B" from "AB".
   */
  lemma AbsorbStopKeeps(st: State)
    requires Invariant(st)
    ensures Invariant(AbsorbStop(st))
    ensures AbsorbStop(st).a == if st.a == 128 then 1 else st.a + 1
    ensures st.a < 128 ==> AbsorbStop(st) == st.(a := st.a + 1)
  {
    if st.a == 128 {
      ShuffleKeeps(st);
    }
  }

  /** A Drip keeps the invariant and leaves nothing pending: a == 0. */
  lemma DripKeeps(st: State)
    requires Invariant(st)
    ensures Invariant(Drip(st).0) && Drip(st).0.a == 0
  {
    var st1 := if st.a > 0 then Shuffle(st) else st;
    if st.a > 0 {
      ShuffleKeeps(st);
    }
    UpdateKeeps(st1);
  }

  lemma {:induction false} DripsKeep(st: State, n: nat)
    requires Invariant(st)
    ensures Invariant(Drips(st, n).0)
    ensures n > 0 ==> Drips(st, n).0.a == 0
  {
    if n > 0 {
      DripsKeep(st, n - 1);
      DripKeeps(Drips(st, n - 1).0);
    }
  }

  /** After Squeeze the invariant holds and a == 0, even when n == 0. */
  lemma SqueezeKeeps(st: State, n: nat)
    requires Invariant(st)
    ensures Invariant(Squeeze(st, n).0) && Squeeze(st, n).0.a == 0
  {
    var st1 := if st.a > 0 then Shuffle(st) else st;
    if st.a > 0 {
      ShuffleKeeps(st);
    }
    DripsKeep(st1, n);
  }

  /** KeySetup and KeySetupIV establish the invariant for every key and nonce. */
  lemma KeySetupReady(key: seq<Byte>, iv: seq<Byte>)
    ensures Invariant(KeySetup(key))
    ensures Invariant(KeySetupIV(key, iv))
  {
    AbsorbBytesKeeps(InitializeState(), key);
    AbsorbStopKeeps(KeySetup(key));
    AbsorbBytesKeeps(AbsorbStop(KeySetup(key)), iv);
  }

  /**
   * Absorbing is streaming: absorbing x and then y gives the same state as
   * absorbing x + y at once.
   */
  lemma {:induction false} AbsorbBytesAppend(st: State, x: seq<Byte>, y: seq<Byte>)
    ensures AbsorbBytes(st, x + y) == AbsorbBytes(AbsorbBytes(st, x), y)
  {
    if |y| == 0 {
      assert x + y == x;
    } else {
      assert (x + y)[..|x + y| - 1] == x + y[..|y| - 1];
      AbsorbBytesAppend(st, x, y[..|y| - 1]);
    }
  }

  /**
   * n + m steps are n steps followed by m more; the bytes they produce
   * concatenate.
   */
  lemma {:induction false} IterateAppend<S>(step: S -> (S, Byte), st: S, n: nat, m: nat)
    ensures Iterate(step, st, n + m).0 == Iterate(step, Iterate(step, st, n).0, m).0
    ensures Iterate(step, st, n + m).1 == Iterate(step, st, n).1 + Iterate(step, Iterate(step, st, n).0, m).1
  {
    if m > 0 {
      IterateAppend(step, st, n, m - 1);
      assert n + m - 1 == n + (m - 1);
    }
  }

  /**
   * A run of a byte-producing step written out one step at a time:
   * trace[u + 1] is the state and bytes[u] the byte that step yields from
   * trace[u].
   */
  ghost predicate Trace<S>(step: S -> (S, Byte), trace: seq<S>, bytes: seq<Byte>) {
    && |trace| == |bytes| + 1
    && forall u {:trigger step(trace[u])} :: 0 <= u < |bytes| ==> step(trace[u]) == (trace[u + 1], bytes[u])
  }

  /** A trace grows by one step from its last state. */
  lemma TraceExtend<S>(step: S -> (S, Byte), trace: seq<S>, bytes: seq<Byte>, next: S, b: Byte)
    requires Trace(step, trace, bytes)
    requires step(trace[|bytes|]) == (next, b)
    ensures Trace(step, trace + [next], bytes + [b])
  {
  }

  /** A trace of n steps from a state is exactly what Iterate computes. */
  lemma {:induction false} TraceIterate<S>(step: S -> (S, Byte), trace: seq<S>, bytes: seq<Byte>)
    requires Trace(step, trace, bytes)
    ensures Iterate(step, trace[0], |bytes|) == (trace[|bytes|], bytes)
  {
    if |bytes| > 0 {
      var n := |bytes| - 1;
      var t := trace[..n + 1];
      var y := bytes[..n];
      assert Trace(step, t, y) by {
        forall u | 0 <= u < |y|
          ensures step(t[u]) == (t[u + 1], y[u])
        {
          assert step(trace[u]) == (trace[u + 1], bytes[u]);
        }
      }
      TraceIterate(step, t, y);
      assert step(trace[n]) == (trace[n + 1], bytes[n]);
      assert bytes == y + [bytes[n]];
    }
  }

  /** n + m Drips are n Drips followed by m more; the bytes concatenate. */
  lemma DripsAppend(st: State, n: nat, m: nat)
    ensures Drips(st, n + m).0 == Drips(Drips(st, n).0, m).0
    ensures Drips(st, n + m).1 == Drips(st, n).1 + Drips(Drips(st, n).0, m).1
  {
    IterateAppend(Drip, st, n, m);
  }

  /** Fewer steps from the same state yield a prefix of the bytes of more. */
  lemma {:induction false} IteratePrefix<S>(step: S -> (S, Byte), st: S, n: nat, m: nat)
    requires n <= m
    ensures Iterate(step, st, n).1 == Iterate(step, st, m).1[..n]
  {
    IterateAppend(step, st, n, m - n);
    assert n + (m - n) == m;
  }

  /** A shorter squeeze from the same state yields a prefix of a longer one. */
  lemma SqueezePrefix(st: State, n: nat, m: nat)
    requires n <= m
    ensures Squeeze(st, n).1 == Squeeze(st, m).1[..n]
  {
    IteratePrefix(Drip, if st.a > 0 then Shuffle(st) else st, n, m);
  }

  /**
   * The hash of x + y is what finalising yields after a setup and two updates
   * with x and y.
   */
  lemma HashStreaming(x: seq<Byte>, y: seq<Byte>, n: Byte)
    ensures HashDigest(x + y, n) == Final(AbsorbBytes(AbsorbBytes(InitializeState(), x), y), n).1
  {
    AbsorbBytesAppend(InitializeState(), x, y);
  }

  /**
   * The MAC of message x + y is what finalising yields after a MAC setup with
   * the key and two updates with x and y.
   */
  lemma MacStreaming(key: seq<Byte>, x: seq<Byte>, y: seq<Byte>, n: Byte)
    ensures MacDigest(key, x + y, n) == Final(AbsorbBytes(AbsorbBytes(AbsorbStop(KeySetup(key)), x), y), n).1
  {
    AbsorbBytesAppend(AbsorbStop(KeySetup(key)), x, y);
  }
}
