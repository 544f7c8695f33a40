/**
 * The Spritz state machine as pure functions over a state value.
 *
 * This is the reference definition that the in-place implementation in
 * module SpritzCipher is proved against. It follows Rivest and Schuldt's
 * pseudocode ("Spritz -- a spongy RC4-like stream cipher and hash function",
 * 2014) with N = 256: every sum of bytes wraps around mod 256, written out
 * explicitly as `% 256`.
 */
module Spritz {

  /** An unsigned 8-bit value, as C's uint8_t. */
  type Byte = x: int | 0 <= x < 256

  /** The S-box: exactly SPRITZ_N = 256 bytes. */
  type SBox = s: seq<Byte> | |s| == 256 witness seq(256, _ => 0)

  /** The context: the S-box s and the six byte registers i, j, k, z, a, w. */
  datatype State = State(s: SBox, i: Byte, j: Byte, k: Byte, z: Byte, a: Byte, w: Byte)

  /** The S-box of a freshly initialised state: s[v] == v. */
  function Identity(): (r: SBox)
    ensures forall v :: 0 <= v < 256 ==> r[v] == v
  {
    seq(256, v requires 0 <= v < 256 => v)
  }

  /** s holds every byte value exactly once. */
  ghost predicate IsPermutation(s: seq<Byte>) {
    multiset(s) == multiset(Identity())
  }

  /**
   * What every public operation keeps once the state is set up: s is a
   * permutation, w is odd (coprime with 256) and a counts at most 128
   * absorbed nibbles.
   */
  ghost predicate Invariant(st: State) {
    && IsPermutation(st.s)
    && st.w % 2 == 1
    && st.a <= 128
  }

  /** Exchange the entries at x and y. */
  function Swap(s: SBox, x: Byte, y: Byte): (r: SBox)
    ensures r[x] == s[y] && r[y] == s[x]
    ensures forall v {:trigger r[v]} :: 0 <= v < 256 && v != x && v != y ==> r[v] == s[v]
  {
    s[x := s[y]][y := s[x]]
  }

  /** InitializeState: i = j = k = z = a = 0, w = 1, s the identity. */
  function InitializeState(): State
  {
    State(Identity(), 0, 0, 0, 0, 0, 1)
  }

  /** The state left by wiping a context: every byte zero. */
  function Zeroed(): (st: State)
    ensures !Invariant(st)
    ensures st.i == 0 && st.j == 0 && st.k == 0 && st.z == 0 && st.a == 0 && st.w == 0
    ensures forall v :: 0 <= v < 256 ==> st.s[v] == 0
  {
    State(seq(256, _ => 0), 0, 0, 0, 0, 0, 0)
  }

  /**
   * Update: one RC4-like step. i advances by w, j and k are derived by
   * lookups through s, and s[i], s[j] are swapped.
   */
  function Update(st: State): State
  {
    var i := (st.i + st.w) % 256;
    var j := (st.k + st.s[(st.j + st.s[i]) % 256]) % 256;
    var k := (i + st.k + st.s[j]) % 256;
    st.(s := Swap(st.s, i, j), i := i, j := j, k := k)
  }

  /** n applications of Update. */
  function Updates(st: State, n: nat): State
  {
    if n == 0 then st else Update(Updates(st, n - 1))
  }

  /**
   * The last step of Whip: w := w + 1 until gcd(w, 256) == 1, that is until
   * w is odd.
   */
  function NextOdd(w: Byte): (r: Byte)
    ensures r % 2 == 1
  {
    if w % 2 == 0 then w + 1 else (w + 2) % 256
  }

  /** Whip(r): r updates, then w moves to the next odd value. */
  function Whip(st: State, r: nat): State
  {
    var u := Updates(st, r);
    u.(w := NextOdd(u.w))
  }

  /** One step of Crush: order the pair at v and 255 - v. */
  function CrushStep(s: SBox, v: nat): SBox
    requires v < 128
  {
    if s[v] > s[255 - v] then Swap(s, v, 255 - v) else s
  }

  /** The first n steps of Crush, for v = 0 .. n - 1. */
  function CrushUpTo(s: SBox, n: nat): SBox
    requires n <= 128
  {
    if n == 0 then s else CrushStep(CrushUpTo(s, n - 1), n - 1)
  }

  /** Crush: all 128 compare-and-swap steps; the registers are untouched. */
  function Crush(st: State): (r: State)
  {
    st.(s := CrushUpTo(st.s, 128))
  }

  /** Shuffle: Whip(512); Crush; Whip(512); Crush; Whip(512); a := 0. */
  function Shuffle(st: State): (r: State)
  {
    var st1 := Whip(st, 512);
    var st2 := Crush(st1);
    var st3 := Whip(st2, 512);
    var st4 := Crush(st3);
    var st5 := Whip(st4, 512);
    st5.(a := 0)
  }

  /**
   * AbsorbNibble(x): when all 128 absorb slots are used, Shuffle first; then
   * swap s[a] with s[128 + x] and count the nibble in a.
   */
  function AbsorbNibble(st: State, x: nat): (r: State)
    requires x < 16
  {
    if st.a == 128 then
      var st1 := Shuffle(st);
      st1.(s := Swap(st1.s, 0, 128 + x), a := 1)
    else
      st.(s := Swap(st.s, st.a, 128 + x), a := (st.a + 1) % 256)
  }

  /** AbsorbByte(b): the low nibble first, then the high nibble. */
  function AbsorbByte(st: State, b: Byte): (r: State)
  {
    AbsorbNibble(AbsorbNibble(st, b % 16), b / 16)
  }

  /** Absorb(data): AbsorbByte for each byte in order. */
  function AbsorbBytes(st: State, data: seq<Byte>): (r: State)
  {
    if |data| == 0 then st
    else AbsorbByte(AbsorbBytes(st, data[..|data| - 1]), data[|data| - 1])
  }

  /**
   * AbsorbStop: when all absorb slots are used, Shuffle first; then use up
   * one slot without swapping.
   */
  function AbsorbStop(st: State): (r: State)
  {
    if st.a == 128 then Shuffle(st).(a := 1) else st.(a := (st.a + 1) % 256)
  }

  /**
   * Output: z := s[j + s[i + s[z + k]]]; the byte produced is the new z.
   * Nothing but z changes.
   */
  function Output(st: State): (r: (State, Byte))
    ensures r.0 == st.(z := r.1)
  {
    var z := st.s[(st.j + st.s[(st.i + st.s[(st.z + st.k) % 256]) % 256]) % 256];
    (st.(z := z), z)
  }

  /** Drip: Shuffle if anything was absorbed since, then Update and Output. */
  function Drip(st: State): (r: (State, Byte))
  {
    var st1 := if st.a > 0 then Shuffle(st) else st;
    Output(Update(st1))
  }

  /**
   * n successive applications of a byte-producing step, with the bytes it
   * produces in order.
   */
  function Iterate<S>(step: S -> (S, Byte), st: S, n: nat): (r: (S, seq<Byte>))
    ensures |r.1| == n
  {
    if n == 0 then (st, [])
    else
      var prev := Iterate(step, st, n - 1);
      var d := step(prev.0);
      (d.0, prev.1 + [d.1])
  }

  /** n successive Drips, with the bytes they produce in order. */
  function Drips(st: State, n: nat): (r: (State, seq<Byte>))
    ensures |r.1| == n
  {
    Iterate(Drip, st, n)
  }

  /** Squeeze(r): Shuffle if anything was absorbed, then r Drips. */
  function Squeeze(st: State, n: nat): (r: (State, seq<Byte>))
    ensures |r.1| == n
  {
    Drips(if st.a > 0 then Shuffle(st) else st, n)
  }

  /**
   * What a hash or MAC finalisation yields from state st: AbsorbStop, absorb
   * the requested length as one byte, then squeeze that many bytes.
   */
  function Final(st: State, n: Byte): (r: (State, seq<Byte>))
    ensures |r.1| == n
  {
    Squeeze(AbsorbByte(AbsorbStop(st), n), n)
  }

  /** KeySetup(K): InitializeState, then Absorb(K). */
  function KeySetup(key: seq<Byte>): (st: State)
  {
    AbsorbBytes(InitializeState(), key)
  }

  /** Key setup with a nonce: KeySetup(K); AbsorbStop; Absorb(IV). */
  function KeySetupIV(key: seq<Byte>, iv: seq<Byte>): (st: State)
  {
    AbsorbBytes(AbsorbStop(KeySetup(key)), iv)
  }

  /** Hash(M, r): InitializeState; Absorb(M); AbsorbStop; Absorb(r); Squeeze(r). */
  function HashDigest(m: seq<Byte>, n: Byte): (d: seq<Byte>)
    ensures |d| == n
  {
    var st := AbsorbByte(AbsorbStop(AbsorbBytes(InitializeState(), m)), n);
    Squeeze(st, n).1
  }

  /**
   * MAC(K, M, r): InitializeState; Absorb(K); AbsorbStop; Absorb(M);
   * AbsorbStop; Absorb(r); Squeeze(r).
   */
  function MacDigest(key: seq<Byte>, m: seq<Byte>, n: Byte): (d: seq<Byte>)
    ensures |d| == n
  {
    var st := AbsorbBytes(AbsorbStop(AbsorbBytes(InitializeState(), key)), m);
    Squeeze(AbsorbByte(AbsorbStop(st), n), n).1
  }
}
