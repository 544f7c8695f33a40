/**
 * The Spritz engine of SpritzCipher.h: the context record spritz_ctx, updated
 * in place, and the public operations on it.
 *
 * Every method is proved against the reference functions of module Spritz:
 * its ensures clause ties the new state of the context (Model()) and what it
 * writes to the caller's buffer to a function of the old state.
 */
module SpritzCipher {
  import opened Spritz
  import SpritzFacts

  /** spritz_ctx: the S-box s[SPRITZ_N] and the registers i, j, k, z, a, w. */
  class SpritzCtx {
    const s: array<Byte>
    var i: Byte
    var j: Byte
    var k: Byte
    var z: Byte
    var a: Byte
    var w: Byte

    /** The S-box is stored inline in the record: always 256 entries. */
    ghost predicate Valid()
      reads this
    {
      s.Length == 256
    }

    /** The context as a state value. */
    ghost function Model(): (st: State)
      reads this, s
      requires Valid()
    {
      State(s[..], i, j, k, z, a, w)
    }

    /** The context satisfies the Spritz invariant. */
    ghost predicate Ready()
      reads this, s
      requires Valid()
    {
      Invariant(Model())
    }

    /** A context with unspecified contents, as an uninitialised spritz_ctx. */
    constructor ()
      ensures Valid() && fresh(s)
    {
      s := new Byte[256];
    }

    /** Exchange s[x] and s[y] through a temporary. */
    method SwapEntries(x: Byte, y: Byte)
      requires Valid()
      modifies s
      ensures s[..] == Swap(old(s[..]), x, y)
    {
      var t := s[x];
      s[x] := s[y];
      s[y] := t;
    }

    /** InitializeState: s[v] := v for every v; i, j, k, z, a := 0; w := 1. */
    method InitializeState()
      requires Valid()
      modifies this, s
      ensures Model() == Spritz.InitializeState()
    {
      var v := 0;
      while v < 256
        invariant v <= 256
        invariant forall u :: 0 <= u < v ==> s[u] == u
      {
        s[v] := v;
        v := v + 1;
      }
      assert s[..] == Identity();
      i, j, k, z, a, w := 0, 0, 0, 0, 0, 1;
    }

    /** Update: i += w; j := k + s[j + s[i]]; k := i + k + s[j]; swap s[i], s[j]. */
    method Update()
      requires Valid()
      modifies this, s
      ensures Model() == Spritz.Update(old(Model()))
    {
      ghost var st := Model();
      var ni := (i + w) % 256;
      var nj := (k + s[(j + s[ni]) % 256]) % 256;
      var nk := (ni + k + s[nj]) % 256;
      assert Spritz.Update(st) == st.(s := Swap(st.s, ni, nj), i := ni, j := nj, k := nk);
      SwapEntries(ni, nj);
      i, j, k := ni, nj, nk;
    }

    /** Whip(r): r updates, then w := w + 1 until w is coprime with 256. */
    method Whip(r: nat)
      requires Valid()
      modifies this, s
      ensures Model() == Spritz.Whip(old(Model()), r)
    {
      ghost var st0 := Model();
      var v := 0;
      while v < r
        invariant v <= r
        invariant Model() == Updates(st0, v)
      {
        Update();
        v := v + 1;
      }
      w := NextOddLoop(w);
    }

    /** The last step of Whip: w := w + 1 (mod 256) until w is odd. */
    static method NextOddLoop(w0: Byte) returns (nw: Byte)
      ensures nw == NextOdd(w0)
    {
      nw := (w0 + 1) % 256;
      while nw % 2 == 0
        invariant nw % 2 == 0 ==> nw == (w0 + 1) % 256
        invariant nw % 2 == 1 ==> nw == NextOdd(w0)
        decreases if nw % 2 == 0 then 1 else 0
      {
        nw := (nw + 1) % 256;
      }
    }

    /**
     * Crush: for v in [0, 128), when s[v] > s[255 - v] swap them. Only the
     * values matter here; the constant-time form of the swap is not modelled.
     */
    method Crush()
      requires Valid()
      modifies s
      ensures Model() == Spritz.Crush(old(Model()))
    {
      var v := 0;
      while v < 128
        invariant v <= 128
        invariant s[..] == CrushUpTo(old(s[..]), v)
      {
        if s[v] > s[255 - v] {
          SwapEntries(v, 255 - v);
        }
        v := v + 1;
      }
    }

    /** Shuffle: Whip(512); Crush; Whip(512); Crush; Whip(512); a := 0. */
    method Shuffle()
      requires Valid()
      modifies this, s
      ensures Model() == Spritz.Shuffle(old(Model()))
    {
      Whip(512);
      Crush();
      Whip(512);
      Crush();
      Whip(512);
      a := 0;
    }

    /** AbsorbNibble(x): Shuffle when a == 128; swap s[a], s[128 + x]; a += 1. */
    method AbsorbNibble(x: nat)
      requires Valid() && x < 16
      modifies this, s
      ensures Model() == Spritz.AbsorbNibble(old(Model()), x)
    {
      ghost var st := Model();
      if a == 128 {
        Shuffle();
        ghost var st1 := Model();
        assert Spritz.AbsorbNibble(st, x) == st1.(s := Swap(st1.s, 0, 128 + x), a := 1);
      }
      SwapEntries(a, 128 + x);
      a := (a + 1) % 256;
    }

    /** AbsorbByte(b): low nibble, then high nibble. */
    method AbsorbByte(b: Byte)
      requires Valid()
      modifies this, s
      ensures Model() == Spritz.AbsorbByte(old(Model()), b)
    {
      AbsorbNibble(b % 16);
      AbsorbNibble(b / 16);
    }

    /** Absorb(data): every byte of data in order; an empty buffer changes nothing. */
    method AbsorbBytes(data: seq<Byte>)
      requires Valid()
      modifies this, s
      ensures Model() == Spritz.AbsorbBytes(old(Model()), data)
    {
      var v := 0;
      while v < |data|
        invariant v <= |data|
        invariant Model() == Spritz.AbsorbBytes(old(Model()), data[..v])
      {
        assert data[..v + 1][..v] == data[..v];
        AbsorbByte(data[v]);
        v := v + 1;
      }
      assert data[..v] == data;
    }

    /** AbsorbStop: Shuffle when a == 128; a += 1 without a swap. */
    method AbsorbStop()
      requires Valid()
      modifies this, s
      ensures Model() == Spritz.AbsorbStop(old(Model()))
    {
      if a == 128 {
        Shuffle();
      }
      a := (a + 1) % 256;
    }

    /** Output: z := s[j + s[i + s[z + k]]], returned. */
    method Output() returns (r: Byte)
      requires Valid()
      modifies this
      ensures (Model(), r) == Spritz.Output(old(Model()))
    {
      z := s[(j + s[(i + s[(z + k) % 256]) % 256]) % 256];
      r := z;
    }

    /** Drip: Shuffle when a > 0; Update; Output. */
    method Drip() returns (r: Byte)
      requires Valid()
      modifies this, s
      ensures (Model(), r) == Spritz.Drip(old(Model()))
    {
      if a > 0 {
        Shuffle();
      }
      Update();
      r := Output();
    }

    /** n Drips into out[0 .. n); the rest of out is untouched. */
    method Drips(out: array<Byte>, n: Byte)
      requires Valid() && out != s && n <= out.Length
      modifies this, s, out
      ensures Spritz.Drips(old(Model()), n) == (Model(), out[..n])
      ensures out[n..] == old(out[n..])
    {
      ghost var trace := [Model()];
      var v := 0;
      while v < n
        invariant v <= n && |trace| == v + 1
        invariant trace[0] == old(Model()) && trace[v] == Model()
        invariant SpritzFacts.Trace(Spritz.Drip, trace, out[..v])
        invariant out[n..] == old(out[n..])
      {
        DripInto(out, v, trace);
        trace := trace + [Model()];
        v := v + 1;
      }
      SpritzFacts.TraceIterate(Spritz.Drip, trace, out[..n]);
    }

    /** One more Drip of a run recorded in trace, written to out[v]. */
    method DripInto(out: array<Byte>, v: nat, ghost trace: seq<State>)
      requires Valid() && out != s && v < out.Length
      requires |trace| == v + 1 && trace[v] == Model()
      requires SpritzFacts.Trace(Spritz.Drip, trace, out[..v])
      modifies this, s, out
      ensures SpritzFacts.Trace(Spritz.Drip, trace + [Model()], out[..v + 1])
      ensures out[v + 1..] == old(out[v + 1..])
    {
      var b := Drip();
      out[v] := b;
      assert out[..v + 1] == old(out[..v]) + [b];
      SpritzFacts.TraceExtend(Spritz.Drip, trace, old(out[..v]), Model(), b);
    }

    /**
     * Squeeze(n): Shuffle when a > 0, then n Drips into out[0 .. n); the rest
     * of out is untouched.
     */
    method Squeeze(out: array<Byte>, n: Byte)
      requires Valid() && out != s && n <= out.Length
      modifies this, s, out
      ensures Model() == Spritz.Squeeze(old(Model()), n).0
      ensures out[..n] == Spritz.Squeeze(old(Model()), n).1
      ensures out[n..] == old(out[n..])
    {
      if a > 0 {
        Shuffle();
      }
      Drips(out, n);
    }

    /** spritz_wipe_ctx: every byte of s and every register becomes 0. */
    method Wipe()
      requires Valid()
      modifies this, s
      ensures Model() == Zeroed()
    {
      var v := 0;
      while v < 256
        invariant v <= 256
        invariant forall u :: 0 <= u < v ==> s[u] == 0
      {
        s[v] := 0;
        v := v + 1;
      }
      assert s[..] == Zeroed().s;
      i, j, k, z, a, w := 0, 0, 0, 0, 0, 0;
    }

    /** spritz_setup: InitializeState, then absorb the key (keyLen is a uint8_t). */
    method Setup(key: seq<Byte>)
      requires Valid() && |key| < 256
      modifies this, s
      ensures Model() == KeySetup(key) && Ready()
    {
      InitializeState();
      AbsorbBytes(key);
      SpritzFacts.KeySetupReady(key, []);
    }

    /** spritz_setupIV: Setup(key); AbsorbStop; absorb the nonce. */
    method SetupIV(key: seq<Byte>, nonce: seq<Byte>)
      requires Valid() && |key| < 256 && |nonce| < 256
      modifies this, s
      ensures Model() == KeySetupIV(key, nonce) && Ready()
    {
      Setup(key);
      AbsorbStop();
      AbsorbBytes(nonce);
      SpritzFacts.KeySetupReady(key, nonce);
    }

    /** spritz_rand_byte: one keystream byte, by Drip. */
    method RandByte() returns (r: Byte)
      requires Valid()
      modifies this, s
      ensures (Model(), r) == Spritz.Drip(old(Model()))
      ensures old(Ready()) ==> Ready()
    {
      ghost var st := Model();
      r := Drip();
      if Invariant(st) {
        SpritzFacts.DripKeeps(st);
      }
    }

    /** spritz_hash_setup: a fresh keyless sponge. */
    method HashSetup()
      requires Valid()
      modifies this, s
      ensures Model() == Spritz.InitializeState() && Ready()
    {
      InitializeState();
    }

    /** spritz_hash_update: absorb a chunk (dataLen is a uint16_t). */
    method HashUpdate(data: seq<Byte>)
      requires Valid() && |data| < 0x1_0000
      modifies this, s
      ensures Model() == Spritz.AbsorbBytes(old(Model()), data)
      ensures old(Ready()) ==> Ready()
    {
      ghost var st := Model();
      AbsorbBytes(data);
      if Invariant(st) {
        SpritzFacts.AbsorbBytesKeeps(st, data);
      }
    }

    /**
     * spritz_hash_final: AbsorbStop; absorb digestLen; squeeze digestLen bytes
     * into digest[0 .. digestLen); then wipe the context.
     */
    method HashFinal(digest: array<Byte>, digestLen: Byte)
      requires Valid() && digest != s && digestLen <= digest.Length
      modifies this, s, digest
      ensures digest[..digestLen] == Final(old(Model()), digestLen).1
      ensures digest[digestLen..] == old(digest[digestLen..])
      ensures Model() == Zeroed()
    {
      AbsorbStop();
      AbsorbByte(digestLen);
      Squeeze(digest, digestLen);
      Wipe();
    }

    /** spritz_mac_setup: HashSetup; absorb the key; AbsorbStop. */
    method MacSetup(key: seq<Byte>)
      requires Valid() && |key| < 0x1_0000
      modifies this, s
      ensures Model() == Spritz.AbsorbStop(KeySetup(key)) && Ready()
    {
      HashSetup();
      HashUpdate(key);
      AbsorbStop();
      SpritzFacts.KeySetupReady(key, []);
      SpritzFacts.AbsorbStopKeeps(KeySetup(key));
    }

    /** spritz_mac_update: absorb a message chunk, as HashUpdate. */
    method MacUpdate(msg: seq<Byte>)
      requires Valid() && |msg| < 0x1_0000
      modifies this, s
      ensures Model() == Spritz.AbsorbBytes(old(Model()), msg)
      ensures old(Ready()) ==> Ready()
    {
      HashUpdate(msg);
    }

    /** spritz_mac_final: as HashFinal. */
    method MacFinal(digest: array<Byte>, digestLen: Byte)
      requires Valid() && digest != s && digestLen <= digest.Length
      modifies this, s, digest
      ensures digest[..digestLen] == Final(old(Model()), digestLen).1
      ensures digest[digestLen..] == old(digest[digestLen..])
      ensures Model() == Zeroed()
    {
      HashFinal(digest, digestLen);
    }
  }

  /**
   * spritz_hash: one-shot hash on a context of its own; HashFinal leaves that
   * context wiped.
   */
  method Hash(digest: array<Byte>, digestLen: Byte, data: seq<Byte>)
    requires digestLen <= digest.Length && |data| < 0x1_0000
    modifies digest
    ensures digest[..digestLen] == HashDigest(data, digestLen)
    ensures digest[digestLen..] == old(digest[digestLen..])
  {
    var ctx := new SpritzCtx();
    ctx.HashSetup();
    ctx.HashUpdate(data);
    ctx.HashFinal(digest, digestLen);
  }

  /** spritz_mac: one-shot MAC on a context of its own; MacFinal leaves it wiped. */
  method Mac(digest: array<Byte>, digestLen: Byte, msg: seq<Byte>, key: seq<Byte>)
    requires digestLen <= digest.Length && |msg| < 0x1_0000 && |key| < 0x1_0000
    modifies digest
    ensures digest[..digestLen] == MacDigest(key, msg, digestLen)
    ensures digest[digestLen..] == old(digest[digestLen..])
  {
    var ctx := new SpritzCtx();
    ctx.MacSetup(key);
    ctx.MacUpdate(msg);
    ctx.MacFinal(digest, digestLen);
  }
}
