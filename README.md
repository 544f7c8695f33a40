# Spritz engine of SpritzCipher

This project models the Spritz engine behind the `SpritzCipher.h` interface
in Dafny and proves properties of it. Spritz is Rivest and Schuldt's spongy
RC4-like stream cipher and hash. The context `spritz_ctx` has two parts:

- the S-box `s[SPRITZ_N]`, with `SPRITZ_N` = 256;
- six one-byte registers `i, j, k, z, a, w`.

The library keys the context with `spritz_setup`/`spritz_setupIV` and draws
keystream bytes with `spritz_rand_byte`. It also offers a streaming hash and a
streaming MAC (setup, update, final) and one-shot forms of both.

The model has three modules.

- `Spritz` (`spritz.dfy`) is the reference definition. The state is a value
  `State(s, i, j, k, z, a, w)`. Every step of the Spritz pseudocode is a pure
  function: InitializeState, Update, Whip, Crush, Shuffle, AbsorbNibble,
  AbsorbByte, Absorb, AbsorbStop, Output, Drip and Squeeze. Hash and MAC are
  compositions of these steps. Bytes are the subset type `Byte` = [0, 256).
  Every sum of bytes that can exceed 255 is reduced with an explicit
  `% 256`, which is the wrap-around of `uint8_t`.
- `SpritzFacts` (`spritz_facts.dfy`) holds the lemmas about the reference
  definition:
  - the S-box stays a permutation of 0..255;
  - `w` stays odd;
  - `a` stays in [0, 128], and absorbing when `a` is 128 shuffles first;
  - Crush orders each mirrored pair;
  - absorbing is streaming;
  - squeezing is prefix-closed;
  - a hash or MAC over `x + y` equals setup, update with `x`, update with
    `y`, then final.
- `SpritzCipher` (`spritz_cipher.dfy`) is the in-place engine. Class
  `SpritzCtx` holds the S-box as a 256-entry array and the six registers as
  fields. Each of its methods changes the context step by step, as the C
  functions do. Each method is proved against the reference: its
  postcondition ties the new context (`Model()`) to the reference function
  of the old one. The methods that write to a caller's buffer also state what
  they write.

Results are deterministic, because every reference operation is a function of
its inputs. Caller-supplied lengths keep the width of the C parameters:

- `keyLen` and `nonceLen` of the setups are `uint8_t`, so key and nonce are
  shorter than 256 bytes;
- the hash data and the MAC key and message are `uint16_t`-sized, so shorter
  than 65536 bytes;
- `digestLen` is a `Byte`.

`SpritzCipher.h` declares the operations but does not give their bodies. The
primitives follow Rivest and Schuldt's pseudocode ("Spritz — a spongy RC4-like
stream cipher and hash function", 2014) with N = 256. Whip's last step is
"w := w + 1 until gcd(w, 256) = 1", so `w` moves to the next odd value
mod 256. The configuration flag `WIPE_AFTER_USAGE` is defined (line 41); the header
describes it as wiping sensitive buffers and variables once they are no
longer needed, and does not say what a final call leaves in the caller's
context. The model chooses to treat a hash or MAC context as single-use:
it zeroes the context at the end of `spritz_hash_final` and
`spritz_mac_final`, which also leaves the one-shot hash and MAC with their
own context wiped.

## Model

| member | source | states |
|---|---|---|
| Spritz.Identity | SpritzCipher.h:43-52 | the S-box of a fresh state maps every index v to v |
| Spritz.Swap | SpritzCipher.h:49-52 | exchanging two S-box entries puts each value at the other's index and leaves every other entry unchanged |
| Spritz.Zeroed | SpritzCipher.h:55-60 | a wiped context has every S-box byte and register zero, and it does not satisfy the Spritz invariant (w is even, s is no permutation) |
| Spritz.NextOdd | SpritzCipher.h:49-52 | Whip's final step always leaves w odd, so w is coprime with 256 |
| Spritz.Output | SpritzCipher.h:86-92 | Output changes only z, and the byte returned is the new z |
| Spritz.Iterate | SpritzCipher.h:112-120 | n steps of a byte generator yield exactly n bytes |
| Spritz.Drips | SpritzCipher.h:86-92 | n Drips yield exactly n keystream bytes |
| Spritz.Squeeze | SpritzCipher.h:112-120 | squeezing n bytes yields exactly n bytes |
| Spritz.Final | SpritzCipher.h:112-120 | finalising a hash or MAC yields exactly digestLen bytes |
| Spritz.HashDigest | SpritzCipher.h:122-131 | the hash of a message is exactly digestLen bytes long |
| Spritz.MacDigest | SpritzCipher.h:164-176 | the MAC of a message under a key is exactly digestLen bytes long |
| SpritzFacts.IdentityCounts | SpritzCipher.h:43-52 | the first n identity entries hold each value below n exactly once and nothing else |
| SpritzFacts.PermutationCounts | SpritzCipher.h:49-52 | a 256-byte S-box is a permutation if and only if every byte value occurs in it exactly once |
| SpritzFacts.SwapKeeps | SpritzCipher.h:49-52 | a swap only rearranges the S-box: its multiset of values is unchanged |
| SpritzFacts.UpdateKeeps | SpritzCipher.h:86-92 | Update keeps the S-box's values and leaves a, w and z unchanged |
| SpritzFacts.UpdatesKeep | SpritzCipher.h:86-92 | any number of Updates keep the S-box's values and leave a, w and z unchanged |
| SpritzFacts.CountTwo | SpritzCipher.h:49-52 | a value held at two distinct S-box positions occurs at least twice in the S-box |
| SpritzFacts.PermutationInjective | SpritzCipher.h:49-52 | in a permutation S-box two positions holding the same value are the same position |
| SpritzFacts.IndexFrom | SpritzCipher.h:49-52 | the search returns a position at or after the start that holds the value, and finds one whenever the value occurs there |
| SpritzFacts.SwapTwice | SpritzCipher.h:49-52 | swapping the same two S-box entries twice restores the S-box |
| SpritzFacts.StepBack | SpritzCipher.h:86-92 | adding a step to a byte register mod 256 and then subtracting it mod 256 restores the register |
| SpritzFacts.UpdateSwapBack | SpritzCipher.h:86-92 | after an Update, swapping the new i and j entries again gives back the old S-box, and w, z and a are unchanged |
| SpritzFacts.UpdateRegistersBack | SpritzCipher.h:86-92 | after an Update the old i is the new i less w and the old k is the new k less the new i and the old s[new j], all mod 256 |
| SpritzFacts.UpdateIndexBack | SpritzCipher.h:86-92 | after an Update the new j less the old k is the old S-box value at j + s[i], and that index less s[i] is the old j |
| SpritzFacts.UnupdateBack | SpritzCipher.h:86-92 | the inverse step recovers the old state from any new state related to it by those equations, given a permutation S-box |
| SpritzFacts.UpdateReversible | SpritzCipher.h:86-92 | Update is injective on states whose S-box is a permutation: the inverse step takes every result back to the state it came from |
| SpritzFacts.UpdateOnto | SpritzCipher.h:86-92 | a state built from u by the inverse step's equations updates to exactly u |
| SpritzFacts.PermutationHas | SpritzCipher.h:49-52 | every byte value occurs in a permutation S-box |
| SpritzFacts.UnupdateReversible | SpritzCipher.h:86-92 | every state whose S-box is a permutation is the Update of the state the inverse step gives, so Update is onto such states and, with UpdateReversible, a bijection of them |
| SpritzFacts.WhipKeeps | SpritzCipher.h:49-52 | Whip only permutes s, leaves w odd whatever it was, and leaves a and z unchanged |
| SpritzFacts.CrushUpToKeeps | SpritzCipher.h:33-36 | the compare-and-swap steps of Crush only permute s |
| SpritzFacts.CrushUpToPairs | SpritzCipher.h:33-36 | after n Crush steps, each of the first n mirrored pairs (v, 255 - v) holds its two original values in ascending order, and the middle of s is untouched |
| SpritzFacts.CrushSortsPairs | SpritzCipher.h:33-36 | Crush only permutes s, changes no register, and puts the smaller value of every mirrored pair at the lower index |
| SpritzFacts.CrushNotInjective | SpritzCipher.h:33-36 | Crush is many-to-one: exchanging a mirrored pair of distinct values gives a different state that crushes to the same result |
| SpritzFacts.ShuffleKeeps | SpritzCipher.h:49-52 | Shuffle only permutes s, leaves w odd and z unchanged, and empties the absorb counter (a = 0) |
| SpritzFacts.AbsorbNibbleKeeps | SpritzCipher.h:102-110 | absorbing a nibble keeps the invariant; below 128 it uses the next slot (a + 1) and keeps w; at a = 128 it shuffles first, so a ends at 1 |
| SpritzFacts.AbsorbByteKeeps | SpritzCipher.h:102-110 | absorbing a byte keeps the invariant |
| SpritzFacts.AbsorbBytesKeeps | SpritzCipher.h:102-110 | absorbing any data keeps the invariant |
| SpritzFacts.AbsorbStopKeeps | SpritzCipher.h:112-120 | AbsorbStop keeps the invariant, uses one slot, and below 128 changes nothing but a |
| SpritzFacts.DripKeeps | SpritzCipher.h:86-92 | a keystream byte keeps the invariant and leaves no absorbed input pending (a = 0) |
| SpritzFacts.DripsKeep | SpritzCipher.h:86-92 | any number of Drips keep the invariant, and after at least one a = 0 |
| SpritzFacts.SqueezeKeeps | SpritzCipher.h:112-120 | Squeeze keeps the invariant and leaves a = 0, even when it produces no byte |
| SpritzFacts.KeySetupReady | SpritzCipher.h:63-84 | key setup, with or without a nonce, establishes the invariant for every key and nonce |
| SpritzFacts.AbsorbBytesAppend | SpritzCipher.h:102-110 | absorbing is streaming: absorbing x and then y equals absorbing x + y |
| SpritzFacts.IterateAppend | SpritzCipher.h:112-120 | n + m generator steps are n steps followed by m steps, and their bytes concatenate |
| SpritzFacts.TraceExtend | SpritzCipher.h:112-120 | a step-by-step record of a squeeze extends by one Drip from its last state |
| SpritzFacts.TraceIterate | SpritzCipher.h:112-120 | a step-by-step record of n steps from a state is exactly what n iterated steps compute |
| SpritzFacts.DripsAppend | SpritzCipher.h:86-92 | n + m keystream bytes are n bytes followed by the next m bytes from where the first n left the state |
| SpritzFacts.IteratePrefix | SpritzCipher.h:112-120 | fewer generator steps yield a prefix of the bytes of more steps |
| SpritzFacts.SqueezePrefix | SpritzCipher.h:112-120 | squeezing n bytes yields the first n bytes of squeezing m >= n bytes from the same state |
| SpritzFacts.HashStreaming | SpritzCipher.h:102-131 | the one-shot hash of x + y equals hash setup, update with x, update with y, then final |
| SpritzFacts.MacStreaming | SpritzCipher.h:134-176 | the one-shot MAC of x + y equals MAC setup with the key, update with x, update with y, then final |
| SpritzCipher.SpritzCtx.constructor | SpritzCipher.h:49-52 | a new context owns a fresh 256-entry S-box |
| SpritzCipher.SpritzCtx.SwapEntries | SpritzCipher.h:49-52 | exchanging two S-box entries in place leaves the S-box equal to the reference Swap of the old one |
| SpritzCipher.SpritzCtx.InitializeState | SpritzCipher.h:95-100 | the filling loop leaves s the identity, i = j = k = z = a = 0 and w = 1 |
| SpritzCipher.SpritzCtx.Update | SpritzCipher.h:86-92 | one in-place Update is the reference Update of the old context |
| SpritzCipher.SpritzCtx.Whip | SpritzCipher.h:49-52 | the update loop and the w-advancing step together equal the reference Whip |
| SpritzCipher.SpritzCtx.NextOddLoop | SpritzCipher.h:49-52 | incrementing w mod 256 until it is odd ends at the next odd value, the reference NextOdd |
| SpritzCipher.SpritzCtx.Crush | SpritzCipher.h:33-36 | the 128 in-place compare-and-swap steps equal the reference Crush |
| SpritzCipher.SpritzCtx.Shuffle | SpritzCipher.h:49-52 | in-place Shuffle equals the reference Shuffle |
| SpritzCipher.SpritzCtx.AbsorbNibble | SpritzCipher.h:102-110 | in-place nibble absorption, shuffling first at a = 128, equals the reference AbsorbNibble |
| SpritzCipher.SpritzCtx.AbsorbByte | SpritzCipher.h:102-110 | low nibble then high nibble, as the reference AbsorbByte |
| SpritzCipher.SpritzCtx.AbsorbBytes | SpritzCipher.h:102-110 | the absorb loop over a buffer equals the reference Absorb, and an empty buffer changes nothing |
| SpritzCipher.SpritzCtx.AbsorbStop | SpritzCipher.h:112-120 | in-place AbsorbStop equals the reference AbsorbStop |
| SpritzCipher.SpritzCtx.Output | SpritzCipher.h:86-92 | the byte returned and the new context are the reference Output of the old context |
| SpritzCipher.SpritzCtx.Drip | SpritzCipher.h:86-92 | the byte returned and the new context are the reference Drip of the old context |
| SpritzCipher.SpritzCtx.Drips | SpritzCipher.h:112-120 | the output loop writes the n reference Drip bytes into out[0 .. n), leaves the rest of out untouched, and leaves the context where the reference leaves it |
| SpritzCipher.SpritzCtx.DripInto | SpritzCipher.h:112-120 | one loop step extends the record of Drips by the byte it writes to out[v], and touches no later entry of out |
| SpritzCipher.SpritzCtx.Squeeze | SpritzCipher.h:112-120 | squeezing n bytes into out writes the reference Squeeze bytes to out[0 .. n) and nothing beyond |
| SpritzCipher.SpritzCtx.Wipe | SpritzCipher.h:55-60 | after wiping, every S-box byte and register is zero |
| SpritzCipher.SpritzCtx.Setup | SpritzCipher.h:63-71 | setup leaves the context equal to the reference KeySetup of the key, and the invariant holds |
| SpritzCipher.SpritzCtx.SetupIV | SpritzCipher.h:73-84 | setup with a nonce equals KeySetup(key); AbsorbStop; Absorb(nonce), and the invariant holds |
| SpritzCipher.SpritzCtx.RandByte | SpritzCipher.h:86-92 | the returned keystream byte and the new context are the reference Drip, and the invariant is preserved |
| SpritzCipher.SpritzCtx.HashSetup | SpritzCipher.h:95-100 | hash setup leaves the freshly initialised state, which satisfies the invariant |
| SpritzCipher.SpritzCtx.HashUpdate | SpritzCipher.h:102-110 | a hash update absorbs the chunk as the reference Absorb does and preserves the invariant |
| SpritzCipher.SpritzCtx.HashFinal | SpritzCipher.h:112-120 | digest[0 .. digestLen) receives the reference Final bytes, the rest of digest is untouched, and the context ends wiped |
| SpritzCipher.SpritzCtx.MacSetup | SpritzCipher.h:134-142 | MAC setup equals InitializeState; Absorb(key); AbsorbStop, and the invariant holds |
| SpritzCipher.SpritzCtx.MacUpdate | SpritzCipher.h:144-152 | a MAC update absorbs the message chunk and preserves the invariant |
| SpritzCipher.SpritzCtx.MacFinal | SpritzCipher.h:154-162 | digest[0 .. digestLen) receives the reference Final bytes, the rest is untouched, and the context ends wiped |
| SpritzCipher.Hash | SpritzCipher.h:122-131 | the one-shot hash (setup, update, final on a context of its own) writes exactly the reference HashDigest and nothing else |
| SpritzCipher.Mac | SpritzCipher.h:164-176 | the one-shot MAC writes exactly the reference MacDigest and nothing else |

## Left out

- SpritzCipher.c, which holds the function bodies, is not part of this model. `SpritzCipher.h` only declares the functions, so the primitives follow the published Spritz pseudocode with N = 256.
- Constant-time behaviour of Crush (`SAFE_TIMING_CRUSH`, lines 33-36): timing is not expressible here. Crush is modelled by the values it produces.
- Wiping of temporaries and local variables (`WIPE_AFTER_USAGE`): the model has no stack. Only the wipe of the context is modelled.
- SpritzCipher.SpritzCtx.HashFinal: the header does not fix the context's state after `spritz_hash_final`; the zeroed context in the contract is the model's single-use choice, not a promise of the header.
- SpritzCipher.SpritzCtx.MacFinal: the header does not fix the context's state after `spritz_mac_final`; the zeroed context in the contract is the model's single-use choice, not a promise of the header.
- `spritz_crypt`, random 32-bit and uniform integers, entropy addition, constant-time comparison, serialisation of the state and the version string: these are outside this core.
- Known-answer test vectors: no concrete digest is computed. The model only proves relations between operations.
- Security properties (unpredictability, collision resistance) are not stated.
- Null pointers, and a `digest` buffer that overlaps the context, are not modelled. `digest` is a separate array of at least `digestLen` bytes.
- The `Valid()` precondition of the `SpritzCtx` methods states that the S-box array has 256 entries. The C struct has this by construction.
