/**
 * The software random generator of concrete-csprng: AES-128 in counter mode (NIST SP 800-38A,
 * section 6.5) feeding a 128-byte buffer that is handed out one byte at a time.
 *
 * The block cipher (FIPS 197) is not modelled: it is a parameter `aes` mapping a 128-bit key
 * and a 128-bit counter block to 16 bytes. Keys and counters are integers in [0, 2^128); the
 * native-endian byte encoding of the counter is part of `aes`.
 */
module Csprng {

  newtype uint8 = x: int | 0 <= x < 0x100

  /** 2^128: the modulus of u128 arithmetic. */
  const U128: int := 0x1_0000_0000_0000_0000_0000_0000_0000_0000

  type Block = s: seq<uint8> | |s| == 16 witness seq(16, _ => 0)

  /** AES-128 with a key, applied to one counter block. */
  type Cipher = (int, int) -> Block

  predicate InU128(x: int)
  {
    0 <= x < U128
  }

  /** `u128::wrapping_add`. */
  function WrappingAdd128(x: int, y: int): (r: int)
    requires InU128(x) && InU128(y)
    ensures InU128(r) && (r == x + y || r == x + y - U128)
  {
    if x + y < U128 then x + y else x + y - U128
  }

  // ---------------------------------------------------------------------------------------------
  // The keystream
  // ---------------------------------------------------------------------------------------------

  /** The encryptions of the counters c, c + 1, ..., c + count − 1, concatenated in order: the
      counter-mode keystream. */
  function Keystream(aes: Cipher, key: int, c: int, count: nat): (r: seq<uint8>)
    ensures |r| == 16 * count
    decreases count
  {
    if count == 0 then [] else aes(key, c) + Keystream(aes, key, c + 1, count - 1)
  }

  /** Keystream block j starts at byte 16·j. */
  lemma {:induction false} KeystreamBlock(aes: Cipher, key: int, c: int, count: nat, j: nat)
    requires j < count
    ensures Keystream(aes, key, c, count)[16 * j..16 * (j + 1)] == aes(key, c + j)
    decreases j
  {
    var ks := Keystream(aes, key, c, count);
    if j > 0 {
      KeystreamBlock(aes, key, c + 1, count - 1, j - 1);
      assert ks[16 * j..16 * (j + 1)]
          == Keystream(aes, key, c + 1, count - 1)[16 * (j - 1)..16 * j];
    }
  }

  /** The keystream of a + b blocks is that of a blocks followed by that of the b blocks after. */
  lemma {:induction false} KeystreamSplit(aes: Cipher, key: int, c: int, a: nat, b: nat, total: nat)
    requires total == a + b
    ensures Keystream(aes, key, c, total) == Keystream(aes, key, c, a) + Keystream(aes, key, c + a, b)
    decreases a
  {
    if a > 0 {
      KeystreamSplit(aes, key, c + 1, a - 1, b, total - 1);
      assert c + 1 + (a - 1) == c + a;
    }
  }

  /** `aes_encrypt_many`: the messages encrypted one by one under the key and concatenated in
      order (the source always passes eight). */
  function AesEncryptMany(messages: seq<int>, aes: Cipher, key: int): (r: seq<uint8>)
    ensures |r| == 16 * |messages|
    decreases |messages|
  {
    if |messages| == 0 then [] else aes(key, messages[0]) + AesEncryptMany(messages[1..], aes, key)
  }

  /** Block j of the output is the encryption of message j. */
  lemma {:induction false} AesEncryptManyBlock(messages: seq<int>, aes: Cipher, key: int, j: nat)
    requires j < |messages|
    ensures AesEncryptMany(messages, aes, key)[16 * j..16 * (j + 1)] == aes(key, messages[j])
    decreases j
  {
    if j > 0 {
      AesEncryptManyBlock(messages[1..], aes, key, j - 1);
      assert AesEncryptMany(messages, aes, key)[16 * j..16 * (j + 1)]
          == AesEncryptMany(messages[1..], aes, key)[16 * (j - 1)..16 * j];
    }
  }

  /** The counters of one refill: state, state + 1, ..., state + 7. The additions are those of a
      release build, which wrap modulo 2^128 (a debug build panics instead; see `NoOverflow`). */
  function Counters(state: int): (r: seq<int>)
    requires InU128(state)
    ensures |r| == 8 && forall j :: 0 <= j < 8 ==> r[j] == WrappingAdd128(state, j)
  {
    seq(8, j requires 0 <= j < 8 => WrappingAdd128(state, j))
  }

  /** The eight counters of a refill are pairwise distinct, even when they wrap past 2^128, so no
      two blocks of one refill encrypt the same counter. */
  lemma CountersDistinct(state: int)
    requires InU128(state)
    ensures forall i, j :: 0 <= i < j < 8 ==> Counters(state)[i] != Counters(state)[j]
  {
  }

  /** Encrypting the consecutive counters c, ..., c + count − 1 gives the keystream. */
  lemma {:induction false} ConsecutiveIsKeystream(aes: Cipher, key: int, c: int, count: nat)
    ensures AesEncryptMany(seq(count, j => c + j), aes, key) == Keystream(aes, key, c, count)
    decreases count
  {
    if count > 0 {
      ConsecutiveIsKeystream(aes, key, c + 1, count - 1);
      assert seq(count, j => c + j)[1..] == seq(count - 1, j => c + 1 + j);
    }
  }

  /** A refill that does not reach 2^128 is the keystream of the eight counters from `state` on. */
  lemma RefillIsKeystream(aes: Cipher, key: int, state: int)
    requires InU128(state) && state + 8 <= U128
    ensures AesEncryptMany(Counters(state), aes, key) == Keystream(aes, key, state, 8)
  {
    ConsecutiveIsKeystream(aes, key, state, 8);
    assert Counters(state) == seq(8, j => state + j);
  }

  // ---------------------------------------------------------------------------------------------
  // The generator as a state machine
  // ---------------------------------------------------------------------------------------------

  /** The mutable part of a generator: the counter, the buffer and the index of the last byte
      handed out. */
  datatype GeneratorState = GeneratorState(state: int, generated: seq<uint8>, idx: nat)

  /** The counter fits in a u128, the buffer holds 128 bytes and the index points into it. */
  predicate ValidState(s: GeneratorState)
  {
    InU128(s.state) && |s.generated| == 128 && s.idx < 128
  }

  /** What `new` builds from an explicit state: a zero buffer whose every byte counts as handed
      out, so that the first request refills it. */
  function Initial(state: int): (r: GeneratorState)
    requires InU128(state)
    ensures ValidState(r) && r.idx == 128 - 1 && r.state == state
    ensures forall i :: 0 <= i < 128 ==> r.generated[i] == 0
  {
    GeneratorState(state, seq(128, _ => 0), 128 - 1)
  }

  /** A new generator has handed out its whole buffer, so its first request advances the counter
      by 8 and refills the buffer from there. */
  lemma FirstRequestRefills(c: int, aes: Cipher, key: int)
    requires InU128(c)
    ensures var after := WrappingAdd128(c, 8);
      Next(Initial(c), aes, key).after == GeneratorState(after, AesEncryptMany(Counters(after), aes, key), 0)
  {
  }

  /** Whether the next request runs in a debug build without an overflow panic: a refill adds up
      to 7 to the advanced counter, which overflows when that counter exceeds 2^128 − 8. */
  predicate NoOverflow(s: GeneratorState)
    requires ValidState(s)
  {
    s.idx == 128 - 1 ==> WrappingAdd128(s.state, 8) + 8 <= U128
  }

  datatype Step = Step(after: GeneratorState, output: uint8)

  /** One request: hand out the next buffered byte or, when all 128 were handed out, advance the
      counter by 8, refill the buffer with its eight blocks and hand out byte 0. */
  function Next(s: GeneratorState, aes: Cipher, key: int): (r: Step)
    requires ValidState(s)
    ensures ValidState(r.after) && r.output == r.after.generated[r.after.idx]
  {
    if s.idx < 128 - 1 then
      Step(s.(idx := s.idx + 1), s.generated[s.idx + 1])
    else
      var state := WrappingAdd128(s.state, 8);
      var generated := AesEncryptMany(Counters(state), aes, key);
      Step(GeneratorState(state, generated, 0), generated[0])
  }

  /** A request refills exactly when the index is 127; otherwise only the index moves, by one.
      Every refill advances the counter by 8 modulo 2^128 and encrypts the eight counters from
      there; a refill without overflow loads the keystream of the eight counters after the advance. */
  lemma NextStep(s: GeneratorState, aes: Cipher, key: int)
    requires ValidState(s)
    ensures var r := Next(s, aes, key);
      var c := WrappingAdd128(s.state, 8);
      (s.idx < 128 - 1 <==> r.after == s.(idx := s.idx + 1)) &&
      (s.idx == 128 - 1 <==> r.after.idx == 0) &&
      (s.idx == 128 - 1 ==> r.after.state == c && r.after.generated == AesEncryptMany(Counters(c), aes, key)) &&
      (s.idx == 128 - 1 && NoOverflow(s) ==> r.after == GeneratorState(c, Keystream(aes, key, c, 8), 0))
  {
    if s.idx == 128 - 1 && NoOverflow(s) {
      RefillIsKeystream(aes, key, WrappingAdd128(s.state, 8));
    }
  }

  datatype Outputs = Outputs(bytes: seq<uint8>, last: GeneratorState)

  /** The bytes of n requests in a row, and the state after them. */
  function Run(s: GeneratorState, aes: Cipher, key: int, n: nat): (r: Outputs)
    requires ValidState(s)
    ensures |r.bytes| == n && ValidState(r.last)
    decreases n
  {
    if n == 0 then Outputs([], s)
    else
      var step := Next(s, aes, key);
      var rest := Run(step.after, aes, key, n - 1);
      Outputs([step.output] + rest.bytes, rest.last)
  }

  /** Without a refill, the next requests hand out the rest of the buffer in order. */
  lemma {:induction false} Drain(s: GeneratorState, aes: Cipher, key: int)
    requires ValidState(s)
    ensures Run(s, aes, key, 128 - 1 - s.idx) == Outputs(s.generated[s.idx + 1..], s.(idx := 128 - 1))
    decreases 128 - s.idx
  {
    if s.idx < 128 - 1 {
      var next := s.(idx := s.idx + 1);
      Drain(next, aes, key);
      assert s.generated[s.idx + 1..] == [s.generated[s.idx + 1]] + next.generated[next.idx + 1..];
    }
  }

  /** Runs compose: a + b requests are a requests and then b more. */
  lemma {:induction false} RunSplit(s: GeneratorState, aes: Cipher, key: int, a: nat, b: nat, total: nat)
    requires ValidState(s) && total == a + b
    ensures Run(s, aes, key, total)
         == Outputs(Run(s, aes, key, a).bytes + Run(Run(s, aes, key, a).last, aes, key, b).bytes,
                    Run(Run(s, aes, key, a).last, aes, key, b).last)
    decreases a
  {
    if a > 0 {
      var step := Next(s, aes, key);
      var first := Run(step.after, aes, key, a - 1);
      RunSplit(step.after, aes, key, a - 1, b, total - 1);
      assert [step.output] + first.bytes + Run(first.last, aes, key, b).bytes
          == [step.output] + (first.bytes + Run(first.last, aes, key, b).bytes);
    }
  }

  /** n + 1 requests are one request and then n more. */
  lemma RunUnfold(s: GeneratorState, aes: Cipher, key: int, n: nat, total: nat)
    requires ValidState(s) && total == n + 1
    ensures Run(s, aes, key, total)
         == Outputs([Next(s, aes, key).output] + Run(Next(s, aes, key).after, aes, key, n).bytes,
                    Run(Next(s, aes, key).after, aes, key, n).last)
  {
  }

  /** The first request from an exhausted buffer refills it with the keystream of the advanced
      counter and hands out its byte 0. */
  lemma RefillFirst(s: GeneratorState, aes: Cipher, key: int)
    requires ValidState(s) && s.idx == 128 - 1 && s.state + 2 * 8 <= U128
    ensures Next(s, aes, key)
         == Step(GeneratorState(s.state + 8, Keystream(aes, key, s.state + 8, 8), 0), Keystream(aes, key, s.state + 8, 8)[0])
  {
    NextStep(s, aes, key);
  }

  /** A non-empty sequence is its first element followed by the rest. */
  lemma HeadThenTail<T>(s: seq<T>)
    requires |s| > 0
    ensures [s[0]] + s[1..] == s
  {
  }

  /** The state once every byte of the refill at counter c has been handed out. */
  function Exhausted(aes: Cipher, key: int, c: int): (r: GeneratorState)
    requires InU128(c)
    ensures ValidState(r) && r.idx == 128 - 1
  {
    GeneratorState(c, Keystream(aes, key, c, 8), 128 - 1)
  }

  /** From an exhausted buffer, in every state, 128 requests refill once and hand out exactly
      the new buffer: the encryptions of the eight counters after the advance by 8, all taken
      modulo 2^128. */
  lemma RefillRound(s: GeneratorState, aes: Cipher, key: int)
    requires ValidState(s) && s.idx == 128 - 1
    ensures var c := WrappingAdd128(s.state, 8);
      var g := AesEncryptMany(Counters(c), aes, key);
      Run(s, aes, key, 128) == Outputs(g, GeneratorState(c, g, 128 - 1))
  {
    var c := WrappingAdd128(s.state, 8);
    var g := AesEncryptMany(Counters(c), aes, key);
    NextStep(s, aes, key);
    RunUnfold(s, aes, key, 127, 128);
    Drain(GeneratorState(c, g, 0), aes, key);
    HeadThenTail(g);
  }

  /** The no-wrap case of RefillRound: the new buffer is the eight keystream blocks of the
      counters after the advance. */
  lemma OneRefill(s: GeneratorState, aes: Cipher, key: int)
    requires ValidState(s) && s.idx == 128 - 1 && s.state + 2 * 8 <= U128
    ensures Run(s, aes, key, 128) == Outputs(Keystream(aes, key, s.state + 8, 8), Exhausted(aes, key, s.state + 8))
  {
    var c := s.state + 8;
    var ks := Keystream(aes, key, c, 8);
    var refilled := GeneratorState(c, ks, 0);
    RefillFirst(s, aes, key);
    RunUnfold(s, aes, key, 127, 128);
    Drain(refilled, aes, key);
    assert refilled.(idx := 128 - 1) == Exhausted(aes, key, c);
    HeadThenTail(ks);
  }

  /** s has handed out its whole buffer at counter c, and q > 0 more refills take the counter to
      e without any counter reaching 2^128. */
  predicate RefillsAhead(s: GeneratorState, c: int, q: nat, e: int)
  {
    ValidState(s) && s.idx == 128 - 1 && s.state == c && q > 0 && e == c + 8 * q && e + 8 <= U128
  }

  /** OneRefill, stated as CounterMode's base case. */
  lemma OneRefillCount(s: GeneratorState, aes: Cipher, key: int, c: int, q: nat, e: int)
    requires RefillsAhead(s, c, q, e) && q == 1
    ensures Run(s, aes, key, 128 * q) == Outputs(Keystream(aes, key, c + 8, 8 * q), Exhausted(aes, key, e))
  {
    OneRefill(s, aes, key);
  }

  /** A refill of 128 requests followed by n requests that hand out `later` hands out the
      refill's keystream and then `later`. */
  lemma RefillThenRun(s: GeneratorState, aes: Cipher, key: int, mid: GeneratorState, n: nat, total: nat,
                      later: seq<uint8>, last: GeneratorState)
    requires ValidState(s) && s.idx == 128 - 1 && s.state + 2 * 8 <= U128 && total == 128 + n
    requires mid == Exhausted(aes, key, s.state + 8) && Run(mid, aes, key, n) == Outputs(later, last)
    ensures Run(s, aes, key, total) == Outputs(Keystream(aes, key, s.state + 8, 8) + later, last)
  {
    OneRefill(s, aes, key);
    RunSplit(s, aes, key, 128, n, total);
  }

  /** The induction step of CounterMode: the refill at counter c, then `bytes` requests that
      hand out the keystream of `blocks` blocks from c + 8, hand out the keystream of 8 + blocks
      blocks from c. */
  lemma CounterModeStep(s: GeneratorState, aes: Cipher, key: int, c: int, e: int,
                        blocks: nat, totalBlocks: nat, bytes: nat, total: nat)
    requires ValidState(s) && s.idx == 128 - 1 && c == s.state + 8 && c + 8 <= U128 && InU128(e)
    requires totalBlocks == 8 + blocks && total == 128 + bytes
    requires Run(Exhausted(aes, key, c), aes, key, bytes) == Outputs(Keystream(aes, key, c + 8, blocks), Exhausted(aes, key, e))
    ensures Run(s, aes, key, total) == Outputs(Keystream(aes, key, c, totalBlocks), Exhausted(aes, key, e))
  {
    RefillThenRun(s, aes, key, Exhausted(aes, key, c), bytes, total, Keystream(aes, key, c + 8, blocks), Exhausted(aes, key, e));
    KeystreamSplit(aes, key, c, 8, blocks, totalBlocks);
  }

  /** Counter mode: from an exhausted buffer and counter c, 128·q requests hand out the keystream
      of the counters c + 8, c + 9, ..., c + 8q + 7, in order, and end exhausted at counter
      e = c + 8q, as long as no counter reaches 2^128. */
  lemma {:induction false} CounterMode(s: GeneratorState, aes: Cipher, key: int, c: int, q: nat, e: int)
    requires RefillsAhead(s, c, q, e)
    ensures Run(s, aes, key, 128 * q) == Outputs(Keystream(aes, key, c + 8, 8 * q), Exhausted(aes, key, e))
    decreases q
  {
    if q > 1 {
      CounterMode(Exhausted(aes, key, c + 8), aes, key, c + 8, q - 1, e);
      CounterModeStep(s, aes, key, c + 8, e, 8 * (q - 1), 8 * q, 128 * (q - 1), 128 * q);
    } else {
      OneRefillCount(s, aes, key, c, q, e);
    }
  }

  /** A new generator with state c hands out, for its first 128·q bytes, the keystream of the
      counters c + 8, c + 9, ...: the output depends on nothing but the key and the state. */
  lemma FreshOutput(aes: Cipher, key: int, c: int, q: nat)
    requires InU128(c) && q > 0 && c + 8 * (q + 1) <= U128
    ensures Run(Initial(c), aes, key, 128 * q).bytes == Keystream(aes, key, c + 8, 8 * q)
  {
    assert RefillsAhead(Initial(c), c, q, c + 8 * q);
    CounterMode(Initial(c), aes, key, c, q, c + 8 * q);
  }

  // ---------------------------------------------------------------------------------------------
  // The generator object
  // ---------------------------------------------------------------------------------------------

  /** `RandomGenerator`: the AES key schedule is the pair (aes, key); the counter, the buffer
      and the index change as bytes are requested. */
  class RandomGenerator {
    var state: int
    var generated: seq<uint8>
    var generatedIdx: nat
    const key: int
    const aes: Cipher

    function Snapshot(): GeneratorState
      reads this
    {
      GeneratorState(state, generated, generatedIdx)
    }

    ghost predicate Valid()
      reads this
    {
      ValidState(Snapshot())
    }

    /** `new` with an explicit key and state. */
    constructor New(key: int, state: int, aes: Cipher)
      requires InU128(key) && InU128(state)
      ensures Valid() && Snapshot() == Initial(state)
      ensures this.key == key && this.aes == aes
    {
      this.state := state;
      this.generated := seq(128, _ => 0);
      this.generatedIdx := 128 - 1;
      this.key := key;
      this.aes := aes;
    }

    /** Advances the counter by 8, wrapping modulo 2^128. */
    method UpdateState()
      requires Valid()
      modifies this
      ensures Valid() && Snapshot() == old(Snapshot()).(state := WrappingAdd128(old(state), 8))
    {
      state := WrappingAdd128(state, 8);
    }

    /** Hands out the next byte, refilling the buffer when all 128 bytes were handed out. */
    method GenerateNext() returns (b: uint8)
      requires Valid()
      modifies this
      ensures Valid() && Step(Snapshot(), b) == Next(old(Snapshot()), aes, key)
    {
      if generatedIdx < 128 - 1 {
        generatedIdx := generatedIdx + 1;
      } else {
        UpdateState();
        generated := AesEncryptMany(Counters(state), aes, key);
        generatedIdx := 0;
      }
      b := generated[generatedIdx];
    }
  }
}
