/**
 * The codec: `hide` records, for each bit of the message, one letter of an
 * encodable round of the cover text (the frontal letter for 0, the
 * posterior letter for 1); `seek` replays the same rounds over the cover to
 * read the bits back from the key. Both walk the traversal `Rounds` of the
 * scanner, which is what keeps them in step.
 */
module Stego {
  import opened Bits
  import opened Scanner

  /** The key letter for one bit: `bit === 0 ? frontal : posterior`. */
  function Letter(r: Round, bit: Bit): char
  {
    if bit == 0 then r.frontal else r.posterior
  }

  /** The bit a key letter decodes to: 1 when it is the posterior letter,
      0 otherwise, also when it is neither letter of the round. */
  function BitOf(r: Round, c: char): Bit
  {
    if c == r.posterior then 1 else 0
  }

  /** The key `hide` returns: one letter per message bit over the rounds of
      the cover in order, or the empty key when the rounds run out first. */
  function HideKey(cover: string, input: seq<Byte>): string
  {
    var rounds := Rounds(Split(cover));
    var bits := ToBits(input);
    if |bits| <= |rounds| then KeyLetters(rounds, bits) else ""
  }

  /** The letters `hide` writes: one per bit, from the round in the same
      position. */
  function KeyLetters(rounds: seq<Round>, bits: seq<Bit>): string
    requires |bits| <= |rounds|
  {
    seq(|bits|, k requires 0 <= k < |bits| => Letter(rounds[k], bits[k]))
  }

  /** `hide` writes letter `k` for bit `k` from round `k`. */
  lemma {:induction false} KeyLettersAt(rounds: seq<Round>, bits: seq<Bit>, k: nat)
    requires k < |bits| <= |rounds|
    ensures |KeyLetters(rounds, bits)| == |bits|
    ensures KeyLetters(rounds, bits)[k] == Letter(rounds[k], bits[k])
  {
  }

  /** The bits `seek` reads: one per key letter, as long as rounds last. */
  function KeyBits(rounds: seq<Round>, key: string): seq<Bit>
  {
    var n := if |rounds| < |key| then |rounds| else |key|;
    seq(n, k requires 0 <= k < n => BitOf(rounds[k], key[k]))
  }

  /** `seek` reads bit `k` from key letter `k` and round `k`. */
  lemma {:induction false} KeyBitsAt(rounds: seq<Round>, key: string, k: nat)
    requires k < |rounds| && k < |key|
    ensures k < |KeyBits(rounds, key)|
    ensures KeyBits(rounds, key)[k] == BitOf(rounds[k], key[k])
  {
  }

  /** The message `seek` returns: a buffer of `floor(|key| / 8)` bytes holding
      the complete bytes read, then zeros where the words ran out. */
  function SeekMessage(file: string, key: string): seq<Byte>
  {
    var bits := KeyBits(Rounds(Split(file)), key);
    FromBits(bits) + seq(|key| / 8 - |bits| / 8, _ => 0)
  }

  /** One round of the inner loop: the remaining rounds `all[i..]` of the
      word start at round `n`; an encodable round is `all[i]`, a skipped one
      leaves the remaining rounds as they were. */
  lemma {:induction false} RoundStep(word: string, n: nat, rest: seq<Round>, all: seq<Round>, i: nat)
    requires n < |word| / 2 && i <= |all|
    requires all[i..] == RoundsFrom(word, n) + rest
    ensures word[n] != word[|word| - 1 - n] ==>
      i < |all| && all[i] == Round(word[n], word[|word| - 1 - n]) &&
      all[i + 1..] == RoundsFrom(word, n + 1) + rest
    ensures word[n] == word[|word| - 1 - n] ==> all[i..] == RoundsFrom(word, n + 1) + rest
  {
    if word[n] != word[|word| - 1 - n] {
      assert all[i..][0] == all[i];
      assert all[i + 1..] == all[i..][1..];
    }
  }

  /** The key so far holds the letter of each bit spent, in order. */
  ghost predicate KeyMatches(key: string, all: seq<Round>, bits: seq<Bit>)
  {
    |key| <= |all| && |key| <= |bits| &&
    forall k :: 0 <= k < |key| ==> key[k] == Letter(all[k], bits[k])
  }

  lemma {:induction false} KeyExtend(key: string, all: seq<Round>, bits: seq<Bit>, c: char)
    requires KeyMatches(key, all, bits) && |key| < |all| && |key| < |bits|
    requires c == Letter(all[|key|], bits[|key|])
    ensures KeyMatches(key + [c], all, bits)
  {
  }

  /** A key with a matching letter for every bit is the key `hide` returns. */
  lemma {:induction false} HideKeyAll(cover: string, input: seq<Byte>, key: string)
    requires |key| == |ToBits(input)|
    requires KeyMatches(key, Rounds(Split(cover)), ToBits(input))
    ensures key == HideKey(cover, input)
  {
    var rounds, bits, hidden := Rounds(Split(cover)), ToBits(input), HideKey(cover, input);
    assert |hidden| == |key|;
    forall k | 0 <= k < |key|
      ensures key[k] == hidden[k]
    {
      KeyLettersAt(rounds, bits, k);
    }
  }

  /**
   * The inner loop of `hide` over the rounds of one qualifying word: each
   * encodable round spends one bit and appends its letter to the key. The
   * round after the last bit is counted but adds no letter, and ends the
   * loop.
   */
  method HideWord(word: string, bits: seq<Bit>, key0: string, bitIndex0: nat,
                  ghost all: seq<Round>, ghost rest: seq<Round>)
    returns (key: string, bitIndex: nat)
    requires bitIndex0 < |bits| && |key0| == bitIndex0
    requires bitIndex0 <= |all| && all[bitIndex0..] == WordRounds(word) + rest
    requires KeyMatches(key0, all, bits)
    ensures bitIndex <= |bits| + 1
    ensures |key| == (if bitIndex <= |bits| then bitIndex else |bits|)
    ensures KeyMatches(key, all, bits)
    ensures bitIndex <= |bits| ==> bitIndex <= |all| && all[bitIndex..] == rest
  {
    key, bitIndex := key0, bitIndex0;
    var bitsLength := |bits|;
    var letterRounds := |word| / 2;

    for letterIndex := 0 to letterRounds
      invariant bitIndex <= bitsLength && |key| == bitIndex
      invariant bitIndex <= |all|
      invariant KeyMatches(key, all, bits)
      invariant all[bitIndex..] == RoundsFrom(word, letterIndex) + rest
    {
      RoundStep(word, letterIndex, rest, all, bitIndex);
      var frontalLetter := word[letterIndex];
      var posteriorLetter := word[|word| - 1 - letterIndex];
      if frontalLetter == posteriorLetter {
        continue;
      }

      // `bits[bitIndex]` is undefined once every bit is spent
      var bit := if bitIndex < bitsLength then Some(bits[bitIndex]) else None;
      bitIndex := bitIndex + 1;
      if bitIndex > bitsLength {
        break;
      }

      KeyExtend(key, all, bits, if bit == Some(0) then frontalLetter else posteriorLetter);
      key := key + [if bit == Some(0) then frontalLetter else posteriorLetter];
    }
  }

  /**
   * `hide`: expands the message into bits, then walks the qualifying words
   * left to right, spending one bit on each encodable round. When words run
   * out before bits do, the key is empty.
   */
  method Hide(cover: string, input: seq<Byte>) returns (stego: string, key: string)
    ensures stego == cover
    ensures key == HideKey(cover, input)
  {
    var words := Split(cover);
    key := "";
    var bits := ExpandBits(input);
    var bitsLength := |bits|;
    var bitIndex: nat := 0;
    ghost var all := Rounds(words);

    while bitIndex < bitsLength
      invariant bitIndex <= bitsLength + 1
      invariant |key| == (if bitIndex <= bitsLength then bitIndex else bitsLength)
      invariant KeyMatches(key, all, bits)
      invariant bitIndex <= bitsLength ==> bitIndex <= |all| && all[bitIndex..] == Rounds(words)
      decreases |words|
    {
      var wordIndex := FirstQualifying(words);
      RoundsStep(words);
      if wordIndex < 0 {
        return cover, "";
      }

      key, bitIndex := HideWord(words[wordIndex], bits, key, bitIndex, all, Rounds(words[wordIndex + 1..]));
      words := words[wordIndex + 1..];
    }

    HideKeyAll(cover, input, key);
    return cover, key;
  }

  /** The buffer holds byte `j` exactly when the first `upto` key bits cover
      it, and 0 otherwise. */
  ghost predicate Filled(m: seq<Byte>, bits: seq<Bit>, upto: nat)
  {
    forall j :: 0 <= j < |m| ==>
      m[j] == if 8 * j + 8 <= upto && 8 * j + 8 <= |bits| then Pack(bits[8 * j..8 * j + 8]) else 0
  }

  /** Decoding one more bit changes no slot unless it completes a byte. */
  lemma {:induction false} FilledNext(m: seq<Byte>, bits: seq<Bit>, upto: nat)
    requires Filled(m, bits, upto) && (upto + 1) % 8 != 0
    ensures Filled(m, bits, upto + 1)
  {
  }

  /** Storing the completed byte `i` fills its slot. */
  lemma {:induction false} FilledStore(m: seq<Byte>, bits: seq<Bit>, i: nat, b: Byte)
    requires Filled(m, bits, 8 * i + 7) && 8 * i + 8 <= |bits|
    requires i < |m| && b == Pack(bits[8 * i..8 * i + 8])
    ensures Filled(m[i := b], bits, 8 * i + 8)
  {
  }

  /** A byte past the end of the buffer changes nothing that is kept. */
  lemma {:induction false} FilledDrop(m: seq<Byte>, bits: seq<Bit>, i: nat)
    requires Filled(m, bits, 8 * i + 7) && |m| <= i
    ensures Filled(m, bits, 8 * i + 8)
  {
  }

  /** After one more key letter, `keyIndex % 8 == 0` exactly when the byte
      being accumulated is complete, and the slot it goes to is inside the
      buffer exactly when the whole byte lies within the key. */
  lemma {:induction false} StoreIndex(k: nat, m: nat, len: nat)
    requires 8 * m < k <= 8 * m + 8
    ensures k % 8 == 0 <==> k == 8 * m + 8
    ensures m < len / 8 <==> 8 * m + 8 <= len
    ensures k % 8 == 0 && k <= len + 1 && len / 8 <= m ==> k == len + 1
  {
    if k % 8 == 0 {
      DivUnique(k, 8, k / 8, 0);
      assert k == 8 * (k / 8);
    }
    if 8 * m + 8 <= len {
      DivUnique(len, 8, len / 8, len % 8);
    }
  }

  /** A `Uint8Array` keeps its value modulo 256; a value below 256 is kept
      as it is. */
  lemma {:induction false} ByteStore(x: int)
    requires 0 <= x < 256
    ensures x % 256 == x
  {
  }

  /** One accumulation step of `seek`: `(byte << 1) | bit`, where the bit is
      1 exactly when the key letter is the posterior letter of the round. */
  lemma {:induction false} Accumulate(all: seq<Round>, key: string, lo: nat, i: nat, before: nat, after: nat)
    requires lo <= i < |all| && i < |key|
    requires before == Pack(KeyBits(all, key)[lo..i])
    requires after == 2 * before + (if At(key, i) == Some(all[i].posterior) then 1 else 0)
    ensures after == Pack(KeyBits(all, key)[lo..i + 1])
  {
    var bits := KeyBits(all, key);
    assert bits[lo..i + 1] == bits[lo..i] + [bits[i]];
    PackSnoc(bits[lo..i], bits[i]);
  }

  /** Shifting in the bit of key letter `k` extends the byte in progress by
      that bit; the buffer is untouched. */
  lemma {:induction false} DecodeShift(all: seq<Round>, key: string, m: seq<Byte>,
                                       before: int, after: int, k: nat, mi: nat)
    requires k < |all| && k <= |key|
    requires Decoding(KeyBits(all, key), m, before, k, mi)
    requires after == 2 * before + (if At(key, k) == Some(all[k].posterior) then 1 else 0)
    ensures Filled(m, KeyBits(all, key), k) && 8 * mi <= k < 8 * mi + 8
    ensures k + 1 <= |KeyBits(all, key)| ==> after == Pack(KeyBits(all, key)[8 * mi..k + 1])
  {
    var bits := KeyBits(all, key);
    assert |bits| == if |all| < |key| then |all| else |key|;
    if k < |key| {
      Accumulate(all, key, 8 * mi, k, before, after);
    }
  }

  /** What `seek` has built after `keyIndex` key letters: `messageIndex`
      complete bytes, the bits of the byte in progress in `byte`, and the
      buffer filled up to the last complete byte. */
  ghost predicate Decoding(bits: seq<Bit>, m: seq<Byte>, byte: int, keyIndex: nat, messageIndex: nat)
  {
    8 * messageIndex <= keyIndex < 8 * messageIndex + 8 &&
    Filled(m, bits, keyIndex) &&
    (keyIndex <= |bits| ==> byte == Pack(bits[8 * messageIndex..keyIndex]))
  }

  /** A key letter that does not complete a byte only extends `byte`. */
  lemma {:induction false} DecodeNext(bits: seq<Bit>, m: seq<Byte>, byte: int, k: nat, mi: nat)
    requires Filled(m, bits, k) && 8 * mi <= k && k + 1 < 8 * mi + 8
    requires k + 1 <= |bits| ==> byte == Pack(bits[8 * mi..k + 1])
    ensures Decoding(bits, m, byte, k + 1, mi)
  {
    StoreIndex(k + 1, mi, 0);
    FilledNext(m, bits, k);
  }

  /** A key letter that completes a byte inside the buffer stores it and
      starts the next byte from 0. */
  lemma {:induction false} DecodeStore(bits: seq<Bit>, m: seq<Byte>, byte: int, k: nat, mi: nat)
    requires Filled(m, bits, k) && k + 1 == 8 * mi + 8 && k + 1 <= |bits| && mi < |m|
    requires byte == Pack(bits[8 * mi..k + 1])
    ensures 0 <= byte < 256 && byte % 256 == byte
    ensures Decoding(bits, m[mi := (byte % 256) as Byte], 0, k + 1, mi + 1)
  {
    PackByte(bits[8 * mi..k + 1]);
    ByteStore(byte);
    FilledStore(m, bits, mi, byte);
  }

  /** A byte completed past the end of the buffer is dropped. */
  lemma {:induction false} DecodeDrop(bits: seq<Bit>, m: seq<Byte>, k: nat, mi: nat)
    requires Filled(m, bits, k) && k + 1 == 8 * mi + 8 && |m| <= mi
    ensures Decoding(bits, m, 0, k + 1, mi + 1)
  {
    FilledDrop(m, bits, mi);
  }

  /**
   * One encodable round of `seek`: shift the key letter's bit into `byte`
   * (1 when the letter is the posterior letter, else 0), count the letter,
   * and store `byte` into the buffer when it completes a group of eight.
   * When the key is already spent the letter is `undefined` and shifts in 0;
   * the store it may trigger falls outside the buffer and is dropped.
   */
  method ReadLetter(key: string, message: array<Byte>, posteriorLetter: char,
                    byte0: int, keyIndex0: nat, messageIndex0: nat, ghost all: seq<Round>)
    returns (byte: int, keyIndex: nat, messageIndex: nat)
    modifies message
    requires message.Length == |key| / 8
    requires keyIndex0 <= |key| && keyIndex0 < |all|
    requires all[keyIndex0].posterior == posteriorLetter
    requires Decoding(KeyBits(all, key), message[..], byte0, keyIndex0, messageIndex0)
    ensures keyIndex == keyIndex0 + 1
    ensures Decoding(KeyBits(all, key), message[..], byte, keyIndex, messageIndex)
  {
    byte, keyIndex, messageIndex := byte0, keyIndex0, messageIndex0;
    ghost var bits := KeyBits(all, key);

    // `key[keyIndex]` is undefined once the key is spent
    var keyCharacter := At(key, keyIndex);
    byte := byte * 2;  // byte << 1
    // a frontal letter ORs in 0, which leaves `byte` as it is
    if keyCharacter == Some(posteriorLetter) {
      byte := byte + 1;
    }

    ghost var k, m := keyIndex, message[..];
    DecodeShift(all, key, m, byte0, byte, k, messageIndex);
    StoreIndex(k + 1, messageIndex, |key|);

    keyIndex := keyIndex + 1;
    if keyIndex % 8 == 0 {
      // only the step past the end of the key can reach past the buffer
      assert messageIndex < message.Length || keyIndex == |key| + 1;
      if messageIndex < message.Length {
        DecodeStore(bits, m, byte, k, messageIndex);
        message[messageIndex] := byte % 256;
        assert message[..] == m[messageIndex := (byte % 256) as Byte];
      } else {
        DecodeDrop(bits, m, k, messageIndex);
      }
      messageIndex := messageIndex + 1;
      byte := 0;
    } else {
      DecodeNext(bits, m, byte, k, messageIndex);
    }
  }

  /**
   * The inner loop of `seek` over the rounds of one qualifying word. Once
   * the key is spent, the loop reads at most one more encodable round, when
   * the word still has one, and then breaks; otherwise it ends with the
   * word's rounds.
   */
  method SeekWord(word: string, key: string, message: array<Byte>,
                  byte0: int, keyIndex0: nat, messageIndex0: nat,
                  ghost all: seq<Round>, ghost rest: seq<Round>)
    returns (byte: int, keyIndex: nat, messageIndex: nat)
    modifies message
    requires message.Length == |key| / 8
    requires keyIndex0 < |key| && keyIndex0 <= |all|
    requires all[keyIndex0..] == WordRounds(word) + rest
    requires Decoding(KeyBits(all, key), message[..], byte0, keyIndex0, messageIndex0)
    ensures keyIndex <= |key| + 1
    ensures Decoding(KeyBits(all, key), message[..], byte, keyIndex, messageIndex)
    ensures keyIndex <= |key| ==> keyIndex <= |all| && all[keyIndex..] == rest
    ensures keyIndex > |key| ==> |all| > |key|
  {
    byte, keyIndex, messageIndex := byte0, keyIndex0, messageIndex0;
    var keyLength := |key|;
    var letterRounds := |word| / 2;

    for letterIndex := 0 to letterRounds
      invariant keyIndex <= keyLength && keyIndex <= |all|
      invariant all[keyIndex..] == RoundsFrom(word, letterIndex) + rest
      invariant Decoding(KeyBits(all, key), message[..], byte, keyIndex, messageIndex)
    {
      RoundStep(word, letterIndex, rest, all, keyIndex);
      var frontalLetter := word[letterIndex];
      var posteriorLetter := word[|word| - 1 - letterIndex];
      if frontalLetter == posteriorLetter {
        continue;
      }

      byte, keyIndex, messageIndex :=
        ReadLetter(key, message, posteriorLetter, byte, keyIndex, messageIndex, all);

      if keyIndex > keyLength {
        break;
      }
    }
  }

  /**
   * `seek`: replays the traversal of `hide` over the cover, shifting one bit
   * per key letter into an accumulator and storing it into a zero-filled
   * buffer every eight letters. It stops early when the words run out.
   */
  method Seek(file: string, key: string) returns (message: array<Byte>)
    ensures fresh(message)
    ensures message[..] == SeekMessage(file, key)
  {
    var words := Split(file);
    var keyLength := |key|;

    var keyIndex: nat := 0;
    var messageIndex: nat := 0;

    message := new Byte[keyLength / 8](_ => 0);
    var byte := 0;

    ghost var all := Rounds(words);
    ghost var bits := KeyBits(all, key);

    while keyIndex < keyLength
      invariant keyIndex <= keyLength + 1
      invariant message.Length == keyLength / 8
      invariant keyIndex <= keyLength ==> keyIndex <= |all| && all[keyIndex..] == Rounds(words)
      invariant keyIndex > keyLength ==> |all| > keyLength
      invariant Decoding(bits, message[..], byte, keyIndex, messageIndex)
      decreases |words|
    {
      var wordIndex := FirstQualifying(words);
      RoundsStep(words);
      if wordIndex < 0 {
        SeekMessageAll(file, key, message[..], keyIndex);
        return;
      }

      var word := words[wordIndex];
      byte, keyIndex, messageIndex :=
        SeekWord(word, key, message, byte, keyIndex, messageIndex, all, Rounds(words[wordIndex + 1..]));

      words := words[wordIndex + 1..];
    }

    SeekMessageAll(file, key, message[..], keyIndex);
  }

  /** Byte `j` of the decoded message is the packing of key bits 8j..8j+7
      when the rounds reached that far, and 0 otherwise; the buffer always
      holds `floor(|key| / 8)` bytes, so trailing key letters are dropped. */
  lemma {:induction false} SeekMessageAt(file: string, key: string, j: nat)
    requires j < |key| / 8
    ensures |SeekMessage(file, key)| == |key| / 8
    ensures var bits := KeyBits(Rounds(Split(file)), key);
      SeekMessage(file, key)[j] == if 8 * j + 8 <= |bits| then Pack(bits[8 * j..8 * j + 8]) else 0
  {
    var bits := KeyBits(Rounds(Split(file)), key);
    if 8 * j + 8 <= |bits| {
      FromBitsAt(bits, j);
    }
  }

  /** The buffer `seek` fills, read as a whole: every byte slot the key
      bits cover is filled, so the buffer is the decoded message. */
  lemma {:induction false} SeekMessageAll(file: string, key: string, m: seq<Byte>, done: nat)
    requires |m| == |key| / 8
    requires done >= |KeyBits(Rounds(Split(file)), key)|
    requires Filled(m, KeyBits(Rounds(Split(file)), key), done)
    ensures m == SeekMessage(file, key)
  {
    forall j | 0 <= j < |m|
      ensures m[j] == SeekMessage(file, key)[j]
    {
      SeekMessageAt(file, key, j);
    }
  }

  /** `hide` fails, returning the empty key, exactly when the message has
      bits that the cover's encodable rounds cannot hold; an empty message
      also yields the empty key. */
  lemma {:induction false} HideFailsIff(cover: string, input: seq<Byte>)
    ensures HideKey(cover, input) == "" <==>
      |input| == 0 || |Rounds(Split(cover))| < 8 * |input|
  {
    ToBitsLength(input);
  }

  /** A cover without a qualifying word cannot hide a non-empty message. */
  lemma {:induction false} CapacityFailure(cover: string, input: seq<Byte>)
    requires forall i :: 0 <= i < |Split(cover)| ==> !Qualifies(Split(cover)[i])
    ensures HideKey(cover, input) == ""
  {
    var words := Split(cover);
    RoundsStep(words);
    HideFailsIff(cover, input);
  }

  /** On success the key holds one letter per bit, 8 per byte: for bit `j`
      (most significant first) of byte `i`, the letter at 8i+j is the
      frontal letter of round 8i+j when the bit is 0 and its posterior
      letter when it is 1. */
  lemma {:induction false} HideKeyAt(cover: string, input: seq<Byte>, i: nat, j: nat)
    requires 8 * |input| <= |Rounds(Split(cover))|
    requires i < |input| && j < 8
    ensures var key, rounds := HideKey(cover, input), Rounds(Split(cover));
      |key| == 8 * |input| &&
      key[8 * i + j] == if Shr(input[i], 7 - j) % 2 == 0 then rounds[8 * i + j].frontal
                        else rounds[8 * i + j].posterior
  {
    var k := 8 * i + j;
    ToBitsAt(input, i, j);
    KeyLettersAt(Rounds(Split(cover)), ToBits(input), k);
    var bit := ToBits(input)[k];
    assert bit == Shr(input[i], 7 - j) % 2;
    assert HideKey(cover, input)[k] == Letter(Rounds(Split(cover))[k], bit);
  }

  /** Bit `t` (most significant first) of byte `j` of the decoded message is
      1 exactly when key letter 8j+t is the posterior letter of its round,
      provided the cover has rounds for the whole byte. */
  lemma {:induction false} SeekBitAt(file: string, key: string, j: nat, t: nat)
    requires j < |key| / 8 && t < 8
    requires 8 * j + 8 <= |Rounds(Split(file))|
    ensures var rounds := Rounds(Split(file));
      Shr(SeekMessage(file, key)[j], 7 - t) % 2 == 1 <==> key[8 * j + t] == rounds[8 * j + t].posterior
  {
    var rounds := Rounds(Split(file));
    var bits := KeyBits(rounds, key);
    assert 8 * j + 8 <= |key|;
    assert |bits| >= 8 * j + 8;
    SeekMessageAt(file, key, j);
    var group := bits[8 * j..8 * j + 8];
    assert SeekMessage(file, key)[j] == Pack(group);
    PackBit(group, t);
    KeyBitsAt(rounds, key, 8 * j + t);
    assert group[t] == bits[8 * j + t];
  }

  /** Decoding the key `hide` produced against the same cover gives the
      message back, whenever `hide` placed every bit. */
  lemma {:induction false} RoundTrip(cover: string, input: seq<Byte>)
    requires |HideKey(cover, input)| == 8 * |input|
    ensures SeekMessage(cover, HideKey(cover, input)) == input
  {
    var rounds, bits, key := Rounds(Split(cover)), ToBits(input), HideKey(cover, input);
    ToBitsLength(input);
    HideFailsIff(cover, input);
    if |input| > 0 {
      assert |bits| <= |rounds|;
      var decoded := KeyBits(rounds, key);
      assert |decoded| == |bits|;
      forall k | 0 <= k < |bits|
        ensures decoded[k] == bits[k]
      {
        KeyLettersAt(Rounds(Split(cover)), ToBits(input), k);
      }
      assert decoded == bits;
      FromToBits(input);
    } else {
      assert key == "";
    }
  }

  /** The cover of the worked example: eight two-letter words. */
  const ExampleCover := "ab cd ef gh ij kl mn op"

  const ExampleWords: seq<string> := ["ab", "cd", "ef", "gh", "ij", "kl", "mn", "op"]

  /** One round per word: the first letter is frontal, the second posterior. */
  const ExampleRounds: seq<Round> :=
    [Round('a', 'b'), Round('c', 'd'), Round('e', 'f'), Round('g', 'h'),
     Round('i', 'j'), Round('k', 'l'), Round('m', 'n'), Round('o', 'p')]

  // The example cover is put together word by word from the end, a few
  // words per lemma, so that each proof stays small.

  lemma ExampleJoinLast()
    ensures Join(ExampleWords[5..]) == "kl mn op"
  {
    JoinCons(ExampleWords[6..], "op");
    JoinCons(ExampleWords[5..], "mn op");
  }

  lemma ExampleJoinMiddle()
    ensures Join(ExampleWords[3..]) == "gh ij kl mn op"
  {
    ExampleJoinLast();
    JoinCons(ExampleWords[4..], "kl mn op");
    JoinCons(ExampleWords[3..], "ij kl mn op");
  }

  lemma ExampleJoinTail()
    ensures Join(ExampleWords[1..]) == "cd ef gh ij kl mn op"
  {
    ExampleJoinMiddle();
    JoinCons(ExampleWords[2..], "gh ij kl mn op");
    JoinCons(ExampleWords[1..], "ef gh ij kl mn op");
  }

  lemma ExampleCoverHead()
    ensures ExampleWords[0] + " " + "cd ef gh ij kl mn op" == ExampleCover
  {
  }

  lemma ExampleJoin()
    ensures Join(ExampleWords) == ExampleCover
  {
    ExampleJoinTail();
    JoinCons(ExampleWords, "cd ef gh ij kl mn op");
    ExampleCoverHead();
  }

  lemma ExampleNoSpaces()
    ensures forall i :: 0 <= i < |ExampleWords| ==> ' ' !in ExampleWords[i]
  {
  }

  /** Splitting the example cover on spaces gives its eight words. */
  lemma ExampleSplit()
    ensures Split(ExampleCover) == ExampleWords
  {
    ExampleJoin();
    ExampleNoSpaces();
    SplitJoin(ExampleWords);
  }

  /** A leading two-letter word with distinct letters contributes exactly
      one round. */
  lemma {:induction false} PairRounds(words: seq<string>)
    requires |words| >= 1 && |words[0]| == 2 && words[0][0] != words[0][1]
    ensures Rounds(words) == [Round(words[0][0], words[0][1])] + Rounds(words[1..])
  {
    assert RoundsFrom(words[0], 1) == [];
  }

  lemma ExampleRoundsLast()
    ensures Rounds(ExampleWords[4..]) == [Round('i', 'j'), Round('k', 'l'), Round('m', 'n'), Round('o', 'p')]
  {
    PairRounds(ExampleWords[7..]);
    PairRounds(ExampleWords[6..]);
    PairRounds(ExampleWords[5..]);
    PairRounds(ExampleWords[4..]);
  }

  lemma ExampleWordRounds()
    ensures Rounds(ExampleWords) == ExampleRounds
  {
    ExampleRoundsLast();
    PairRounds(ExampleWords[3..]);
    PairRounds(ExampleWords[2..]);
    PairRounds(ExampleWords[1..]);
    PairRounds(ExampleWords);
  }

  /** Every word of the example cover qualifies and is one encodable round. */
  lemma ExampleCoverRounds()
    ensures Rounds(Split(ExampleCover)) == ExampleRounds
  {
    ExampleSplit();
    ExampleWordRounds();
  }

  /** The byte 65 is 01000001, most significant bit first. */
  lemma ExampleBits()
    ensures ToBits([65]) == [0, 1, 0, 0, 0, 0, 0, 1]
  {
    assert BitsOf(1, 1) == [1];
    assert BitsOf(2, 2) == [1, 0];
    assert BitsOf(4, 3) == [1, 0, 0];
    assert BitsOf(8, 4) == [1, 0, 0, 0];
    assert BitsOf(16, 5) == [1, 0, 0, 0, 0];
    assert BitsOf(32, 6) == [1, 0, 0, 0, 0, 0];
    assert BitsOf(65, 8) == [0] + BitsOf(32, 6) + [1];
  }

  lemma {:induction false} ExampleLetters(bits: seq<Bit>)
    requires bits == [0, 1, 0, 0, 0, 0, 0, 1]
    ensures KeyLetters(ExampleRounds, bits) == "adegikmp"
  {
  }

  /** Hiding the byte 65 in the example cover takes the frontal letter for
      each 0 bit and the posterior letter for each 1 bit. */
  lemma ExampleHide()
    ensures HideKey(ExampleCover, [65]) == "adegikmp"
  {
    ExampleCoverRounds();
    ExampleBits();
    ExampleLetters(ToBits([65]));
  }

  /** Decoding the example key gives the byte 65 back; a two-letter key is
      too short for a byte and decodes to no bytes at all. */
  lemma ExampleSeek()
    ensures SeekMessage(ExampleCover, "adegikmp") == [65]
    ensures SeekMessage(ExampleCover, "ad") == []
  {
    ExampleHide();
    RoundTrip(ExampleCover, [65]);
  }
}
