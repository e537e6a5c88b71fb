# inconspicuous — a verified model of the steganography codec

The codec hides a byte message in an ordinary cover text. It does not change
the text. Instead it produces a *key*: one letter for every bit of the message.

- `hide` splits the cover on single spaces. It expands the message into bits,
  most significant bit first. It then walks the *qualifying* words from left
  to right; a word qualifies when its first and last characters differ.
- Each word of length `n` has `floor(n / 2)` *rounds*. Round `i` pairs the
  *frontal* letter `word[i]` with the *posterior* letter `word[n - 1 - i]`.
- A round whose two letters differ is *encodable*. It spends one bit and adds
  a letter to the key: the frontal letter for 0 and the posterior letter
  for 1. A round whose letters are equal is skipped.
- When the words run out before the bits do, `hide` returns the cover with
  the empty key. It never returns a partial key.
- `seek` replays the same walk over the cover to decode a key. It starts
  from a zero-filled buffer of `floor(|key| / 8)` bytes. For each encodable
  round it shifts the byte in progress left and ORs in 1 when the key letter
  is the posterior letter. Every eighth letter it stores that byte into the
  buffer.

The model has three modules.

- `Bits` (`bits.dfy`) holds bit expansion and packing.
  - `ToBits` is the specification of the expansion. The `reduce` callback of
    `hide` is the imperative `PushByteBits`, and the `reduce` itself is
    `ExpandBits`; both are proved against `ToBits`.
  - `Pack` and `FromBits` specify the shift-and-or accumulation of `seek`.
  - `FromToBits` proves that packing inverts expansion.
- `Scanner` (`scanner.dfy`) holds the word scanner that both directions share.
  - `Split` models `split(' ')` and `Qualifies` models the `findIndex` test.
  - `Rounds` is the traversal itself: the encodable rounds of the qualifying
    words, in cover order. `RoundsStep` shows that one step of the outer loop
    of either function follows this traversal.
- `Stego` (`stego.dfy`) holds the two functions.
  - `HideKey` and `SeekMessage` specify them over `Rounds`.
  - `Hide` and `Seek` are imperative methods with the source's loops, counters
    and early exits. Their inner loops are split out as `HideWord`, `SeekWord`
    and `ReadLetter`. `Seek` writes into an `array` buffer, as the source
    writes into its `Uint8Array`.
  - `Hide` is proved to return `HideKey`, and `Seek` is proved to leave
    `SeekMessage` in its buffer.
  - `RoundTrip` is the main theorem: when `hide` succeeds, `seek` gives the
    message back.
  - A worked example shows the concrete behaviour. The cover is
    `"ab cd ef gh ij kl mn op"` and the message is the byte 65. Hiding gives
    the key `"adegikmp"`, and seeking with that key gives `[65]` back.

Bytes are the integers 0..255. JavaScript's `>>` on a non-negative number is
modelled as repeated halving (`Shr`), and `<< 1` as doubling. The store into
the `Uint8Array` keeps the value modulo 256. A JavaScript string index out of
range gives `undefined`, which `At` models as `None`.

## Model

| member | source | states |
|---|---|---|
| Bits.PushByteBits | index.ts:17-21 | pushing `(byte >> index) & 1` for index 7 down to 0 appends exactly the eight bits of the byte, most significant first, after the bits already collected |
| Bits.ExpandBits | index.ts:17-22 | the `reduce` yields the bit expansion of the whole message, 8 bits per byte in message order |
| Bits.ToBitsAt | index.ts:17-22 | the expansion has length 8·|m|, and bit j of byte i sits at position 8i+j and equals `(m[i] >> (7 - j)) & 1` |
| Bits.BitsOfAt | index.ts:18-19 | bit j of the low n bits of b, most significant first, is `(b >> (n - 1 - j)) & 1` |
| Bits.PackBit | index.ts:91-99 | after shifting in a run of bits, the bit shifted in t-th is found at position `|s| - 1 - t` of the accumulated number |
| Bits.FromBitsAt | index.ts:101-106 | stored byte j is the accumulation of bits 8j..8j+7 |
| Bits.FromToBits | index.ts:17-22 | grouping the expanded bits by eight and packing each group gives every byte of the message back |
| Scanner.Split | index.ts:13 | `split(' ')` gives at least one word, no word holds a space, and joining the words with single spaces gives the text back |
| Scanner.SplitJoin | index.ts:13 | splitting space-free words joined by single spaces recovers exactly those words |
| Scanner.QualifiesIff | index.ts:28 | a word passes the `findIndex` test exactly when it has at least two characters and its first and last differ, so empty and one-letter words never do |
| Scanner.FirstQualifying | index.ts:28-31 | `findIndex` returns -1 exactly when no word qualifies; otherwise it returns a qualifying word with no qualifying word before it |
| Scanner.RoundsFrom | index.ts:34-42 | a word from round n on has at most `floor(len / 2) - n` encodable rounds, each pairing two different letters |
| Scanner.QualifyingHasRound | index.ts:34-42 | every qualifying word has round 0, pairing its first and last letters, as an encodable round, so every outer step spends at least one bit or key letter |
| Scanner.RoundsStep | index.ts:28-53 | one outer step: the remaining rounds are those of the first qualifying word followed by those of the words after it, and there are none when no word qualifies |
| Scanner.RoundsAppend | index.ts:53 | the traversal only moves forward: the rounds of two stretches of words are the rounds of the first followed by those of the second |
| Stego.HideWord | index.ts:36-51 | one inner loop of `hide` appends the letter of each bit it spends, and leaves off the round after the last bit with no letter added |
| Stego.Hide | index.ts:12-57 | `hide` returns the cover unchanged, on failure as on success, together with exactly the key `HideKey` |
| Stego.HideFailsIff | index.ts:11-31 | the key is empty exactly when the message is empty or the cover has fewer encodable rounds than 8 × the number of bytes |
| Stego.CapacityFailure | index.ts:28-31 | a cover without a qualifying word gives the empty key |
| Stego.HideKeyAt | index.ts:36-50 | on success the key has 8 letters per byte, and letter 8i+j is the frontal letter of round 8i+j when bit j of byte i is 0 and its posterior letter when it is 1 |
| Stego.ReadLetter | index.ts:89-106 | one encodable round of `seek` shifts in the key letter's bit and stores a completed byte. A store past the end of the key falls outside the buffer and is dropped |
| Stego.SeekWord | index.ts:81-111 | one inner loop of `seek` reads the encodable rounds of one word. Once the key is spent it reads at most one more encodable round, when the word still has one, and then stops; the remaining rounds are then those after the word |
| Stego.Seek | index.ts:60-117 | `seek` returns a newly allocated buffer holding exactly `SeekMessage`, also when the words run out early |
| Stego.SeekMessageAt | index.ts:68-106 | the buffer has `floor(|key| / 8)` bytes. Byte j is the accumulation of key bits 8j..8j+7 when the rounds reach that far and 0 otherwise, so trailing key letters are dropped |
| Stego.SeekBitAt | index.ts:89-99 | bit t of decoded byte j is 1 exactly when key letter 8j+t is the posterior letter of its round; any other letter, including one that matches neither letter, decodes to 0 |
| Stego.RoundTrip | index.ts:124 | when `hide` places every bit (key length 8 × bytes), `seek` on the same cover with that key returns the message |
| Stego.ExampleHide | index.ts:12-57 | hiding the byte 65 in `"ab cd ef gh ij kl mn op"` gives the key `"adegikmp"` |
| Stego.ExampleSeek | index.ts:60-117 | seeking `"adegikmp"` in that cover gives `[65]`, and a two-letter key gives an empty buffer |

## Left out

- The demo at index.ts:119-125 is left out: the hard-coded cover, the UTF-8 `TextEncoder`/`TextDecoder` conversion and `console.log`. This is input and output around the codec. `RoundTrip` states the property that the demo exercises.
- The type aliases and interfaces at index.ts:1-9 are left out. Strings are `seq<char>`, the message is a sequence of bytes 0..255, and the key is a string.
- The unused `wordsLength` locals (index.ts:14 and 62) are left out.
- `parseInt` of `word.length / 2` (index.ts:34 and 79) and the length coercion of `new Uint8Array(keyLength / 8)` (index.ts:68) are modelled as integer floor division. This is what they compute for the non-negative lengths that occur.
- Characters are opaque `char` values. The difference between UTF-16 code units and code points in `word[i]` is not modelled.
- The empty key is both the failure sentinel and the correct key of an empty message, as in the source, so a caller cannot tell the two apart. `HideFailsIff` states both cases.
- The inner loops and the body of `seek`'s inner loop are separate methods (`HideWord`, `SeekWord`, `ReadLetter`). They keep the source's statements and order.
