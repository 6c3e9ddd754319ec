# Ethereum sandbox helper: hex-to-text decoder and event selection

This project models the sequential logic of `helper.js` from the Ethereum
sandbox helper and proves properties of it in Dafny. Two parts are covered.

- **The hex-to-text decoder** (module `HexText`, file `hex_text.dfy`).
  `hexToString` turns a `0x`-prefixed, zero-padded hex string, such as an
  event topic, into the text it spells. It drops the first two characters
  unchecked and removes trailing `"00"` byte pairs with
  `removeTrailingZeroes`. It then reads the byte values with `toArray`, which
  drops codes 0..9 as control bytes, and builds a string from the remaining
  char codes.
  - `removeTrailingZeroes` and `toArray` are loops in the source.
    They are methods here, each proved equal to a specification function
    (`Trim`, `DecodedCodes`).
  - `Trim` is characterised declaratively by `IsTrimOf` and proved to be its
    unique solution.
  - `hexToString` is a single expression in the source. It is a function
    here, composed from the specification functions.
- **The selection rule of `parseEventLog`** (module `EventLog`, file
  `event_log.dfy`). It decides which ABI event entry decodes a log entry. The
  event signature hash and the ABI decoding are web3 library calls. They are
  function parameters here.

`wrappers.dfy` holds `Option` and `Result`. A `Failure` carries the message
the source throws.

Modelling decisions:
- Input characters of the parsed hex are required to be hex digits
  (`IsHex`). JavaScript's lenient `parseInt`, which yields `NaN` or parses a
  prefix, is not reproduced. `hexToString` needs the digits only when the
  remainder has even length (`HexReadable`), because an odd remainder throws
  before anything is parsed.
- `hex.substr(2)` on a string of two or fewer characters yields `""`
  (`Remainder`).
- `str.substr(0, n)` stops at the end of the string. So the empty input
  trims to `""`.
- Char codes are `nat` values. A code in `toArray`'s output lies in 10..255.
  `String.fromCharCode` is modelled on those codes (`FromCharCodes`).
- In `toArray`, an odd length is only logged. The lone last digit is read
  as a one-digit value, because `charAt` past the end yields `""`.
- In `parseEventLog`, the `find` callback never returns `true`. So every
  event entry is visited, and each match overwrites `parsed`. The entry
  actually decoded is the **last** match, not the first as a `find` call
  suggests (`LastMatch`, `CollidingSignaturesPickLast`). The model follows
  the code. `LastSelected` and `NothingSelected` state the rule over the ABI's
  own indices: the entry used is the matching event with the largest index.
- The topic is compared after `replace('0x', '')`. This removes only the
  first `"0x"` of the topic, wherever it stands, and does no case folding.
- A log with no topics throws a `TypeError`, but only once an event entry is
  visited. An ABI without events returns `undefined` (`Success(None)`).

## Model

| member | source | states |
|---|---|---|
| `HexText.RemoveTrailingZeroes` | helper.js:141-153 | Fails exactly when the length is odd, with the message `"Wrong hex str: " + str`. Otherwise it returns a string satisfying `IsTrimOf`, equal to `Trim(str)`. |
| `HexText.Trim` | helper.js:141-153 | The trimmed string is an even-length prefix of the input; `TrimIsTrim` and `TrimUnique` give the rest. |
| `HexText.TrimIsTrim` | helper.js:144-152 | The trimmed string is an even-length prefix that keeps the first pair whenever the input has one. Every pair after it is `"00"`. Its last pair is not `"00"` unless it is only the first pair. |
| `HexText.TrimUnique` | helper.js:144-152 | Any string meeting that description equals `Trim(s)`: the backward scan's answer is determined. |
| `HexText.TrimIdempotent` | helper.js:141-153 | Trimming a trimmed string returns it unchanged. |
| `HexText.DigitValue` | helper.js:161 | A hex digit's base-16 value is below 16, and it is 0 exactly for `'0'`. |
| `HexText.DigitValueIgnoresCase` | helper.js:161 | An upper-case digit `'A'..'F'` has the value of its lower-case form, as `parseInt` reads digits case-insensitively. |
| `HexText.ParsePair` | helper.js:161 | A parsed pair is a byte below 256, and a full pair parses to 0 exactly when it is `"00"`. |
| `HexText.ByteValues` | helper.js:159-161 | One value per loop round, in order: value `p` is the pair starting at digit `2p`, a lone last digit included. |
| `HexText.LoneDigitValue` | helper.js:156-161 | Hex-encoded bytes followed by one more digit read back as those bytes followed by that digit's one-digit value. |
| `HexText.KeepPrintable` | helper.js:159-164 | The filtered output is no longer than the input. |
| `HexText.KeepPrintableMembers` | helper.js:163 | A code is in the output exactly when it is in the input and above 9. |
| `HexText.KeepPrintableBounds` | helper.js:163 | Every kept code is above 9 and below any bound that all input codes respect. |
| `HexText.KeepPrintableAppend` | helper.js:159-164 | Filtering a concatenation is the concatenation of the filtered parts, so order is preserved. |
| `HexText.KeepPrintableAll` | helper.js:163 | Codes that are all above 9 pass unchanged. |
| `HexText.KeepPrintableNone` | helper.js:163 | Codes that are all 9 or less are all dropped. |
| `HexText.DecodedCodes` | helper.js:155-167 | Every decoded code lies in 10..255, with at most one code per pair; a lone last digit counts as a pair. |
| `HexText.ToArray` | helper.js:155-167 | The loop returns the filtered byte values of the pairs in order, for even or odd length, and never fails. |
| `HexText.TrimKeepsCodes` | helper.js:117-122 | On an even-length hex string, trimming never changes the decoded codes, because the removed pairs are zero and are filtered anyway. |
| `HexText.Remainder` | helper.js:120 | A string of two or fewer characters leaves `""`. A longer one is its first two characters followed by the result, whatever those two characters are. |
| `HexText.FromCharCodes` | helper.js:118-121 | One character per code, in order, and each character's code point is its code. |
| `HexText.HexToString` | helper.js:117-122 | Fails exactly when the remainder after two characters has odd length, with the message `"Wrong hex str: "` followed by that remainder. Otherwise the text has at most one character per pair of the remainder. |
| `HexText.HexToStringDecodes` | helper.js:117-122 | `hexToString` fails exactly when the remainder after two characters has odd length, with the trimming error. Otherwise it returns the characters of `toArray` of the untrimmed remainder: codes 10..255, at most one per pair. |
| `HexText.AllZeroesDecodeEmpty` | helper.js:141-167 | An even-length all-zero remainder decodes to the empty string. |
| `HexText.RoundTrip` | helper.js:117-167 | Decoding `"0x"` followed by the hex encoding of a byte sequence returns the string of those bytes with every code 0..9 removed. Zero padding is included. |
| `HexText.HelloExample` | helper.js:117-167 | `"0x48656c6c6f000000"` decodes to `"Hello"`. |
| `EventLog.RemoveFirst0x` | helper.js:133 | The result is the input, or two characters shorter. |
| `EventLog.RemoveFirst0xAbsent` | helper.js:133 | A topic with no `"0x"` is compared unchanged. |
| `EventLog.RemoveFirst0xAt` | helper.js:133 | When the first `"0x"` starts at index `k`, exactly those two characters are removed. |
| `EventLog.Events` | helper.js:127-130 | The filtered ABI is no longer than the ABI. |
| `EventLog.EventsMembers` | helper.js:127-130 | The filtered ABI holds exactly the entries of type `"event"`. |
| `EventLog.EventsAppend` | helper.js:127-130 | Filtering a concatenation is the concatenation of the filtered parts, so events keep their ABI order. |
| `EventLog.LastMatch` | helper.js:131-136 | A selected entry's signature equals the topic. |
| `EventLog.LastMatchIsLast` | helper.js:131-136 | No entry is selected exactly when no event's signature matches the topic. A selected entry matches, and no later event does. |
| `EventLog.CollidingSignaturesPickLast` | helper.js:131-136 | With two distinct entries sharing a signature, the later one is selected. |
| `EventLog.MatchIsSelected` | helper.js:127-136 | If some ABI entry is an event whose signature equals the topic, an entry is selected. |
| `EventLog.LastSelected` | helper.js:127-136 | A selected entry is the ABI entry at an index `k` that is an event with the topic as signature, and no ABI entry after `k` is one. |
| `EventLog.NothingSelected` | helper.js:127-136 | Nothing is selected exactly when no ABI entry is an event whose signature equals the topic. |
| `EventLog.DecodeSelected` | helper.js:134-137 | With no selected entry the result is `undefined`. With a selected entry it is that entry's decoding of the log. |
| `EventLog.ParseEventLog` | helper.js:124-138 | Without events the result is `undefined`. With events and no topics it throws. Otherwise the result is the decoding with the last event whose signature equals the first topic with its first `"0x"` removed, or `undefined` if none matches. |

## Left out

- `getSolcVersion` (helper.js:27-29): a one-line call into the `solc` library.
- `getSpecificSolc` (helper.js:31-59): filesystem cache, an HTTPS download and evaluation of the downloaded code. All of it is I/O and foreign calls.
- `compile` (helper.js:61-83): file reads and a call into the `solc` compiler, which is not part of this model.
- `waitForReceipt`, `waitForSandboxReceipt` (helper.js:85-115): asynchronous polling through web3 block-filter callbacks. The behaviour of interest is callback ordering, which is outside sequential logic.
- `console.log` and `console.error` (helper.js:64, 81, 157): logging only. The odd-length case of `toArray` is modelled as not failing.
- `parseInt` on non-hex characters (helper.js:161): excluded by the `IsHex` requirement rather than reproducing `NaN` and prefix parsing.
- `SolidityEvent` signature hashing and decoding (helper.js:132-134): web3 library code, passed in as the `signature` and `decode` parameters. Exceptions they might throw are not modelled.
- Strings are sequences of Unicode scalar values. JavaScript counts a string's length, and the positions read by `substr` and `charAt`, in UTF-16 code units. A character above U+FFFF counts as one here and as two in JavaScript, so for such input the model's lengths and cut points differ from the source's. `Remainder`, `RemoveTrailingZeroes` and `HexToString` are faithful only for strings whose characters are all below U+10000.
- HexToString: does not model the engine's limit on the number of arguments `String.fromCharCode.apply` accepts (helper.js:118-121). A remainder long enough to produce tens of thousands of codes makes the source throw a `RangeError`, while the model returns `Success` at any length.
- `String.fromCharCode` is modelled only on byte codes (0..255), the only codes `toArray` produces.
