# Hash-linked block store of the decentralized chatbot generator

The Swift program stores each generated chatbot definition as the payload of
a `Block` in an in-memory `Blockchain`. This project models that store:

- `Formatting`: the two text renderings a block hash is made of. One is
  Swift's decimal interpolation of an `Int`. The other is `%02x` over each
  digest byte, joined. Each comes with a reader that undoes it.
- `Blocks`: the `Block` record and `generateHash`. The hash input is
  `"\(index)\(data)\(previousBlockHash)"`, encoded as UTF-8, hashed with
  SHA-256 and rendered as 64 lower-case hex digits. `init` computes the hash
  once.
- `Chain`: the `Blockchain` class with `init`, `addBlock` and
  `getBlock(byIndex:)`. It also holds the genesis convention of `main` and
  the hash-link invariant `WellLinked`: block `i` has index `i`, names its
  predecessor's hash (`""` for the first block), and its stored hash is what
  its current fields hash to. `FirstBreak` decides that invariant and reports
  the first position where it fails. The Swift program never runs such a
  check. It is the partner that makes the invariant observable.

UTF-8 encoding and SHA-256 are foreign calls. They are the two
function-valued fields of `Blocks.Primitives`, which every hash-computing
member takes as a parameter. Nothing is assumed about them except that
SHA-256 returns 32 bytes. So every property below holds for any encoding and
any digest function.

Where the code and its intent differ, the model follows the intent in three places:

- `Blockchain.init` assigns `[Block]`, which is a type and not a value, so
  the file does not compile as written. The model starts with the empty array.
- `Block.init` calls `generateHash()` on `self` before `blockHash` is set
  (line 106). Swift's two-phase initialisation rejects that, so `init` does
  not compile as written either. `NewBlock` sets the three fields first and
  then stores the hash computed from them, which is what the line intends.
- The `[safe:]` subscript used by `getBlock` is not defined in the file. It
  is modelled with its conventional meaning: the element when
  `0 <= index < count`, otherwise nil.

## Model

| member | source | states |
|---|---|---|
| `Formatting.NatDigits` | 8ydh_create_a_decent.swift:110 | the decimal rendering of a natural number is a non-empty run of digits with no leading zero |
| `Formatting.DecimalShape` | 8ydh_create_a_decent.swift:110 | `\(index)` starts with a minus sign exactly when the index is negative, and the rest is a non-empty run of digits |
| `Formatting.DecimalRoundTrip` | 8ydh_create_a_decent.swift:110 | reading back the interpolated index, sign included, gives the index |
| `Formatting.DecimalInjective` | 8ydh_create_a_decent.swift:110 | distinct indices interpolate to distinct strings |
| `Formatting.DecimalAppendDigit` | 8ydh_create_a_decent.swift:110 | the rendering of `10n+d` is the rendering of `n` followed by digit `d`, so the rendering has no end marker |
| `Formatting.Hex2` | 8ydh_create_a_decent.swift:112 | `%02x` of a byte is exactly two lower-case hex digits, high nibble first, and they denote the byte |
| `Formatting.HexString` | 8ydh_create_a_decent.swift:112 | the joined rendering is twice as long as the byte sequence and holds only lower-case hex digits |
| `Formatting.HexStringAt` | 8ydh_create_a_decent.swift:112 | byte `k` is rendered by exactly characters `2k` and `2k+1` |
| `Formatting.HexRoundTrip` | 8ydh_create_a_decent.swift:112 | a string reads back as a byte sequence if and only if it is that sequence's rendering |
| `Blocks.Block.GenerateHash` | 8ydh_create_a_decent.swift:109-113 | the hash of the current fields is 64 lower-case hex digits |
| `Blocks.NewBlock` | 8ydh_create_a_decent.swift:102-107 | `init` keeps the three given fields and stores a hash that is current for them: 64 lower-case hex digits |
| `Blocks.HashInputLayout` | 8ydh_create_a_decent.swift:110 | the hash input is the decimal index, then the data, then the previous hash, end to end with nothing between them |
| `Blocks.BlockHashRendersDigest` | 8ydh_create_a_decent.swift:110-112 | the stored hash reads back as the SHA-256 digest of the UTF-8 hash input, two characters per digest byte |
| `Blocks.SameInputSameHash` | 8ydh_create_a_decent.swift:102-113 | determinism: construction inputs that render to the same hash input give the same hash |
| `Blocks.DigitShiftCollision` | 8ydh_create_a_decent.swift:110 | moving a leading digit of the data onto a positive index leaves the hash input and the hash unchanged |
| `Blocks.AmbiguousFramingExample` | 8ydh_create_a_decent.swift:110 | blocks `(1, "2x", "")` and `(12, "x", "")` differ but have the same hash |
| `Blocks.HashInputUnambiguous` | 8ydh_create_a_decent.swift:110 | for one index and previous hashes of equal length, equal hash inputs imply equal data and previous hashes |
| `Chain.FirstBreakFrom` | 8ydh_create_a_decent.swift:97-106 | returns the first position from `from` on whose block is not linked, and none exactly when every later block is linked |
| `Chain.FirstBreak` | 8ydh_create_a_decent.swift:97-106 | returns none exactly when the chain is well linked; otherwise the first failing position, with every earlier block linked |
| `Chain.AppendLinked` | 8ydh_create_a_decent.swift:86-106 | appending keeps a chain well linked if and only if the chain was well linked and the block is `Block(index: count, data, previousBlockHash: last hash or "")` |
| `Chain.WellLinkedPrefix` | 8ydh_create_a_decent.swift:86-88 | every prefix of a well-linked chain is well linked, since appends never change earlier blocks |
| `Chain.WellLinkedPositions` | 8ydh_create_a_decent.swift:97-106 | in a well-linked chain block `i` has index `i`, block 0 names `""`, and block `i` names block `i-1`'s hash |
| `Chain.ReplaceKeepsOthers` | 8ydh_create_a_decent.swift:97-106 | editing fields of block `k` in place, with the hash left as `init` set it, leaves every other position linked |
| `Chain.FieldEditLocated` | 8ydh_create_a_decent.swift:97-106 | such an edit is reported at exactly `k`; it goes unreported only when the index and previous hash are unchanged and the edited data still hashes to the stored value, so an index edit that keeps the same hash input is still reported |
| `Chain.HashEditLocated` | 8ydh_create_a_decent.swift:97-106 | overwriting block `k`'s stored hash with any other value is always reported at exactly `k` |
| `Chain.Blockchain.constructor` | 8ydh_create_a_decent.swift:82-84 | a new chain holds no blocks |
| `Chain.Blockchain.AddBlock` | 8ydh_create_a_decent.swift:86-88 | the chain grows by exactly the given block at the end; the lookup of every other position is unchanged |
| `Chain.Blockchain.GetBlock` | 8ydh_create_a_decent.swift:90-92 | the lookup returns a block exactly for `0 <= index < count`, and then the block at that index; it is total and reads only |
| `Chain.StoreGenesis` | 8ydh_create_a_decent.swift:159-175 | `main`'s store: a fresh chain holding only the genesis block `(0, template, "")`, which is well linked and found at position 0 |

## Left out

- SHA-256 and `String.data(using: .utf8)!` are foreign library calls. They are parameters, not implementations. The forced unwrap cannot fail for UTF-8, so the encoding is a total function.
- `String(format:)` is not modelled as a Foundation call. Only its `%02x` behaviour on a byte is modelled. It never returns nil, so `compactMap` acts as `map`.
- `Block` is a Swift class, so the chain holds references. An edit to a block object after it is appended would show through the chain. The model treats blocks as values. Such an edit is modelled as replacing the block at its position with the edited value, keeping the stale hash (`FieldEditLocated`). Aliasing of one block object at two positions or in two chains is not captured.
- Swift `Int` is 64 bits wide. The model's indices are unbounded, because no operation in the store does arithmetic on them.
- `loadChatbot` is JSON parsing through `JSONSerialization` with silent defaults, plus console output. It is a consumer of `getBlock` and is not modelled.
- `DecentChatbotGenerator.generateChatbot`, `Intent.intentTemplate` and `Response.responseTemplate` build the payload. The store treats the payload as opaque text, so they are not modelled.
- `main` is driver code and console output. Only its construction of the genesis block and the first append are modelled (`StoreGenesis`).
- The unused `Swiftsoup` import is not modelled. The program has no concurrency.
