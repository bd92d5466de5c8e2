# Kademlia identity and distance layer of peerchat

peerchat is a peer-to-peer chat system whose users and nodes are placed in a
Kademlia distributed hash table. This project models, in Dafny, the part of
its DHT package that everything else stands on (`src/dht/common.go`):

- the 64-bit identifier `ID` and the constants `IDLen`, `K` and `Alpha`;
- the derivation of an identifier from a SHA-1 digest (`Sha1`, the byte fold);
- the XOR metric (`Xor`), section 2.1 of Maymounkov and Mazieres, "Kademlia"
  (2002);
- the k-bucket index rule (`find_n`), section 2.2 of the same paper;
- the routing entries `RoutingEntry` / `RoutingEntryDist` and the list helpers
  `isEqual`, `removeDuplicates` and `moveToEnd`.

It also models the experimental copy of `find_n` in `play.go`, which differs
from the library one only when the two identifiers are equal.

Files and modules:

- `identity.dfy`, module `Identity`:
  - identifiers, Go's `uint64` shift, the SHA-1 fold, the XOR metric;
  - the library `find_n` and its properties.
- `scratch.dfy`, module `Scratch`: the `play.go` variant of `find_n`, and how
  it relates to the library one.
- `routing_lists.dfy`, module `RoutingLists`: the routing entries and the
  three list helpers.

Modelling decisions:

- Identifiers are `bv64`. Go's `x << c` on a `uint64` is `GoShl`: `c`
  one-bit shifts, so every count of 64 or more gives 0, as the Go
  specification defines it.
- The hash is not modelled. `Sha1Fold` takes the digest bytes as its
  parameter and runs the loop of `Sha1` over them.
- The fold keeps only the last eight digest bytes, read big-endian.
  `PackIgnoresLeadingBytes` and `Sha1Fold` state this. An identifier therefore
  carries 64 of the digest's 160 bits. The doc comment of `Sha1` says it
  returns "a 160 bit integer"; the model follows the code.
- Both versions of `find_n` share one model of their loop, `ScanFrom`. It
  tests bits from the most significant down and stops at the first set bit of
  `a ^ b`. They differ only when the loop runs to its end:
  - the library returns `IDLen - 1` (63);
  - `play.go` returns the loop counter, 64.
- `removeDuplicates` gathers its output from Go map iteration, whose order is
  unspecified. `RemoveDuplicates` picks each next key arbitrarily, so its
  contract holds for every iteration order.
- `moveToEnd` panics when the index is outside the slice. `MoveToEnd`
  therefore requires `0 <= i < |s|`.

## Model

| member | source | states |
|---|---|---|
| `Identity.GoShlWide` | src/dht/common.go:115-116 | a Go left shift of a uint64 by 64 bits or more yields 0 |
| `Identity.PackIgnoresLeadingBytes` | src/dht/common.go:114-117 | bytes followed by at least eight more are shifted entirely out of the 64-bit identifier and never change it |
| `Identity.PackIsLastBytesValue` | src/dht/common.go:111-118 | the byte-wise accumulation equals, as a number, the big-endian value of the last `min(len, 8)` bytes |
| `Identity.Sha1Fold` | src/dht/common.go:104-119 | the identifier folded from a digest is the big-endian value of its last eight bytes, or of all of them when there are fewer |
| `Identity.Xor` | src/dht/common.go:121-127 | the distance between two identifiers is 0 exactly when they are equal |
| `Identity.XorRecovers` | src/dht/common.go:121-127 | XOR-ing the distance back onto one end gives the other end |
| `Identity.XorSymmetric` | src/dht/common.go:121-127 | the distance is the same from either end |
| `Identity.XorSelf` | src/dht/common.go:121-127 | every identifier is at distance 0 from itself |
| `Identity.ScanFromFindsSetBit` | src/dht/common.go:135-139 | when the loop returns early, the bit it tested in that iteration is set in the distance |
| `Identity.ScanFromSkipsClearBits` | src/dht/common.go:135-139 | every bit the loop tested before stopping is clear, so the loop stops at the most significant set bit |
| `Identity.FindN` | src/dht/common.go:129-142 | the bucket index is in 0..63; it is 63 for equal identifiers; otherwise bit `63 - n` is the most significant set bit of the distance |
| `Identity.HighestBitIsBitwise` | src/dht/common.go:136-137 | "most significant set bit is `k`" means that bit `k` is set and every higher bit is clear, in both directions |
| `Identity.HighestBitRange` | src/dht/common.go:136-137 | "most significant set bit is `k`" holds exactly when `2^k <= x < 2^(k+1)` |
| `Identity.FindNCharacterized` | src/dht/common.go:129-142 | for distinct identifiers, `find_n` is the one index whose tested bit is the distance's most significant set bit |
| `Identity.FindNRange` | src/dht/common.go:135-139 | for distinct identifiers with bucket index `n`, the distance lies in `[2^(63-n), 2^(64-n))` |
| `Identity.FindNDependsOnlyOnDistance` | src/dht/common.go:133 | two pairs at the same XOR distance get the same bucket index |
| `Identity.FindNSymmetric` | src/dht/common.go:129-142 | both ends of a contact compute the same bucket index |
| `Identity.FindNSelf` | src/dht/common.go:141 | an identifier falls in bucket 63 with respect to itself, which is also the bucket of the neighbour that differs only in the lowest bit |
| `Identity.BucketOrderIsDistanceOrder` | src/dht/common.go:129-142 | a contact in a lower-numbered bucket is strictly farther away than a contact in a higher-numbered bucket |
| `Scratch.FindN` | play.go:9-23 | the scratch bucket index is in 0..64 |
| `Scratch.FindNEndIffEqual` | play.go:15-22 | the scratch variant returns 64 exactly when the identifiers are equal |
| `Scratch.FindNAgreesWhenDistinct` | play.go:15-20 | for distinct identifiers the scratch variant returns what the library `find_n` returns, the index of the most significant differing bit |
| `Scratch.FindNOnEqual` | play.go:22 | for equal identifiers the scratch variant answers 64 where the library answers 63 |
| `Scratch.FindNSymmetric` | play.go:13 | the scratch variant is symmetric in its arguments |
| `RoutingLists.PointwiseEqualIsEquality` | src/dht/common.go:144-154 | equal length plus equal entries position by position is list equality, so it is reflexive and symmetric |
| `RoutingLists.IsEqual` | src/dht/common.go:144-154 | `isEqual` is true exactly when the lengths agree and every position holds the same entry, that is, when the lists are equal |
| `RoutingLists.ElemsAtMostLength` | src/dht/common.go:157-160 | the set of keys gathered from a list has at most as many members as the list has entries |
| `RoutingLists.RemoveDuplicates` | src/dht/common.go:156-166 | the result has no repeated entry, holds exactly the input's entries, is as long as the number of distinct entries and so no longer than the input, and keeps the length of an input without repeats; this holds for every map iteration order |
| `RoutingLists.MoveToEnd` | src/dht/common.go:168-170 | length is kept; the entry at `i` ends up last; entries before `i` stay in place and entries after it move one place forward |
| `RoutingLists.MoveToEndPermutes` | src/dht/common.go:168-170 | the result is a permutation of the input |
| `RoutingLists.MoveToEndKeepsOrder` | src/dht/common.go:168-170 | any two entries other than the moved one keep their relative order, and both stand before the moved entry |
| `RoutingLists.MoveLastToEnd` | src/dht/common.go:168-170 | moving the last entry to the end changes nothing |

## Left out

- The SHA-1 hash itself (`sha1.New`, `Write`, `Sum`, src/dht/common.go:109-111) is not modelled. `Sha1Fold` takes the digest bytes as a parameter.
- Identity.Sha1Fold: the shift count `(l-i-1)*8` is taken as an unbounded number. Go computes it as an `int`, which would overflow only for inputs of 2^60 bytes or more; a SHA-1 digest has 20 bytes.
- `call` (src/dht/common.go:192-224) is RPC transport with a goroutine, a channel and a timeout. It is concurrency and networking.
- `nrand` (src/dht/common.go:40-45) draws from the operating system's cryptographic random source.
- `Print` and `appendToCsv` (src/dht/common.go:26-32, 172-182) are debug logging and file I/O.
- `Short` (src/dht/common.go:34-38) is debug formatting of an identifier as text.
- The RPC argument and reply structures (src/dht/common.go:59-102) and the `Online`/`Offline` constants carry data for the network layer only. None of the modelled operations uses them.
- `K` and `Alpha` are declared with their values, but nothing in the modelled code uses them.
- The `fmt.Println(i)` in the scratch `find_n` (play.go:21) is output only. `main` and `myStruct` in `play.go` do nothing.
- RoutingLists.MoveToEnd: a pure function. Go's `append(slice[:index], ...)` writes into the caller's backing array, and that aliasing is not modelled. An out-of-range index, where Go panics, is excluded by the precondition.
- The rest of the repository is outside this model: `src/dht/dht.go`, the stubs in `src/dht/dhtnode.go` and `src/dht/user.go`, the network test, the chat front end and the examples. The routing-table update, lookups and message handling do not appear in the modelled files.
