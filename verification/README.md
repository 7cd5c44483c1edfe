# Models of libwally-core's selection, encoding and key algorithms

A Dafny model of the parts of libwally-core that carry the algorithms: the coin selection
search over asset values, Base58, BIP 32 paths, keys and serializations, BIP 39 mnemonics,
the byte cursors and witness stacks, AES-CBC with its ECDH envelope, and the array-backed
map with its keypath search. `dafny verify dfyconfig.toml` checks everything.

Each component comes as specification functions on values, with the theorems about them, and
as methods over arrays and objects that are proved to compute those functions.

- `CoinSelection`, `CoinOptimality`, `CoinTieRule`, `CoinTies`, `CoinSums` and
  `CoinSelectAssets` are the search of `src/coins.c`: the walk over include/omit prefixes, what
  it guarantees, which of several selections of least score it keeps, the walk with 64-bit
  sums, and the loop with its index stack.
- `Radix`, `Base58`, `Base58Text` and `Base58Codec` are `src/base_58.c`, with the bignum loops
  in place.
- `Bip32Path`, `Bip32PathParser`, `Bip32PathPrint` and `Bip32PathRefuse` are the path strings
  of `src/bip32.c`; `Bip32Key`, `Bip32Derive`, `Bip32Child`, `Bip32InPlace`, `ExtKeys` and
  `Bip32Serial` are its keys.
- `Varint`, `PushCursor`, `PullViews`, `PullCursor` and `WitnessStacks` are `src/pullpush.c`
  and the witness stack functions of `src/transaction.c` around it.
- `Bits`, `Wordlist`, `Mnemonic`, `Bip39` and `Bip39Words` are `src/wordlist.c`,
  `src/mnemonic.c` and `src/bip39.c`.
- `AesCbc`, `CbcBlocks`, `EcdhEnvelope` and `EnvelopeAuth` are `src/aes.c`.
- `MapItems`, `MapVerify`, `WallyMap` and `Keypath` are `src/map.c` and the array growth of `src/internal.c`.

Primitives are parameters. `Bip32Key.Curve` has the points, hashes and encodings of
secp256k1, and theorems that need its laws require `Lawful`: multiples of the generator form
a cyclic group, and encoding a finite point loses nothing. `CurveModel` is a small curve of
order 3 that satisfies them, with a private root whose tweaks are not zero, so these theorems
are not vacuous. HMAC, HASH160, SHA-256, the AES block functions and ECDH are function
parameters; the CBC theorems require only that block decryption undoes block encryption under
the key used, and the envelope theorem that the two parties' ECDH results are equal. The
CompactSize helpers are only declared in the repository, so `Varint` gives them Bitcoin's
encoding.

Where the code and its documentation differ, the model follows the code:

- The comment at `coins.c:71-75` and the header promise that n + 1 attempts always find a
  solution. At most 256 inputs are ever returned, so the promise holds exactly when the
  largest min(n, 256) values reach the target (`CompleteInNPlusOne`); more than 256 ones that
  are all needed are never found (`TooManyNeeded`).
- The score at `coins.c:127` is assigned from 32-bit arithmetic. The search is score-optimal
  for exactly the ratios with io_ratio + 256 < 2^32 (`OptimalIffNoWrap`).
- The comment at `coins.c:47-50` prefers exact matches with up to io_ratio more inputs, and
  otherwise larger change. Among selections of equal score the tie test lets larger change
  replace an exact match and an exact match replace larger change. So an exact match is kept
  if and only if the last of the selections of least score, in the order of the search, is
  one (`ExactKept`; `PreferenceRule` compares the numbers of inputs), and the change is the
  largest of that score whenever no exact match has it (`LargestChange`). One search fails both
  criteria (`ExactLosesTie`).
- The header's promise that a solution is always found also needs a total below 2^64
  (`RunIsPlain`): a total that wraps around is compared with the target as it is
  (`WrappedTotal`). What is found reaches the target in any case (`FoundReaches`).
- `bip32_key_with_tweak_from_parent_path` checks for the tweak-sum flag, but the public flag
  alone passes the same test, and then the root's own public key is returned
  (`WithTweakMeans`, `PublicAloneDiffers`). With the tweak-sum flag the derived key is returned
  if and only if the root's own tweak sum is zero (`WithTweakIsDerived`); deriving
  a root with that flag leaves one in it, which is then added once more (`RootSumDiffers`).
- `bip32_key_from_parent` accepts its parent as the output, but hashes in place: the private
  key and the tweak sum are overwritten before they are read. The child is right exactly if a
  private parent's child is hardened and no tweak sum is lost, but for keys equal to their own
  x coordinate (`InPlaceIff`, `InPlaceDiffers`).
- The comment at `bip32.c:161` asks for a number in a group. The alternative asked for may be
  without one, and then counts as 0, unless it is the first (`GroupOk` in `AcceptedIff`;
  `EmptyAlternative`). Digits right behind a mark start another element without a slash
  (`AdjacentNumbers`).
- `bip39_mnemonic_to_bytes` reports success with a length before any checksum is looked at
  when the buffer has no room for the entropy that the number of words suggests, and for 31
  or 32 words even before the words are (`CheckedIffRoom`, `WrongChecksumAnswered`).
- The comments "Trailing data" in `pull_witness` also stand at the branch for plain bytes,
  which rejects only truncated stacks and never looks at what follows (`PullPlainComplete`).
- `map_replace` verifies a new key but not the new value of a present one, so a map can come
  to hold items its check refuses, in exactly this way (`RunRefused`, `AcceptedThroughout`,
  `ReplaceLetsIn`).
- `map_keypath_get_bip32_key_from` with the public flag answers with a private key exactly if
  it was given one and that is the answer itself, for want of a chain code or of a path in
  the item found (`GetKeyPrivate`, `RootIsAnswered`).
- `wally_map.h:380-381` promises success when no key is found. The search ends in an error at
  the first item it gets to with the root's fingerprint and a malformed or underivable path, or
  whose key cannot be looked up, even if the wanted item is behind it (`GetKeyNothing`,
  `HardenedFails`).

## Model

| member | source | states |
|---|---|---|
| CoinSelectAssets.CoinselectAssets | build-macos-lwc-r1.5.6/src/coins.c:82-167 | the loop over index stack, suffix sums and output buffer returns the indices of the best selection of the include/omit walk with its sums in 64 bits, or nothing when the wrapped total cannot reach the target; for totals below 2^64 that is the plain walk, and for descending values something is then returned exactly when the largest min(n, 256) values reach the target; slots past min(n, 256) are not written |
| CoinSelectAssets.Attempt | build-macos-lwc-r1.5.6/src/coins.c:119-164 | one attempt of the loop, with its stack pop, its include step and its record, moves the arrays from standing for one node of the walk to standing for the next, and breaks exactly when the walk is done |
| CoinSelectAssets.Consider | build-macos-lwc-r1.5.6/src/coins.c:124-141 | the score test accepts a selection exactly when the walk does and then stores it; otherwise the stored one stays |
| CoinSums.RunIsPlain | build-macos-lwc-r1.5.6/src/coins.c:119-164 | while the values add up to less than 2^64, the search in 64-bit sums is the walk in plain numbers, step by step |
| CoinSums.FoundReaches | build-macos-lwc-r1.5.6/src/coins.c:119-164 | whatever wraps around, a selection that is found has at most 256 inputs and its values really reach the target |
| CoinSums.WrappedTotal | build-macos-lwc-r1.5.6/src/coins.c:101-105 | two values of 2^63, which wrap around to nothing and are taken to be insufficient for targets that either of them reaches |
| CoinOptimality.ScoreOptimal | build-macos-lwc-r1.5.6/src/coins.c:119-164 | a search that ends by itself holds a selection whose score (inputs, plus io_ratio unless the sum is exact) is least among all selections of at most 256 inputs that reach the target, whatever was cut or skipped |
| CoinOptimality.OptimalIffNoWrap | build-macos-lwc-r1.5.6/src/coins.c:127 | score optimality holds for every problem with a given io_ratio exactly when io_ratio + 256 < 2^32, so that the 32-bit score cannot wrap |
| CoinOptimality.WrapBreaksOptimality | build-macos-lwc-r1.5.6/src/coins.c:127-131 | for every larger io_ratio a concrete descending problem on which the wrapped score makes the search keep a selection that is not of least score |
| CoinTies.ExactLosesTie | build-macos-lwc-r1.5.6/src/coins.c:47-50 | one complete search, on values 10, 9, 8, 3, 2 and target 15, that gives up the exact match of three inputs for 9 and 8, of equal score with io_ratio 1, and with it the larger change of 10 and 9 |
| CoinTieRule.TieRule | build-macos-lwc-r1.5.6/src/coins.c:129-138 | the sum that a complete search keeps, for every problem: of the selections of least score that the walk does not skip, in its order, the target if the last one is exact, and otherwise the greatest sum of those after the last exact one |
| CoinTieRule.PreferenceRule | build-macos-lwc-r1.5.6/src/coins.c:47-50 | exact matches against change: with e an exact match of fewest inputs, an exact match is kept if and only if no selection with change has more than io_ratio inputs less than e and the last selection of its score, in the order of the search, is exact, which it is whenever none has even exactly io_ratio less; and the match kept has as few inputs as e |
| CoinTieRule.ExactKept | build-macos-lwc-r1.5.6/src/coins.c:47-48 | an exact match is kept if and only if the last of those selections is one |
| CoinTieRule.LargestChange | build-macos-lwc-r1.5.6/src/coins.c:50 | when no exact match has the least score, the selection kept has the greatest sum of all selections of least score, skipped ones included |
| CoinTieRule.StepTies | build-macos-lwc-r1.5.6/src/coins.c:119-164 | every attempt keeps the kept sum that of the selections of least score passed so far, through cuts, skips, records and the early end at a single exact input |
| CoinTieRule.VisitExact | build-macos-lwc-r1.5.6/src/coins.c:155-158 | the list of the walk holds a selection exactly if it solves the problem with the score and includes no value that the walk skips |
| CoinTieRule.VisitOrdered | build-macos-lwc-r1.5.6/src/coins.c:119-164 | the list is in the order of the walk, including before omitting |
| CoinTieRule.Unskipped | build-macos-lwc-r1.5.6/src/coins.c:155-158 | every selection has one that is not skipped with the same sum and number of inputs |
| CoinTieRule.BestIsLeast | build-macos-lwc-r1.5.6/src/coins.c:119-164 | the score a complete search ends with is the least one |
| CoinOptimality.PruneCovers | build-macos-lwc-r1.5.6/src/coins.c:122-146 | cutting hopeless, reached and too long branches: nothing below a cut node beats the best score |
| CoinOptimality.SkipCovers | build-macos-lwc-r1.5.6/src/coins.c:155-158 | not including a value equal to the one just omitted loses no score, since swapping the two gives an equal selection that was visited earlier |
| CoinOptimality.StepInv | build-macos-lwc-r1.5.6/src/coins.c:119-164 | every attempt keeps the search invariant (all selections before the current node are scored or beaten) and never raises the best score |
| CoinOptimality.StepAdvances | build-macos-lwc-r1.5.6/src/coins.c:149-163 | an attempt that does not end the search moves strictly forward in the preorder of include/omit prefixes, pushes and pops alike |
| CoinOptimality.StepExact | build-macos-lwc-r1.5.6/src/coins.c:119-164 | when an attempt goes one value further: exactly if the inputs chosen do not reach the target, can still reach it with what is left, and are fewer than 256 and than the best score; and when it ends the search |
| CoinOptimality.StepIncludes | build-macos-lwc-r1.5.6/src/coins.c:155-161 | and then whether it includes the value: unless it equals one just omitted behind an input |
| CoinOptimality.IndicesMean | build-macos-lwc-r1.5.6/src/coins.c:135-136 | the indices written are those of the inputs, in ascending order |
| CoinOptimality.SearchTerminates | build-macos-lwc-r1.5.6/src/coins.c:119-164 | 2^(n+1) - 1 attempts always reach a break |
| CoinOptimality.Anytime | build-macos-lwc-r1.5.6/src/coins.c:119-164 | a larger attempt budget never loses a solution and never returns a worse score |
| CoinOptimality.CompleteInNPlusOne | build-macos-lwc-r1.5.6/src/coins.c:71-75 | for descending values and any budget of at least n + 1 attempts a result is non-empty exactly when the largest min(n, 256) values reach the target: the exact condition of the comment's claim, which fails beyond 256 needed inputs |
| CoinOptimality.TooManyNeeded | build-macos-lwc-r1.5.6/include/wally_coinselection.h:35-36 | inputs on which the promise fails: any number of ones above 256 with their total as target, where nothing is found whatever the attempts |
| CoinOptimality.FirstIsHeaviest | build-macos-lwc-r1.5.6/include/wally_coinselection.h:18-19 | why descending order matters: no k of the values outweigh the first k |
| Base58.DecodeEncode | build-macos-lwc-r1.5.6/src/base_58.c:69-152 | decoding the encoding of any non-empty byte string gives it back, leading zeros included |
| Base58.EncodeDecode | build-macos-lwc-r1.5.6/src/base_58.c:166-253 | re-encoding the decoding of any valid string gives the same string |
| Base58.CheckRoundTrip | build-macos-lwc-r1.5.6/src/base_58.c:266-307 | with the four checksum bytes, a non-empty payload and its string determine each other in both directions |
| Base58.SplitAtZeros | build-macos-lwc-r1.5.6/src/base_58.c:131-142 | a byte or digit string is determined by its leading zeros and the number it stands for |
| Base58Text.EncodeSpells | build-macos-lwc-r1.5.6/src/base_58.c:54-60 | every string is the digits of the 58-character alphabet, written out, for the number of the bytes, with as many leading zeros as they have |
| Base58Text.DecodeSpells | build-macos-lwc-r1.5.6/src/base_58.c:69-152 | and a string that spells bytes so is decoded to them |
| Base58Text.DecodesIfAlphabet | build-macos-lwc-r1.5.6/src/base_58.c:111-113 | a string is decoded exactly if it is not empty and has only characters of the alphabet |
| Base58Text.EncodeCheckSpells | build-macos-lwc-r1.5.6/src/base_58.c:173-187 | with the checksum flag the bytes spelled are the payload and the first four of its double SHA-256 |
| Base58Text.DecodeCheckMeans | build-macos-lwc-r1.5.6/src/base_58.c:283-301 | a payload is answered exactly if the string decodes to it and those four bytes |
| Base58.DigitBytesSuffice | build-macos-lwc-r1.5.6/src/base_58.c:204 | floor(138 k / 100) + 1 base-58 digits hold any k bytes, for every k, via 256^8 < 58^11 |
| Base58.WordCountSuffices | build-macos-lwc-r1.5.6/src/base_58.c:93 | ((6 n + 7) / 8 + 3) / 4 words hold any n base-58 digits |
| Base58Codec.MulAddWord | build-macos-lwc-r1.5.6/src/base_58.c:115-123 | multiplying the words in place by 58 and adding a digit is exact, every carry stays below 58, and the number grows by at most one word, inside the buffer |
| Base58Codec.AccumulateDigits | build-macos-lwc-r1.5.6/src/base_58.c:107-124 | all characters accumulate to the number they spell, or the first invalid one is found |
| Base58Codec.Base58Decode | build-macos-lwc-r1.5.6/src/base_58.c:69-152 | the in-place conversion decodes exactly; it reports the decoded length, writes only when the bytes fit, and touches nothing else |
| Base58Codec.MulAddByte | build-macos-lwc-r1.5.6/src/base_58.c:216-225 | multiplying the base-58 digits in place by 256 and adding a byte is exact and never underruns the buffer |
| Base58Codec.SkipZeroDigits | build-macos-lwc-r1.5.6/src/base_58.c:227-231 | skipping leading zero digits stops inside the buffer, at the digits of the number |
| Base58Codec.FromBytes | build-macos-lwc-r1.5.6/src/base_58.c:166-253 | encodes any non-empty byte string, with its checksum on request; only an empty input or an unknown flag is refused |
| Base58Codec.ToBytes | build-macos-lwc-r1.5.6/src/base_58.c:266-307 | all outcomes: bad arguments, invalid string, too small a buffer (length needed, nothing written), wrong checksum (buffer cleared), success with the checksum wiped from the buffer |
| Bip32PathPrint.ParsePrinted | build-macos-lwc-r1.5.6/src/bip32.c:89-240 | any path of 1 to 255 elements, written with any decimal digits and marks, at most one wildcard and one group of 2 to 254 alternatives, parses to its child numbers with wildcard and group resolved, and with the features of the path; it is accepted exactly when a given child number has a wildcard and a given alternative a group; an alternative that is not asked for may be any number |
| Bip32PathRefuse.ParseRefused | build-macos-lwc-r1.5.6/src/bip32.c:124-225 | a path that is written as it may be up to a flaw is refused, whatever follows: a missing element or last slash, an unknown character, a number of 2^31 or more, what cannot follow a number or wildcard, an upper-case mark not allowed, a second or disallowed wildcard or group, and a group that starts without a number, does not end, breaks off, has an empty or unfit alternative, or too few or many |
| Bip32PathRefuse.AcceptedIff | build-macos-lwc-r1.5.6/src/bip32.c:89-240 | every printed path, whatever its numbers, marks, wildcards and groups and however long: it is accepted if and only if it has 1 to 255 elements, numbers below 2^31 where they count, at most one wildcard and one group, both allowed and asked for rightly, and 2 to 254 alternatives |
| Bip32PathRefuse.NumbersMean | build-macos-lwc-r1.5.6/src/bip32.c:152-191 | the child number of an element is its decimal number, 2^31 more with a mark |
| Bip32PathRefuse.EmptyAlternative | build-macos-lwc-r1.5.6/src/bip32.c:137-161 | an input: `m/<0;>` is accepted for alternative 1, as child 0, and refused for alternative 0 |
| Bip32PathRefuse.AdjacentNumbers | build-macos-lwc-r1.5.6/src/bip32.c:188-225 | an input: `1h2` is accepted as two elements |
| Bip32PathRefuse.ParseOutOfRange | build-macos-lwc-r1.5.6/src/bip32.c:136-148 | a printed path whose group has too few alternatives for the one asked for is refused, whatever is written after the group |
| Bip32PathPrint.ItemRead | build-macos-lwc-r1.5.6/src/bip32.c:152-191 | a printed number with its mark is read back up to the following character |
| Bip32PathPrint.GroupBodyRead | build-macos-lwc-r1.5.6/src/bip32.c:136-148 | the alternatives before and after the chosen one are skipped and counted without being evaluated |
| Bip32PathParser.PathFromStrN | build-macos-lwc-r1.5.6/src/bip32.c:89-240 | for every input string the verdict, features and length are those of the grammar and do not depend on the room in the output, which gets as much of the path as it holds and nothing beyond |
| Bip32PathParser.PathFromStrNLen | build-macos-lwc-r1.5.6/src/bip32.c:253-261 | the one-slot length query answers what a full parse would |
| Bip32PathParser.PathStrNGetFeatures | build-macos-lwc-r1.5.6/src/bip32.c:282-291 | the features of a string are those of parsing it with every syntax allowed |
| Bip32Path.PackRoundTrip | build-macos-lwc-r1.5.6/include/wally_bip32.h:59-68 | the public masks and shifts recover length, group size, wildcard position and every flag from the packed word |
| Bip32Path.ParseFromFits | build-macos-lwc-r1.5.6/src/bip32.c:211-213 | no accepted group size or wildcard position overflows its 8-bit field |
| Bip32Key.TweaksAgree | build-macos-lwc-r1.5.6/src/bip32.c:698-720 | tweaking a private key and tweaking its public key give matching keys and fail together |
| Bip32Key.DeriveConsistent | build-macos-lwc-r1.5.6/src/bip32.c:641-763 | deriving keeps the public key that of the private key |
| Bip32Key.PublicFromPrivate | build-macos-lwc-r1.5.6/src/bip32.c:641-763 | from a private parent the public child is the neutered private child |
| Bip32Key.PublicFromNeutered | build-macos-lwc-r1.5.6/src/bip32.c:641-763 | and so it is from a neutered parent for a child that is not hardened, failures included |
| Bip32Child.ChildMeans | build-macos-lwc-r1.5.6/src/bip32.c:674-757 | what a child is: the HMAC under the chain code of 33 key bytes, private for a hardened child and public otherwise, and the child number in four bytes; its left half moves scalar, point and tweak sum, its right half is the chain code; depth, number, hashes and version as asked for |
| Bip32Child.ChildExists | build-macos-lwc-r1.5.6/src/bip32.c:649-731 | and when there is one: defined flags, a private parent or a public unhardened child, depth below 255, a left half below the order, a finite point, and a tweak sum that is not zero |
| Bip32Child.NumbersTellApart | build-macos-lwc-r1.5.6/src/bip32.c:686-698 | children of different numbers differ in their chain codes, if the HMAC tells their messages apart |
| Bip32Child.PathLimits | build-macos-lwc-r1.5.6/src/bip32.c:788-792 | no path is derived without elements, with more than 255, or with undefined flags |
| Bip32Child.PathOfOne | build-macos-lwc-r1.5.6/src/bip32.c:804-825 | deriving a path of one element is deriving that child |
| Bip32Child.WipedIsZero | build-macos-lwc-r1.5.6/src/bip32.c:337-341 | a key that is wiped on failure has nothing but zeros |
| ExtKeys.FromParent | build-macos-lwc-r1.5.6/src/bip32.c:641-763 | overwrites the output with the child, reusing its key fields as hash buffer, or wipes it; undefined flags leave it alone; the parent may be the output, with what is then overwritten before it is read |
| Bip32InPlace.InPlaceIff | build-macos-lwc-r1.5.6/src/bip32.c:674-731 | a child derived into its parent is the right one if and only if the tweak sum is zero or not asked for and a private parent's child is hardened; an unhardened one is made from the x coordinate of the public key, and right only where that equals the private key and the first byte does not show |
| Bip32InPlace.InPlaceMeans | build-macos-lwc-r1.5.6/src/bip32.c:674-731 | and what it becomes in any case |
| CurveModel.InPlaceDiffers | build-macos-lwc-r1.5.6/src/bip32.c:674-731 | inputs: on the curve of order 3 a root's unhardened child comes out wrong in place, and a hardened one exactly if a tweak sum is asked for and the root has one |
| ExtKeys.ExtKey.SetChildKeys | build-macos-lwc-r1.5.6/src/bip32.c:689-720 | the child keys are written over the output's, in the private and the public case |
| ExtKeys.ExtKey.SeckeyTweakAddSum | build-macos-lwc-r1.5.6/src/bip32.c:606-618 | an all-zero tweak sum is replaced and any other added to |
| ExtKeys.Walk | build-macos-lwc-r1.5.6/src/bip32.c:802-823 | the loop over two alternating key slots derives along the path, each step with its own flags |
| ExtKeys.FromParentPath | build-macos-lwc-r1.5.6/src/bip32.c:780-829 | a failure leaves the output alone; success stores the key of the path |
| Bip32Derive.HashOnly | build-macos-lwc-r1.5.6/src/bip32.c:751-758 | skipping hashes changes nothing in a child but its hash fields |
| Bip32Derive.PathIsNeuteredPrivatePath | build-macos-lwc-r1.5.6/src/bip32.c:780-829 | any path from a private root, whatever its hardened elements: the public flag gives the neutered result of deriving every step privately with all hashes, and fails exactly when that fails (section "Child key derivation (CKD) functions" of BIP 32) |
| Bip32Derive.PublicRoot | build-macos-lwc-r1.5.6/src/bip32.c:793-801 | the neutered root derives the same public keys along every path without hardened elements, and no other path |
| Bip32Derive.TelescopeStep | build-macos-lwc-r1.5.6/src/bip32.c:725-731 | the key's point plus the root's own tweak sum is the root's point plus the key's tweak sum, and deriving keeps this so |
| Bip32Derive.TweaksTelescope | build-macos-lwc-r1.5.6/src/bip32.c:849-875 | for every root, adding the final sum to the root's public key gives what adding the root's own sum to the public key of step-by-step derivation gives, hardened steps included |
| Bip32Derive.WithTweakMeans | build-macos-lwc-r1.5.6/src/bip32.c:849-875 | for every root: nothing without one of two flags; with the tweak-sum flag the result is the derived key with the root's own tweak sum added to its public key, or nothing if that is infinity; with the public flag alone, which the argument check also lets through, it has the root's own public key instead |
| Bip32Derive.WithTweakIsDerived | build-macos-lwc-r1.5.6/src/bip32.c:849-875 | with the tweak-sum flag, where there is a derived key, the result is that key if and only if the root's own tweak sum is zero; for public roots too, if all points are multiples of the generator |
| CurveModel.PublicAloneDiffers | build-macos-lwc-r1.5.6/src/bip32.c:859-860 | on a lawful curve of order 3 and a root with children and no tweak sum: the call gives the derived key if and only if the tweak-sum flag is set |
| CurveModel.RootSumDiffers | build-macos-lwc-r1.5.6/src/bip32.c:725-731 | and for the same root with a tweak sum of 1, as deriving with the tweak-sum flag leaves behind, there is a derived key but no result |
| ExtKeys.WithTweakFromParentPath | build-macos-lwc-r1.5.6/src/bip32.c:849-875 | the method stores that key, or, when the output is the parent itself, the derived key with the sum added to its own public key; a tweak that fails wipes the output and is an error, a derivation that fails leaves it alone |
| Bip32Serial.UnserializeSerialize | build-macos-lwc-r1.5.6/src/bip32.c:489-589 | a serialized key is read back as the key or its public half, with the parent hash cut to its fingerprint |
| Bip32Serial.SerializeUnserialize | build-macos-lwc-r1.5.6/src/bip32.c:489-589 | 78 bytes that are read can be written back to the same bytes exactly when the key read is valid |
| Bip32Serial.SerializedLayout | build-macos-lwc-r1.5.6/src/bip32.c:489-534 | where each field stands in the 78 bytes, numbers with the most significant byte first, and exactly which keys are refused ("Serialization format" of BIP 32) |
| Bip32Serial.ReadIff | build-macos-lwc-r1.5.6/src/bip32.c:543-589 | exactly which bytes are read: version, key byte, scalar or point must fit |
| Bip32Serial.Serialize | build-macos-lwc-r1.5.6/src/bip32.c:489-534 | writes the 78 bytes or changes nothing |
| Bip32Serial.Unserialize | build-macos-lwc-r1.5.6/src/bip32.c:543-589 | rejected bytes wipe the output, except for a wrong length |
| Varint.VarintRoundTrip | build-macos-lwc-r1.5.6/src/script_int.h:77-90 | a CompactSize integer of 1, 3, 5 or 9 bytes is read back, whatever follows it |
| Varint.VarintShortest | build-macos-lwc-r1.5.6/src/script_int.h:77-90 | no bytes that are read as the number are shorter |
| Varint.VarintForm | build-macos-lwc-r1.5.6/src/script_int.h:77-90 | the four forms byte by byte: the number itself up to 0xfc, or 0xfd, 0xfe, 0xff and 2, 4, 8 bytes |
| Varint.LittleEndianAt | build-macos-lwc-r1.5.6/src/pullpush.c:84-110 | byte i of a number is its digit of 256^i |
| Varint.FromToLittleEndian | build-macos-lwc-r1.5.6/src/pullpush.c:84-110 | little-endian integers written in n bytes are read back |
| Varint.ToFromLittleEndian | build-macos-lwc-r1.5.6/src/pullpush.c:84-110 | and any n bytes are those of the integer read from them |
| PushCursors.PushTwice | build-macos-lwc-r1.5.6/src/pullpush.c:11-33 | two pushes do what one push of both does, in every mode and across changes of mode |
| PushCursors.PushAllFlat | build-macos-lwc-r1.5.6/src/pullpush.c:11-33 | any sequence of pushes, gaps left by NULL sources included, is one push of everything |
| PushCursors.PushAccounting | build-macos-lwc-r1.5.6/src/pullpush.h:8-24 | after any sequence of pushes: with room the buffer holds the concatenation and max is the space left; without, it holds the truncated prefix, the cursor is NULL and max is the number of missing bytes; a NULL cursor only adds up the total; nothing else is written |
| PushCursors.PushCursor.PushBytes | build-macos-lwc-r1.5.6/src/pullpush.c:11-33 | one push on the caller's buffer, its new cursor and max, and where the bytes went |
| PushCursors.PushCursor.PushVarint | build-macos-lwc-r1.5.6/src/pullpush.c:126-131 | pushes the CompactSize bytes: with room the cursor moves by 1, 3, 5 or 9 |
| PushCursors.PushCursor.PushVarbuff | build-macos-lwc-r1.5.6/src/pullpush.c:168-173 | two pushes that amount to one of the length-prefixed bytes |
| PushCursors.PushCursor.PushWitnessStack | build-macos-lwc-r1.5.6/src/pullpush.c:140-149 | the loop pushes the whole BIP 144 serialization of the stack, or measures it, or its truncated prefix |
| PushCursors.ItemsInOrder | build-macos-lwc-r1.5.6/src/pullpush.c:140-149 | each item stands behind its length, between the items before and after it |
| PullViews.FailureIsSticky | build-macos-lwc-r1.5.6/src/pullpush.c:35-74 | a failed cursor reads zeros and NULL and stays failed, whatever is pulled |
| PullViews.PulledBytes | build-macos-lwc-r1.5.6/src/pullpush.c:35-50 | every byte pulled is the one as many places behind the cursor, or zero if it is missing, and where the cursor ends up |
| PullViews.Skipped | build-macos-lwc-r1.5.6/src/pullpush.c:52-70 | the same of bytes skipped |
| PullViews.SubfieldNests | build-macos-lwc-r1.5.6/src/pullpush.c:202-238 | a subfield is a view of its own bytes; closing it puts the outer cursor exactly at its end wherever the pulls stopped, fails it if they failed, and with the stricter close also if bytes are left |
| PullCursors.PullCursor.PullBytes | build-macos-lwc-r1.5.6/src/pullpush.c:35-50 | what is missing reads as zeros and fails the cursor; otherwise it advances |
| PullCursors.PullCursor.PullSkip | build-macos-lwc-r1.5.6/src/pullpush.c:52-70 | skips bytes that are there, and fails otherwise |
| PullCursors.PullCursor.PullVarint | build-macos-lwc-r1.5.6/src/pullpush.c:151-166 | reads exactly the bytes of one CompactSize integer, in any of its lengths |
| PullCursors.PullCursor.PullVarlengthBuff | build-macos-lwc-r1.5.6/src/pullpush.c:186-191 | never answers with a length whose bytes are not there |
| PullCursors.PullCursor.PeekU8 | build-macos-lwc-r1.5.6/src/pullpush.c:116-124 | does not move the cursor, and fails it at the end |
| PullCursors.PullCursor.PullSubfieldEnd | build-macos-lwc-r1.5.6/src/pullpush.c:214-228 | moves to the end of a subfield that lies within what is left, and fails otherwise |
| WitnessStacks.PullFieldComplete | build-macos-lwc-r1.5.6/src/pullpush.c:240-285 | a length-prefixed field holding exactly a witness stack is pulled, with the cursor exactly behind it; the early check on the count turns no stack away |
| WitnessStacks.PullFieldSound | build-macos-lwc-r1.5.6/src/pullpush.c:240-285 | nothing else is accepted: not a truncated field, not one with bytes to spare |
| WitnessStacks.PullPushed | build-macos-lwc-r1.5.6/src/pullpush.c:140-149 | a stack pushed in a subfield is pulled back unchanged |
| WitnessStacks.ExtraRefused | build-macos-lwc-r1.5.6/src/pullpush.c:230-238 | with any further byte inside the subfield it is refused |
| WitnessStacks.ItemsDetermined | build-macos-lwc-r1.5.6/src/pullpush.c:262-267 | bytes hold the items of one list only, and no list of as many items continues them |
| WitnessStacks.ItemsAreLong | build-macos-lwc-r1.5.6/src/pullpush.c:257-260 | a stack has no more items than bytes, which is what the early check uses |
| WitnessStacks.PullPlainComplete | build-macos-lwc-r1.5.6/src/pullpush.c:251-254 | outside a subfield any bytes that start with a stack are accepted, and the cursor is not moved |
| WitnessStacks.PullPlainSound | build-macos-lwc-r1.5.6/src/pullpush.c:269-278 | and no others |
| WitnessStacks.BytesRoundTrip | build-macos-lwc-r1.5.6/src/transaction.c:220-257 | a stack written to bytes is read back from them |
| WitnessStacks.PullWitness | build-macos-lwc-r1.5.6/src/pullpush.c:240-285 | the method with its sub-cursor and loop accepts, fails and leaves the cursor as described, and refuses a second result |
| WitnessStacks.WitnessStackToBytes | build-macos-lwc-r1.5.6/src/transaction.c:243-257 | writes the serialization if it fits, and otherwise only reports its length |
| WitnessStacks.WitnessStackFromBytes | build-macos-lwc-r1.5.6/src/transaction.c:220-228 | reads a stack from bytes that start with one |
| Wordlists.JoinSplit | build-macos-lwc-r1.5.6/src/wordlist.c:46-60 | joining the words of a sentence gives the sentence, double spaces included |
| Wordlists.SplitJoin | build-macos-lwc-r1.5.6/src/wordlist.c:46-60 | splitting joined words without spaces gives the words |
| Wordlists.JoinSpaces | build-macos-lwc-r1.5.6/src/mnemonic.c:48-55 | words are joined by single spaces |
| Wordlists.WordlistCount | build-macos-lwc-r1.5.6/src/wordlist.c:38-44 | counting separators gives the number of words |
| Wordlists.GetBits | build-macos-lwc-r1.5.6/src/wordlist.c:10-16 | the halving loop computes the binary logarithm, rounded down |
| Wordlists.Tokenise | build-macos-lwc-r1.5.6/src/wordlist.c:52-60 | overwriting each separator leaves every word as a NUL-terminated string at its pointer |
| Wordlists.WordlistInit | build-macos-lwc-r1.5.6/src/wordlist.c:46-68 | a list holds the words of its string, and is flagged sorted exactly when they are in order |
| Wordlists.Words.BinarySearch | build-macos-lwc-r1.5.6/src/wordlist.c:75-76 | in a sorted list the search finds a word exactly when it is there |
| Wordlists.Words.LookupWord | build-macos-lwc-r1.5.6/src/wordlist.c:70-84 | 0 exactly when the word is not in the list, otherwise the place of an equal word plus 1, sorted or not |
| Wordlists.StrCmpTransitive | build-macos-lwc-r1.5.6/src/wordlist.c:63-65 | comparing neighbours is enough to know that a list is sorted |
| Wordlists.StrCmpMeans | build-macos-lwc-r1.5.6/src/wordlist.c:63-65 | the order: the first character that differs decides, a prefix comes first |
| Bits.GroupSpread | build-macos-lwc-r1.5.6/src/mnemonic.c:9-27 | numbers packed one after the other are extracted again; bits short of a number at the end do not count |
| Bits.SpreadGroup | build-macos-lwc-r1.5.6/src/mnemonic.c:9-27 | packing the numbers extracted from whole groups of bits gives the bits |
| Bits.BitOfNumber | build-macos-lwc-r1.5.6/src/mnemonic.c:24-26 | the masks that store_index tests are the bits of the number |
| Mnemonics.ExtractIndex | build-macos-lwc-r1.5.6/src/mnemonic.c:9-15 | the n'th number of so many bits, most significant bit first |
| Mnemonics.StoreIndex | build-macos-lwc-r1.5.6/src/mnemonic.c:21-27 | exactly the n'th place changes, to the bits of the value |
| Mnemonics.MnemonicFromBytes | build-macos-lwc-r1.5.6/src/mnemonic.c:29-60 | the two loops build the sentence of the words that the bytes number |
| Mnemonics.MnemonicToBytes | build-macos-lwc-r1.5.6/src/mnemonic.c:62-99 | the buffer is left alone if too small, cleared if a word is unknown, and otherwise holds the numbers of the words followed by zeros |
| Bip39.MaskIsTop | build-macos-lwc-r1.5.6/src/bip39.c:88-100 | the checksum mask of a length selects the first length / 4 bits of the hash, those above 8 from its second byte |
| Bip39.ChecksumOkBits | build-macos-lwc-r1.5.6/src/bip39.c:140-149 | the masked comparison holds exactly when the bits behind the entropy are the first bits of its hash |
| Bip39.WithChecksumStream | build-macos-lwc-r1.5.6/src/bip39.c:130-135 | entropy and masked checksum bytes number the words of BIP 39 (section "Generating the mnemonic"): entropy and then one hash bit for each 32 bits |
| Bip39Words.SentenceWords | build-macos-lwc-r1.5.6/src/bip39.c:112-138 | the sentence word by word: three for each 32 bits, word i the one that bits 11 i to 11 i + 10 of the entropy and its SHA-256 number, the most significant first, joined by spaces |
| Bip39Words.NumberUnique | build-macos-lwc-r1.5.6/src/mnemonic.c:9-15 | no other number has those bits |
| Bip39Words.SupportedLengths | build-macos-lwc-r1.5.6/src/bip39.c:88-100 | the lengths of entropy are 16, 20, 24, 28, 32, 36 and 40 |
| Bip39Words.WordsLength | build-macos-lwc-r1.5.6/src/bip39.c:178-189 | the number of words decides the length: 12 to 30 in threes, four bytes for each three |
| Bip39Words.AnswersByLength | build-macos-lwc-r1.5.6/src/bip39.c:167-192 | the answers given without a look at the checksum, by the number of words and the room |
| Bip39.MnemonicFromEntropy | build-macos-lwc-r1.5.6/src/bip39.c:112-138 | entropy of a supported length becomes the sentence of BIP 39; nothing else is accepted |
| Bip39.AcceptsExactly | build-macos-lwc-r1.5.6/src/bip39.c:150-202 | with a list of 2048 different words without spaces and room for any entropy, the accepted sentences are exactly the generated ones, and the answer is the entropy; so both round trips hold |
| Bip39.RoundTrip | build-macos-lwc-r1.5.6/src/bip39.c:150-202 | a generated sentence gives back its entropy, or its length if there is no room |
| Bip39.AcceptedIsGenerated | build-macos-lwc-r1.5.6/src/bip39.c:150-202 | an accepted sentence is generated again from its entropy, even if the list repeats words |
| Bip39.SupportedCounts | build-macos-lwc-r1.5.6/src/bip39.c:178-189 | the length arithmetic accepts only 12, 15, 18, 21, 24, 27 and 30 words |
| Bip39.CheckedIffRoom | build-macos-lwc-r1.5.6/src/bip39.c:183-198 | success means a checked sentence exactly when the buffer has room for the entropy that the number of words suggests |
| Bip39.WrongChecksumAnswered | build-macos-lwc-r1.5.6/src/bip39.c:183-198 | for every hash and list a sentence of 12 words with a wrong checksum: refused with room for 16 bytes, answered with success and length 16 in any shorter buffer |
| Bip39.MnemonicToEntropy | build-macos-lwc-r1.5.6/src/bip39.c:150-202 | the method's answer and the bytes it copies, in every case |
| Bip39.MnemonicValidate | build-macos-lwc-r1.5.6/src/bip39.c:204-211 | valid sentences are exactly those that BIP 39 generates |
| AesCbc.DecryptEncrypt | build-macos-lwc-r1.5.6/src/aes.c:194-208 | CBC decryption undoes CBC encryption block by block (section 6.2 of NIST SP 800-38A) |
| AesCbc.UnpadPad | build-macos-lwc-r1.5.6/src/aes.c:174-180 | the remainder of the last byte undoes the padding of section 6.3 of RFC 5652 for every message length |
| AesCbc.RoundTrip | build-macos-lwc-r1.5.6/src/aes.c:143-222 | every message, key and IV: decrypting the encryption gives the message and its length |
| CbcBlocks.EncryptionIsCbc | build-macos-lwc-r1.5.6/src/aes.c:194-217 | each block of an encryption is that of the message and its padding combined with the block before or the IV, byte by byte (section 6.2 of NIST SP 800-38A); the padding is 1 to 16 bytes, each of them their number (section 6.3 of RFC 5652) |
| CbcBlocks.DecryptionIsPlain | build-macos-lwc-r1.5.6/src/aes.c:163-208 | each block of a decryption likewise, cut by the last byte modulo 16, or 16 for 0 |
| CbcBlocks.PaddingFound | build-macos-lwc-r1.5.6/src/aes.c:210-217 | decrypting what was encrypted, block by block, gives the message followed by that padding |
| CbcBlocks.ArgumentsAccepted | build-macos-lwc-r1.5.6/src/aes.c:109-128 | exactly which arguments are accepted |
| CbcBlocks.AnnouncedLength | build-macos-lwc-r1.5.6/src/aes.c:130-141 | the announced length is that of the padded message |
| AesCbc.LastBlock | build-macos-lwc-r1.5.6/src/aes.c:163-172 | decrypting the last block ahead of the others, chained to the one before or to the IV, gives its plain bytes |
| AesCbc.Output | build-macos-lwc-r1.5.6/src/aes.c:130-141 | no output exceeds the maximum length, and an encryption is exactly that long |
| AesCbc.EncryptInto | build-macos-lwc-r1.5.6/src/aes.c:194-217 | the block loop and the padded last block write the CBC of the padded message at the output and nothing else |
| AesCbc.DecryptTo | build-macos-lwc-r1.5.6/src/aes.c:163-208 | the last block's remainder and then the others are written, or only the length needed is answered |
| AesCbc.AesCbc | build-macos-lwc-r1.5.6/src/aes.c:143-222 | arguments, lengths and bytes of the whole call, for both directions |
| EcdhEnvelope.OpenSeal | build-macos-lwc-r1.5.6/src/aes.c:313-345 | an envelope of IV, payload and HMAC opens under the same keys |
| EcdhEnvelope.RoundTrip | build-macos-lwc-r1.5.6/src/aes.c:265-351 | two parties whose ECDH agrees and whose labels are equal: what one encrypts, of any length but 0, the other decrypts; the encryption is exactly as long as announced, the decryption shorter |
| EnvelopeAuth.DecryptsIfAuthentic | build-macos-lwc-r1.5.6/src/aes.c:313-335 | a decryption with a working ECDH and room succeeds if and only if the last 32 bytes are the HMAC of all before them under the second half of the keys; then it answers the CBC decryption under the first half, and otherwise nothing is written |
| EnvelopeAuth.EncryptsAuthentic | build-macos-lwc-r1.5.6/src/aes.c:313-345 | an encryption is the IV, the CBC encryption under the first half of the keys and the HMAC of both under the second |
| EnvelopeAuth.ChangedIsRefused | build-macos-lwc-r1.5.6/src/aes.c:317-321 | a genuine envelope is refused once its HMAC is changed, or what precedes it to something of another HMAC |
| EnvelopeAuth.CallsAnswered | build-macos-lwc-r1.5.6/src/aes.c:230-312 | exactly which calls are refused, which are only told the length, and what a failing ECDH leaves |
| EcdhEnvelope.SealInto | build-macos-lwc-r1.5.6/src/aes.c:325-345 | payload and HMAC are appended inside every buffer that is accepted |
| EcdhEnvelope.CbcWithEcdhKeyInto | build-macos-lwc-r1.5.6/src/aes.c:265-351 | all outcomes of a call; the branch that should never happen is never taken, since an error is only ever that of ECDH |
| MapItems.RunRefines | build-macos-lwc-r1.5.6/src/map.c:228-419 | every run of add, remove, replace, combine, assign and sort keeps keys unique and ends with the map that the same run on a mathematical map ends with |
| MapVerify.RunRefused | build-macos-lwc-r1.5.6/src/map.c:320-334 | which keys a run leaves with a value that the map's check refuses: those that a replacement gave one while they were there, unless later removed, replaced with an accepted value or lost to an assignment |
| MapVerify.AcceptedThroughout | build-macos-lwc-r1.5.6/src/map.c:320-334 | from accepted items, a run holds accepted items only all the way exactly if every value that replaces a present one is accepted |
| MapVerify.ReplaceLetsIn | build-macos-lwc-r1.5.6/src/map.c:320-334 | one run that lets a refused value in: a keypath replaced by three bytes, after which every search of that map for a full key ends in an error |
| MapItems.AddRefines | build-macos-lwc-r1.5.6/src/map.c:228-274 | adding gives the map one more key, or leaves it alone for a duplicate or a refused item |
| MapItems.AddMeans | build-macos-lwc-r1.5.6/src/map.c:228-274 | when an item is refused, ignored or appended |
| MapItems.RemoveRefines | build-macos-lwc-r1.5.6/src/map.c:291-305 | removing takes the key away |
| MapItems.PlaceMeans | build-macos-lwc-r1.5.6/src/map.c:291-334 | removing and replacing concern the item where it stands, and the others stay in their order |
| MapItems.ReplaceRefines | build-macos-lwc-r1.5.6/src/map.c:320-334 | replacing sets the key if it is there, verified or not, or if the item is accepted |
| MapItems.CombineRefines | build-macos-lwc-r1.5.6/src/map.c:382-399 | combining is a union in which the target's values win: of the whole source, or of the items before the first that is refused |
| MapItems.AssignRefines | build-macos-lwc-r1.5.6/src/map.c:401-419 | assigning makes the target the source's map, or leaves it as it was if any item is refused |
| MapItems.SortRefines | build-macos-lwc-r1.5.6/src/map.c:373-380 | sorting permutes the items into ascending order and leaves the map alone |
| MapItems.SortUnique | build-macos-lwc-r1.5.6/src/map.c:378 | there is only one ascending order, so any correct qsort ends with the same list |
| MapItems.CompareTotal | build-macos-lwc-r1.5.6/src/map.c:351-371 | the comparison is irreflexive as an order, asymmetric and total on different keys |
| MapItems.CompareTransitive | build-macos-lwc-r1.5.6/src/map.c:351-371 | and transitive, across integer and byte keys |
| MapItems.CompareIsLex | build-macos-lwc-r1.5.6/src/map.c:363-370 | byte keys are in lexicographic order, a prefix first |
| MapItems.IntegersFirst | build-macos-lwc-r1.5.6/src/map.c:351-362 | integer keys come before byte keys, in the order of their numbers |
| MapItems.SameItemsSameMap | build-macos-lwc-r1.5.6/src/map.c:373-380 | lists with the same items in any order stand for the same map |
| WallyMaps.WallyMap.Find | build-macos-lwc-r1.5.6/src/map.c:66-93 | the first match from an index on, integer and byte keys never matching each other |
| WallyMaps.WallyMap.Get | build-macos-lwc-r1.5.6/src/map.c:113-120 | the value of a key in the map, or nothing |
| WallyMaps.WallyMap.Grow | build-macos-lwc-r1.5.6/src/internal.c:645-671 | a full allocation is replaced by a copy of twice the size; all copies for an allocation stay below twice the largest number of items it has held |
| WallyMaps.WallyMap.Add | build-macos-lwc-r1.5.6/src/map.c:228-274 | adds in place and keeps the map valid, the bound on copies included |
| WallyMaps.WallyMap.Remove | build-macos-lwc-r1.5.6/src/map.c:291-305 | the items behind move up, in their order |
| WallyMaps.WallyMap.Replace | build-macos-lwc-r1.5.6/src/map.c:320-334 | overwrites the value in place, or adds |
| WallyMaps.WallyMap.Sort | build-macos-lwc-r1.5.6/src/map.c:373-380 | the items end up in the one ascending order |
| WallyMaps.WallyMap.Combine | build-macos-lwc-r1.5.6/src/map.c:382-399 | the loop of adds, stopping at the first refusal; the source does not change, and a map combined with itself neither |
| WallyMaps.WallyMap.Assign | build-macos-lwc-r1.5.6/src/map.c:401-419 | builds the result aside, so that a refusal leaves the target's own allocation in place |
| Keypath.PathRoundTrip | build-macos-lwc-r1.5.6/src/map.c:718-723 | a stored path is read back |
| Keypath.BytesRoundTrip | build-macos-lwc-r1.5.6/src/map.c:800-805 | and whole words of bytes are those of the path read from them |
| Keypath.ValidIfStored | build-macos-lwc-r1.5.6/src/map.c:603-607 | a value is one of a keypath exactly if it is four bytes and the words of a path |
| Keypath.WordBytes | build-macos-lwc-r1.5.6/src/map.c:718-723 | each word stands in four bytes, the least significant first |
| Keypath.KeypathValue | build-macos-lwc-r1.5.6/src/map.c:714-723 | fingerprint and little-endian path |
| Keypath.KeypathAdd | build-macos-lwc-r1.5.6/src/map.c:696-729 | adds that value under the public key, if the map is one for keypaths |
| Keypath.KeypathGetPath | build-macos-lwc-r1.5.6/src/map.c:786-808 | the words if there is room for them, otherwise only their number |
| Keypath.FoundEncodes | build-macos-lwc-r1.5.6/src/map.c:435-464 | an item found by public key has the compressed, x-only or uncompressed encoding as its key |
| Keypath.LookupFails | build-macos-lwc-r1.5.6/src/map.c:435-464 | when a lookup fails rather than find nothing |
| Keypath.GetKeySound | build-macos-lwc-r1.5.6/src/map.c:466-529 | a reported index names an item whose key encodes the returned key's public key; for a full root the item's fingerprint is the root's and the key is derived along its stored path, otherwise it is the root itself |
| Keypath.GetKeyDerives | build-macos-lwc-r1.5.6/src/map.c:503-507 | from a private root that key is the one of deriving every step of the path privately, neutered on request |
| Keypath.GetKeyPrivate | build-macos-lwc-r1.5.6/src/map.c:483-518 | when a public key is asked for, the answer is private if and only if the key given is private and either has no chain code and is in the map, or the search gets, past items it passes over, to an item under the key itself that stores its fingerprint and no path |
| Keypath.GetKeyNeverPrivate | build-macos-lwc-r1.5.6/src/map.c:501-507 | no private answer for a key with a chain code when no item is a fingerprint alone |
| Keypath.RootIsAnswered | build-macos-lwc-r1.5.6/src/map.c:483-502 | an item with its own key and fingerprint and no path answers every key with itself, private or not, whatever the flags |
| Keypath.FoundIffStored | build-macos-lwc-r1.5.6/src/map.c:435-464 | in a map with unique keys a public key is found at an item exactly if the item's key is its compressed form, its x-only form where there is no compressed one, or its uncompressed form where there is neither |
| Keypath.GetKeyExact | build-macos-lwc-r1.5.6/src/map.c:488-520 | an item is the answer, with a given key, if and only if it stores the root's fingerprint and a path to that key, under the first of the three forms that the map holds, and the search passes over all items before it |
| Keypath.GetKeyComplete | build-macos-lwc-r1.5.6/src/map.c:488-520 | so an item stored for the root itself or a derived key, under any of the three forms, is found from any place up to it if and only if the search passes over the items in between |
| Keypath.GetKeyNothing | build-macos-lwc-r1.5.6/src/map.c:488-520 | the search answers that nothing is found exactly if it passes over every item, and ends in an error exactly if an item it gets to is malformed, not derivable or fails the lookup |
| Keypath.HardenedFails | build-macos-lwc-r1.5.6/src/map.c:503-512 | an input: for a public root, an item with its fingerprint and a hardened path, whoever's it is, ends the search in an error |
| Keypath.GetBip32KeyFrom | build-macos-lwc-r1.5.6/src/map.c:466-529 | the method with its loop reports what the search finds, and an all-zero output otherwise; a key that is its own output is cleared first, and the cleared key searched for |

## Left out

- NULL pointers and lengths that contradict them: arguments are sequences, arrays and options; a NULL with a length of zero is an empty sequence.
- Out-of-memory returns, allocator hooks, clearing of freed memory and overflow of `size_t` additions.
- Host endianness and pointer alignment: cursors are indices into arrays or byte sequences.
- Bodies of long loops are split into helper methods, one for each step, which the source writes inline.
- CoinSelectAssets.CoinselectAssets: requires fewer than 2^32 values, because the source numbers them in 32 bits; least scores and completeness are claimed for totals below 2^64 only.
- Bip32Path.Step: `1h2` and `1<2;3>` are accepted as two elements, as in the source, so printing after parsing is not claimed.
- Copies of bytes onto themselves, when one object is passed twice, are taken to leave them as they are.
- Keypath.KeypathAdd: whether a map is one for keypaths is an argument, because functions cannot be compared; the three verify functions themselves are parameters of the map.
- Mnemonics.MnemonicToBytes: the output is other storage than the word list.
- WallyMaps.WallyMap.Sort: qsort and bsearch belong to the C library; an insertion sort on the list and a binary search stand for them.
- WallyMaps.WallyMap.Combine: the source map shares no allocation with the target.
- PullCursors.PullCursor.PullBytes: a NULL cursor with a non-zero max, which no function of the library leaves behind for pulls, is not a valid cursor.
- AesCbc.AesCbc: decryption requires at least one block, as the source reads it before any check; input and output do not overlap.
- EcdhEnvelope.CbcWithEcdhKeyInto: HMAC never fails, as its arguments are always valid.
- WitnessStacks.PullPlainSound: bytes after the stack are not rejected outside a subfield, because the source does not.
- `transaction.c` beyond the witness stack functions, `wif.c`, `bip38.c`, `bip85.c`, `symmetric.c`: short compositions of what is modelled here.
- `hex_.c`, `base_64.c`, `hmac.c`, `pbkdf2.c`, `scrypt.c`, `ecdh.c`, `elements.c`, `anti_exfil.c`: the work is in included code and in secp256k1-zkp.
- `bip39_mnemonic_to_seed` and the language tables: one call of PBKDF2 and constant data.
- Master keys from seeds and the Base58 strings of extended keys: one hash, and a composition of two round trips.
- PSBT, descriptors, scripts and segwit addresses: only their headers are in the repository.
- The Qt and QML front end, the build and setup scripts, and the fuzz harnesses.
