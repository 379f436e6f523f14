# Incremental Merkle tree and vote command layout (Dafny model)

This project models two pieces of the MACI repository.

1. **The binary incremental Merkle tree** used by the zeroth-leaf tests
   (`IncrementalMerkleTree`). It is an append-only accumulator of fixed depth
   `treeLevels`. It keeps:
   - a zero chain `zeros`, one entry per level;
   - the remembered left siblings `filledSubtrees`;
   - the current `root`;
   - `nextLeafIndex`, the slot the next leaf goes to.

   `insertLeaf` walks the levels once. The constructor can optionally seed
   a "zeroth leaf". The tree's hash is the symbolic string `"(l, r) "`. It
   is modelled as the free constructor `Node(l, r)` of a `Term` datatype.
   Two roots are therefore equal exactly when the trees they summarise are
   equal.
2. **The vote `Command` layout** (`boilerplate/domainobjs/ts/index.ts`):
   - the eight-field serialisation `asArray`;
   - the field-wise `equals`;
   - the eleven-element plaintext built by `encrypt`;
   - the index-based unpacking in `decrypt`.

   `StateLeaf` is a plain record. The crypto primitives are passed in as a
   record of functions (`Crypto`). Two properties are assumed of
   them, each only as a hypothesis where it is used:
   - decryption with the encryption key returns the plaintext
     (`DecryptInvertsEncrypt`, in `Encrypt` and `DecryptEncrypt`);
   - a public key accepts every signature made with its private key
     (`KeyPair`, in `Sign` and `VerifySignature`).

Files:
- `arith.dfy` (`Arith`): powers of two; the ancestor position `n / 2^level`.
- `merkle_spec.dfy` (`MerkleSpec`): the hash terms and the zero chain
  `Zero`. Also two reference roots and the proof that they agree:
  - `MerkleRoot` halves a row of 2^h nodes;
  - `Subtree` is the subtree at a given height and position over the
    zero-padded leaf row.
- `incremental_tree.dfy` (`IncrementalMerkleTree`): the tree record, both
  constructor branches (`NewTree`), `InsertLeaf`, and sequential insertion
  (`InsertAll`). Also the constructor's properties.
- `tree_insertion.dfy` (`TreeInsertion`): what `InsertLeaf` reads and
  writes; incremental insertion equals the padded Merkle root; how the
  seeded and unseeded constructors relate.
- `domain_objs.dfy` (`DomainObjs`): `StateLeaf`, `Command`, and the layout
  and round-trip properties.
- `wrappers.dfy` (`Wrappers`): `Option`.

Notes on modelling choices:
- The constructor's `if (_zerothLeaf)` is a JavaScript truthiness test. The
  seed is `Option<int>`, and the seeded branch runs only for `Some(v)` with
  `v != 0` (`IsSeeded`).
- Depth 0 is degenerate. The constructor still hashes once above level 0,
  but `insertLeaf` walks no level (`DepthZeroMismatch`). The seeded and
  padded-root properties are therefore stated for `treeLevels >= 1`.
- `insertLeaf` has no capacity check, so `InsertLeaf` is total and never
  fails. The padded-root theorem needs `nextLeafIndex < 2^treeLevels`.
  Past that bound the walk keeps going: the next insert walks the path of
  index 0, and the root forgets every earlier leaf (`InsertPastCapacity`).
- The unseeded constructor stores the empty string `''` in
  `filledSubtrees[0]`, and `zeros[i]` only from level 1 up
  (`UnseededConstructor`). That placeholder is the `Blank` term.

## Model

| member | source | states |
|---|---|---|
| MerkleSpec.Hash | contracts/ts/__tests__/InsertZerothLeaf.test.ts:69-71 | A hash is an interior node: never a leaf value, never the `''` placeholder, and different from both of its arguments |
| MerkleSpec.HashInjective | contracts/ts/__tests__/InsertZerothLeaf.test.ts:69-71 | Two hashes are equal exactly when their left arguments are equal and their right arguments are equal |
| IncrementalMerkleTree.IsSeeded | contracts/ts/__tests__/InsertZerothLeaf.test.ts:15 | The seed test fails exactly for a missing seed and for a seed of 0, as JavaScript truthiness does |
| IncrementalMerkleTree.NewTree | contracts/ts/__tests__/InsertZerothLeaf.test.ts:8-45 | Both constructor branches build a well-formed tree of the given depth with `nextLeafIndex` 0 and arrays of length max(1, treeLevels) |
| IncrementalMerkleTree.ConstructorZeroChain | contracts/ts/__tests__/InsertZerothLeaf.test.ts:13-41 | In both branches `zeros` has length max(1, treeLevels), `zeros[0]` is the zero value, each later entry hashes the previous one with itself, and entry i is the root of an all-zero subtree of height i |
| IncrementalMerkleTree.UnseededConstructor | contracts/ts/__tests__/InsertZerothLeaf.test.ts:30-44 | Without a seed, the root is `hash(zeros[L-1], zeros[L-1])` and equals the Merkle root of 2^L zero leaves; slot 0 holds the placeholder and slot i ≥ 1 holds `zeros[i]` |
| IncrementalMerkleTree.SeededConstructor | contracts/ts/__tests__/InsertZerothLeaf.test.ts:15-29 | With a seed, slot 0 is the seed, slot i hashes slot i-1 with `zeros[i-1]`, the root hashes the top slot with the top zero, and the root is the Merkle root of the seed padded with zeros to 2^L leaves |
| IncrementalMerkleTree.ZeroSeedIsNoSeed | contracts/ts/__tests__/InsertZerothLeaf.test.ts:15 | The truthiness test: a seed of 0 builds the same tree as no seed, with the placeholder in slot 0 |
| IncrementalMerkleTree.DepthZeroMismatch | contracts/ts/__tests__/InsertZerothLeaf.test.ts:19-53 | At depth 0 the constructors still hash once (`hash(z, z)`, `hash(seed, z)`) while an insert returns the bare leaf, so the seeded tree differs from unseeded-plus-insert there |
| IncrementalMerkleTree.UnseededLevels | contracts/ts/__tests__/InsertZerothLeaf.test.ts:35-42 | The unseeded loop pushes one entry to each array per level from 1 to treeLevels-1 and never changes entries already pushed |
| IncrementalMerkleTree.SeededLevels | contracts/ts/__tests__/InsertZerothLeaf.test.ts:21-27 | The seeded loop pushes one entry to each array per level from 1 to treeLevels-1 and never changes entries already pushed |
| IncrementalMerkleTree.InsertPath | contracts/ts/__tests__/InsertZerothLeaf.test.ts:53-64 | The insertion loop only overwrites sibling slots in place: the array's length is unchanged |
| IncrementalMerkleTree.InsertLeaf | contracts/ts/__tests__/InsertZerothLeaf.test.ts:47-67 | An insert keeps the tree well formed and the sibling array's length unchanged, so inserts can be chained |
| IncrementalMerkleTree.InsertAll | contracts/ts/__tests__/InsertZerothLeaf.test.ts:47-67 | k sequential inserts advance `nextLeafIndex` by exactly k and change neither `treeLevels` nor `zeros` |
| TreeInsertion.InsertLeafFrame | contracts/ts/__tests__/InsertZerothLeaf.test.ts:47-67 | An insert raises `nextLeafIndex` by one, keeps `treeLevels` and `zeros`, and changes `filledSubtrees[i]` only at levels where the path index is even |
| TreeInsertion.InsertLeafReadsOnlyOddLevels | contracts/ts/__tests__/InsertZerothLeaf.test.ts:53-62 | An insert reads `filledSubtrees[i]` only where the path index is odd: trees differing only in the old root or in slots at even levels give identical results |
| TreeInsertion.InsertPathCorrect | contracts/ts/__tests__/InsertZerothLeaf.test.ts:53-64 | Each loop iteration carries the root of the subtree containing the new leaf up one level, and leaves behind exactly the left siblings the next insert will read |
| TreeInsertion.InsertLeafHolds | contracts/ts/__tests__/InsertZerothLeaf.test.ts:47-67 | Below capacity, an insert turns a tree holding leaves s into one holding s plus the new leaf: zero chain, readable siblings and padded root all maintained |
| TreeInsertion.EmptyTreeHolds | contracts/ts/__tests__/InsertZerothLeaf.test.ts:30-44 | A fresh unseeded tree of depth ≥ 1 holds the empty leaf list: zero chain, no sibling needed yet, root of the all-zero tree |
| TreeInsertion.InsertAllHolds | contracts/ts/__tests__/InsertZerothLeaf.test.ts:47-67 | Inserting a run of leaves, within capacity, into a tree holding s gives a tree holding s followed by the run, with the padded root |
| TreeInsertion.IncrementalEqualsPadded | contracts/ts/__tests__/InsertZerothLeaf.test.ts:30-67 | After k ≤ 2^L inserts into an unseeded tree, the root equals the Merkle root of those k leaves padded with the zero value to 2^L leaves |
| TreeInsertion.PlaceholderNeverInRoot | contracts/ts/__tests__/InsertZerothLeaf.test.ts:32-62 | Starting from the unseeded tree and staying within capacity, the `''` placeholder never reaches the root |
| TreeInsertion.SeededIsUnseededPlusInsert | contracts/ts/__tests__/InsertZerothLeaf.test.ts:15-67 | For depth ≥ 1 and a non-zero seed, the seeded constructor's `zeros`, `filledSubtrees` and `root` equal those of the unseeded tree after `insertLeaf(seed)`; only `nextLeafIndex` differs (0 vs 1) |
| TreeInsertion.FirstInsertOverwritesSeed | contracts/ts/__tests__/InsertZerothLeaf.test.ts:15-66 | Because `nextLeafIndex` stays 0 after seeding, the first insert overwrites slot 0 and gives the same tree as the same insert into an unseeded tree |
| TreeInsertion.SeededInsertAll | contracts/ts/__tests__/InsertZerothLeaf.test.ts:15-67 | Any non-empty run of ≤ 2^L inserts gives the same tree with or without a seed, whose root is the padded Merkle root of the inserted leaves alone |
| TreeInsertion.InsertPastCapacity | contracts/ts/__tests__/InsertZerothLeaf.test.ts:47-66 | With no capacity guard, the insert after 2^L leaves walks the path of index 0: `nextLeafIndex` becomes 2^L + 1 and the root is that of a tree holding only the new leaf |
| TreeInsertion.ZerothLeafTests | contracts/ts/__tests__/InsertZerothLeaf.test.ts:76-87 | The two tests' trees (depth 4, zero 0, leaf 123): the seeded tree equals the unseeded tree after inserting 123, apart from `nextLeafIndex`, and its root is the padded Merkle root of [123] |
| MerkleSpec.ZeroIsEmptyRoot | contracts/ts/__tests__/InsertZerothLeaf.test.ts:34-43 | The zero chain's entry at height h is the Merkle root of 2^h zero leaves |
| DomainObjs.AsArray | boilerplate/domainobjs/ts/index.ts:85-97 | The serialisation has 8 elements and unpacking it gives back the same command |
| DomainObjs.Equals | boilerplate/domainobjs/ts/index.ts:102-111 | The field-wise comparison holds exactly when the two commands are the same value |
| DomainObjs.Plaintext | boilerplate/domainobjs/ts/index.ts:148-153 | The plaintext has 11 elements, unpacks to the command, and ends with R8[0], R8[1], S |
| DomainObjs.Encrypt | boilerplate/domainobjs/ts/index.ts:143-158 | With a cipher whose decryption inverts encryption, decrypting the message with the same key gives back the 11-element plaintext |
| DomainObjs.Decrypt | boilerplate/domainobjs/ts/index.ts:163-178 | A command comes out exactly when the decrypted plaintext has at least 8 elements, and it serialises to those first 8 elements |
| DomainObjs.Sign | boilerplate/domainobjs/ts/index.ts:116-121 | The signature checks, on the hash of `asArray()`, under every public key that matches the private key |
| DomainObjs.VerifySignature | boilerplate/domainobjs/ts/index.ts:128-138 | A signature made on this command's hash with the private key that matches `pubKey` is accepted |
| DomainObjs.AsArrayLayout | boilerplate/domainobjs/ts/index.ts:85-97 | `asArray` has exactly 8 elements: stateIndex, encPubKey[0..1], newPubKey[0..1], voteOptionIndex, newVoteWeight, nonce, in that order |
| DomainObjs.FromArray | boilerplate/domainobjs/ts/index.ts:168-177 | Unpacking yields a command exactly when the plaintext has at least eight elements |
| DomainObjs.FromArrayAsArray | boilerplate/domainobjs/ts/index.ts:163-178 | Unpacking inverts `asArray`, and an unpacked command serialises to the first eight elements of the plaintext |
| DomainObjs.FromArrayIgnoresTail | boilerplate/domainobjs/ts/index.ts:168-177 | Elements after index 7 (the signature) never affect the unpacked command |
| DomainObjs.EqualsIffSameArray | boilerplate/domainobjs/ts/index.ts:102-111 | `equals(a, b)` holds iff all eight components agree, i.e. iff `asArray(a) == asArray(b)`, i.e. iff the commands are the same value |
| DomainObjs.EqualsIsEquivalence | boilerplate/domainobjs/ts/index.ts:102-111 | `equals` is reflexive, symmetric and transitive |
| DomainObjs.PlaintextLayout | boilerplate/domainobjs/ts/index.ts:148-153 | The encrypted plaintext has 11 elements: `asArray()` then R8[0], R8[1], S at indices 8–10, and unpacking it returns the command |
| DomainObjs.DecryptEncrypt | boilerplate/domainobjs/ts/index.ts:143-178 | Given a cipher whose decryption inverts encryption, decrypting an encrypted command yields a command `equals` to the original, for every signature |
| DomainObjs.EqualCommandsSignAlike | boilerplate/domainobjs/ts/index.ts:116-137 | Commands that are `equals` feed the same input to the hash, hence get the same signature and the same verification result |

## Left out

- The AccQueue and the quinary incremental tree. Their implementations live in the external `maci-crypto` package, which is not part of this model. The benchmark and parity tests that exercise them are left out too.
- `contracts/ts/deploy.ts`: contract deployment, linking, file I/O and JSON-RPC. It is all I/O.
- Poseidon and field arithmetic. The modelled tree uses only its symbolic string hash.
- The string rendering of terms. The model assumes, without proof, that rendering `"(l, r) "` over decimal numbers is injective. Under that assumption, equality of the source's root strings is equality of `Term`s.
- JavaScript `number` semantics: floating point, `NaN` seeds, and exponent notation in `toString` for very large numbers. Leaves and the zero value are unbounded integers.
- Negative `treeLevels`: depth is a `nat`. The source's loops treat a negative depth like 0.
- `encrypt`, `decrypt`, `hash`, `sign`, `verifySignature` from `maci-crypto`: foreign cryptography. They are uninterpreted function parameters. A public key is taken to match a private key when it accepts every signature made with that private key (`KeyPair`). Whether the `maci-crypto` scheme has this property is not modelled.
- DomainObjs.Decrypt, DomainObjs.FromArray: a decrypted plaintext shorter than eight elements gives `None`. The source would instead build a command whose missing components are `undefined`.
- Public keys are modelled as coordinate pairs, because only indices 0 and 1 are ever read. `SnarkBigInt` equality is taken to be value equality.
- `console.log` output in the tests.
