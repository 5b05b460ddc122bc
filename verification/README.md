# Hybrid keys, KEMs and signatures of oqs-provider: a Dafny model

The repository vendors `oqs-provider`, an OpenSSL provider that combines a
classical and a post-quantum algorithm in one key. This project models that
key container and the protocols on top of it, and proves that the places which
compute offsets into the same buffers agree with each other.

One flat buffer holds a 32-bit length and two key shares, in one of three
layouts:

    Packed        u32 | classic | pq | slack              hybrid signatures
    ClassicFirst  u32 | classic | slack | pq              hybrid KEMs
    PqFirst       u32 | pq | classic | slack              reversed hybrid KEMs

`Layout.dfy` writes this down once, as a concatenation. Everything else is
proved against it: the class `OqsxKey` (`Key.dfy`) allocates, fills and reads
the two buffers in place, through offsets, wrapping lengths and component
pointers, and each method is tied to a function on key values (`KeyValues.dfy`).
The laws across operations are lemmas about those functions (`KeyTheorems.dfy`)
and client methods that run whole pipelines through the objects
(`Pipelines.dfy`). Orders, offsets and choices the code fixes are also written
out without those functions (`KeyTheorems.GeneratedBytes`,
`HybridKem.EncapsWrittenOut`, `HybridSig.SignatureWrittenOut` and others named
likewise). Parameter sets are arbitrary positive lengths. The private
octets are the content of the OCTET STRING of section 5 of RFC 5208, the public
ones the bit string of section 4.1.2.7 of RFC 5280; the order of shares and
secrets follows sections 3.2 and 3.3 of draft-ietf-tls-hybrid-design.

The primitives of OpenSSL and liboqs are abstract functions (`Primitives.dfy`).
What a theorem needs of them it takes as a hypothesis: Diffie-Hellman commutes,
decapsulation inverts encapsulation, verification accepts what was signed,
classical parsing returns what was encoded, outputs have the advertised lengths.
Randomness is an argument.

| file | models |
|---|---|
| `Bytes.dfy`, `Primitives.dfy`, `Layout.dfy` | bytes, fixed-width arithmetic, the header, algorithms, primitives, the layout |
| `KeyValues.dfy`, `Key.dfy`, `KeyTheorems.dfy` | the key container, its codecs, import and export, component views |
| `HybridKem.dfy`, `KemContext.dfy` | encapsulation and decapsulation by halves; the KEM context |
| `HybridSig.dfy`, `SigContext.dfy` | framed composite signatures; the streaming signature context and its duplication |
| `Pipelines.dfy` | clients: store and load, key exchange, streamed signing and verifying |
| `RefCount.dfy`, `Der2Key.dfy` | reference counts under every interleaving; ownership hand-over in the decoder |
| `RuntimeFilter.dfy`, `NidTable.dfy` | disabled algorithms and advertised capabilities; the NID table |
| `Template.dfy`, `CodePoints.dfy`, `Percentile.dfy` | the template splicer, the code-point check, the latency percentile |

## Where the code does less than one would expect

Each of these is proved as an exact condition; the code is modelled as it is.

- A classic-first hybrid KEM key whose classical private share is shorter than
  its slot loses the end of its post-quantum secret key when it is stored
  (`KeyTheorems.ShortClassicFirstRoundTrip`, `KeyTheorems.ShortShareExample`).
- `oqsx_key_gen` returns its success code when the classical half of a hybrid
  fails; a hybrid signature key then has components that were never set
  (`Keys.OqsxKey.KeyGen`, `Pipelines.FailedGeneration`).
- Importing a hybrid KEM key together with a private key does not look at the
  public header (`KeyTheorems.ImportedIsLaid`, `KeyTheorems.UncheckedHeaderExample`).
- A private parameter that is not to be used takes an import into a hybrid key
  without buffers to the header of a null buffer (`KeyTheorems.NullReadExactly`).
- Encapsulation does not look at the lengths its caller passes in
  (`HybridKem.HybKemEncaps`), and matching compares private keys of different
  names over the length of the first (`Keys.OqsxKey.Match`).
- The exposed component views of a hybrid KEM key cover the buffer only if the
  classical share fills its slot (`KeyTheorems.ViewsTile`).
- The length guard of hybrid verification wraps around for a maximal classical
  length of 2^32 - 4 or more (`HybridSig.GuardIsExact`).
- Verification relies on signing never to return an empty post-quantum part:
  a hybrid signature that ends with its classical part would be produced but not
  accepted (`HybridSig.SignThenVerify`, `HybridSig.EmptyPartExample`).
- The message operation signs and verifies the empty message in pieces, but
  refuses it in one call (`Pipelines.SignMessageBothWays`,
  `Pipelines.VerifyMessageBothWays`).
- A length query reopens the digest of a context that was fed, and changing it
  drops what was absorbed (`SigContext.QueryReopensDigest`); a second context
  string clears the first (`SigContext.SigCtx.SetContext`).
- Duplicating a signature context shares the stored signature, so both contexts
  would give it back (`SigContext.SigCtx.DupCtx`,
  `SigContext.DuplicateWithSignature`).
- A context that stores an empty context string, also one left by a refused
  second string, cannot be duplicated, and the failing call gives back a stored
  signature that the original keeps (`SigContext.SigCtx.DupCtx`,
  `SigContext.DuplicateWithEmptyContext`).
- While a context changes its key, its pointer can show a key that is destroyed
  (`RefCount.StalePointerInsideInit`, `RefCount.StalePointerReached`).
- Of a hybrid key without a private buffer the parameter getter hands out a
  length without a pointer (`KeyTheorems.NullViewOfPublicKeys`).
- Installing a public share does not reset the private components, nor the
  components of a hybrid signature key whose header changes
  (`KeyTheorems.InstallAndLayout`).
- With the filter off but names disabled, queries offer algorithms that TLS is
  not told about (`RuntimeFilter.AdvertisedVersusOffered`).
- A fragment whose markers are missing is inserted before the last character of
  the file; if only one is missing text is lost or doubled
  (`Template.StepWithoutMarkers`).
- The 257th code point ends in the exception of an empty minimum instead of the
  message (`CodePoints.TooMany`).

Where a comment and the code disagree the model follows the code: the comment
at line 1324 of `oqsprov_keys.c` puts the post-quantum key last in every hybrid,
while a reversed hybrid KEM has it first.

## Model

| member | source | states |
|---|---|---|
| `HybridKem.HybridKemAgreement` | oqs-provider/oqsprov/oqs_hyb_kem.c:156-270 | end to end, for any lengths and either share order, also for a public share shorter than its slot if it parses with its slack: B installs the share of A and encapsulates, A decapsulates; B succeeds exactly when the post-quantum half does; ciphertext and secret have the classical half first, on a reversed algorithm the post-quantum half first; and A recovers the secret of B |
| `HybridKem.EncapsWrittenOut` | oqs-provider/oqsprov/oqs_hyb_kem.c:168-211 | encapsulation without any layout function: which bytes of the public buffer go to which half, exactly when it succeeds, and ciphertext and secret with the classical half first, or the post-quantum half first on a reversed algorithm |
| `HybridKem.DecapsWrittenOut` | oqs-provider/oqsprov/oqs_hyb_kem.c:213-270 | decapsulation likewise: which bytes of the private buffer and of the ciphertext go to which half, exactly when it succeeds, and the order of the secret; a ciphertext of another length is refused |
| `KeyTheorems.PrivateRoundTrip` | oqs-provider/oqsprov/oqs_encode_key2any.c:526-569 | storing and loading a generated key always succeeds, and gives back the same buffers, components and classical key if and only if the bytes the encoder cuts off are zero |
| `KeyTheorems.RoundTripIsExact` | oqs-provider/oqsprov/oqs_encode_key2any.c:526-569 | the condition holds for plain keys, hybrid signatures, reversed hybrid KEMs and classic-first hybrid KEMs whose classical share fills its slot; the key then matches itself for every selection |
| `KeyTheorems.ShortClassicFirstRoundTrip` | oqs-provider/oqsprov/oqs_encode_key2any.c:541-562 | on the remaining family the round trip is exact if and only if the last max - c bytes of the post-quantum secret key are zero |
| `KeyTheorems.ShortShareExample` | oqs-provider/oqsprov/oqs_encode_key2any.c:541-562 | a concrete key of that family on which a secret byte is lost |
| `KeyTheorems.PrivateEncodingIsCanonical` | oqs-provider/oqsprov/oqsprov_keys.c:766-841 | every octet string the private decoder accepts is reproduced exactly by encoding the decoded key |
| `KeyTheorems.PrivateDecodingIsInjective` | oqs-provider/oqsprov/oqsprov_keys.c:766-841 | two accepted octet strings that decode to one key are equal |
| `KeyTheorems.HybridAcceptance` | oqs-provider/oqsprov/oqsprov_keys.c:766-810 | a hybrid octet string is accepted if and only if it is a header c with 0 < c <= max, the classical private share and secret-key-length further bytes in share order, and the post-quantum public key, with a classical share whose public key fills its slot |
| `HybridSig.GuardIsExact` | oqs-provider/oqsprov/oqs_sig.c:452-462 | with its 32-bit and 64-bit wrap-around the length guard of the verifier equals the intended test over the integers for all lengths, if and only if the maximal classical length is below 2^32 - 4 |
| `HybridSig.GuardIsExactBelow` | oqs-provider/oqsprov/oqs_sig.c:452-462 | the direction that covers every algorithm whose lengths fit an int |
| `HybridSig.SignThenVerify` | oqs-provider/oqsprov/oqs_sig.c:259-371 | verification accepts what signing produced, for every message, context string, randomness, pair of signature lengths, matched operation pair and setting of the message API, if and only if a hybrid signature does not end with its classical part; under the law that signing returns no empty part it never does |
| `HybridSig.SignatureWrittenOut` | oqs-provider/oqsprov/oqs_sig.c:286-371 | what a hybrid signature is made of, case by case: behind the header a classical signature of the data itself for the plain operation under the message API, and otherwise of its SHA-256 digest at level 1, its SHA-384 digest at levels 2 and 3, its SHA-512 digest at every other level; then the post-quantum signature of data and context string; and exactly when there is one |
| `HybridSig.AcceptedWrittenOut` | oqs-provider/oqsprov/oqs_sig.c:452-536 | which hybrid signatures are accepted, with the same digests, level by level, and the two length bounds |
| `HybridSig.PlainWrittenOut` | oqs-provider/oqsprov/oqs_sig.c:354-371 | a plain key signs and verifies the data itself, under the context string, with its liboqs key |
| `HybridSig.EmptyPartExample` | oqs-provider/oqsprov/oqs_sig.c:455-462 | that law cannot be dropped: with a primitive that returns no bytes signing succeeds and verification refuses |
| `RefCount.CountIsExact` | oqs-provider/oqsprov/oqsprov_keys.c:1183-1248 | after every run of atomic steps the count of a key is the number of handles, contexts and references in flight; it was destroyed at most once, and is destroyed, or about to be by exactly one agent, if and only if nobody answers for it |
| `RefCount.ContextKeyIsAlive` | oqs-provider/oqsprov/oqs_kem.c:74-86 | no context holds a destroyed key, except between releasing the old key and storing the new one, or while it is being freed |
| `RefCount.IncomingKeyIsAlive` | oqs-provider/oqsprov/oqs_sig.c:183-192 | the key an init or a duplication is about to store is alive at every step in between |
| `RefCount.NothingLeaks` | oqs-provider/oqsprov/oqsprov_keys.c:1183-1230 | once every handle was dropped and every context freed, every key has count zero and was destroyed exactly once |
| `RefCount.DuplicateShares` | oqs-provider/oqsprov/oqs_sig.c:810-868 | an uninterrupted duplication adds one context on the same key and one reference, and changes nothing else |
| `RefCount.CloseReleases` | oqs-provider/oqsprov/oqs_sig.c:782-808 | an uninterrupted freeing removes the context and one reference, and destroys the key if that was the last |
| `RefCount.NoResurrection` | oqs-provider/oqsprov/oqsprov_keys.c:1232-1248 | a count that reached zero stays there and destruction is never undone |
| `RefCount.StalePointerInsideInit` | oqs-provider/oqsprov/oqs_sig.c:188-192 | the pointer of a context shows a destroyed key inside an init exactly when the context was the last to answer for the old key and the new key is another; the store ends it, and an init with the same key leaves all counts as they were |
| `RefCount.StalePointerReached` | oqs-provider/oqsprov/oqs_sig.c:188-192 | an explicit run that reaches a state in which the pointer of a context shows a destroyed key |
| `RefCount.ReachOnKey0` | oqs-provider/oqsprov/oqs_sig.c:188-192 | the run of actions that brings a context onto a key |
| `RefCount.StepKeeps` | oqs-provider/oqsprov/oqsprov_keys.c:1183-1248 | every atomic step keeps the balance of all counts |
| `RefCount.Run` | oqs-provider/oqsprov/oqsprov_keys.c:1183-1248 | every reachable state is balanced |
| `RefCount.UpRefSucceeds` | oqs-provider/oqsprov/oqsprov_keys.c:1232-1248 | up_ref is only called on a live key, so it never reports failure |
| `RefCount.CountedIsAlive` | oqs-provider/oqsprov/oqsprov_keys.c:1183-1248 | whoever answers for a reference finds a positive count and no destruction done or owed |
| `RefCount.AcquiringKeeps` | oqs-provider/oqsprov/oqs_kem.c:74-86 | taking a reference keeps the balance |
| `RefCount.ReleasingKeeps` | oqs-provider/oqsprov/oqsprov_keys.c:1183-1230 | giving one back keeps the balance: the one who brings the count to zero owes the destruction |
| `RefCount.SettlingKeeps` | oqs-provider/oqsprov/oqsprov_keys.c:1183-1230 | paying what is owed and storing what was acquired keep the balance |
| `Pipelines.KeyExchange` | oqs-provider/oqsprov/oqs_kmgmt.c:541-565 | key generation, share extraction and installation, encapsulation and decapsulation run through the container: whenever the post-quantum half of the sender succeeds both calls succeed, both sides hold the same secret, and the ciphertext is the ephemeral public key followed by the post-quantum ciphertext, on a reversed algorithm the other way round |
| `Pipelines.EncapsThenDecaps` | oqs-provider/oqsprov/oqs_hyb_kem.c:156-270 | into buffers of the advertised lengths, ciphertext and secret fill their buffers exactly |
| `Pipelines.StoreAndLoad` | oqs-provider/oqsprov/oqs_encode_key2any.c:504-594 | generate, encode, decode and match run through the container: the loaded key has the same value as the generated one and matches it |
| `Pipelines.ExportAndImport` | oqs-provider/oqsprov/oqs_kmgmt.c:221-330 | generate, export, import and match run through two objects: the new key has the same buffers without slack, components and classical key, and matches |
| `Pipelines.MatchGenerated` | oqs-provider/oqsprov/oqs_kmgmt.c:148-219 | two keys are generated and matched: they match if and only if their public parts are the same, and by the private bit alone if and only if their private parts are |
| `Pipelines.NamedShares` | oqs-provider/oqsprov/oqs_kmgmt.c:373-437 | a hybrid key is generated and asked for its four shares: each name hands out the share of that name, the classical ones exactly, the post-quantum ones with the slack behind them |
| `Pipelines.SetThenGet` | oqs-provider/oqsprov/oqs_kmgmt.c:472-565 | a public share that is set on a key with a public buffer is got back, for plain keys as for hybrid ones, and exactly shares of the right length can be set |
| `Pipelines.SignHereVerifyThere` | oqs-provider/oqsprov/oqs_sig.c:695-754 | a key signs a streamed message, a peer verifies with the key decoded from the public encoding; for both matched operation pairs, any context string, with a running digest or without, under either setting of the message API, and however the two sides cut the message and query lengths in between, the peer accepts if and only if a hybrid signature does not end with its classical part |
| `Pipelines.SignStreamed` | oqs-provider/oqsprov/oqs_sig.c:661-729 | for SIGN and SIGNMSG and any context string: the signature of a streamed message, in a buffer of the queried length, is the signature of the concatenation of its chunks or of its digest |
| `Pipelines.VerifyStreamed` | oqs-provider/oqsprov/oqs_sig.c:731-754 | for VERIFY and VERIFYMSG and any context string: verification of a streamed message decides acceptance of the concatenation of its chunks or of its digest |
| `Pipelines.SignFed` | oqs-provider/oqsprov/oqs_sig.c:695-729 | a length query followed by a final call into a buffer of that size signs what the context was fed |
| `Pipelines.Prepare` | oqs-provider/oqsprov/oqs_sig.c:577-679 | an initialised context that was given a context string and fed chunks holds the string and the concatenation, collected or absorbed, and nothing else |
| `Pipelines.FeedAll` | oqs-provider/oqsprov/oqs_sig.c:661-679 | updates and length queries performed one after the other leave what the run of the updates leaves, and the digest open; no call fails unless a chunk is empty |
| `Pipelines.SignMessageBothWays` | oqs-provider/oqsprov/oqs_sig.c:756-767 | signing a message in pieces equals signing it at once, in answer and bytes, for every cut of a message that is not empty; the empty one is refused at once |
| `Pipelines.VerifyMessageBothWays` | oqs-provider/oqsprov/oqs_sig.c:769-779 | set signature, updates and final call accept exactly what one verify call accepts, for every cut of a message that is not empty; the empty one is refused at once |
| `Pipelines.SignInPieces` | oqs-provider/oqsprov/oqs_sig.c:681-767 | the message operation signs the concatenation of its pieces, also the empty one |
| `Pipelines.SignAtOnce` | oqs-provider/oqsprov/oqs_sig.c:380-400 | one call signs the whole message unless it is empty |
| `Pipelines.VerifyInPieces` | oqs-provider/oqsprov/oqs_sig.c:681-779 | the message operation verifies the stored signature against the concatenation of the pieces |
| `Pipelines.VerifyAtOnce` | oqs-provider/oqsprov/oqs_sig.c:560-575 | one call verifies the whole message unless it is empty |
| `Pipelines.FeedMessage` | oqs-provider/oqsprov/oqs_sig.c:681-693 | message updates and length queries leave what the run of the updates leaves |
| `Pipelines.FailedGeneration` | oqs-provider/oqsprov/oqsprov_keys.c:1549-1554 | a hybrid signature generation whose classical half fails reports success and leaves the components never set |
| `Pipelines.Generate` | oqs-provider/oqsprov/oqsprov_keys.c:1535-1592 | from pairs that fit the algorithm, generation yields the laid-out key in fresh buffers |
| `Pipelines.PeerOfGenerated` | oqs-provider/oqsprov/oqsprov_keys.c:749-758 | the public encoding of a generated key decodes to the same public buffer, components and classical public key |
| `KeyTheorems.LaidIsWellPlaced` | oqs-provider/oqsprov/oqsprov_keys.c:313-388 | in a laid-out hybrid key the indexed component pointers of each present buffer delimit disjoint shares between the header and the end of the buffer |
| `KeyTheorems.SlotsApart` | oqs-provider/oqsprov/oqsprov_keys.c:313-388 | the two entries of a component array delimit disjoint shares inside the buffer |
| `KeyTheorems.DecodedIsLaid` | oqs-provider/oqsprov/oqsprov_keys.c:716-856 | both decoders establish the layout invariant with stored lengths in range |
| `KeyTheorems.ImportedIsLaid` | oqs-provider/oqsprov/oqsprov_keys.c:1267-1322 | import establishes the layout invariant; the stored public length is in range if and only if the imported one was, or it is not the case that a hybrid KEM key came with a private key |
| `KeyTheorems.UncheckedHeaderExample` | oqs-provider/oqsprov/oqsprov_keys.c:1267-1322 | a concrete import whose public header is 2^32 - 1 and which is accepted |
| `KeyTheorems.NullReadExactly` | oqs-provider/oqsprov/oqsprov_keys.c:1267-1322 | an import reads a null buffer if and only if no parameter is refused and the hybrid key ends up without a buffer |
| `KeyTheorems.GeneratedIsLaid` | oqs-provider/oqsprov/oqsprov_keys.c:1535-1592 | key generation into fresh buffers establishes the layout invariant and stores the generated lengths |
| `KeyTheorems.GeneratedBytes` | oqs-provider/oqsprov/oqsprov_keys.c:1535-1592 | the two buffers and the four component pointers of a generated hybrid key, byte for byte, for hybrid signatures, classic-first and reversed hybrid KEMs |
| `KeyTheorems.PlainBytes` | oqs-provider/oqsprov/oqs_encode_key2any.c:526-569 | a plain key is its two liboqs keys and is stored as the secret one followed by the public one |
| `KeyTheorems.AcceptableExactly` | oqs-provider/oqsprov/oqsprov_keys.c:1343-1533 | the output of the classical generator is accepted if and only if it fits the algorithm and, unless raw, its private encoding parses |
| `KeyTheorems.RefusalStaysInPlace` | oqs-provider/oqsprov/oqsprov_keys.c:1343-1533 | a refused output is written into the two places it was meant for and nowhere else, a raw one of the wrong public length not at all |
| `KeyTheorems.ImportedBuffers` | oqs-provider/oqsprov/oqsprov_keys.c:1267-1322 | a successful import was given parameters of exactly the nominal lengths and stores them as they came, but for the classical public share, which is that of the private key |
| `KeyTheorems.ImportedClassicalKey` | oqs-provider/oqsprov/oqsprov_keys.c:858-954 | its classical key is parsed from the private buffer if there is one, else from the public one, as many bytes as the header says |
| `KeyTheorems.RefusedRebuild` | oqs-provider/oqsprov/oqsprov_keys.c:858-954 | what a refused rebuild leaves in the classical key field and in the public buffer, for each of the three refusals |
| `KeyTheorems.EncodedGenerated` | oqs-provider/oqsprov/oqs_encode_key2any.c:526-569 | the octets a generated hybrid key is stored as |
| `KeyTheorems.StoredClassicalShare` | oqs-provider/oqsprov/oqs_encode_key2any.c:541-562 | in those octets the classical private share is whole, whatever is cut off behind it |
| `KeyTheorems.ShapeComposes` | oqs-provider/oqsprov/oqsprov_keys.c:766-805 | accepted octets taken apart into header, shares and public key |
| `KeyTheorems.ComposedShape` | oqs-provider/oqsprov/oqsprov_keys.c:766-805 | octets put together from such parts have the accepted shape and the decoder finds the classical share |
| `KeyTheorems.PublicRoundTrip` | oqs-provider/oqsprov/oqsprov_keys.c:749-758 | decoding then encoding a public key is the identity on every accepted string |
| `KeyTheorems.PublicAcceptance` | oqs-provider/oqsprov/oqsprov_keys.c:749-758 | a hybrid public string is accepted if and only if it is a header, a classical share that parses, the post-quantum share and the slack, in the order of the family; the classical key is what that share parses to |
| `KeyTheorems.PlainAcceptance` | oqs-provider/oqsprov/oqsprov_keys.c:749-841 | plain octets are accepted if and only if they have the right length, and are taken for the liboqs keys |
| `KeyTheorems.GeneratedPublicRoundTrip` | oqs-provider/oqsprov/oqs_encode_key2any.c:484-502 | encoding then decoding the public key of a generated key gives the same buffer, components and classical key |
| `KeyTheorems.ExportThenImport` | oqs-provider/oqsprov/oqs_kmgmt.c:221-330 | importing the exported parameters of a consistent pair rebuilds the buffers without slack, the components and the classical key, whatever the target held, and the two keys match for every selection |
| `KeyTheorems.ExportThenImportPublic` | oqs-provider/oqsprov/oqs_kmgmt.c:221-330 | the same for a public-only export into a fresh key |
| `KeyTheorems.GeneratedIsConsistent` | oqs-provider/oqsprov/oqsprov_keys.c:1535-1592 | generated keys whose classical public key fills its slot are consistent pairs |
| `KeyTheorems.MatchExactly` | oqs-provider/oqsprov/oqs_kmgmt.c:186-219 | with the public bit two keys of one name match if and only if both public buffers are missing, or both are there and agree on every byte, or one is missing, the domain bit is set and the private buffers agree; with the private bit alone the private buffers decide |
| `KeyTheorems.DifferentNamesDiffer` | oqs-provider/oqsprov/oqs_kmgmt.c:186-213 | keys of different names match neither by the public nor by the private bit |
| `KeyTheorems.GeneratedMatchExactly` | oqs-provider/oqsprov/oqs_kmgmt.c:186-219 | two generated keys match by the public bit if and only if they have the same public parts, by the private bit alone if and only if they have the same private parts |
| `KeyTheorems.RebuiltFromPrefix` | oqs-provider/oqsprov/oqs_kmgmt.c:239-285 | cutting the allocation slack changes neither the header nor the classical key that is rebuilt |
| `KeyTheorems.ViewsTile` | oqs-provider/oqsprov/oqs_kmgmt.c:373-437 | the exposed component views partition a buffer if and only if the key is a hybrid signature or its classical share fills its slot |
| `KeyTheorems.ViewsJoin` | oqs-provider/oqsprov/oqs_kmgmt.c:373-437 | then the header and the two views, joined in share order, are the stored buffer |
| `KeyTheorems.NamedViews` | oqs-provider/oqsprov/oqs_kmgmt.c:373-437 | on a generated key the classical views are exactly the classical shares, and the post-quantum views start at the post-quantum shares and are longer by the slack, so exact where the classical share fills its slot |
| `KeyTheorems.NamedViewsJoin` | oqs-provider/oqsprov/oqs_kmgmt.c:373-437 | on every laid-out key whose classical shares fill their slots, and on every hybrid signature, header and views by name, joined in share order, are the buffer |
| `KeyTheorems.NullViewOfPublicKeys` | oqs-provider/oqsprov/oqs_kmgmt.c:412-416 | the getter hands out a length without a pointer for the post-quantum private share exactly of keys without a private buffer |
| `KeyTheorems.InstallAndLayout` | oqs-provider/oqsprov/oqs_kmgmt.c:541-565 | installing a share keeps the public layout exactly on keys with a public buffer, except a hybrid signature whose new header differs from the old one, and leaves the private layout right exactly if there was no private key |
| `KeyTheorems.InstalledIsThere` | oqs-provider/oqsprov/oqs_kmgmt.c:541-565 | exactly shares of the right length are installed; afterwards the private buffer is gone and the share is what the buffer holds and the getter hands out, or an allocation of its own |
| `Bytes.DecodeEncode` | oqs-provider/oqsprov/oqs_prov.h:67-76 | decoding an encoded length gives it modulo 2^32 |
| `Bytes.EncodeDecode` | oqs-provider/oqsprov/oqs_prov.h:67-76 | encoding a decoded length gives the four header bytes |
| `Bytes.MostSignificantFirst` | oqs-provider/oqsprov/oqs_prov.h:67-71 | the four header bytes weigh 2^24, 2^16, 2^8 and 1, in this order |
| `Bytes.StoreUint32` | oqs-provider/oqsprov/oqs_prov.h:67-71 | the header is stored in place, most significant byte first, and nothing else changes |
| `Layout.LaySlices` | oqs-provider/oqsprov/oqsprov_keys.c:313-388 | header and offsets find exactly the two shares in the laid-out buffer, in all three orders |
| `Layout.SharesApart` | oqs-provider/oqsprov/oqsprov_keys.c:313-388 | the two shares of a buffer are disjoint and inside it whenever the header is in range |
| `Layout.LayUnique` | oqs-provider/oqsprov/oqsprov_keys.c:313-388 | a buffer with the header and both shares in place and zeros elsewhere is the laid-out buffer |
| `Layout.LayBySplices` | oqs-provider/oqsprov/oqsprov_keys.c:1535-1592 | the three writes of key generation into a zeroed buffer give the laid-out buffer |
| `KeyValues.GeneratedLaid` | oqs-provider/oqsprov/oqsprov_keys.c:1535-1592 | the same writes into any buffer of the right size satisfy the layout invariant |
| `KeyValues.GeneratedOnZeros` | oqs-provider/oqsprov/oqsprov_keys.c:1535-1592 | generating into zeroed buffers gives the laid-out key, slack included |
| `KeyValues.HeaderStored` | oqs-provider/oqsprov/oqs_prov.h:67-76 | a stored length below 2^32 is read back |
| `KeyValues.SkeletonCompleted` | oqs-provider/oqsprov/oqsprov_keys.c:827-848 | deriving the classical public share into the slot of a decoded private key completes the layout |
| `KeyValues.PopulatedHybrid` | oqs-provider/oqsprov/oqsprov_keys.c:819-841 | after the two fills of the decoder the classical share is found where the rebuilding code looks for it |
| `Keys.OqsxKey.constructor` | oqs-provider/oqsprov/oqsprov_keys.c:1010-1144 | a new key has one reference, unset components, no buffers, and the reverse flag only if it is a hybrid KEM |
| `Keys.OqsxKey.Free` | oqs-provider/oqsprov/oqsprov_keys.c:1183-1230 | one reference less; the last release destroys the key |
| `Keys.OqsxKey.UpRef` | oqs-provider/oqsprov/oqsprov_keys.c:1232-1248 | one reference more; success exactly on a key that had one |
| `Keys.OqsxKey.AllocateKeymaterial` | oqs-provider/oqsprov/oqsprov_keys.c:1250-1265 | a missing buffer is allocated, zeroed, the private one four bytes longer than the private length |
| `Keys.OqsxKey.CompSetIdx` | oqs-provider/oqsprov/oqsprov_keys.c:291-309 | in every component array of a hybrid the two indices pick the entries that point at the classical and at the post-quantum share |
| `Keys.OqsxKey.SetOffsets` | oqs-provider/oqsprov/oqsprov_keys.c:313-388 | the component pointers, and the failure exactly when a header that is looked at exceeds its maximum |
| `Keys.OqsxKey.SetComposites` | oqs-provider/oqsprov/oqsprov_keys.c:391-418 | success exactly when the headers of a hybrid signature are in range, and then the layout invariant |
| `Keys.OqsxKey.RecreateClassicKey` | oqs-provider/oqsprov/oqsprov_keys.c:858-954 | success exactly if the stored share yields a classical key whose public key fills its slot; the classical key field, and the public buffer with the share derived from a private one, also after a refusal |
| `Keys.OqsxKey.GenClassic` | oqs-provider/oqsprov/oqsprov_keys.c:1343-1533 | both encodings and both headers are written if the lengths are acceptable; otherwise exactly what was written before the refusal |
| `Keys.OqsxKey.GenPq` | oqs-provider/oqsprov/oqsprov_keys.c:1325-1338 | the post-quantum pair lands in the indexed components and nowhere else |
| `Keys.OqsxKey.GenHybridSig` | oqs-provider/oqsprov/oqsprov_keys.c:1549-1560 | the packed layout, the success code of a failing classical half, and the buffers and components after either half fails |
| `Keys.OqsxKey.GenHybridKem` | oqs-provider/oqsprov/oqsprov_keys.c:1561-1578 | the slotted layout in either order, and the buffers after either half fails |
| `Keys.OqsxKey.GenPlain` | oqs-provider/oqsprov/oqsprov_keys.c:1579-1582 | the plain layout, and unchanged buffers if the generation fails |
| `Keys.OqsxKey.KeyGen` | oqs-provider/oqsprov/oqsprov_keys.c:1535-1592 | the complete new value of the key, and its buffers after either half fails; on a new key the layout invariant holds afterwards if and only if it is not a hybrid signature whose classical half was refused |
| `Keys.OqsxKey.FromPublicOctets` | oqs-provider/oqsprov/oqsprov_keys.c:749-758 | the decoded public key, or nothing, exactly as specified on the octets |
| `Keys.OqsxKey.CheckPrivate` | oqs-provider/oqsprov/oqsprov_keys.c:760-810 | the length and header checks in 64-bit arithmetic accept exactly the octets of the right shape |
| `Keys.OqsxKey.Populate` | oqs-provider/oqsprov/oqsprov_keys.c:819-841 | the two fills place the used private octets and the post-quantum public key, slack zero |
| `Keys.OqsxKey.Complete` | oqs-provider/oqsprov/oqsprov_keys.c:843-848 | components and classical key are those of the decoded key |
| `Keys.OqsxKey.FromPrivateOctets` | oqs-provider/oqsprov/oqsprov_keys.c:759-855 | the decoded private key, or nothing, exactly as specified on the octets |
| `Keys.OqsxKey.FromData` | oqs-provider/oqsprov/oqsprov_keys.c:1267-1322 | the complete new value after an import, for each refusal which buffers were replaced before it, and exactly when the call reads a null buffer |
| `Keys.OqsxKey.Adopt` | oqs-provider/oqsprov/oqsprov_keys.c:1317-1321 | components and classical key after the buffers were replaced, and what a refusal leaves |
| `Keys.OqsxKey.ToParams` | oqs-provider/oqsprov/oqs_kmgmt.c:239-285 | the exported parameters are the first privkeylen and pubkeylen bytes of the buffers, without slack, the private one only if selected |
| `Keys.OqsxKey.SpkiPubToDer` | oqs-provider/oqsprov/oqs_encode_key2any.c:484-502 | the public buffer, unchanged |
| `Keys.OqsxKey.UsedPrivateLength` | oqs-provider/oqsprov/oqs_encode_key2any.c:528-543 | the used length in 32-bit arithmetic, and the two guards that can refuse it |
| `Keys.OqsxKey.PkiPrivToDer` | oqs-provider/oqsprov/oqs_encode_key2any.c:504-569 | the stored octets are the used private bytes followed by the post-quantum public share |
| `Keys.OqsxKey.GetHybridParams` | oqs-provider/oqsprov/oqs_kmgmt.c:373-437 | the exposed component ranges, with the conversions of their lengths; for the post-quantum private share the entry is not looked at; NamedViews states which share each name hands out |
| `Keys.OqsxKey.GetEncodedPublic` | oqs-provider/oqsprov/oqs_kmgmt.c:472-482 | the key share, without the header for hybrid KEMs |
| `Keys.OqsxKey.SetEncodedPublic` | oqs-provider/oqsprov/oqs_kmgmt.c:541-565 | a share of the right length replaces everything behind the header of a hybrid KEM key, or the whole public buffer of any other, or is allocated where there is none, and drops the private buffer; any other share changes nothing |
| `Keys.OqsxKey.Match` | oqs-provider/oqsprov/oqs_kmgmt.c:148-219 | the match of two keys, with the comparison of their names, for each combination of selection bits; of one algorithm, exactly if the selected buffers agree byte by byte; and exactly when the second private buffer is read past its end |
| `HybridKem.PlacedIsJoined` | oqs-provider/oqsprov/oqs_hyb_kem.c:187-207 | writing the halves at the computed offsets writes their concatenation and nothing else; in which order, EncapsWrittenOut states |
| `HybridKem.EvpEncapsKeyslot` | oqs-provider/oqsprov/oqs_hyb_kem.c:15-88 | the classical half succeeds exactly when the peer share parses and derives; it writes within its own sub-ranges |
| `HybridKem.QsEncapsQuery` | oqs-provider/oqsprov/oqs_kem.c:102-134 | the availability check of the length query fails exactly when there is no public key |
| `HybridKem.QsEncapsKeyslot` | oqs-provider/oqsprov/oqs_kem.c:102-150 | the post-quantum half into its sub-ranges, or the buffer-too-small failure without a write |
| `HybridKem.HybKemEncaps` | oqs-provider/oqsprov/oqs_hyb_kem.c:156-211 | the lengths always, whatever the caller passed in for them; success if and only if both halves succeed; then ciphertext and secret are the classical half followed by the post-quantum half, on a reversed algorithm the other way round, with no byte behind them changed; and exactly when buffers are too small for what is going to be written |
| `HybridKem.EncapsHalves` | oqs-provider/oqsprov/oqs_hyb_kem.c:187-207 | each half lands in its own sub-range of both buffers; HybKemEncaps states the order |
| `HybridKem.EvpDecapsKeyslot` | oqs-provider/oqsprov/oqs_hyb_kem.c:91-154 | the classical half parses the whole private slot and writes within its sub-range |
| `HybridKem.QsDecapsKeyslot` | oqs-provider/oqsprov/oqs_kem.c:152-197 | the post-quantum half, with its wrong-length and short-buffer failures |
| `HybridKem.HybKemDecaps` | oqs-provider/oqsprov/oqs_hyb_kem.c:213-270 | success if and only if the ciphertext length fits and both halves succeed; then the secret is the classical one followed by the post-quantum one, each from its own part of the ciphertext, on a reversed algorithm the other way round |
| `HybridKem.DecapsHalves` | oqs-provider/oqsprov/oqs_hyb_kem.c:248-266 | each half lands in its own sub-range of the secret; HybKemDecaps states the order |
| `HybridKem.PartsOfJoin` | oqs-provider/oqsprov/oqs_hyb_kem.c:248-258 | a joined ciphertext is taken apart at the offsets of the other side; DecapsWrittenOut states them |
| `HybridKem.SlotOfLay` | oqs-provider/oqsprov/oqsprov_keys.c:313-388 | the slot of a slotted buffer is the classical share followed by the slack |
| `HybridKem.InstalledShares` | oqs-provider/oqsprov/oqs_kmgmt.c:541-565 | after the share of A is installed the public slots of B hold the public shares of A, the classical one followed by its slack |
| `HybridKem.OwnShares` | oqs-provider/oqsprov/oqsprov_keys.c:1561-1578 | the holder of a generated key finds its own shares in its private slots |
| `HybridKem.FullSlotParses` | oqs-provider/oqsprov/oqsprov_keys.c:1561-1578 | a public share that fills its slot meets that condition |
| `HybridSig.SignatureFits` | oqs-provider/oqsprov/oqsprov_keys.c:1596-1611 | a signature is never longer than the answer of the length query |
| `HybridSig.SignClassic` | oqs-provider/oqsprov/oqs_sig.c:275-352 | the classical signature behind the header and then the header, or nothing; of what, is stated for SignDirectly |
| `HybridSig.SignDirectly` | oqs-provider/oqsprov/oqs_sig.c:234-378 | the length query, the short-buffer refusal, and otherwise the signature in place, its classical part over the data or the digest of the claimed level, written out level by level; bytes behind the signature, and behind the maximal size in a call that fails late, are unchanged |
| `HybridSig.SignParts` | oqs-provider/oqsprov/oqs_sig.c:275-371 | the two parts built from the front are the framed signature; bytes behind the maximal size are never touched |
| `HybridSig.Framed` | oqs-provider/oqsprov/oqs_sig.c:328-371 | the three writes leave header, classical part and post-quantum part |
| `HybridSig.SplitIsUnique` | oqs-provider/oqsprov/oqs_sig.c:452-462 | a framed signature splits in one way, which the header finds |
| `HybridSig.SplitIsFramed` | oqs-provider/oqsprov/oqs_sig.c:452-462 | bytes that pass the guard are framed |
| `HybridSig.AcceptedBySplit` | oqs-provider/oqsprov/oqs_sig.c:452-536 | acceptance in terms of the one split the header allows |
| `HybridSig.CheckFrame` | oqs-provider/oqsprov/oqs_sig.c:452-466 | the guard in the order and arithmetic of the source decides whether a split exists |
| `HybridSig.VerifyDirectly` | oqs-provider/oqsprov/oqs_sig.c:403-545 | verification accepts if and only if a split exists and both parts verify, the classical one over the data or the digest of the claimed level, written out level by level |
| `HybridSig.MatchedOperations` | oqs-provider/oqsprov/oqs_sig.c:294-297 | signer and verifier agree on hashing in the classical half exactly for matched operations, or when the message API is off |
| `HybridSig.GeneratedShares` | oqs-provider/oqsprov/oqs_sig.c:354-366 | the signature operations find the post-quantum shares of a generated key |
| `KemContext.KemCtx.Init` | oqs-provider/oqsprov/oqs_kem.c:74-86 | the new key is counted and the old one released, which destroys it if it was the last reference; an init with the same key changes no count |
| `KemContext.KemCtx.FreeCtx` | oqs-provider/oqsprov/oqs_kem.c:66-72 | freeing a context releases its key |
| `KemContext.ShareAndRelease` | oqs-provider/oqsprov/oqs_kem.c:66-86 | a key shared by a handle and two contexts lives until the last of them lets go, and is destroyed then, once |
| `SigContext.StreamingEqualsOneShot` | oqs-provider/oqsprov/oqs_sig.c:638-729 | in a fresh context any cut of a message into chunks leaves the same data to sign or verify as one update with the whole message: the concatenation, or its digest |
| `SigContext.RunIsConcatenation` | oqs-provider/oqsprov/oqs_sig.c:638-679 | after any run of updates the context has been fed what it had, followed by the concatenation of the chunks |
| `SigContext.MessageOfBoth` | oqs-provider/oqsprov/oqs_sig.c:638-679 | the message of two runs is that of the first followed by that of the second; of one update it is the chunk, of a length query nothing |
| `SigContext.DisjointWithoutSignature` | oqs-provider/oqsprov/oqs_sig.c:810-863 | the set form of that condition |
| `SigContext.DuplicateAndFeed` | oqs-provider/oqsprov/oqs_sig.c:810-868 | duplicate, feed both sides in any interleaving, free the duplicate: each side has the common prefix followed by its own chunks only, and the original and its key are untouched by the freeing; where there is no duplicate, exactly if an empty context string is stored, the original is as it was |
| `SigContext.DuplicateAndReplace` | oqs-provider/oqsprov/oqs_sig.c:810-868 | the other way round: the original is freed, and the duplicate, its feed, context string and key outlive it; no duplicate exactly if an empty context string is stored |
| `SigContext.DuplicateWithSignature` | oqs-provider/oqsprov/oqs_sig.c:810-863 | a client that stores a signature and duplicates: both contexts hold the one array that both would give back |
| `SigContext.DuplicateWithEmptyContext` | oqs-provider/oqsprov/oqs_sig.c:855-868 | a client that stores an empty context string: no duplicate, the key count unchanged, and a stored signature given back although the original keeps it |
| `SigContext.FreeOne` | oqs-provider/oqsprov/oqs_sig.c:782-808 | of two contexts that share a key and nothing else one is freed and the other is untouched |
| `SigContext.FeedAndFree` | oqs-provider/oqsprov/oqs_sig.c:782-808 | two contexts on one key are fed in any interleaving and one is freed: the other has its own chunks and its key |
| `SigContext.QueryReopensDigest` | oqs-provider/oqsprov/oqs_sig.c:721-729 | after data was fed a digest change is refused, but a length query allows it again, and the change drops what the running digest absorbed |
| `SigContext.FeedBoth` | oqs-provider/oqsprov/oqs_sig.c:661-679 | in any interleaving each of two contexts apart from each other gets its own chunks only |
| `SigContext.FeedOne` | oqs-provider/oqsprov/oqs_sig.c:661-679 | one update reaches one context and leaves the other alone |
| `SigContext.SideStep` | oqs-provider/oqsprov/oqs_sig.c:661-679 | one more entry of a script reaches one side and leaves the other alone |
| `SigContext.SigCtx.SignVerifyInit` | oqs-provider/oqsprov/oqs_sig.c:183-200 | the context takes the new key, counts and destruction of both keys, the fields init leaves alone, and the missing-key failures |
| `SigContext.SigCtx.DigestSignVerifyInit` | oqs-provider/oqsprov/oqs_sig.c:577-611 | the key is taken first; a digest that can be fetched gives a fresh running digest, one that cannot fails and changes neither digest, none leaves the old one |
| `SigContext.SigCtx.SetupMd` | oqs-provider/oqsprov/oqs_sig.c:149-181 | a digest that can be fetched replaces the old one and drops the running digest |
| `SigContext.SigCtx.SetDigest` | oqs-provider/oqsprov/oqs_sig.c:920-937 | a digest change is refused exactly between the first update and the next final call or length query, or if the digest cannot be fetched |
| `SigContext.SigCtx.SetContext` | oqs-provider/oqsprov/oqs_sig.c:939-946 | the first context string is copied; a second one that is not empty is refused and clears the first |
| `SigContext.SigCtx.CollectData` | oqs-provider/oqsprov/oqs_sig.c:638-659 | the collected data grows by exactly the chunk; only an empty first chunk fails |
| `SigContext.SigCtx.DigestUpdate` | oqs-provider/oqsprov/oqs_sig.c:661-679 | a chunk goes to the running digest if there is one and to the collected data otherwise |
| `SigContext.SigCtx.MessageUpdate` | oqs-provider/oqsprov/oqs_sig.c:681-693 | the data is collected, whether there is a running digest or not |
| `SigContext.SigCtx.DigestSignFinal` | oqs-provider/oqsprov/oqs_sig.c:695-729 | a length query leaves everything fed in place; a final call signs the digest of what was absorbed, or what was collected |
| `SigContext.SigCtx.SignMessageFinal` | oqs-provider/oqsprov/oqs_sig.c:757-767 | the collected message is signed |
| `SigContext.SigCtx.Sign` | oqs-provider/oqsprov/oqs_sig.c:380-400 | the message operation signs what was collected followed by the data, the plain one the data alone; a length query adds nothing |
| `SigContext.SigCtx.SetSignature` | oqs-provider/oqsprov/oqs_sig.c:948-960 | a copy of the signature is stored for message verification only |
| `SigContext.SigCtx.VerifyMessageFinal` | oqs-provider/oqsprov/oqs_sig.c:769-779 | acceptance of the stored signature for what was collected, refusal without one |
| `SigContext.SigCtx.Verify` | oqs-provider/oqsprov/oqs_sig.c:560-575 | acceptance of the data, joined to what was collected under the message operation |
| `SigContext.SigCtx.DigestVerifyFinal` | oqs-provider/oqsprov/oqs_sig.c:731-754 | acceptance of the digest of what was absorbed, or of what was collected |
| `SigContext.SigCtx.DupCtx` | oqs-provider/oqsprov/oqs_sig.c:810-868 | no duplicate exactly if an empty context string is stored: then the key count is given back, and with it a stored signature that the original keeps; otherwise key shared and counted once more, everything fed copied into fresh memory, the stored signature pointer copied as it is, so that the two own disjoint memory if and only if no signature is stored |
| `SigContext.SigCtx.MakeCopy` | oqs-provider/oqsprov/oqs_sig.c:810-861 | the duplicate as far as it gets, with everything but the signature in fresh memory |
| `SigContext.SigCtx.Discard` | oqs-provider/oqsprov/oqs_sig.c:865-868 | the error exit frees the half-made duplicate and the signature it shares, and leaves what the original was fed |
| `SigContext.SigCtx.FreeCtx` | oqs-provider/oqsprov/oqs_sig.c:782-808 | the key is released and everything the context owns is given back |
| `Der2Key.Decode` | oqs-provider/oqsprov/oqs_decode_der2key.c:281-396 | at most one key is made; on return it belongs to exactly one consumer with one reference, or it was destroyed once and has none, never both and never neither; and the result code in every case |
| `Der2Key.Consume` | oqs-provider/oqsprov/oqs_kmgmt.c:649-661 | a consumer that makes any number of uses of the reference takes the key at its first good load and never again |
| `Der2Key.OqsxLoad` | oqs-provider/oqsprov/oqs_kmgmt.c:649-661 | load hands the key out and nulls the shared reference |
| `Der2Key.ParseSelected` | oqs-provider/oqsprov/oqs_decode_der2key.c:316-348 | the parsing steps yield the first key the selection allows |
| `Der2Key.WinnerAppend` | oqs-provider/oqsprov/oqs_decode_der2key.c:316-348 | later attempts count only after earlier ones came to nothing and only when guessing |
| `Der2Key.GuessFindsAny` | oqs-provider/oqsprov/oqs_decode_der2key.c:292-348 | a guess finds a key if and only if some parser does, a named selection if and only if its first parser does |
| `Der2Key.ParsedByCases` | oqs-provider/oqsprov/oqs_decode_der2key.c:292-348 | whose key is made, written out: of a guess the first of private key, public key and parameters that parses, of a named selection the one parser of its first bit |
| `Der2Key.OfferedByCases` | oqs-provider/oqsprov/oqs_decode_der2key.c:292-372 | when nothing is made and when what is made is not offered: a selection outside the mask, unreadable bytes, a fatal PKCS#8 parse, a key that fails its check |
| `RuntimeFilter.Provider.Query` | oqs-provider/oqsprov/oqsprov.c:1155-1179 | with the filter on the fresh filter of the static table, whether cached or not; with it off the static table itself |
| `RuntimeFilter.Provider.Initialise` | oqs-provider/oqsprov/oqsprov.c:1288-1463 | the refused registrations and, for a core that has them, the native names are disabled, in order; only the latter turn the filter on; a broken registration ends the initialisation, so that after a successful one every algorithm the core took is in the NID table, and has a NID if its signature identifier was taken |
| `RuntimeFilter.Provider.Filtered` | oqs-provider/oqsprov/oqsprov.c:1137-1153 | the cached table is the fresh filter and stays cached |
| `RuntimeFilter.Fill` | oqs-provider/oqsprov/oqsprov.c:1141-1152 | the filling loop writes exactly as many entries as were allocated |
| `RuntimeFilter.CntRtDisabled` | oqs-provider/oqsprov/oqsprov.c:1127-1135 | the disabled entries are counted, the last entry apart |
| `RuntimeFilter.FilterCounts` | oqs-provider/oqsprov/oqsprov.c:1137-1153 | kept and disabled entries add up to the table |
| `RuntimeFilter.FilterIsSubsequence` | oqs-provider/oqsprov/oqsprov.c:1137-1153 | the kept entries are those at the kept places of the table |
| `RuntimeFilter.PlacesIncrease` | oqs-provider/oqsprov/oqsprov.c:1137-1153 | the kept places are in increasing order |
| `RuntimeFilter.PlaceKept` | oqs-provider/oqsprov/oqsprov.c:1137-1153 | a place is kept if and only if its entry is not disabled |
| `RuntimeFilter.FilterKeepsTerminator` | oqs-provider/oqsprov/oqsprov.c:1137-1153 | the filtered table ends with its only null entry and shows the allowed names of the original in order |
| `RuntimeFilter.CacheStaysFresh` | oqs-provider/oqsprov/oqsprov.c:1137-1153 | disabling one more name leaves a cached table equal to the fresh filter if and only if the name was disabled already or is not in the table |
| `RuntimeFilter.Provider.Disable` | oqs-provider/oqsprov/oqsprov.c:1344-1367 | a name is added before the first query |
| `RuntimeFilter.Provider.Teardown` | oqs-provider/oqsprov/oqsprov.c:1182-1196 | the list is emptied, no table stays cached, and the filter stays on if it was |
| `RuntimeFilter.Advertise` | oqs-provider/oqsprov/oqsprov_capabilities.c:658-672 | the receiver is given the allowed entries in order, up to and including its first refusal; success if and only if it takes them all |
| `RuntimeFilter.AdvertisedVersusOffered` | oqs-provider/oqsprov/oqsprov_capabilities.c:858-875 | with matching names, advertised capabilities are among the offered algorithms, and equal to them if and only if the filter is on or no offered name is disabled |
| `RuntimeFilter.AllowedMembers` | oqs-provider/oqsprov/oqsprov_capabilities.c:658-672 | a name is allowed if and only if it is listed and not disabled |
| `RuntimeFilter.RefusedMembers` | oqs-provider/oqsprov/oqsprov.c:1288-1367 | a name is refused if and only if the core did not take an algorithm of that name, or not its signature identifier |
| `RuntimeFilter.VisibleIsNames` | oqs-provider/oqsprov/oqsprov.c:1127-1153 | a reader sees the names of all entries before the last, in order |
| `Template.PopulateTwice` | oqs-provider/oqs-template/generate.py:161-181 | running populate a second time changes nothing |
| `Template.OrderDoesNotMatter` | oqs-provider/oqs-template/generate.py:161-181 | the result is the same in whatever order the fragments are visited |
| `Template.OutsideUnchanged` | oqs-provider/oqs-template/generate.py:161-181 | the text outside the regions is unchanged |
| `Template.BodyIsRendered` | oqs-provider/oqs-template/generate.py:168-180 | after a run the text between the markers of each fragment is its rendered text |
| `Template.Populate` | oqs-provider/oqs-template/generate.py:161-181 | the loop computes the run of splicing steps, or of overwriting steps on the base file |
| `Template.StepKeeps` | oqs-provider/oqs-template/generate.py:168-180 | splicing keeps the document well-formed: each marker occurs once and the regions stay disjoint |
| `Template.StepsCommute` | oqs-provider/oqs-template/generate.py:168-180 | filling two regions commutes |
| `Template.StepTwice` | oqs-provider/oqs-template/generate.py:168-180 | filling one region twice is filling it the second time |
| `Template.StepReplaces` | oqs-provider/oqs-template/generate.py:168-180 | a step on a document with the region replaces the body and nothing else |
| `Template.OnceStays` | oqs-provider/oqs-template/generate.py:168-180 | a marker outside the body still occurs once, at its shifted place |
| `Template.OccurrenceIsOutside` | oqs-provider/oqs-template/generate.py:168-180 | no marker appears in the new body or across its ends |
| `Template.TouchingIsSame` | oqs-provider/oqs-template/generate.py:169-174 | occurrences of separate markers never share text |
| `Template.TakeFirst` | oqs-provider/oqs-template/generate.py:168-180 | any fragment of a run may be taken first |
| `Template.MarkersAreSeparable` | oqs-provider/oqs-template/generate.py:169-174 | the markers the generator builds from its three delimiters are separable, as long as none begins another |
| `Template.MarkTexts` | oqs-provider/oqs-template/generate.py:169-174 | the text of the start and end markers |
| `Template.StepWithoutMarkers` | oqs-provider/oqs-template/generate.py:175-180 | a missing marker is not an error: without both the fragment is inserted before the last character, without the end alone the text after the start marker is lost, without the start alone the text from the end marker on is doubled |
| `Template.StepAnywhere` | oqs-provider/oqs-template/generate.py:175-180 | a step on any document, in terms of the places its markers are taken to be at |
| `Template.StepKeepsOutsideExactly` | oqs-provider/oqs-template/generate.py:168-180 | a step keeps all text outside some region if and only if both markers occur and the first start marker ends before the first end marker begins |
| `Template.StepOverReplaces` | oqs-provider/oqs-template/generate.py:175-178 | in the overwriting mode the whole region gives way to the rendered text, markers and line end included |
| `Template.NothingDropped` | oqs-provider/oqs-template/generate.py:177-178 | dropping a text leaves alone what does not contain it |
| `CodePoints.Validate` | oqs-provider/oqs-template/generate.py:233-256 | validation returns normally if and only if all points it looks at are private and distinct, and then leaves the reserved range minus the used ones; otherwise it stops at the first bad point; more than 256 points never pass |
| `CodePoints.ValidateOne` | oqs-provider/oqs-template/generate.py:236-248 | the three failing branches name the point and suggest the least unused one; the suggestion fails exactly when 256 points are used |
| `CodePoints.ValidateHybrids` | oqs-provider/oqs-template/generate.py:254-256 | the hybrids of one KEM in order |
| `CodePoints.ValidateKem` | oqs-provider/oqs-template/generate.py:250-256 | hybrids are looked at only under a KEM that is itself without an assignment |
| `CodePoints.FreeCounts` | oqs-provider/oqs-template/generate.py:234-240 | used and free points add up to 256 |
| `CodePoints.RemoveMarksUsed` | oqs-provider/oqs-template/generate.py:239-240 | removing a point from the free list is the same as marking it used |
| `CodePoints.FailureIsReal` | oqs-provider/oqs-template/generate.py:236-248 | whatever failure is reported, the points looked at are not all private and distinct |
| `CodePoints.TooMany` | oqs-provider/oqs-template/generate.py:233-256 | more than 256 points are never good, and if the first 256 are, nothing is left to suggest |
| `CodePoints.Min` | oqs-provider/oqs-template/generate.py:243-247 | the least point of the list, or the exception for an empty one |
| `CodePoints.CheckedMembers` | oqs-provider/oqs-template/generate.py:250-256 | the points looked at are those of KEMs without an assignment and of such hybrids of theirs |
| `CodePoints.CheckedInOrder` | oqs-provider/oqs-template/generate.py:250-256 | the point of a KEM is looked at before those of its hybrids, in the order listed |
| `CodePoints.SuggestionIsLeastUnused` | oqs-provider/oqs-template/generate.py:233-248 | a message names a point outside 65024 to 65279 or one met before, and suggests the least point of that range not met before |
| `Percentile.PercentileBounds` | analysis/summarize_list.py:12-24 | every percentile of sorted values lies between the least and the greatest |
| `Percentile.PercentileMonotone` | analysis/summarize_list.py:12-24 | it is monotone in p |
| `Percentile.PercentileAtHalf` | analysis/summarize_list.py:12-24 | at one half it is the median, for odd and even counts |
| `Percentile.PercentileAtValue` | analysis/summarize_list.py:17-21 | where the rank is whole it is the value of that rank |
| `Percentile.PercentileAtRank` | analysis/summarize_list.py:17-24 | all cases of the code compute one function of the rank; PercentileIsLinear states which |
| `Percentile.PercentileIsLinear` | analysis/summarize_list.py:12-24 | for any values, between the ranks i and i + 1 the percentile is v[i] + (rank - i) * (v[i + 1] - v[i]) with rank = (n - 1) * p |
| `Percentile.PercentileExample` | analysis/summarize_list.py:12-24 | the 95th percentile of 1 to 10 is 9.55 |
| `Percentile.SummaryIsOrdered` | analysis/summarize_list.py:236-258 | min <= median <= p95 <= p99 <= max for all measurements in any order of arrival |
| `Percentile.ExtremesOfSorted` | analysis/summarize_list.py:236-258 | sorting keeps the least and the greatest measurement and puts them at the ends |
| `NidTable.TableIsMap` | oqs-provider/oqsprov/oqsprov_keys.c:233-287 | after registrations that give each name a NID of its own, a registered NID finds the row of its name, and a NID given to no name of the table finds none |
| `NidTable.RegisteredByName` | oqs-provider/oqsprov/oqsprov_keys.c:233-242 | after any registrations each row carries the NID last given to its name and is otherwise unchanged |
| `NidTable.LookupFinds` | oqs-provider/oqsprov/oqsprov_keys.c:244-287 | a lookup by the NID of a row finds that row if and only if no earlier row carries it |
| `NidTable.FirstIsLeast` | oqs-provider/oqsprov/oqsprov_keys.c:244-287 | the lookups stop at the first row with the NID |
| `NidTable.SetByName` | oqs-provider/oqsprov/oqsprov_keys.c:233-242 | setting a NID changes the row of that name and no other |
| `NidTable.Table.SetNid` | oqs-provider/oqsprov/oqsprov_keys.c:233-242 | the table in place after one registration, and whether the name is in it |
| `NidTable.Table.GetSecbits` | oqs-provider/oqsprov/oqsprov_keys.c:244-251 | the security bits of the first row with the NID, or 0 |
| `NidTable.Table.GetReverseshare` | oqs-provider/oqsprov/oqsprov_keys.c:253-260 | its share order, or 0 |
| `NidTable.Table.GetKeytype` | oqs-provider/oqsprov/oqsprov_keys.c:262-269 | its key type, or the type with enumerator 0 |
| `NidTable.Table.GetOqsname` | oqs-provider/oqsprov/oqsprov_keys.c:271-278 | its algorithm name, or null |
| `NidTable.Table.GetOqsalgIdx` | oqs-provider/oqsprov/oqsprov_keys.c:280-287 | its index, or -1 |
| `NidTable.NewFromNid` | oqs-provider/oqsprov/oqsprov_keys.c:442-457 | a registered NID hands the constructor of a key the type, order, index and algorithm of the one row that carries its name |

## Left out

- OpenSSL and liboqs themselves: EVP, ASN.1 and BIO internals, DER tagging, PEM, passphrase encryption; the model starts at the inner octet string.
- The generated tables, the macro instantiations, OID and code-point patching from the environment, and the concrete parameter sets: finite data. Nothing is claimed about security bits of a key.
- Build variants without a public key in the private encoding and without atomics; allocation failure, except the null result of a zero-length first chunk.
- Keys.OqsxKey.GenClassic: an encoding that would run over the end of its buffer has no value in the model, and a raw public share of the wrong length is taken not to be written; the classical generator is a parameter instead of a call.
- Keys.OqsxKey.RecreateClassicKey: likewise for a derived public key that would run over the end of the buffer.
- Keys.OqsxKey.GenPq: a failing key-pair call is taken to leave its buffers alone.
- Keys.OqsxKey.SetEncodedPublic: only for keys whose components are set; the property-query parameter is not modelled.
- Keys.OqsxKey.FromData: what follows the read of a null buffer has no value; the flag says when it is reached.
- Keys.OqsxKey.Match: keys of one name are of one algorithm; the result after reading past the second private buffer has no value.
- HybridKem.HybKemEncaps: what is written into buffers that are too small has no value; the flag says when the call gets there.
- Keys.OqsxKey.Free: the count is an unbounded integer, and the assertion on a negative count in debug builds is replaced by the proof that the count is exact.
- KeyTheorems.HybridAcceptance: the shape is that of the octets before DER; the algorithm identifier is not part of it.
- The reuse of a signature context after its final call: init does not clear the collected data, and the model states what a context was fed without starting over.
- SigContext.SigCtx.DigestSignVerifyInit: property queries and the algorithm identifier are not modelled; a digest context is the bytes it absorbed and whether it was finalised.
- SigContext.SigCtx.SetSignature: each context parameter has a method of its own; a call that sets several of them at once is their sequence.
- SigContext.SigCtx.FreeCtx: freed memory is modelled as memory that is overwritten and no longer referenced.
- RefCount.Run: a context is used by one thread at a time, so no other action starts on it inside an init; memory ordering is sequentially consistent.
- Der2Key.Decode: the parsers are a function from formats to algorithms; keys they make and give back internally are not seen.
- RuntimeFilter.Provider.Initialise: the version comparison is a parameter, and the native names are a list.
- Template.Populate: rendering is a parameter, and the fragments are a list instead of a directory listing.
- CodePoints.Validate: code points are numbers; the parsing of decimal and hexadecimal text is not modelled.
- Percentile.Percentile: real arithmetic instead of floating point, and p between 0 and 1.
- NidTable.NewFromNid: the name of a NID in the object database is a parameter.
- Shifts and masks of the header macros are written as division and remainder, the union of KEM and signature descriptions as one record of lengths.
- The has query, the text form of keys, key parameters other than those above, gettable and settable parameter lists: they would only add easy members.
- The TLS bench client, the shell runner, the server scripts and the test harnesses: input and output.
