# Verification of SOPS

A Dafny model of the parts of SOPS that carry its guarantees, with proofs. `dafny verify dfyconfig.toml`
checks all of it.

- **Sharing the data key** (`GF256`, `FieldLaws`, `FieldInverse`, `Polynomials`, `Shamir`). The field of 256 elements as `mult` computes it, bit
  by bit; inversion, Horner evaluation and Lagrange interpolation over it; `Split` and `Combine` on byte arrays.
  The random coefficients are an arbitrary choice: `Split` returns them as a ghost result.
- **Custody of the data key** (`KeyGroups`, `Custody`, `CustodyRuns`, `KeyManagement`). Master keys and metadata are
  objects that are updated in place. Their methods are tied to steps on plain states, and the main results are about
  every run of the steps: add a group, delete a group, rotate, update, recover. Key services are given: they may
  fail, but a decryption that succeeds returns what was encrypted for the key.
- **Encrypting documents** (`Trees`, `Decisions`, `Walker`, `WalkInPlace`, `EncryptionRules`, `Encrypting`, `RoundTrip`,
  `Documents`, `ExactRoundTrip`, `CommentScopes`, `MacCoverage`, `PathBinding`, `DocumentRuns`). The walk over a tree
  with its path and its stack of comment runs, the choice of what to encrypt, the bytes written to the MAC, and
  `EncryptTree` and `DecryptTree` around it: which leaves become ciphertext; which trees come back, exactly; how far a
  comment reaches; what the MAC covers; that a ciphertext is bound to its place; and that a file keeps its document over
  every run of the commands on its keys. A regular expression is an arbitrary predicate, the hash is the sequence of bytes
  written to it.
- **The cipher** (`CipherFormat`, `Stash`, `AesCipher`, `Reencryption`). The text format with its regular expression,
  and the stash of initialization vectors, for single values and for whole documents that are decrypted and encrypted
  again. AES-GCM, base64, and the printing of floats and time stamps are given, with the promise that reading undoes
  writing, that no text gets shorter, and that a text opens only with the key and path it was sealed with;
  `PromisesCanBeKept` shows that the promises fit together.
- **Editing and flattening trees** (`TreeEditing`, `EditLaws`, `EditingInPlace`; `Tokens`, `Strings`, `PathSets`, `Tries`, `Conversion`,
  `Unflattening`, `Nodes`, `Flattening`, `FlatLeaves`, `TreeTries`, `FlattenRoundTrip`; `MetadataEmbedding`). `Set`,
  `Unset` and `Truncate`; the tokenizer and the trie of nodes that undo the flattener; putting the metadata into a
  tree and taking it out. `Set` and `Unset` are modelled on values, where the laws are proved, and in place.
- **Stores and configuration** (`JsonTokens`, `JsonPrinting`, `TruncatedJson`, `Dotenv`, `MergedGroups`). The JSON store at the level
  of tokens, also for input that breaks off, the dotenv store at the level of characters, and the merging of key groups.

Code that works step by step is a method with the loop of the source, proved equal to a function; the results are
lemmas about that function. Where a promise does not hold on all inputs there is an if-and-only-if with the
condition, as in `FlattenRoundTripsExactly`, `DecryptTreeAcceptsExactly` or `ReencryptionReproducesExactly`, or a concrete input that breaks it,
as in `AdjacentHitSurvives`.

Where the code and its documentation disagree, the model follows the code:

- `Encrypt` (sops.go:599-615) is said to encrypt all values but those the rules exclude. Comments are left alone unless
  an encrypted comment regex is set (sops.go:484-490).
- The comments on `mult` and `div` (shamir/shamir.go:94, shamir/shamir.go:140) speak of log and exp tables. There are none.
- `interpolatePolynomial` is said to be used at 0 only (shamir/shamir.go:72). It is exact at every point.
- `rotate` removes keys from the slice it ranges over (cmd/sops/rotate.go:61-65). It removes exactly the keys with the
  name if and only if no two of them are neighbours, and none of several is in last place: of two neighbours one stays,
  and a last one behind another makes the slice expression panic.
- `groups add` and `groups delete` ignore the errors of the update (cmd/sops/subcommand/groups/add.go:38,
  cmd/sops/subcommand/groups/delete.go:47). The results on runs are about steps whose update reports none.
- `set` at an int that a branch does not have changes nothing and returns true (sops.go:251-256).
- The JSON decoder takes input that ends behind a key or inside a list for the end of the object
  (stores/json/store.go:196-198), unless an open object stands directly inside another one: then the outer object
  meets the end of the input at a key, which is an error (stores/json/store.go:164).
- A ciphertext is said not to change when a value is decrypted and encrypted again (aes/cipher.go:43-44). Equal values
  at one path share an entry of the stash, and all elements of a list have the path of the list
  (`EqualElementsBreakIt`). The path that authenticates a value is the joined one, where a key with a colon looks like
  two keys (`ColonsConfuse`).
- Encrypting comments by an earlier comment is said to be enabled inside lists (sops.go:409). An encrypted comment is a
  string there, and on the way back it ends the run of comments that told to encrypt what follows.

## Model

| member | source | states |
|---|---|---|
| GF256.Mult | shamir/shamir.go:141-180 | the bit loop computes the product `Mul`, whose laws follow |
| GF256.MulIsRemainder | shamir/shamir.go:142-143 | the product is the remainder of the carry-less product modulo X^8+X^4+X^3+X+1 (section 4.2 of FIPS 197), for all pairs of bytes |
| FieldLaws.MulDistributes | shamir/shamir.go:141-187 | multiplication distributes over addition, on both sides |
| FieldLaws.MulCommutes | shamir/shamir.go:141-180 | multiplication is commutative |
| FieldLaws.MulAssociates | shamir/shamir.go:141-180 | multiplication is associative |
| FieldLaws.MulOne | shamir/shamir.go:141-180 | 1 is neutral |
| FieldInverse.Inverse | shamir/shamir.go:108-137 | the addition chain of eleven products computes the power 254 |
| FieldInverse.PowAdds | shamir/shamir.go:125-136 | powers multiply by adding their exponents, which justifies every step of the chain |
| FieldInverse.MulSelfIsSquare | shamir/shamir.go:126-136 | squaring is a linear map on bits |
| FieldInverse.PowerOfFieldSize | shamir/shamir.go:109-121 | a^256 = a for every byte: Fermat's theorem for this field |
| FieldInverse.InverseInverts | shamir/shamir.go:106-121 | every non-zero byte times its inverse is 1, and the inverse of 0 is 0 |
| FieldInverse.NoZeroDivisors | shamir/shamir.go:141-180 | a product is 0 only when a factor is |
| FieldInverse.Div | shamir/shamir.go:95-104 | for a non-zero divisor, the quotient is the one byte that times the divisor gives the dividend |
| Polynomials.Evaluate | shamir/shamir.go:52-66 | Horner's loop, with its special case at 0, is the value of the polynomial |
| Polynomials.EvalAtZero | shamir/shamir.go:53-56 | the value at 0 is the intercept |
| Polynomials.DeflateDivides | shamir/shamir.go:52-66 | every polynomial is its value at r plus a multiple of X - r |
| Polynomials.TooManyRoots | shamir/shamir.go:52-66 | a polynomial with as many distinct roots as coefficients is zero |
| Polynomials.AgreementIsEquality | shamir/shamir.go:52-66 | polynomials of n coefficients that agree at n distinct points are equal |
| Polynomials.InterpolatePolynomial | shamir/shamir.go:73-91 | the double loop computes the Lagrange sum; on distinct points the division by zero is never reached |
| Polynomials.InterpolantFits | shamir/shamir.go:68-91 | the interpolant passes through all samples |
| Polynomials.InterpolationIsExact | shamir/shamir.go:68-91 | n samples of a polynomial of degree below n give its value at every point, not only at 0 |
| Polynomials.InterpolationIgnoresOrder | shamir/shamir.go:68-91 | reordered samples give the same value |
| Polynomials.ExactlyOnePolynomial | shamir/shamir.go:30-47 | through n points away from 0 and any intercept goes exactly one polynomial of n+1 coefficients |
| Shamir.TagsDoNotWrap | shamir/shamir.go:216-222 | up to 255 parts get distinct, non-zero tags: adding 1 to a byte does not wrap |
| Shamir.NextTagWraps | shamir/shamir.go:199-201 | a part more and the tag would be 0, where the share is the secret |
| Shamir.MakePolynomial | shamir/shamir.go:32-47 | a polynomial of the degree with the given intercept, the rest arbitrary |
| Shamir.Split | shamir/shamir.go:194-252 | a secret is split, or the randomness fails, exactly for 2 <= threshold <= parts <= 255 and a secret that is not empty; the error for all other arguments, and that one of the five cannot occur; share i holds the values of one polynomial per byte at tag i+1, whose intercepts are the secret |
| Shamir.ShareLayout | shamir/shamir.go:210-249 | the last byte of share i is i + 1, and each byte in front of it the value of its polynomial there |
| Shamir.FillColumn | shamir/shamir.go:240-247 | the inner loop writes one column and nothing else |
| Shamir.ReadTags | shamir/shamir.go:280-292 | the tags of the parts, and whether one repeats |
| Shamir.Reconstruct | shamir/shamir.go:294-308 | the loop over the bytes, reusing one sample buffer, interpolates each byte of the secret from the same byte of all parts |
| Shamir.Combine | shamir/shamir.go:256-309 | on arbitrary input: the errors of the source in its order, or the interpolation at 0, byte by byte |
| Shamir.CombineSucceedsExactly | shamir/shamir.go:256-292 | Combine succeeds exactly on two or more parts of one length, at least 2, with distinct tags; the secret is one byte shorter |
| Shamir.CombineErrors | shamir/shamir.go:256-292 | which of the four errors is reported, for all parts |
| Shamir.AnyThresholdRecovers | shamir/shamir.go:189-309 | any threshold or more distinct shares, in any order, of any secret, with any coefficients, combine to exactly the secret |
| Shamir.CombineIgnoresOrder | shamir/shamir.go:254-309 | the order of the parts does not matter, for all parts that combine |
| Shamir.TooFewSharesRevealNothing | shamir/shamir.go:30-47 | for threshold - 1 shares and every candidate secret there is exactly one choice of coefficients that explains them |
| KeyGroups.RemoveInRange | cmd/sops/rotate.go:61-65 | the loop that deletes from the slice it ranges over, on its backing array: what is left, or a panic |
| KeyGroups.RemovesAllExactly | cmd/sops/rotate.go:58-67 | the outcome is exactly the slice without its hits if and only if no two hits are neighbours and the last element is no hit behind another one |
| KeyGroups.AdjacentHitSurvives | cmd/sops/rotate.go:61-65 | of two neighbouring hits one survives |
| KeyGroups.LastHitPanics | cmd/sops/rotate.go:61-65 | a last hit behind another one, with no neighbouring hits, makes the loop panic |
| KeyGroups.DistinctNamesAreRemoved | cmd/sops/rotate.go:58-67 | with distinct names the removed name is gone and all others stay, in order |
| KeyGroups.PriorityIsLastPosition | sops.go:1074-1078 | the priority of a type is its last position in the decryption order, and behind all positions when it has none |
| KeyGroups.SortKeyGroupIndices | sops.go:1073-1100 | the indices sorted by priority, stable |
| KeyGroups.TryOrderIsStable | sops.go:1071-1100 | the order is a permutation of all indices, by priority, equal priorities in their order: no key is skipped |
| KeyGroups.StableOrderIsUnique | sops.go:1086-1098 | there is only one such order, so any stable sort gives it |
| KeyGroups.TriesInOrder | sops.go:1071-1100 | of two keys the one is tried first whose type comes first in the decryption order; types that are not listed come last, and ties stay in the order of the group |
| Custody.GroupPartOpens | sops.go:1053-1069 | what a group decrypts to is the part it holds, and it decrypts when one of its keys can be |
| Custody.PartsAreShares | sops.go:1010-1019 | the parts obtained are the shares of exactly the groups that can be decrypted |
| Custody.RecoveryIsExact | sops.go:998-1039 | recovery from scratch gives the data key when the threshold of groups (or the only group) can be decrypted, and never anything else |
| Custody.RecoveryNeedsThreshold | sops.go:1010-1036 | the same with the set of groups in which some service decrypts some key: it must have as many groups as the threshold says, or the only one |
| CustodyRuns.ObtainedKeyIsCurrent | sops.go:1002-1004 | cached or recovered, the key obtained is the current one |
| CustodyRuns.StepKeepsCustody | sops.go:898-972 | every step keeps the data key of its time recoverable and the cache equal to it |
| CustodyRuns.EveryRunKeepsCustody | sops.go:898-1039 | the same after every run of any length |
| CustodyRuns.EveryRunRecovers | sops.go:998-1039 | after every run, enough decryptable groups recover the key that was set last, and the cache agrees with that |
| CustodyRuns.UpdatedNeedsThreshold | sops.go:912-935 | after an update without errors: with threshold 0, or one group, the data key is recovered if and only if all groups can be decrypted; with threshold t, if and only if t of them can |
| CustodyRuns.ThresholdAfterStep | sops.go:919-921 | the threshold after any step: the one of the command line, else the one before, else the number of groups once there are several |
| CustodyRuns.ThresholdStays | cmd/sops/subcommand/groups/add.go:35-37 | over any run, the last threshold given on a command line stays in force, and before the first the one at the start |
| CustodyRuns.EveryRunNeedsThreshold | sops.go:898-1039 | over any run, exactly as many decryptable groups as that threshold recover the key that was set last; without any threshold as many as there were when the key was first split |
| CustodyRuns.RotationRemovesExactly | cmd/sops/rotate.go:58-67 | with names distinct in each group, the removal loops do not panic and leave exactly the other keys |
| CustodyRuns.RotationChangesExactly | cmd/sops/rotate.go:54-67 | a rotation step leaves in every group what was there, in the first also what was added, without the names to be removed |
| KeyManagement.EncryptPart | sops.go:948-967 | one key: a service that succeeds stores a ciphertext of the part; otherwise the key is unchanged and every service can fail on it |
| KeyManagement.EncryptForGroup | sops.go:943-968 | every key of the group opens to the part, or was refused by all services and is unchanged; with an error there is one of the latter |
| KeyManagement.EncryptForGroups | sops.go:936-968 | the groups in front of the first empty one are offered their parts, key by key, and all others are untouched |
| KeyManagement.DecryptKey | sops.go:1113-1142 | the first non-empty plaintext of the services, or an error |
| KeyManagement.DecryptKeyGroup | sops.go:1053-1069 | the part of the first key, in the sorted order, that some service decrypts; an error when none does |
| KeyManagement.RemoveNamesFromGroups | cmd/sops/rotate.go:58-67 | the three nested loops are the removal on names, and the keys left hold what they held; key objects are neither lost nor shared |
| KeyManagement.AppendToFirst | cmd/sops/rotate.go:54-57 | all added keys end up in the first group, in order, and no other group changes |
| KeyManagement.MakeParts | sops.go:912-935 | the parts for the groups: the data key itself for one, shares for several; it fails exactly when the threshold is none for the number of groups, the data key is empty, or the randomness fails |
| KeyManagement.Metadata.UpdateMasterKeys | sops.go:898-972 | in place: without errors, the groups hold the parts of the data key, the threshold is what it was or, when that was 0 and there are several groups, their number, and the cache is set; with an error, its cause, and for every key whether it holds its new part or was refused and kept the old one, up to the first empty group |
| KeyManagement.ReliableUpdateFailsExactly | sops.go:904-971 | with a service that cannot fail and keys in every group: a single group is updated without errors; for several the only possible error is failing randomness if and only if there are at most 255, the data key is not empty, and the threshold is 0 or lies between 2 and their number |
| KeyManagement.Metadata.GetDataKey | sops.go:998-1039 | in place: the cache, or a recovery that fills it |
| KeyManagement.Metadata.AddGroup | cmd/sops/subcommand/groups/add.go:24-54 | the method is a step that adds a group, when the update reports no error; with errors, key by key, what the update of the old groups and the new one leaves |
| KeyManagement.Metadata.DeleteGroup | cmd/sops/subcommand/groups/delete.go:26-63 | the method is a step that deletes a group; exactly when it gets that far, or panics; with errors, key by key, what the update of the remaining groups leaves |
| KeyManagement.Metadata.Rotate | cmd/sops/rotate.go:54-74 | the method is a rotation step; it panics exactly when the loops do, has no data key exactly when none can be obtained, and then changes nothing, and else fails with the update, leaving, key by key, what the update of the groups behind the loops leaves |
| Trees.EqualReflexive | sops.go:165-200 | every tree equals itself |
| Trees.EqualExactly | sops.go:165-200 | trees are equal if and only if they are the same but for inline flags of comments |
| Trees.EqualWithoutComments | sops.go:165-200 | without comments, equal trees are the same |
| Trees.NormalizedExactly | sops.go:377-378 | what the walk makes of a tree it leaves alone: byte slices become strings, and nothing else changes |
| Decisions.CiphertextIsNoDirective | sops.go:90-98 | a text that starts like a ciphertext is no directive |
| Decisions.MatchesInScope | sops.go:544-559 | the nested loops with their skipped last line: a match among the comments in scope |
| Decisions.ApplyDirectives | sops.go:580-594 | the nested loops: the last directive in scope wins |
| Decisions.DecideByPath | sops.go:491-527 | the four loops over the keys give `ByPath`, which is what `EncryptionRules.KeysDecide` says in keys and rules |
| Decisions.ShouldBeEncrypted | sops.go:471-597 | all loops of the decision come to one decision on the flat scope of comments, which is what `EncryptionRules.RulesDecide` and `RulesDecideComments` say |
| Decisions.SameScopeDecision | sops.go:540-560 | a scope whose comments were partly replaced by ciphertext leads to the same decision |
| Decisions.DecisionsAgree | sops.go:471-597 | every decision on the tree with encrypted comments equals the decision on the plaintext tree, for leaves and for comments |
| EncryptionRules.DirectivesExactly | sops.go:90-98 | a comment is a directive if and only if it spells one out, in any case, with any white space around it |
| EncryptionRules.KeysDecide | sops.go:491-527 | encrypted regex set: some key matches it; else unencrypted regex matched by some key: no; else encrypted suffix set: some key ends in it; else: the unencrypted suffix is unset or no key ends in it |
| EncryptionRules.RulesDecide | sops.go:471-597 | for every path and scope: the last directive in scope; without one, the encrypted comment regex when it is set, matched by some comment in scope; else not encrypted when one matches the unencrypted comment regex; else the rules on keys |
| EncryptionRules.RulesDecideComments | sops.go:484-579 | for every comment: only under an encrypted comment regex, never a directive, and then as the comments in front of it say; its own text and the keys play no part |
| EncryptionRules.RunIsWhole | sops.go:461-466 | the run of comments in front of an item are the texts of all comments behind the last item that is none |
| EncryptionRules.LeafIsCiphertextExactly | sops.go:616-668 | of every leaf of every encrypted document: it is ciphertext if and only if these rules say so of the keys on its path and the comments in front of it and its ancestors, and else it is what it was |
| EncryptionRules.CommentIsCiphertextExactly | sops.go:429-445 | likewise for every comment that is an item |
| Walker.Walk.Leaf | sops.go:627-657 | the closures of Encrypt and Decrypt: what becomes of a leaf, under which joined path, and what is hashed; `PathBinding` says what the joined path tells apart, and `MacCoverage` what the hash does |
| Walker.Walk.Value | sops.go:373-400 | every kind of value is walked as `WalkValue` says; nil is left alone and unknown types are an error |
| Walker.Walk.WalkSlice | sops.go:402-423 | the loop, which replaces elements and keeps or clears the comment run behind each, gives the tree, the hash and the errors of `WalkElems` |
| Walker.Walk.WalkBranch | sops.go:425-469 | likewise for items, with comments as keys and the error for keys that are no strings |
| WalkInPlace.WalkSlice | sops.go:402-423 | on a list in memory: when it succeeds, its entries are overwritten with what `WalkElems` gives, and the containers stay a tree without sharing; an error is that of `WalkElems` |
| WalkInPlace.WalkBranch | sops.go:425-469 | on a branch in memory, likewise, with comments as keys |
| WalkInPlace.WalkContainer | sops.go:373-400 | on any container in memory, at any depth |
| RoundTrip.ReadableWithoutRegex | sops.go:484-490 | without an encrypted comment regex the condition of the round trip holds for every tree |
| RoundTrip.LeafRoundTrip | sops.go:627-732 | one leaf: decrypted to what it was, and the same bytes hashed |
| RoundTrip.CommentRoundTrip | sops.go:640-711 | one comment as a key |
| RoundTrip.UnreadableCommentStays | sops.go:702-711 | a comment that does not open is taken for one that was never encrypted, and stays |
| RoundTrip.ValueRoundTrip | sops.go:616-743 | any value below any path and comments: decryption after encryption equals it, with the same hash |
| RoundTrip.ItemsRoundTrip | sops.go:425-469 | a branch, with its comment runs in step |
| RoundTrip.ElemsRoundTrip | sops.go:402-423 | a list, likewise |
| Documents.Document.WalkTree | sops.go:661-667 | all branches, walked in place with one hash, and the MAC over it |
| Documents.Document.EncryptTree | cmd/sops/common/common.go:127-138 | the tree, the time stamp and the MAC sealed under it are updated in place |
| Documents.Document.DecryptTree | cmd/sops/common/common.go:91-114 | the errors in their order, and the MAC check |
| Documents.BranchesRoundTrip | sops.go:661-742 | all branches together, one hash |
| Documents.DecryptTreeAcceptsEncryptTree | cmd/sops/common/common.go:91-138 | DecryptTree accepts what EncryptTree produced: same MAC, equal tree |
| ExactRoundTrip.LongerScope | sops.go:561-597 | comments in front that by themselves decide to encrypt do not turn a later decision to encrypt |
| ExactRoundTrip.WeakerCleared | sops.go:415-420 | what decrypts below a run that an encrypted comment has ended was encrypted below the full run: no plaintext is handed to the cipher |
| ExactRoundTrip.ValueExactly | sops.go:616-743 | any value comes back equal, with the same hash, if and only if the scope of the plaintext and the scope without the ended runs decide alike at every non-empty leaf and comment in it |
| ExactRoundTrip.ItemsExactly | sops.go:425-469 | a branch, likewise |
| ExactRoundTrip.ElemsExactly | sops.go:402-423 | a list, likewise |
| ExactRoundTrip.BranchesExactly | sops.go:661-742 | all branches together, one hash |
| ExactRoundTrip.DecryptTreeAcceptsExactly | cmd/sops/common/common.go:91-138 | DecryptTree gives back what EncryptTree encrypted, with encrypted comments anywhere, if and only if the two scopes decide alike |
| ExactRoundTrip.ReadableIsStable | sops.go:484-490 | where no comment in a list or as a value is to be encrypted, they do |
| Documents.EnoughGroupsDecryptTheFile | cmd/sops/common/common.go:91-138 | a file encrypted under the key in custody is decrypted by anyone with a key in enough groups |
| DocumentRuns.FileStepHolds | cmd/sops/rotate.go:38-84 | every command on the keys of a file leaves the data key in custody and the content the same document, encrypted under it; a rotation decrypts it and encrypts it under the new key |
| DocumentRuns.EveryRunKeepsTheDocument | cmd/sops/common/common.go:91-138 | after every run of such commands, whoever decrypts keys of enough groups reads the document that was put in, with an accepted MAC, and whoever does not gets no data key |
| DocumentRuns.AesKeepsPromise | sops.go:135-144 | the AES cipher does what this needs, under every key |
| Encrypting.EncryptsExactly | sops.go:616-668 | with a cipher that encrypts every leaf, exactly the documents are encrypted that have no value of an unknown type and no key that is neither a string nor a comment |
| Encrypting.EncryptsWhatFits | cmd/sops/common/common.go:127-138 | with any cipher, every document whose leaves, comments and MAC it encrypts |
| Encrypting.CommentIsRefusedExactly | sops.go:648-655 | a comment is refused if and only if it is to be encrypted and the cipher fails or its ciphertext matches the unencrypted comment regex |
| Encrypting.SecretsDrawApart | sops.go:640-646 | no two values of a document, in whatever branches, are sealed with the same draw of randomness, and the MAC is sealed with yet another |
| PathBinding.PathStringGrows | sops.go:642-642 | the joined path has every key, in order, each followed by a colon |
| PathBinding.PathStringTellsApart | sops.go:642-642 | paths of keys without colons are joined alike if and only if they are the same, except for the empty path and that of the empty key |
| PathBinding.ColonsConfuse | sops.go:642-642 | with a colon in a key they need not be |
| PathBinding.UnreadableIsRejected | sops.go:701-720 | no document with a leaf that is no string, or does not open, where a ciphertext is expected, is decrypted, with or without the MAC check |
| PathBinding.ForeignCiphertextIsRejected | sops.go:701-720 | nor one with a ciphertext there that was made for another path or with another key |
| PathBinding.ScopesInStep | sops.go:402-469 | at every position, the encrypted tree has the path of the plaintext tree and comments that lead to the same decisions |
| PathBinding.MovedCiphertextIsRejected | cmd/sops/common/common.go:91-138 | in an encrypted document, one value replaced by the ciphertext of another path: DecryptTree fails, with or without the MAC check |
| PathBinding.OtherKeyIsRejected | cmd/sops/common/common.go:91-138 | nor is an encrypted document with a secret decrypted with another data key |
| PathBinding.MovedMacIsRejected | cmd/sops/common/common.go:100-104 | a MAC sealed for another time stamp, or the ciphertext of a value in its place, cannot be decrypted |
| PathBinding.OtherTimeIsRejected | cmd/sops/common/common.go:100-138 | an encrypted document with a changed time stamp is rejected, and read all the same when the MAC is ignored |
| MacCoverage.ValueAppends | sops.go:706-732 | decrypting any value appends bytes to the hash that do not depend on what was written before |
| MacCoverage.ValueChanged | sops.go:373-469 | with one value exchanged at any position, the walk succeeds exactly when that value is walked, and writes the same bytes exactly when it does |
| MacCoverage.AcceptedExactly | cmd/sops/common/common.go:96-112 | other content under the same MAC is accepted if and only if it can be walked and gives the same bytes: keys and borders are not covered |
| MacCoverage.OneValueExchanged | cmd/sops/common/common.go:96-112 | with one value exchanged, an accepted document is accepted if and only if the new value can be read in its place and gives the bytes of the old one |
| MacCoverage.PlainTextExchanged | sops.go:722-731 | a string in plain text cannot be exchanged for another, unless the MAC is about encrypted values only, and then for any |
| MacCoverage.PlainLeafExchanged | sops.go:722-731 | any leaf in plain text exchanged for any other: accepted if and only if both are printed alike, where bools are told apart but not told from their names |
| MacCoverage.CiphertextExchanged | sops.go:701-731 | a ciphertext exchanged for another that opens in its place: accepted if and only if what they open to is printed alike |
| MacCoverage.OtherSettingExactly | sops.go:689-693 | read with the other setting of what the MAC is about, a document is accepted if and only if the bytes of the two walks differ in the 32 fixed ones in front |
| CommentScopes.WalkedAt | sops.go:373-469 | the walk at any position in the tree is the walk of that value with the comments in front of it and of its ancestors |
| CommentScopes.LeafIsDecidedByItsPosition | sops.go:616-657 | whether a leaf becomes ciphertext depends on its path and exactly those comment runs |
| CommentScopes.LastDirectiveDecides | sops.go:561-597 | the last directive in scope decides against all other rules |
| CommentScopes.CommentsReachOneItem | sops.go:461-466 | in a branch, behind the next item that is no comment, the run of comments does not depend on what stood in front of it |
| CommentScopes.CommentsReachOneElem | sops.go:416-419 | in a list, likewise |
| CommentScopes.SameBehind | sops.go:402-469 | at every position behind that entry, the value, its path and all its comments are the same |
| CommentScopes.CommentsReachNoFurther | sops.go:402-469 | the walks over two documents that agree from an entry that is no comment on, at any depth, in a branch or a list, encrypt or leave alone the same leaves behind it |
| CommentScopes.ListCommentIsEncrypted | sops.go:402-423 | in a list, the comment behind a matching one is encrypted |
| CommentScopes.EncryptedListCommentBreaksTheRoundTrip | sops.go:402-423 | on the way back that comment is a string which ends the run, the next value stays encrypted, and the list is not the one it was |
| CipherFormat.FormatIsMatched | aes/cipher.go:55-77 | the greedy groups of the regular expression take apart exactly what Encrypt prints |
| CipherFormat.BodyIsRead | aes/cipher.go:55-77 | the same for any separate separators, by the backtracking of the expression |
| CipherFormat.FormatPrints | aes/cipher.go:197-201 | the text of an encrypted value, in full |
| Stash.Cipher.Encrypt | aes/cipher.go:141-202 | the method, with its errors and panics in their order, is the function of stash and randomness |
| Stash.Cipher.Decrypt | aes/cipher.go:80-125 | the method returns what the text opens to and adds one entry to the stash, also when the value does not parse |
| Stash.EncryptsExactly | aes/cipher.go:141-202 | exactly which values are encrypted with which keys and vectors, and the text that each becomes |
| Stash.DecryptUndoesEncrypt | aes/cipher.go:80-202 | every supported value comes back with its type; the entry left is its initialization vector |
| Stash.StashIsLastDecrypted | aes/cipher.go:42-46 | after any calls the stash holds exactly the vectors of the texts last decrypted, by typed value and path |
| Stash.ReencryptsTheSame | aes/cipher.go:43-45 | after any calls, encrypting what was last decrypted at a path gives the same text, byte for byte; anything else gets a fresh vector |
| AesCipher.AesIsFaithful | sops.go:135-144 | this cipher keeps the promise of the interface that the document results ask for, whatever is in its stash |
| AesCipher.AesIsTelling | aes/cipher.go:195-201 | no text but the empty one is its own ciphertext |
| AesCipher.AesIsBinding | aes/cipher.go:195-201 | what this cipher seals opens only with its key and at its path, when AES-GCM is authentic |
| AesCipher.AesWorks | aes/cipher.go:141-202 | with an AES key and 32 random bytes for each value it encrypts every value that has a text |
| AesCipher.PromisesCanBeKept | aes/cipher.go:80-202 | what is asked of AES-GCM, base64 and the formats, authenticity included, can be had all at once |
| Reencryption.WalkMakesCalls | sops.go:683-732 | the calls of a decryption are those of its walk: any cipher that decrypts their texts alike gives the same walk, and each of them can make it fail |
| Reencryption.SealedAgain | aes/cipher.go:149-158 | encrypting a decrypted value gives its ciphertext again exactly when the stash holds its vector |
| Reencryption.ValueAgain | sops.go:616-743 | any value, decrypted and encrypted again: the same ciphertexts exactly when the stash holds the vectors of all calls of its decryption |
| Reencryption.StashHolds | aes/cipher.go:42-46 | every entry of the stash was left by a call of Decrypt, and no call is forgotten |
| Reencryption.RemembersExactly | aes/cipher.go:42-46 | the stash after a decryption holds the vectors of all its calls if and only if no value stands twice at one path under different ciphertexts |
| Reencryption.ReencryptionReproducesExactly | cmd/sops/common/common.go:91-138 | a document decrypted and encrypted again unchanged is the encrypted document it was, text for text, the inline flags of comments aside, if and only if no value stands twice at one path under different ciphertexts |
| Reencryption.EqualElementsBreakIt | aes/cipher.go:149-158 | two equal strings in one list, encrypted with two vectors, break it |
| TreeEditing.SetValue | sops.go:236-279 | the search loop and the recursion give the tree and the flag of `SetIn`, or its panic; the laws are those of `EditLaws` |
| TreeEditing.UnsetValue | sops.go:287-323 | likewise for `UnsetIn`: the tree, an error for what is not there, or a panic |
| TreeEditing.Truncate | sops.go:343-371 | the loop over the path leads where the path does step by step, or to its first error or panic |
| EditLaws.SetThenTruncate | sops.go:236-371 | Truncate finds what Set has set if and only if the path fits the tree |
| EditLaws.SetKeepsOthers | sops.go:236-279 | every diverging path that resolved before resolves to the same value after |
| EditLaws.FlagTellsChange | sops.go:236-279 | the flag is false exactly when the new tree equals the old one, if and only if no int was missing from a branch |
| EditLaws.MissedIntIsFlagged | sops.go:251-256 | an int in an empty branch changes nothing and returns true |
| EditLaws.SetTwice | sops.go:236-279 | repeating a Set changes nothing and returns false, if and only if the path lands where it did |
| EditLaws.UnsetAfterSet | sops.go:236-332 | Unset takes back a Set if and only if that added one entry to a container that was there |
| EditLaws.UnsetKeepsOthers | sops.go:287-332 | a successful Unset leaves all diverging paths alone, but for the shift of later positions in the edited list |
| EditLaws.SetSucceedsExactly | sops.go:236-279 | Set panics if and only if the path leads, by what is there, to a list and on with a string or a negative position, and else succeeds |
| EditLaws.UnsetSucceedsExactly | sops.go:287-323 | Unset panics on the same paths, succeeds on all others that are there, and reports an error on the rest |
| EditLaws.NewValueIsNested | sops.go:207-234 | what Set makes anew is one container for every component with one entry each, at position 0 whatever position was asked for |
| EditingInPlace.EqualCells | sops.go:165-200 | the comparison in memory, entry by entry, is `Equal` on the trees |
| EditingInPlace.MakeValue | sops.go:207-234 | new containers along the path, with the value at its end |
| EditingInPlace.Container.Set | sops.go:236-279 | in place: the slices then stand for the tree of `SetIn`, with its flag, and stay a tree without sharing; with a panic nothing at all was written |
| EditingInPlace.Container.Delete | sops.go:293-293 | deleting an entry in place keeps the other entries, and their containers apart |
| EditingInPlace.Container.Unset | sops.go:287-323 | in place: the slices then stand for the tree of `UnsetIn`; with an error or a panic nothing at all was written |
| Tokens.Tokenize | stores/flatten.go:31-70 | the state loop, with its end of the last token, computes the tokens between the separators, as `TokensOf` reads them off |
| Tokens.TokensAreReadable | stores/flatten.go:31-70 | no key that tokenize returns contains a separator or runs into the next one |
| Tokens.ReadablePathsAreRecovered | stores/flatten.go:29-70 | a printed path is read back if and only if no key, with the first underscore of the next separator, contains a separator |
| Tokens.PrintIsInjective | stores/flatten.go:212-214 | different readable paths are printed differently |
| Tokens.PathIsPrinted | stores/flatten.go:205-255 | a path with a key, a position of two digits and a key, printed in full |
| PathSets.FitIsRecursive | stores/flatten.go:118-174 | paths fit together if and only if they do at the root and behind every first token |
| Tries.PlaceTwiceCommutes | stores/flatten.go:78-109 | two values can be placed in either order, with the same trie or the same failure |
| Tries.OrderDoesNotMatter | stores/flatten.go:78-109 | so can any number |
| Conversion.PlaceAddsOnePath | stores/flatten.go:78-109 | place fails exactly at an occupied path, and else adds that path and nothing else |
| Conversion.PlacedExactly | stores/flatten.go:177-187 | placing all values succeeds if and only if no path repeats; the trie then holds exactly these values |
| Conversion.ConvertsExactly | stores/flatten.go:118-174 | a trie without dead branches converts if and only if its paths fit together |
| Unflattening.UnflattensExactly | stores/flatten.go:176-200 | unflattening succeeds if and only if all keys are strings or comments, no path repeats, and the paths fit: none inside another, no node with keys and positions, complete lists |
| Unflattening.UnflattenIgnoresOrder | stores/flatten.go:176-200 | reordered items give the same tree, or the same failure |
| Unflattening.RootIsBranch | stores/flatten.go:196-199 | the internal error at the end cannot occur |
| Nodes.Node.PlaceValue | stores/flatten.go:78-109 | place on nodes in memory: they stay a tree without sharing, which stands for the trie with the value placed; it fails exactly when `Place` does |
| Nodes.ConvertNode | stores/flatten.go:118-174 | reading the nodes, with their keys sorted and their positions in any order, gives what the trie converts to |
| Nodes.IsComplete | stores/flatten.go:152-164 | smallest position 0 and largest n - 1, for n positions, says that they are 0 to n - 1 |
| Nodes.SortStrings | stores/flatten.go:132-138 | the sorted sequence of the keys, whatever order they come in |
| Nodes.UnflattenTreeBranch | stores/flatten.go:176-200 | building nodes item by item and reading them gives `Unflattened` of the branch, or fails with it |
| Flattening.FlattenDescendValue | stores/flatten.go:205-221 | the descent, marking its keys in the shared map, gives the items of `DescendValue`, or nothing when a key is marked already; the map holds exactly the keys of the items |
| Flattening.FlattenDescendMap | stores/flatten.go:223-239 | the same for a branch: comments are skipped, any other key that is no string fails |
| Flattening.FlattenDescendArray | stores/flatten.go:241-255 | the same for a list, whose positions count all but comments |
| Flattening.FlattensExactly | stores/flatten.go:205-260 | flattening succeeds if and only if all keys are strings or comments and no two leaves are printed alike; it gives one item for every leaf |
| FlatLeaves.FlatIsPrinted | stores/flatten.go:205-255 | the items are the leaves with their printed paths |
| TreeTries.LeavesMakeTrie | stores/flatten.go:78-174 | the leaves of a shaped tree can all be placed, and make up the trie of the tree |
| TreeTries.TrieConverts | stores/flatten.go:118-174 | the trie of a shaped tree converts to that tree |
| TreeTries.ConvertedIsShaped | stores/flatten.go:118-174 | every trie of leaves that converts is the trie of a shaped tree |
| FlattenRoundTrip.PlainRoundTrips | stores/flatten.go:176-260 | a plain branch flattens without collision and unflattens to itself |
| FlattenRoundTrip.FlattenRoundTripsExactly | stores/flatten.go:176-260 | unflattening gives a flattened branch back if and only if it is plain: sorted string keys, nothing empty inside, no comments in lists, readable paths |
| MetadataEmbedding.SerializeMetadata | stores/metadata.go:248-294 | the loops: every branch with the metadata items appended, or an error for a reserved key |
| MetadataEmbedding.SerializesExactly | stores/metadata.go:248-294 | exactly when it succeeds, and every branch of the result, with the keys as they stand in the file |
| MetadataEmbedding.TakeReserved | stores/metadata.go:102-125 | the loop that deletes while it indexes is an order-preserving filter, with its errors |
| MetadataEmbedding.TakePrefixed | stores/metadata.go:127-141 | so is the loop of the full mode |
| MetadataEmbedding.ExtractMetadata | stores/metadata.go:100-162 | in place: the branches without the metadata, and the metadata tree |
| MetadataEmbedding.NotFoundExactly | stores/metadata.go:143-145 | there is no metadata if and only if the first branch has no item under its keys |
| MetadataEmbedding.ExtractsExactly | stores/metadata.go:100-162 | what the first item under the key gives: the metadata, or which of the three errors |
| MetadataEmbedding.RestExactly | stores/metadata.go:104-123 | all items under the key are taken out of all branches, and nothing else is |
| MetadataEmbedding.ExtractUndoesSerialize | stores/metadata.go:99-294 | what was embedded is extracted, item for item; in the flat modes if and only if the metadata is plain, and in the full mode the document has one branch |
| JsonTokens.SliceFromJSONDecoder | stores/json/store.go:124-149 | the loop consumes exactly the tokens of one list and returns its elements, or stops at the end of the input; it terminates on the tokens still to come |
| JsonTokens.TreeItemFromJSONDecoder | stores/json/store.go:153-190 | it consumes one key with its value, or the end of the object; the end of the input is an error at a key, and no error inside a value |
| JsonTokens.TreeBranchFromJSONDecoder | stores/json/store.go:192-207 | the loop consumes exactly one object; the end of the input inside a value ends the object without an error |
| JsonTokens.EncodeArray | stores/json/store.go:220-239 | the loop gives the tokens of all elements but comments, or fails with the first that has none; which tokens these are is `JsonPrinting.LeavesArePrinted` and `ListIsPrinted` |
| JsonTokens.EncodeTree | stores/json/store.go:241-263 | the same for objects, with `JsonPrinting.BranchIsPrinted`; a comment as a value is printed as the struct it is |
| JsonTokens.DecodeUndoesEncode | stores/json/store.go:124-287 | decoding an encoded tree, whatever tokens follow, gives it without its comments, with leaves as they were printed, and leaves exactly what follows |
| JsonPrinting.PrintsExactly | stores/json/store.go:209-263 | a value is printed if and only if all its keys are strings or comments and all its leaves have a text; what stands beside a comment does not matter |
| JsonPrinting.LeavesArePrinted | stores/json/store.go:209-218 | the token of every kind of leaf, and the six tokens of a comment as a value |
| JsonPrinting.BranchIsPrinted | stores/json/store.go:241-263 | an object is printed item by item, in order: a comment leaves nothing, any other item its key and its value |
| JsonPrinting.ListIsPrinted | stores/json/store.go:220-239 | likewise a list |
| JsonPrinting.SimpleComesBack | stores/json/store.go:124-287 | every tree of strings, bools, floats, ints and nil, with comments as keys and in lists anywhere, is printed, and read back it has lost its comments and its ints are floats, and nothing else |
| JsonPrinting.JsonComesBack | stores/json/store.go:124-287 | without comments and ints it comes back as it was |
| TruncatedJson.ItemsBreakOff | stores/json/store.go:192-207 | an object that breaks off anywhere: it is returned with its complete items exactly when the input may end there |
| TruncatedJson.ElemsBreakOff | stores/json/store.go:124-149 | a list that breaks off is the end of the input exactly when the input may end there, and else another error |
| TruncatedJson.TruncationExactly | stores/json/store.go:124-207 | every proper prefix of every encoded tree is accepted if and only if it ends inside a list or behind a key and no open object stands directly inside another, and then gives the items that are complete in it |
| Dotenv.LoadPlainFile | stores/dotenv/store.go:46-73 | all lines but the empty ones become items, or one of them is invalid |
| Dotenv.LoadsExactly | stores/dotenv/store.go:50-68 | which lines are valid, and which key and value, or which comment, each of them is |
| Dotenv.EmitPlainFile | stores/dotenv/store.go:89-111 | one line for every item, or a value is complex |
| Dotenv.EscapesExactly | stores/dotenv/store.go:98-103 | newlines are written as a backslash and an n, and nothing else changes |
| Dotenv.ValueComesBack | stores/dotenv/store.go:66-103 | a value survives escaping and unescaping if and only if it holds no backslash before an n |
| Dotenv.EmitAfterLoad | stores/dotenv/store.go:46-111 | emitting what was loaded gives the text without its empty lines and with a final newline |
| Dotenv.LoadAfterEmit | stores/dotenv/store.go:46-111 | loading what was emitted gives the branch back if and only if every item is plain |
| MergedGroups.IdsAreInjective | config/config.go:388-388 | the identifier tells type and name |
| MergedGroups.DeduplicateKeygroup | config/config.go:383-399 | the loop with its map keeps exactly the keys whose identifier has not occurred before |
| MergedGroups.DeduplicatedKeepsFirst | config/config.go:383-399 | nothing repeats, nothing is lost, and what is left are the first occurrences, in order |
| MergedGroups.DeduplicatingEarly | config/config.go:401-451 | removing repeated keys from a part first makes no difference |
| MergedGroups.ExtractMasterKeys | config/config.go:401-451 | for any nesting, removing repeated keys at every level equals doing it once on all keys in visiting order; an error anywhere is an error |
| MergedGroups.OwnKeysJoin | config/config.go:410-449 | the entries of a group are visited in their order and with all their keys |
| MergedGroups.VisitsExactly | config/config.go:401-449 | the keys visited are exactly those of the entries of the group and of all groups it merges, at any depth |
| MergedGroups.ExtractsExactly | config/config.go:401-451 | the result has exactly one key for every identifier that the group names at any depth, and no others |

## Left out

- Documents.DecryptTreeAcceptsEncryptTree: one direction, under `ReadableInside`, for every cipher that keeps the promise of the interface. `ExactRoundTrip.DecryptTreeAcceptsExactly` has both directions, for ciphers where no text but the empty one is its own ciphertext.
- Shamir.Split: where `rand.Read` fails, nothing is said about which bytes were drawn.
- Updates in place of trees: other headers of a slice that `Unset` shortens or `Set` extends, and the tree after a walk that ends with an error, which is walked in part.
- Backing arrays: only the removal loop of `rotate` is modelled on its backing array; elsewhere `append` makes a new sequence.
- Key objects: two places of the key groups do not hold the same object (`Apart`).
- nil and the empty slice are not told apart; so a data key and a part are never empty, and an empty metadata tree is outside `ExtractUndoesSerialize`.
- Nodes: the maps `subkeys` and `indices` of a node are one map from tokens, and the loop of `place` over the path is a recursion.
- The map of flattened keys is shared through an object; error messages are not modelled beyond what tells them apart.
- The panic of `equals` on byte slices, and NaN, which is not equal to itself: floats are reals, and their text is given.
- The values of the cipher: `Stash` treats strings and byte slices alike but for their type; the hash is the sequence of its bytes, so that equal hashes mean equal input.
- A regular expression that does not compile matches nothing, as in the source, where the error is dropped.
- The characters of JSON: `json.Decoder` is its tokens, and input that breaks off inside a token is an error of that decoder.
- The width of `int` in the JSON store, where large numbers lose precision as floats.
- `mapstructure` and the conversion between the metadata tree and `sops.Metadata`, with `sopsToGo` and `goToSops`.
- Context cancellation, logging, audit events, and the value-receiver variants of `GenerateDataKey` and `GetDataKey`.
- The key providers, the gRPC key service, the YAML, INI, binary and protowire stores, the CLI, and publishing.
- `EmitAsMap` and the lookups of creation rules in the configuration.
