# Verified models of the RAG pipeline's stateful cores

Dafny models of seven components of the pipeline, each with proofs of what it promises. Run
`dafny verify dfyconfig.toml` to check everything. Primitives that come from elsewhere (SHA-256, AES-GCM, HKDF,
base64, the square root, number rounding, vector serialisation) are arbitrary functions; where a proof needs a law of
one, the law is a stated hypothesis (`Lawful`, `RefusesColons`, `IsSqrt`). Randomness, clocks and replies of foreign
services are parameters.

- **Audit chain** (`AuditText`, `AuditChain`). Text is a sequence of UTF-16 code units, escaped to ASCII as in section 7
  of RFC 8259. The digest text determines all eleven hashed fields. The logger links each entry to the hash it
  remembers, the repository walks rows in time order, and acceptance is shown to be linkage. The tamper theorem makes
  no assumption about the digest: two accepted walks that end alike agree on everything hashed, or the lemma returns a
  record of the one and a record of the other that differ and have one digest, and `TextCollision` turns these into two
  different texts with one SHA-256. (A digest of fixed length always has some collision; the theorems are about one
  among the records at hand.) Two consequences describe the code rather than its documentation: a failed persist breaks the chain for
  everything stored after it, and the tenant-scoped walk accepts a tenant's rows only while no other tenant's entry
  precedes one of them.
- **JSON Schema to TypeScript** (`TsTypes`, `SchemaToTs`, `SchemaMeaning`, `SchemaExact`, `SchemaLimits`, `Emitter`,
  `InterfaceText`, `Documents`). The printed text is parsed by a recursive-descent parser for the fragment of TypeScript's type grammar
  that the generator uses, where postfix `[]` binds tighter than `&` and `&` tighter than `|`. For every schema with
  proper reference names the parse is given exactly, regrouping included. Both sides have a value semantics, and the
  parse contains every accepted value for every faithful schema, and nothing more for exact ones. `Faithful` asks nothing of `allOf`: regrouping around
  `&` only ever adds values. Whole outputs are read back too, element by element of the emitted line list, into the
  interfaces they declare, and these contain what the models accept, through recursive references. Keywords that only
  narrow a schema (formats, enumerations, bounds) are not modelled, so the accepted sets are upper bounds and the
  inclusion covers the narrowed schemas as well. Typing is structural: strings and arrays have a length.
- **Tokens** (`Tokens`, `TokenRuns`, `TokenSafety`). A state machine over one monotone clock in nanoseconds, with whole
  seconds in claims. A token is accepted only while now < exp + leeway (section 4.1.4 of RFC 7519); a configuration flag
  adds the grace of a verifier that also accepts during the second after. Only tokens the handler issued verify, but
  `revoke_token` decodes claims without checking a signature, so a step may revoke any claims. Taking a block back early
  by such a call is the one way besides lifting it that a strict verifier loses finality and rotation; the exact
  conditions are stated run by run, and passing only verified tokens to `revoke_token` is shown to be enough. Each public
  call is one atomic step and fresh identifiers are parameters.
- **Keys and field encryption** (`KeyManagement`, `FieldEncryption`, `CompactForm`). Key rotation, the derived-key cache,
  re-encryption, and the compact text form.
- **Qdrant values** (`QdrantValue`). The two tree walks between JSON and Qdrant values.
- **Cache** (`CacheKeys`, `CacheClients`, `EmbeddingCaching`). Key printing and parsing (tenants in the hyphenated form of
  section 4 of RFC 9562), the embedding cache as a map kept in a flat store, batches, and cursor-driven bulk deletion.
- **Arithmetic** (`Retry`, `EmbeddingGeometry`). Backoff in wrapping 64-bit arithmetic and the attempt loop; vectors over
  exact reals.

`Strings`, `Decimal` and `Wrappers` are shared helpers.

Classes follow the objects that update their fields (`AuditRepository`, `AuditLogger`, `Generator`, `InMemoryBlocklist`,
`JwtHandler`, `KeyManager`, `FieldEncryptor`, `CacheClient`, `EmbeddingCache`). Each method's contract gives its whole
new state as a function of the old one, and the theorems about runs are lemmas about those functions.

## Model

| member | source | states |
|---|---|---|
| AuditText.EscapeUnique | services/orchestrator/audit/models.py:227-228 | a quoted string ends where its text ends, whatever follows, so strings in the digest text cannot run into their surroundings |
| AuditText.ScalarUnique | services/orchestrator/audit/models.py:213-228 | null, numbers and quoted strings never collide in the digest text |
| AuditText.HashTextInjective | services/orchestrator/audit/models.py:213-229 | the sorted-key JSON text determines all eleven hashed fields |
| AuditText.SortedMembersSame | services/orchestrator/audit/models.py:213-228 | the printed members are exactly the record's own |
| AuditText.SortedKeysAscend | services/orchestrator/audit/models.py:228 | the printed members are in ascending key order |
| AuditChain.HashedIff | services/orchestrator/audit/models.py:213-225 | what is hashed of two entries is the same exactly when their ten covered fields and previous hashes are |
| AuditChain.HashedMembers | services/orchestrator/audit/models.py:213-225 | each covered field stands in the digest text under its own key |
| AuditChain.TextCollision | services/orchestrator/audit/models.py:227-229 | a collision of hashed records is a collision of two different texts under SHA-256 |
| AuditChain.AuditRepository.Create | services/orchestrator/audit/repository.py:65-117 | storing an entry appends it and returns it unchanged |
| AuditChain.ValidateHashChain | services/orchestrator/audit/repository.py:391-408 | accepts exactly the linked walks; a rejection names the first entry at which linkage fails, as a broken chain when the previous hash is wrong and as a mismatch otherwise |
| AuditChain.TimeOrderUnique | services/orchestrator/audit/repository.py:386-392 | with strictly increasing timestamps the ordered query can only return the table in insertion order |
| AuditChain.TamperEvidence | services/orchestrator/audit/repository.py:391-408 | two non-empty accepted stores ending in one entry hash have equal length and agree on every hashed field and hash everywhere, or a record of the one and a record of the other are returned that collide |
| AuditChain.EditRejected | services/orchestrator/audit/repository.py:391-408 | an accepted chain with any covered field of one entry edited is rejected, even with that entry's hash computed anew unless it is the last, or the old and the new record collide |
| AuditChain.ExtraNotCovered | services/orchestrator/audit/models.py:213-225 | acceptance depends on the hashed fields and the two hashes alone; rewriting any other field is never noticed |
| AuditChain.LateStartRejected | services/orchestrator/audit/repository.py:386-400 | a walk started at a later entry of an accepted chain is always rejected |
| AuditChain.TenantViewIs | services/orchestrator/api/routes/audit.py:418-426 | a tenant's view has each of the tenant's rows as often as it occurs and no other |
| AuditChain.TenantViewAppend | services/orchestrator/api/routes/audit.py:418-426 | and keeps their order |
| AuditChain.TenantWalkIffPrefix | services/orchestrator/api/routes/audit.py:418-465 | the walk over at most `limit` rows of one tenant of an accepted chain accepts exactly when these rows are a prefix of the chain, or two records of the chain are returned that collide |
| AuditChain.AuditLogger.Log | services/orchestrator/audit/logger.py:182-242 | the entry keeps what was logged, is linked to the callback's answer or else the remembered non-empty hash, hashed, remembered even if persisting fails, and stored only if persisting succeeds |
| AuditChain.CompleteRun | services/orchestrator/audit/logger.py:182-242 | a run in which every persist succeeds stores a linked chain ending in the remembered hash |
| AuditChain.LoggedIs | services/orchestrator/audit/logger.py:182-219 | the entries the logger made are those of the same run with nothing failing, and whatever is stored is among them |
| AuditChain.AcceptedIffGapFree | services/orchestrator/audit/logger.py:182-240 | from an empty store with increasing timestamps, the first `limit` rows are accepted exactly when no failed persist precedes one of them, or the records of a stored entry and of one the logger made are returned, and collide |
| AuditChain.ReadingStoreAlwaysLinked | services/orchestrator/audit/repository.py:410-416 | with strictly increasing timestamps, a logger that asks the store for the hash of its latest entry leaves a linked store whatever fails |
| TsTypes.ParseTypePrinted | scripts/json-schema-to-ts.py:42-74 | under the precedence of `[]`, `&` and `\|`, every type is the parse of its own text, so printed text is unambiguous |
| SchemaToTs.LastSegmentIs | scripts/json-schema-to-ts.py:25-27 | a reference prints as what follows its last slash |
| SchemaToTs.ParsesToRegrouped | scripts/json-schema-to-ts.py:22-74 | for every schema with proper names and non-empty `allOf`, the printed text parses, and the parse is given in full, with every regrouping and dropped null |
| SchemaMeaning.MeaningPreserved | scripts/json-schema-to-ts.py:22-74 | the text of a faithful schema parses to a type containing every JSON value the schema accepts |
| SchemaMeaning.InMeetAll | scripts/json-schema-to-ts.py:48-50 | joining `allOf` parts with `&` loses no common value, even when a part prints as a bare union |
| SchemaMeaning.InBracketBare | scripts/json-schema-to-ts.py:62-65 | for items that print as neither union nor intersection, the text denotes exactly the arrays of them |
| SchemaExact.MeaningExact | scripts/json-schema-to-ts.py:22-74 | for schemas that say what they say by one keyword, without integers, the printed type contains exactly the accepted values |
| InterfaceText.OutputParses | scripts/json-schema-to-ts.py:103-144 | the generated lines, read as TypeScript declarations, declare in order the interfaces of the printed definitions, each name once, with descriptions as comments above interfaces and members |
| Documents.InterfaceCoversIff | scripts/json-schema-to-ts.py:103-117 | the interface read from a block contains every accepted value exactly when each accepted non-object is not null and has a fitting length for, or may lack, every listed property |
| Documents.ScopeCoversIff | scripts/json-schema-to-ts.py:77-144 | through recursive references, the declared types contain all that the definitions in scope accept exactly when all accepted values other than objects pass for one, at every depth of references |
| Documents.GeneratedMeaning | scripts/json-schema-to-ts.py:77-144 | the text generated for a document declares, for every model printed as it stands, an interface with all values its schema accepts, exactly when those other than objects pass for one |
| Documents.PlainMeaning | scripts/json-schema-to-ts.py:77-144 | objects, scalars, arrays, unions, intersections and bare references that rule out null always have this |
| Documents.CoherentMeaning | scripts/json-schema-to-ts.py:77-144 | the same equivalence for every model of a document that defines equal names alike |
| Documents.FirstDefinitionIff | scripts/json-schema-to-ts.py:90-99 | where a name is defined twice, the block of the first keeps the values of a scalar wrapper under the other definition exactly when both scalars print the same word |
| InterfaceText.FirstDefinitionPrinted | scripts/json-schema-to-ts.py:90-99 | in every document a name keeps the first block printed for it: later models only add blocks of other names |
| SchemaLimits.ScalarListExact | scripts/json-schema-to-ts.py:42-65 | a list whose items are a union of scalars keeps its meaning exactly when all the scalars print the same word |
| SchemaLimits.DroppedNullIff | scripts/json-schema-to-ts.py:32-46 | a scalar next to a variant that prints "null" without being declared null keeps its meaning exactly when that variant never accepts null |
| SchemaLimits.ListedPropertyIff | scripts/json-schema-to-ts.py:66-70 | a constrained record type with a listed scalar property keeps its meaning exactly when both print the same word |
| Emitter.Generator.SchemaToInterface | scripts/json-schema-to-ts.py:77-120 | appends the blocks of unseen definitions, then its own unless the name was taken, updating the shared set |
| Emitter.Generator.GenerateTypescript | scripts/json-schema-to-ts.py:123-144 | visits every model in order with one shared set |
| Emitter.ExactlyOneBlock | scripts/json-schema-to-ts.py:138-142 | over the run every emitted name has exactly one interface block, other names have none, and every model is emitted |
| Emitter.DefsBeforeBlock | scripts/json-schema-to-ts.py:89-96 | when a schema's block is appended, all its direct definitions have been emitted already |
| Emitter.AllNamesEmitted | scripts/json-schema-to-ts.py:89-101 | every name at any depth is emitted if definitions below the top level bring along nothing that others of their name do not, except names of models and of their direct definitions |
| Emitter.FlatAllEmitted | scripts/json-schema-to-ts.py:89-101 | a document whose definitions nest no further, as Pydantic writes it, always has every name emitted |
| Emitter.SkippedDefIff | scripts/json-schema-to-ts.py:90-92 | where a definition whose own names are all emitted by that condition stands in for another of its name, every name is emitted exactly when the other brings along no further one |
| Tokens.InMemoryBlocklist.Block | crates/rag-auth/src/blocklist.rs:53-58 | a block lasts until now plus its time to live, or for ever without one, replacing any earlier block |
| Tokens.InMemoryBlocklist.IsBlocked | crates/rag-auth/src/blocklist.rs:60-67 | blocked means present and not yet ended |
| Tokens.InMemoryBlocklist.Unblock | crates/rag-auth/src/blocklist.rs:69-73 | removes the block, and nothing else |
| Tokens.InMemoryBlocklist.Cleanup | crates/rag-auth/src/blocklist.rs:44-48 | removes ended blocks and changes no answer |
| Tokens.JwtHandler.CreateToken | crates/rag-auth/src/handler.rs:153-178 | mints claims with issuer, audience, whole-second times and a fresh identifier, keeping the rest |
| Tokens.JwtHandler.CreateAccessToken | crates/rag-auth/src/handler.rs:115-122 | an access token lives for the access duration |
| Tokens.JwtHandler.CreateRefreshToken | crates/rag-auth/src/handler.rs:124-135 | a refresh token lives for the refresh duration |
| Tokens.JwtHandler.CreateTokenPair | crates/rag-auth/src/handler.rs:141-151 | a pair holds one of each, for the same subject and rights |
| Tokens.JwtHandler.VerifyTokenAsync | crates/rag-auth/src/handler.rs:185-249 | accepts a token exactly when its expiry is present and not over if checked, issuer, audience if checked and kind are the expected ones, and it is not blocked; otherwise gives the first reason |
| Tokens.JwtHandler.RevokeToken | crates/rag-auth/src/handler.rs:362-402 | blocks the identifier for the remaining whole seconds, for ever without an expiry, or not at all once expired, and says whether it is done |
| Tokens.JwtHandler.RefreshTokens | crates/rag-auth/src/handler.rs:437-452 | on a valid refresh token gives an access and a refresh token with its subject, tenant, roles, groups and permissions, and revokes it where there is a blocklist; otherwise changes nothing |
| TokenRuns.StepMeans | crates/rag-auth/src/handler.rs:141-452 | what each step of a run issues, blocks, spends and leaves alone |
| TokenRuns.RevokeKills | crates/rag-auth/src/handler.rs:384-401 | a revocation reported done leaves the token expired or blocked beyond its expiry, despite sub-second block times and whatever was blocked before |
| TokenRuns.DeadForever | crates/rag-auth/src/handler.rs:362-402 | a step brings such a token back exactly when it lifts the block or revokes claims of the same identifier with a nearer expiry still ahead |
| TokenRuns.DeadIff | crates/rag-auth/src/handler.rs:234-249 | for a strict verifier such tokens are exactly those that waiting does not bring back |
| TokenSafety.RevocationHoldsIff | crates/rag-auth/src/handler.rs:362-402 | for a strict verifier, in any run a revoked token stays out for good exactly when no later step takes its block back early |
| TokenSafety.RevocationFinalIff | crates/rag-auth/src/handler.rs:234-402 | in all runs without such a step revoked tokens are rejected, exactly when expiry is checked with neither leeway nor grace |
| TokenSafety.GuardedRevocationFinal | crates/rag-auth/src/handler.rs:362-402 | callers that revoke only verified tokens take no such step: a strict verifier then rejects every revoked token for good |
| TokenSafety.UnverifiedRevocationRevives | crates/rag-auth/src/handler.rs:373-401 | otherwise any verifier fails, in every reachable state: revoking unsigned claims with the identifier of a revoked token and a nearer expiry succeeds, and a second later the token is accepted |
| TokenSafety.RevivedOnlyInLeeway | crates/rag-auth/src/handler.rs:185-249 | under any configuration a token whose block is not taken back early can be accepted only from its expiry on, and with expiry checked only until leeway and grace are over |
| TokenSafety.RotationHoldsFromStartIff | crates/rag-auth/src/handler.rs:437-452 | for a strict verifier, spent refresh tokens stay out throughout a run exactly when no step takes the block of a spent one back early |
| TokenSafety.RotationSafeIff | crates/rag-auth/src/handler.rs:437-452 | in all runs without such a step there is at most one live refresh token per login and one pair per refresh token, exactly when expiry is checked with neither leeway nor grace |
| TokenSafety.GuardedRotationSafe | crates/rag-auth/src/handler.rs:437-452 | callers that revoke only verified tokens keep this with a strict verifier |
| TokenSafety.UnverifiedRevocationRespends | crates/rag-auth/src/handler.rs:373-452 | likewise a refresh token that lives on then yields two pairs |
| TokenSafety.GraceIsLeeway | crates/rag-auth/src/handler.rs:209-212 | a verifier that accepts at the moment of expiry is one with a second more of leeway, and never has either property |
| TokenRuns.IdentityPreserved | crates/rag-auth/src/handler.rs:445-451 | every token of a family has its login's subject, tenant, roles, groups and permissions |
| KeyManagement.KeyManager.GetKeyVersion | crates/rag-encryption/src/key_management.rs:107-115 | finds the key of the given version or says there is none |
| KeyManagement.KeyManager.AddKeyVersion | crates/rag-encryption/src/key_management.rs:132-143 | binds one version and changes nothing else |
| KeyManagement.KeyManager.ListVersions | crates/rag-encryption/src/key_management.rs:233-241 | all known versions, each once, in ascending order |
| KeyManagement.KeyManager.DeriveKey | crates/rag-encryption/src/key_management.rs:151-194 | answers with the cached key of the current version and purpose, or else derives one with the configured or default salt and caches it |
| KeyManagement.KeyManager.RotateKey | crates/rag-encryption/src/key_management.rs:202-226 | a 32-byte key becomes current under its version beside all the others and the cache is cleared; any other key changes nothing |
| KeyManagement.CacheKeyInjective | crates/rag-encryption/src/key_management.rs:153 | version and purpose are determined by the cache key |
| KeyManagement.RebindFreshIff | crates/rag-encryption/src/key_management.rs:132-162 | after the current version gets other bytes, an answer is fresh exactly when it was not cached or both keys derive alike |
| FieldEncryption.DerivedKeysAgree | crates/rag-encryption/src/key_management.rs:151-226 | in every run without such rebinding a derived key is what direct derivation gives, cached or not |
| FieldEncryption.FieldEncryptor.Encrypt | crates/rag-encryption/src/encryptor.rs:114-150 | the value carries the current key's version and id, and its text the given nonce followed by the sealing of the plaintext under that key and nonce |
| FieldEncryption.FieldEncryptor.DecryptValue | crates/rag-encryption/src/encryptor.rs:169-201 | opens under the key of the value's own version, with each way to fail told apart |
| FieldEncryption.FieldEncryptor.DecryptText | crates/rag-encryption/src/encryptor.rs:208-211 | decrypts what the compact text reads as |
| FieldEncryption.RotationTakesOver | crates/rag-encryption/src/key_management.rs:202-226 | after a rotation encryption uses the new version and id, and exactly values of other versions are due for re-encryption, which moves them there |
| FieldEncryption.NoncesShow | crates/rag-encryption/src/encryptor.rs:117-142 | encryptions with different nonces have different ciphertexts |
| FieldEncryption.NoncesNeverReused | crates/rag-encryption/src/encryptor.rs:114-228 | in every run with fresh nonces, produced values that differ carry different nonces and ciphertexts |
| FieldEncryption.StepMeans | crates/rag-encryption/src/encryptor.rs:114-228 | what each operation of a run records, and how keys and current version change |
| FieldEncryption.FieldEncryptor.ReencryptValue | crates/rag-encryption/src/encryptor.rs:221-228 | a value at the current version is returned, any other is decrypted and encrypted anew |
| FieldEncryption.SealedDecrypts | crates/rag-encryption/src/encryptor.rs:169-201 | what was sealed under a known version decrypts to its plaintext |
| FieldEncryption.ReencryptKeeps | crates/rag-encryption/src/encryptor.rs:221-240 | re-encryption keeps the plaintext, ends at the current version, and returns a current value as it is |
| FieldEncryption.RotationKeepsData | crates/rag-encryption/src/encryptor.rs:114-228 | in every run that rebinds no version, every ciphertext ever produced decrypts to its plaintext and encryption never fails |
| FieldEncryption.TextKeepsDataIff | crates/rag-encryption/src/encryptor.rs:203-211 | in such a run a ciphertext stored in compact form decrypts from its text exactly when its key id holds no colon |
| FieldEncryption.CurrentKeyFound | crates/rag-encryption/src/key_management.rs:107-124 | the current key is found after every run, whatever is rebound |
| CompactForm.RoundTripIff | crates/rag-encryption/src/encryptor.rs:40-71 | writing and reading back gives the same value exactly when key id and algorithm hold no colon |
| CompactForm.CompactPieces | crates/rag-encryption/src/encryptor.rs:66-71 | the pieces of the text between its first three colons |
| CompactForm.RefusalIff | crates/rag-encryption/src/encryptor.rs:40-63 | a text is refused exactly for too few colons, a wrong first letter, or a version that is no 32-bit number |
| CompactForm.NormalForm | crates/rag-encryption/src/encryptor.rs:40-71 | an accepted text reprints to a form with the same value, which is the text itself exactly when the version has no plus sign or leading zero |
| QdrantValue.PayloadToQdrant | crates/rag-vectorstore/src/client.rs:442-455 | the payload stands for an object key by key, and is empty for other values |
| QdrantValue.ConvertsIff | crates/rag-vectorstore/src/client.rs:457-508 | conversion finds the one Qdrant value that stands for the JSON value, kind by kind, element by element and key by key |
| QdrantValue.RoundTripIff | crates/rag-vectorstore/src/client.rs:457-538 | JSON to Qdrant and back always yields a value, the same one exactly when every integer at any depth fits 64 signed bits |
| QdrantValue.PayloadRoundTripIff | crates/rag-vectorstore/src/client.rs:442-508 | a payload comes back with all its keys, and unchanged exactly under that condition |
| QdrantValue.ForthIsPrune | crates/rag-vectorstore/src/client.rs:457-538 | Qdrant to JSON and back drops kind-less and non-finite leaves and normalises nulls, and nothing else |
| QdrantValue.PruneIdempotent | crates/rag-vectorstore/src/client.rs:511-538 | doing so twice is doing so once |
| CacheKeys.ParseTenantText | crates/rag-types/src/ids.rs:48-69 | a tenant's hyphenated text reads back as the tenant |
| CacheKeys.OtherTenantForms | crates/rag-types/src/ids.rs:48-69 | so do its digits alone, in either case, and its hyphenated form in braces |
| CacheKeys.PrintedPieces | crates/rag-cache/src/keys.rs:197-205 | service, type and tenant stand before the first three colons and the identifier after them |
| CacheKeys.RefusalIff | crates/rag-cache/src/keys.rs:152-205 | a text is refused exactly for too few colons or the first field that is not known |
| CacheKeys.ParsePrint | crates/rag-cache/src/keys.rs:152-205 | every printed key parses to itself, with empty or colon-bearing identifiers too |
| CacheKeys.PrintInjective | crates/rag-cache/src/keys.rs:139-205 | different keys print differently under any fixed prefix |
| CacheKeys.NormalForm | crates/rag-cache/src/keys.rs:152-205 | an accepted text is its key's printed form exactly when its tenant is written hyphenated in lower case |
| CacheClients.CacheClient.ScanDelete | crates/rag-cache/src/client.rs:298-328 | removes exactly the keys on the pages and returns how many of them existed, despite repeats and empty pages |
| CacheClients.BulkDeleteIff | crates/rag-cache/src/client.rs:298-328 | exactly the matching keys are removed if and only if the pages cover them, and the result is then their number at the start |
| EmbeddingCaching.EmbeddingCache.Get | crates/rag-cache/src/embedding.rs:44-58 | looking up by content is looking up by its hash |
| EmbeddingCaching.EmbeddingCache.GetByHash | crates/rag-cache/src/embedding.rs:60-68 | reads what is stored under the prefixed key of service, tenant and hash, with failed reads told apart |
| EmbeddingCaching.EmbeddingCache.SetByHash | crates/rag-cache/src/embedding.rs:96-110 | writes under that key and nowhere else |
| EmbeddingCaching.EmbeddingCache.GetMany | crates/rag-cache/src/embedding.rs:117-150 | returns exactly what separate lookups would, and fails exactly when one of them would |
| EmbeddingCaching.EmbeddingCache.SetMany | crates/rag-cache/src/embedding.rs:156-179 | a batch write is the sequence of its single writes |
| EmbeddingCaching.EmbeddingCache.Delete | crates/rag-cache/src/embedding.rs:183-186 | removes one entry and says whether it was there |
| EmbeddingCaching.GetRefines | crates/rag-cache/src/embedding.rs:44-68 | lookups read the map the store represents: its vector if all components are finite, a failure otherwise |
| EmbeddingCaching.LawfulExists | crates/rag-cache/src/embedding.rs:44-68 | the law assumed of the text form, finite vectors come back and others do not, is met by some text form |
| EmbeddingCaching.SetAllRefines | crates/rag-cache/src/embedding.rs:76-179 | writes update that map and nothing else |
| EmbeddingCaching.DeleteRefines | crates/rag-cache/src/embedding.rs:183-186 | deletion removes one key of that map and nothing else |
| EmbeddingCaching.LastWriteWins | crates/rag-cache/src/embedding.rs:156-179 | of duplicate contents in a batch the last decides what is read, and its vector comes back exactly when all its components are finite |
| EmbeddingCaching.TenantIsolation | crates/rag-cache/src/embedding.rs:76-179 | no write for one tenant changes what another tenant reads |
| EmbeddingCaching.OtherTypesUntouched | crates/rag-cache/src/client.rs:102-147 | keys of other types never touch an embedding |
| Retry.Execute | crates/rag-config/src/retry.rs:78-115 | makes 1 to max_retries + 1 calls, stopping at the first success or non-retryable error, returns the last call's outcome, and never reaches the final expect |
| Retry.StopUnique | crates/rag-config/src/retry.rs:88-114 | the outcomes determine the call at which it stops |
| Retry.WaitWithinQuarterIff | crates/rag-config/src/retry.rs:53-71 | for every clock reading the wait is within a quarter of min(base 2^min(attempt, 10), cap) exactly when that plus its quarter fits a signed 64-bit number |
| Retry.WaitExact | crates/rag-config/src/retry.rs:53-71 | in that case the wait is the lower end plus the clock reading modulo the width of the window |
| Retry.TotalSleepBound | crates/rag-config/src/retry.rs:53-115 | total sleep is at most five quarters of the cap per wait, and of base times 2^n - 1 while doubling lasts |
| EmbeddingGeometry.DotProduct | crates/rag-types/src/embedding.rs:99-131 | the accumulating loop computes the sum of products |
| EmbeddingGeometry.EuclideanDistance | crates/rag-types/src/embedding.rs:139-153 | the accumulating loop computes the root of the squared distance |
| EmbeddingGeometry.Normalize | crates/rag-types/src/embedding.rs:74-82 | divides in place by the norm when it exceeds the guard |
| EmbeddingGeometry.DotAppend | crates/rag-types/src/embedding.rs:119-131 | every component counts once, multiplied by its own counterpart |
| EmbeddingGeometry.DistanceAppend | crates/rag-types/src/embedding.rs:139-153 | every difference counts once, squared |
| EmbeddingGeometry.CauchySchwarz | crates/rag-types/src/embedding.rs:119-131 | the squared dot product is at most the product of the squared norms |
| EmbeddingGeometry.UnitCosineBounded | crates/rag-types/src/embedding.rs:99-111 | unit embeddings have cosine between -1 and 1 |
| EmbeddingGeometry.DistanceReversesCosine | crates/rag-types/src/embedding.rs:99-153 | for unit embeddings squared distance is 2 - 2 cosine, so distance order reverses cosine order |
| EmbeddingGeometry.NormalizeUnit | crates/rag-types/src/embedding.rs:74-82 | normalising gives a unit vector of the same direction above the guard, changes nothing below it, and is idempotent |

## Left out

- SchemaMeaning.MeaningPreserved: inclusion from `Faithful` is proved in one direction; deciding inclusion for arbitrary unfaithful schemas is a tree-language question (a union with `unknown` in it is harmless, for instance), so the exact condition is given for a family of schemas around each guard (`ScalarListExact`, `DroppedNullIff`, `ListedPropertyIff`).
- Emitter.AllNamesEmitted: the condition is sufficient. Whether a definition is visited depends on which of the earlier ones were, alternately up to the start of the document, so no condition short of replaying the traversal is exact for every document; it is exact where one definition stands in for another (`SkippedDefIff`), and flat documents need none.
- Documents.GeneratedMeaning: that properties are faithful and definitions in scope are printed as they stand is sufficient, not necessary; a differing definition may happen to accept no more.
- Documents.InterfaceCoversIff: methods that values inherit (such as `toString`) are not counted as properties of theirs.
- InterfaceText.OutputParses: property names that would need quotes and descriptions that contain a comment's end are outside its hypotheses; such output is not TypeScript.
- AuditChain.TenantWalkIffPrefix: the route documents limits up to 10000 but builds a query that refuses more than 1000, so larger limits end in a validation error that is not modelled; the tenant's rows are taken to come in time order.
- AuditChain.ReadingStoreAlwaysLinked: with equal timestamps the store may answer with either entry, and nothing is claimed.
- AuditChain.ValidateHashChain: turning a stored row back into an entry fails on values outside the enumerations; rows are taken as already converted, and the query's ordering and limit are described by `IsFetch`.
- Tokens.JwtHandler.VerifyTokenAsync: signatures, key loading and the not-before claim are outside the model; only tokens the handler issued are taken to verify.
- TokenSafety.UnverifiedRevocationRevives: shown for tokens with at least two seconds left; the run-by-run conditions cover all others.
- Tokens.JwtHandler.CreateToken: durations beyond the date library's range are not modelled.
- Retry.WaitWithinQuarterIff: signed arithmetic wraps as in release builds; a build with overflow checks panics where the model wraps.
- EmbeddingGeometry.NormalizeUnit: rounding of 32-bit floats is not covered.
- EmbeddingCaching.EmbeddingCache.GetMany: expiry of entries, connection errors and concurrent writers are not modelled.
- Python text with unpaired surrogates is not distinguished from the code units it would pair up to; validation rejects such text before it reaches an entry.
- The export script's chain check hashes other fields and is a different chain.
- Service tokens, the Redis blocklist, JWKS and identity-provider settings.
- Query cache keys, whose digest input joins query and filters without a separator.
- Model routing, timeouts, configuration builders, database access, logging, metrics, command-line tools and the frontend.
