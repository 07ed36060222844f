# Verified core of go-dev-auth

A Dafny model of the parts of go-dev-auth whose correctness cannot be read off one function body:
the in-place scrypt, the in-memory adapter with its unique index, the SQL where-clause compiler, the
CBOR and WebAuthn parsers, the keyring and the live re-encryption pass, one-time tokens and two-factor
challenges under concurrency, and the clock-driven caches. Each piece is proved against an independent
reference: the recursive definitions of RFC 7914 and RFC 2898, a plain list of rows, the left fold of
`storage.Matches`, the encodings of RFC 8949, the set of texts a keyring wrote, the trace of atomic
storage calls. `dafny verify dfyconfig.toml` checks everything.

## How it is laid out

Most components come as two files: the reference and its laws on values (`...Spec`, `...Laws`), and the
code (classes and methods over fields, arrays and heap objects) proved to do what the reference says.

- scrypt: `ScryptSpec` (sections 3 to 6 of RFC 7914, section 5.2 of RFC 2898), `BlockMixing`, `Smix` and
  `Scrypt` (arrays, swapped halves, even/odd scatter, stale scratch). `Bits` and `Splices` hold the
  arithmetic of masks and of overlapping writes.
- storage: `Storage` (values, comparisons, `Matches`), `MemorySpec` (the operations on plain tables, and unique
  values), `MemoryLaws` (what each does to the rows, and one after another), `MemoryTuples` (composite
  constraints) and `Memory` (record objects shared by table and index, and
  transactions on a private copy).
- SQL: `SqlLike`, `Timestamps` (instants as text, over the calendar), `SqlWhere` (token text, a parser with SQL
  precedence, three-valued evaluation), `SqlMeaning`, `SqlUpdate` (what an engine does with an UPDATE),
  `SqlStore` (the loops that build text and arguments).
- passkeys: `CborSpec`, `CborProofs`, `CborLaws`, `Cbor` (the cursor), `WebAuthn`.
- encryption at rest: `Keyring`, `ReencryptSpec`, `Reencrypt`.
- tokens: `TokenSpec` and `Tokens`; `PendingSpec` and `Pending` (one two-factor challenge); `BackupSpec` and
  `BackupCodes` (one twoFactor row).
- clocks: `Sessions`, `CookieCache`, `RateLimit`, `JwksSpec` and `Jwks`.
- `Octets` and `Decimals`: numbers as big-endian octets and in decimal, shared by the others.

Concurrency is modelled the same way everywhere. Every storage call (or locked section) is one atomic
event, guarded by what the protocol allows. Theorems quantify over all sequences of allowed events. The code
runs on a class that, before each of its own calls, lets the rest of the system perform any allowed
events that are not its own; its `Valid()` says that its state is what the whole trace makes of the
starting state, so every theorem about traces applies to every run of the code.

## What enters as a parameter

Salsa20/8 and 32-bit xor, the PRF and its size, lower-casing (Go's and the SQL engine's), JSON marshalling, the
P-256 point check, the key id derived from a secret, the provider's answer to a fetch, clock readings,
and which storage calls fail. Authenticated encryption is ideal: a sealed box is a value that opens
under the key and additional data it was sealed with and nothing else.

## Side conditions

They are the ones the code relies on: ids are strings and unique columns strings or nothing; operands of a
where clause have the column's type, integers lie within 2^53, instants that SQLite stores as text in the
years 0 to 9999, and no clause falls in the one gap between SQL and `Matches` (stated exactly by
`SqlMeaning.ClauseMeaning`); on the texts a substring search meets, the engine's LOWER and Go's lowering
agree; key ids in a ring are distinct; other writers of an encrypted column write under the current key;
user ids hold no `|` (what happens otherwise is `PendingSpec.BarHidesCount`); a key is always rate-limited
under one window; 1s <= UpdateAge < ExpiresIn. Inside a transaction, bulk updates keep unique values apart
(which ones do is `MemorySpec.BulkUpdateExactly`).

## Where a comment promises more

The model follows the code; these lemmas say what is true instead.

- `storage/memory/memory.go:1-3` says unique fields are enforced. A bulk update neither checks nor refuses:
  `MemorySpec.BulkUpdateExactly` and `MemoryTuples.BulkTuplesExactly` say which ones leave the table right.
- `storage/sqlstore/sqlstore.go:71-72` says timestamps as text sort as they do in time. They do for years of
  four digits (`Timestamps.LayoutOrder`) and not from the year 10000 on (`Timestamps.FiveDigitsSortFirst`).
- `storage/sqlstore/sqlstore.go:401-404` says lowering on both sides makes all backends behave alike. The two
  sides are lowered by two programs, which must agree (`SqlMeaning.LoweringMatters`).
- `storage/sqlstore/sqlstore.go:356-359` aims at adapters that agree on nil. They still differ on a NULL column
  under a non-nil `Ne` (`SqlMeaning.ClauseMeaning`).
- `token.go:43-48` says storing anew removes any previous record. A store that lands between the delete and
  the create stays (`TokenSpec.StoreReplaces`, `TokenSpec.OverlappingStoresLeaveTwo`).

## Model

| member | source | states |
|---|---|---|
| Bits.MaskIsMod | crypto/scrypt.go:204-210 | masking with N-1 is the remainder modulo N for every power of two |
| Bits.PowerOfTwoTest | crypto/scrypt.go:44 | N & (N-1) is zero exactly for the powers of two |
| ScryptSpec.WordsRoundTrip | crypto/scrypt.go:194-197 | words written as little-endian octets read back as the same words |
| BlockMixing.BlockXor | crypto/scrypt.go:68-72 | one range of the destination becomes its xor with the source, nothing else changes |
| BlockMixing.BlockMix | crypto/scrypt.go:175-181 | scattering even and odd results directly yields scryptBlockMix of section 4 of RFC 7914 in the other half, the rest of the buffer unchanged |
| Smix.LowWordsDecide | crypto/scrypt.go:183-186 | the two words that are read decide Integerify of the whole block modulo N, as section 5 of RFC 7914 defines it |
| Smix.PickSlot | crypto/scrypt.go:205 | the slot the masked integer picks is Integerify(X) mod N |
| Smix.RunsAreSpec | crypto/scrypt.go:198-212 | the two loops' runs of blocks are the iterates of the recursive definition |
| Smix.Fill | crypto/scrypt.go:198-203 | two steps at a time with x and y swapping roles, v ends up holding V[0..N-1] and x the N-th iterate |
| Smix.Mix | crypto/scrypt.go:204-212 | the second loop ends with scryptROMix's X in the first half |
| Smix.SMix | crypto/scrypt.go:188-219 | the segment becomes scryptROMix of what it held, for every N a power of two >= 2 and r >= 1, whatever v and xy held; no other byte changes |
| Scrypt.Block | crypto/scrypt.go:232-250 | a block of dk becomes U1 xor ... xor Uc, for every iteration count |
| Scrypt.PBKDF2 | crypto/scrypt.go:223-253 | the first keyLen octets of T1, T2, ... of section 5.2 of RFC 2898 |
| Scrypt.TooBigExactly | crypto/scrypt.go:50 | the quotient tests, with their 64-bit product, pass exactly when 128*r*p and 128*N*r fit 31 bits |
| Scrypt.Scratch.Buffers | crypto/scrypt.go:27-35 | buffers are long enough and distinct, old or fresh |
| Scrypt.MixAll | crypto/scrypt.go:57-59 | each of the p segments is mixed as if alone |
| Scrypt.ScryptWith | crypto/scrypt.go:43-62 | a key is returned exactly for the allowed parameters, and it is section 6 of RFC 7914, whatever an earlier call left in the scratch |
| Storage.EvalMatches | storage/storage.go:350-374 | the loop computes the left fold with no precedence between connectors |
| Storage.StrOrder | storage/compare.go:59-72 | the string order is total and irreflexive |
| Storage.StrTransitive | storage/compare.go:59-72 | and transitive |
| Storage.SmallIntsExact | storage/compare.go:44-58 | comparing through float64 is exact up to 2^53 |
| Storage.LargeIntsCollide | storage/compare.go:76-90 | and two different integers beyond it compare equal |
| MemorySpec.ApplyKeepsDbOk | storage/memory/memory.go:316-492 | every operation keeps ids typed and unique values apart, a bulk update if and only if it fits |
| MemorySpec.BulkUpdateExactly | storage/memory/memory.go:424-453 | a bulk update keeps unique values apart if and only if it sets no unique column to a value, or meets at most one row and gives it no value another row has |
| MemoryTuples.BulkTuplesExactly | storage/memory/memory.go:424-453 | it keeps composite tuples apart if and only if no row it meets comes to agree with another on a constraint, the other being met too or already holding what is set |
| MemoryTuples.ApplyKeepsTuples | storage/memory/memory.go:199-235 | every operation keeps complete composite tuples apart, a bulk update if and only if it fits in that sense |
| MemoryLaws.DefaultsFill | storage/storage.go:111-124 | what is supplied is kept; an absent column gets its first declared default, and nothing else is added |
| MemoryLaws.FilledOneWay | storage/storage.go:111-124 | and that leaves one possible row |
| MemoryLaws.CreatedIsFound | storage/memory/memory.go:316-354 | a row created is what a search by any unique column it holds a text in then finds |
| MemoryLaws.UpdatedIsFound | storage/memory/memory.go:335-422 | so is a row updated, as updated |
| MemoryLaws.DeletedIsGone | storage/memory/memory.go:335-471 | after a delete by a unique column the same search finds nothing |
| MemoryLaws.AllDeletedAreGone | storage/memory/memory.go:473-513 | after a bulk delete nothing of the kind is left to find or to count |
| MemoryLaws.TwinValueIsRefused | storage/memory/memory.go:178-190 | a row sharing a text in a unique column with one that is there is refused |
| MemoryLaws.TwinTupleIsRefused | storage/memory/memory.go:199-235 | so is one holding what another holds in all columns of a composite constraint |
| MemoryLaws.UndeclaredIsRefused | storage/memory/memory.go:246-314 | a column not declared is refused by every operation, wherever it is named, and nothing changes |
| MemoryLaws.OtherTablesAlone | storage/memory/memory.go:316-513 | no operation touches another table |
| MemoryLaws.PoliteTalks | storage/memory/memory.go:524-554 | a client that keeps to the rules has a conversation with plain tables that ends within its limit |
| MemoryLaws.RunFollows | storage/memory/memory.go:524-554 | and every conversation it can have is the one its run follows, call by call |
| Memory.IndexFindsFirst | storage/memory/memory.go:144-173 | the index entry of a value is the row a full scan would meet first |
| Memory.Adapter.AddToIndex | storage/memory/memory.go:110-118 | exactly the record's indexable unique values gain it as holder |
| Memory.Adapter.RemoveFromIndex | storage/memory/memory.go:120-131 | exactly the record's own entries go |
| Memory.Adapter.SameMeans | storage/memory/memory.go:133-142 | comparing ids identifies the record object |
| Memory.Adapter.ViolatesUnique | storage/memory/memory.go:178-235 | reports a violation exactly when some other row holds a unique value or complete composite tuple of the row |
| Memory.Adapter.LookupUnique | storage/memory/memory.go:144-173 | an indexed answer is the record at the first matching row, or none when none matches |
| Memory.Adapter.FindOne | storage/memory/memory.go:335-354 | index or scan, the answer is the first row Matches accepts, or there is none |
| Memory.Adapter.Count | storage/memory/memory.go:495-513 | the size of the set of rows Matches accepts |
| Memory.Adapter.Create | storage/memory/memory.go:316-333 | one row appended, holding what is supplied and the defaults, conflicting with no other; refused, with nothing changed, exactly when the row would conflict or names an undeclared column; index invariant kept |
| Memory.Adapter.Update | storage/memory/memory.go:393-422 | the first row Matches accepts holds the update in the columns it names and the rest as before, every other row as it was; refused exactly when that would conflict; index invariant kept |
| Memory.Adapter.UpdateMany | storage/memory/memory.go:424-453 | every row Matches accepts is so merged, all others as they were, whatever that does to uniqueness, and the count is theirs; the index invariant survives if and only if the update fits |
| Memory.Adapter.Delete | storage/memory/memory.go:455-471 | exactly the first row Matches accepts is missing, every other row in its order, other tables unchanged; index invariant kept |
| Memory.Adapter.DeleteMany | storage/memory/memory.go:473-493 | the rows left are exactly those Matches does not accept, in order, and the count is of the others; index invariant kept |
| Memory.Adapter.Drive | storage/memory/memory.go:524-554 | any client that reacts to outcomes reaches the state its calls reach on plain tables |
| Memory.Adapter.Fork | storage/memory/memory.go:524-540 | an equal copy sharing no record object with the original |
| Memory.Adapter.Transaction | storage/memory/memory.go:524-554 | on failure tables, index and records are untouched; on success the state is the one the calls reach directly, index invariant intact |
| SqlLike.EscapeLike | storage/sqlstore/sqlstore.go:454-467 | the short cut and the loop both give the escaped text |
| SqlLike.EscapedThen | storage/sqlstore/sqlstore.go:444-467 | escaped text matches exactly itself under section 8.5 of ISO/IEC 9075:1992, whatever pattern follows |
| SqlLike.ContainsPattern | storage/sqlstore/sqlstore.go:395-415 | the contains pattern matches exactly the texts with the needle as substring |
| SqlLike.StartsPattern | storage/sqlstore/sqlstore.go:395-415 | the prefix pattern matches exactly the texts starting with the needle |
| SqlLike.EndsPattern | storage/sqlstore/sqlstore.go:395-415 | the suffix pattern matches exactly the texts ending with the needle |
| Timestamps.LayoutOrder | storage/sqlstore/sqlstore.go:71-73 | instants in years of four digits sort as text exactly as they do in time, and only equal ones are written alike |
| Timestamps.FiveDigitsSortFirst | storage/sqlstore/sqlstore.go:71-73 | every instant of the year 10000 sorts before every one of 9999, so the range is needed |
| Timestamps.LayoutReadsBack | storage/sqlstore/sqlstore.go:71-87 | every instant of a year of four digits is read back from its text to the nanosecond |
| SqlWhere.ClauseReadsBack | storage/sqlstore/sqlstore.go:344-418 | each clause's text parses as one operand with the meaning intended, whatever follows |
| SqlWhere.RenderReadsBack | storage/sqlstore/sqlstore.go:336-437 | with AND binding tighter than OR the text parses as the left fold of the clauses |
| SqlWhere.RenderArity | storage/sqlstore/sqlstore.go:336-437 | as many arguments as the clauses take |
| SqlMeaning.RenderHoles | storage/sqlstore/sqlstore.go:336-437 | placeholders are numbered in the order of their arguments from the start index on |
| SqlMeaning.EqualEncodes | storage/sqlstore/sqlstore.go:250-284 | equality and inequality survive encoding for every column type |
| SqlMeaning.OrderEncodes | storage/sqlstore/sqlstore.go:250-284 | so do the order comparisons, SQLite timestamps as text included |
| SqlMeaning.MemberEncodes | storage/sqlstore/sqlstore.go:382-394 | the IN list is true exactly for the members |
| SqlMeaning.DecodesBack | storage/sqlstore/sqlstore.go:250-331 | a stored value of every column type is read back as it was; only the zero time comes back as nil |
| SqlMeaning.SqliteValues | storage/sqlstore/sqlstore.go:250-284 | SQLite is handed texts, integers and NULL only, and NULL only for nil |
| SqlMeaning.ClauseMeaning | storage/sqlstore/sqlstore.go:344-418 | a clause is true in SQL's three-valued logic exactly when matchOne accepts the row, if and only if it is not a NULL column under a non-nil Ne or a search for the empty text |
| SqlMeaning.LoweringMatters | storage/sqlstore/sqlstore.go:395-415 | where lowering keeps lengths, a search for a text in itself succeeds in SQL if and only if the engine lowers it as Go does |
| SqlMeaning.WhereMeaning | storage/sqlstore/sqlstore.go:336-437 | for every dialect, the compiled text, parsed and evaluated with its arguments, selects exactly the rows Matches accepts |
| SqlMeaning.RenderSucceeds | storage/sqlstore/sqlstore.go:336-437 | compilation fails exactly on an undeclared column or operator |
| SqlStore.BuildWhere | storage/sqlstore/sqlstore.go:336-437 | the loop with its running index builds the text, arguments and errors of the fold |
| SqlUpdate.StatementExactly | storage/sqlstore/sqlstore.go:727-762 | there is a statement if and only if every column and operator is declared and something is set |
| SqlUpdate.StatementHoles | storage/sqlstore/sqlstore.go:735-757 | SET placeholders come first, and in the whole statement the k-th placeholder binds the k-th argument |
| SqlUpdate.SetsExactly | storage/sqlstore/sqlstore.go:735-745 | as an engine reads it, a row met gets the encoded value of every column the update names, and every other column stays as it was; a row not met is unchanged |
| SqlUpdate.MetExactly | storage/sqlstore/sqlstore.go:750-756 | the rows met are those Matches accepts, all of them without a condition |
| SqlUpdate.UpdateMeaning | storage/sqlstore/sqlstore.go:727-762 | if a row was stored, the row merged with the update is stored afterwards where Matches accepts it, the row itself elsewhere |
| SqlUpdate.AdaptersAgree | storage/sqlstore/sqlstore.go:727-762 | so the table stores what the in-memory bulk update makes of the rows |
| SqlStore.BuildUpdate | storage/sqlstore/sqlstore.go:727-762 | the loops build that statement, or refuse exactly when there is none |
| Octets.BytesRoundTrip | plugins/passkey/cbor.go:166-184 | a big-endian argument reads back |
| Octets.NatRoundTrip | plugins/passkey/cbor.go:166-184 | and its octets are the only ones of that width |
| CborProofs.EncodingDecodes | plugins/passkey/cbor.go:61-155 | every definite-length encoding within the limits decodes to its value and is consumed exactly, wherever it stands (section 3 of RFC 8949) |
| CborProofs.DecodedIsEncoding | plugins/passkey/cbor.go:61-155 | whatever decodes is such an encoding of the value returned |
| CborLaws.PrefixExactly | plugins/passkey/cbor.go:52-59 | decoding by prefix succeeds exactly when the input starts with an encoding |
| CborLaws.StrictExactly | plugins/passkey/cbor.go:38-48 | strict decoding accepts exactly the encodings |
| CborLaws.PrefixLocality | plugins/passkey/cbor.go:38-59 | the prefix decoder's answer depends on nothing after the bytes it consumed, and those bytes decode strictly to the same item |
| CborLaws.EncodingsArePrefixFree | plugins/passkey/cbor.go:52-59 | no encoding is a proper prefix of another |
| CborLaws.DecodedWeighs | plugins/passkey/cbor.go:61-155 | nodes and string bytes of the result together are at most the bytes consumed |
| Cbor.Decoder.Item | plugins/passkey/cbor.go:61-155 | from any cursor and depth, the item, the cursor and the depth are those of the recursive definition; every read is in range and recursion ends |
| Cbor.Decoder.ReadArgument | plugins/passkey/cbor.go:166-184 | shifting 64-bit words loses nothing |
| Cbor.Decoder.ReadBytes | plugins/passkey/cbor.go:186-198 | exactly the next n bytes, or truncated |
| Cbor.Decoder.ReadArray | plugins/passkey/cbor.go:97-109 | the loop decodes as many items as declared, in order |
| Cbor.Decoder.ReadMap | plugins/passkey/cbor.go:110-137 | the loop decodes entries in order, refusing other key types and duplicates |
| Cbor.StrictDecode | plugins/passkey/cbor.go:38-48 | an item with nothing after it |
| Cbor.PrefixDecode | plugins/passkey/cbor.go:52-59 | an item and its length |
| WebAuthn.ParseAttested | plugins/passkey/webauthn.go:84-104 | returns the one attested record whose layout the bytes start with; refuses only when there is none |
| WebAuthn.ParseAuthData | plugins/passkey/webauthn.go:74-106 | returns the one well-formed record whose layout the bytes start with, extensions or not; refuses only when there is none |
| WebAuthn.OneReading | plugins/passkey/webauthn.go:74-106 | no bytes start with the layouts of two records |
| WebAuthn.KeyExactly | plugins/passkey/webauthn.go:126-190 | the keys accepted are exactly the encodings of a supported key's parameters, in any order, beside anything else |
| WebAuthn.KeySurvives | plugins/passkey/webauthn.go:96-104 | the key bytes sliced out decode strictly to the item the prefix decoder met; the key read from that item is the one whose parameters the slice encodes, whatever extension bytes follow |
| WebAuthn.ParseAttestationObject | plugins/passkey/webauthn.go:215-234 | returns format and record exactly when the bytes encode a map whose authData starts with that record's layout |
| Keyring.BuildAad | crypto/aead.go:176-188 | the loop appends the length-prefixed components |
| Keyring.AadInjective | crypto/aead.go:173-188 | distinct bindings never share additional data |
| Keyring.ThreeParts | crypto/aead.go:394-398 | a text splits into version, key id and body in exactly one way |
| Keyring.NewKeyringFrom | crypto/aead.go:311-329 | the current secret first, then every other non-empty previous one once, in order |
| Keyring.SealedOpensExactlyThere | crypto/aead.go:360-446 | a value sealed at a binding opens, under a ring holding its key, exactly when presented there, and gives the plaintext; otherwise the named error |
| Keyring.DecryptsExactlyWhatWasWritten | crypto/aead.go:390-470 | a plaintext is returned exactly for the texts some key of the ring wrote for it, bound here or in a format still accepted |
| Keyring.RelabellingFails | crypto/aead.go:390-470 | the bytes of a bound value open in no other text and at no other binding, under any ring |
| Keyring.CurrentReadsAlike | crypto/aead.go:472-486 | a value not needing re-encryption reads the same, errors included, under the current key alone with unbound values rejected |
| Keyring.NeedyReadsDiffer | crypto/aead.go:472-486 | and a readable value that needs it would be lost |
| Keyring.EncryptedIsCurrent | crypto/aead.go:350-377 | what is written needs no re-encryption and opens to what was written |
| ReencryptSpec.SettledReadsAlike | secrets.go:75-83 | once nothing needs rewriting, every value reads the same with the previous keys gone |
| ReencryptSpec.ResealedIsRenewed | secrets.go:249-270 | the value written back has the same plaintext and needs no rewriting |
| ReencryptSpec.SecondPassChangesNothing | secrets.go:89-95 | a second undisturbed pass leaves the table as it is |
| ReencryptSpec.SecondPassRewritesNothing | secrets.go:89-95 | and counts no rewrite, only the values still unreadable |
| Reencrypt.FirstIds | secrets.go:185-188 | a page is the first ids past the cursor, in order, complete up to the limit |
| Reencrypt.ReencryptField | secrets.go:233-303 | a value in need is never counted as done; the only write is a compare-and-set that no reader can tell |
| Reencrypt.ReencryptBatch | secrets.go:180-230 | after a clean page only values beyond the cursor may still need rewriting |
| Reencrypt.ReencryptFields | secrets.go:174-231 | with any current-key writers and any failures: no error and Done means no value in need; every write in the log is a compare-and-set of a value sealed anew, and a value the other writers leave alone reads as before; undisturbed, every record is met once in id order; the pass ends once inserting ends |
| Reencrypt.DropPreviousKeys | secrets.go:75-83 | after a pass, exactly when it is clean, the previous keys can be dropped and every value still reads as before |
| Reencrypt.PassTwice | secrets.go:89-95 | two undisturbed passes preserve every reading and the second rewrites nothing |
| TokenSpec.SingleUse | token.go:83-113 | over every interleaving, a row's value is handed to at most one consumer, is the value stored, and consumes never exceed stores |
| TokenSpec.UsesRun | token.go:43-56 | uses of an identifier, had and still to come, grow only by its stores |
| TokenSpec.StoreReplaces | token.go:49-56 | whatever comes between its delete and its create, the new row is the only one of its identifier if and only if every row stored under it in between has left again; so with no such store |
| TokenSpec.OverlappingStoresLeaveTwo | token.go:43-56 | a second store between the two calls of the first leaves both rows |
| TokenSpec.CleanupSparesLiveRows | token.go:115-134 | neither sweep nor cleanup removes a live row, however old the clock reading they use |
| Tokens.SortNewestFirst | store.go:308-310 | all matching rows once each, newest first |
| Tokens.Server.FindVerification | store.go:305-327 | the row held is a latest live one of those read, judged by one clock reading; or none was live, and of the identifier no row expired by then is left |
| Tokens.Server.ConsumeToken | token.go:88-113 | a value is returned exactly to the caller whose delete removed the row; a caller gets none only when no row was live, its row was gone before its delete, or the answer was lost; undisturbed, it gets the value exactly when there is a live row |
| Tokens.Server.StoreTokenValue | token.go:49-56 | every row the identifier had when it began is gone, and the new row is there, to expire ttl after it was made |
| Tokens.Server.CleanupExpired | token.go:122-134 | by one clock reading taken before both deletes: of the verifications made by then none that had expired is left, the sessions are those found unexpired, and the count returned is of both |
| Tokens.HandedOutOnce | token.go:88-113 | so a server never hands a row out twice, whatever runs between its calls |
| PendingSpec.PendingReadsBack | plugins/twofactor/twofactor.go:329-336 | a stored count reads back exactly for user ids without the separator |
| PendingSpec.BarHidesCount | plugins/twofactor/twofactor.go:329-336 | with the separator in the id every count reads back as zero |
| PendingSpec.SoundStep | plugins/twofactor/twofactor.go:341-414 | every step keeps row, claims in flight and sessions at one at most, and the count in step |
| PendingSpec.OneSession | plugins/twofactor/twofactor.go:341-414 | over every interleaving at most one session is minted, acknowledged wrong guesses count 1, 2, 3, ... and are at most five |
| Pending.Desk.FailAttempt | plugins/twofactor/twofactor.go:341-375 | a wrong guess is acknowledged only by taking the token and counts one more; it is put back as the one row, for the full lifetime with the advanced count, unless a call failed, or refused for good at the fifth; it goes unacknowledged only when no token was live, another had taken it, or a call failed |
| Pending.Desk.CompletePending | plugins/twofactor/twofactor.go:378-414 | a session goes to the caller that took the token, and then it is the only one and no row is left; taken but without a session only when a guard takes over or a call fails; undisturbed, a live challenge signs in |
| BackupSpec.ConservedStep | plugins/twofactor/twofactor.go:818-901 | codes generated are those listed, accepted and lost, after every event |
| BackupSpec.ResealKeepsCodes | secrets.go:276-302 | re-encryption neither brings a code back nor takes one away |
| BackupSpec.CodesAcceptedOnce | plugins/twofactor/twofactor.go:818-901 | over every interleaving a code generated once is accepted at most once since, then no longer listed; accepted time steps strictly increase (section 5.2 of RFC 6238) |
| BackupCodes.FindCode | plugins/twofactor/twofactor.go:871-877 | the first position of the code, or -1 |
| BackupCodes.Row.VerifyBackupCode | plugins/twofactor/twofactor.go:851-901 | accepted exactly by a compare-and-set on the list read that takes the code off it once; asked to retry only when the list had changed, which leaves it untouched; undisturbed, accepted exactly when listed |
| BackupCodes.Row.GenerateBackupCodes | plugins/twofactor/twofactor.go:818-849 | the list is replaced whatever it held |
| BackupCodes.Row.VerifyTotp | plugins/twofactor/twofactor.go:421-435 | accepted only past every time step accepted before; refused only when not past the one read, or another step was claimed meanwhile, or the answer was lost |
| BackupCodes.Row.ReencryptCodes | secrets.go:233-303 | the pass's write on this row is one event of the protocol; undisturbed, codes that could be read need no rewriting afterwards |
| BackupCodes.RowAcceptsOnce | plugins/twofactor/twofactor.go:685-713 | so a row accepts a code at most once, whatever runs between its handlers' calls |
| Sessions.Store.GetSessionFromToken | session.go:230-278 | the row afterwards and the session returned: expired rows go, an expiry is as before or ExpiresIn from now, other rows stay, guards only withhold |
| Sessions.RefreshedExactly | session.go:245-266 | a lookup in time refreshes exactly when more than UpdateAge of the lifetime is used up, and then to ExpiresIn from now |
| Sessions.ExpiryExactly | session.go:245-266 | over every run the row left has its first expiry, or from the last refresh on that lookup's time plus ExpiresIn |
| Sessions.ExpiryBounded | session.go:245-266 | so no expiry is later than the first one and ExpiresIn past every lookup |
| Sessions.IdleSessionsGo | session.go:230-266 | and a session not looked up for ExpiresIn, past its first expiry, is gone at the next lookup |
| Sessions.FixedSessionsKeepExpiry | session.go:245-296 | with refreshing off, or created for less than ExpiresIn - 1s or at no known time, a session keeps its expiry, and goes exactly when a lookup finds it expired |
| Sessions.SteadyUseNeverExpires | session.go:245-266 | looked up at gaps below ExpiresIn - UpdateAge a refreshable session never expires |
| Sessions.GapIsExact | session.go:245-266 | and a gap of exactly that can expire it |
| Sessions.RefreshesAreApart | session.go:256-266 | two refresh writes are more than UpdateAge apart |
| CookieCache.Auth.ReadCookieCache | session.go:468-500 | serves a cookie exactly up to the last whole second of its deadline, so what it serves was read less than MaxAge ago and revoked, if at all, less than MaxAge ago |
| CookieCache.Auth.GetSession | session.go:186-212 | what a fresh cookie answers never touches the table and is withheld only by a guard; otherwise accepted exactly with a live row, its user and the guards; a new cookie is issued exactly then, for MaxAge from now |
| CookieCache.Auth.RevokeSession | session.go:321-326 | the row is gone, the others stay, and the session counts as revoked from now |
| CookieCache.DeadlineInSeconds | session.go:432-436 | truncating the deadline to seconds only brings it forward |
| CookieCache.CacheIsFresh | session.go:186-212 | over every run a cached answer is from a read less than MaxAge old, a deleted session is accepted by nobody from MaxAge after, and an unaccepting guard means no cached answer |
| CookieCache.ServedFresh | session.go:186-212 | so all that an Auth has served was fresh in that sense |
| RateLimit.MemoryStore.Collect | ratelimit/ratelimit.go:53-60 | exactly the windows ten times past their own length go |
| RateLimit.MemoryStore.Hit | ratelimit/ratelimit.go:49-68 | the count is the one a store that never evicts returns |
| RateLimit.CountExactly | ratelimit/ratelimit.go:61-68 | every hit opens a window, or follows the hit that opened it by less than its length and is counted after all the key's hits since; later hits never move the opening |
| RateLimit.Allow | ratelimit/ratelimit.go:85-94 | passes exactly the hits whose count is within the limit, and everything under an empty rule |
| RateLimit.AtMostTwice | ratelimit/ratelimit.go:49-94 | any closed interval of one window admits at most twice the limit |
| RateLimit.TwiceIsReached | ratelimit/ratelimit.go:49-94 | and the bound is met for every limit |
| JwksSpec.FetchesApart | oauth2/oidc.go:71-145 | over every interleaving fetches start MinRefreshInterval apart, at most one is in flight when the timeout is below that, and every key comes from a set stored less than TTL + StaleGrace before |
| JwksSpec.OneInFlight | oauth2/oidc.go:88-106 | two fetches in flight are the same one |
| Jwks.JwksCache.Enter | oauth2/oidc.go:72-98 | a held key is returned if and only if its set is young, or cooling down and within grace; otherwise a fetch starts if and only if none was attempted lately, and only then is the attempt recorded |
| Jwks.JwksCache.Leave | oauth2/oidc.go:111-125 | a set fetched replaces the one held and answers; a failed fetch changes nothing and the held key is returned if and only if its set is within its grace |
| Jwks.JwksCache.Key | oauth2/oidc.go:71-126 | a key returned comes from a set young enough; none is returned only when the set held lacks it or is past its TTL; what a fetch brings is stored and answers; undisturbed, it fetches exactly when no held key is young and no fetch was attempted lately |
| Jwks.CacheKeepsItsLimits | oauth2/oidc.go:71-145 | so a cache keeps its limits whatever callers run between its steps |

## Left out

- Salsa20/8 arithmetic, 32-bit xor, SHA-256 and HMAC: block functions given as parameters; AES-GCM is ideal.
- `keyFor`'s bounded cache and the derivation of keys from secrets: a key is its secret and its id; the derivation cannot fail at its constant parameters.
- Sharing of scratch buffers between concurrent hashes (pooling and the hasher's semaphore).
- Memory.Adapter.Transaction: the client's bulk updates keep unique values apart, because after one that does not the index no longer stands for the table; `UpdateMany` alone is modelled without that.
- `FindMany` of the in-memory adapter: sorting, offset and limit; the re-encryption pass states the page it needs.
- `SetSchema` on a table that already holds rows: the index is not rebuilt.
- In-memory index maps per field are one map keyed by field and value; floats, byte strings and nested values are not columns.
- SQL is modelled as tokens: quoting of identifiers, `?` against `$n` spelling and driver conversions are not.
- `sqlstore` reads (`scanRows`, `selectQuery`, `limitOffset`), byte slices and texts in other time layouts in `decode`, error classification, migrations and transactions, and the MongoDB adapter.
- Affected-row counts of SQL statements: what an engine reports for rows it did not change differs between engines.
- SqlMeaning.WhereMeaning: needs every clause outside the gap, because on a NULL column the two readings differ there and a connector may or may not hide the difference; the clause-level lemma has both directions.
- A decoded CBOR map is its list of entries in order of arrival with distinct keys, read by key; Go's map keeps no order.
- Attestation statements, client data, signatures and base64: library code.
- base64url is a glyph holding the bytes it decodes to, so that texts split and compare without a codec.
- Reencrypt.ReencryptFields: needs inserting by others to end eventually for the walk to end; the code bounds nothing there.
- Several models, logging and the joining of errors in `ReencryptSecrets`: one pass is one model.
- `handleEnable`, `handleDisable` and trusted devices: another row, another identifier.
- E-mailed one-time codes: the same token protocol under another kind.
- Lookups of an empty token, trimming and lower-casing of submitted codes, and finding the user a challenge names: one branch each before the protocol starts.
- TOTP code generation and password checks: the model starts where a time step or a code matched.
- `CreateSessionWith` durations, cookies' size limit and remember-me.
- Cookie signatures: clients present only cookies issued to someone.
- RateLimit.MemoryStore.Hit: clock readings reach the lock in order, because the code reads the clock before taking it and two callers may swap.
- ID token verification around the key cache: signature and claim checks are single branches.
- HTTP routing, configuration, organisations, providers, administration and API keys.
