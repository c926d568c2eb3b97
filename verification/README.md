# Triple-entry ledger: a verified model

This project models the components that carry the triple-entry system's promises, and proves that they keep
them. `dafny verify dfyconfig.toml` checks everything.

The system captures changes to SQL tables in an outbox, turns each change into an authenticated record, writes
the record into a spendable script on a UTXO chain, and can rebuild the tables from the chain and the keys
alone. Tokens and commercial documents live on the same chain as lineages of unspent outputs. Keys are split by
threshold sharing, and paper copies point back to the chain.

## The stack

| layer | modules | main result |
|---|---|---|
| octets and text | `ByteStrings`, `Utf8` | big-endian numbers and UTF-8 are bijections |
| wire format | `Format` | a buffer is accepted exactly when it is the encoding of its record |
| its three implementations | `GoCodec`, `TsCodec`, `CCodec` | the sticky-error, throwing and growing-buffer codecs agree, with the exact exceptions |
| scripts | `Script`, `Envelope` | both envelopes give back payload and key in all four push forms |
| keys | `Keystone` | both parties of the derived-key exchange reach one secret, and fail together |
| node and lineages | `Ledger`, `Lineage` | satoshis are conserved; the backward walk succeeds exactly on heads that have a lineage |
| third-entry pipeline | `Capture`, `Mirror`, `TeWriter`, `ColdVerify`, `Driver` | capture, drain and cold rebuild give exactly the live cells |
| untrusted nodes | `StreamRebuild` | an ordered rebuild reads exactly the writer's entries, whatever the node answers; and exactly when their fold survives relabelling |
| state machines on chain | `StateCoins`, `TokenEvent`, `Token`, `DocPayload`, `Document` | every run of either engine keeps every lineage verifiable |
| custody | `ModArith`, `Polynomial`, `Custody` | enough shares give the secret back; fewer are dealt by equally many draws for every secret |
| inclusion proofs | `Merkle`, `Buri` | branches are complete, sound up to a hash collision, and of logarithmic length; the check omits the length |
| paper copies | `Pdf` | the cross-reference table, stream length and escapes are right for all field values |

## How the model is set up

* Hash, MAC, key derivation and the curve are parameters. A theorem that needs something of them says so:
  a group law of prime order on the points of a curve (`Keystone.PrimeOrder`; `Keystone.FixedSizeKeys` shows that
  keys of 33 octets go with it), fixed output sizes (`Keystone.SizedTagger`), or ideal tags
  (`StreamRebuild.IdealTags`). Where a proof would need collision freedom, the lemma names the colliding inputs among
  those that were hashed (`Merkle.Broken`, `Keystone.CommitBinds`): that some pair collides is true of every
  fixed-size hash and says nothing.
* The node is a map of transactions and a set of unspent outputs (`Ledger.Node`). It takes a transaction only
  if its id is new, its inputs are distinct, unspent, described as they are and signed by the key their script
  names, and its outputs are covered. The script interpreter and signatures are represented by that rule.
* A walk that meets a transaction twice would never end in the original; the model reports it as `Diverges`,
  and `Lineage.WalkBack` shows that this never happens on a head that has a lineage.
* Script pushes and their parser follow the standard length-based encoding; the library that supplies them to
  the original is not part of this model's sources.
* Go strings are octet strings. Integer widths are written out: 64-bit change and sequence arithmetic wraps,
  lengths are truncated to 32 bits.
* `Driver.LiveCells` follows the stated intent of the projection, every non-key column of every table of the
  stream. The original hard-codes the columns `id` and `balance`.

## What the proofs found

* A primary-key update is not mirrored: the trigger reports changed non-key columns under the new key only.
  `Mirror.UpdateMirrorsIff` gives the exact condition for every update.
* The writer records NULL as the empty string, while the projection of the live table refuses NULL. A plaintext
  stream therefore passes exactly when no live cell is NULL (`Driver.VerifyStream`).
* The comparison of rebuilt and live cells looks missing keys up as empty strings; `Driver.ComparisonIff` says
  when it means equality and `Driver.ComparisonMissesEmptyCell` gives unequal states it accepts.
* The kind of an image and the stream id are outside the tag. A node can relabel any entry of a rebuild that
  verifies, or claim another stream for it, and the rebuild still verifies (`StreamRebuild.KindIsNotAuthenticated`,
  `StreamRebuild.StreamIsNotAuthenticated`). The stream id never changes the state; a set of relabelled entries leaves
  it alone exactly when each is overwritten later or changes nothing (`StreamRebuild.HiddenIff`).
* Two tokens with one id cannot be swapped safely: the second state of the transaction is read back exactly when the
  two legs are one event (`Token.SwapReads`, `Token.SameRecordIff`). Otherwise what verifies at the second token's
  head is the first token (`Token.Engine.Swap`).
* Both engines put states on chain that cannot be verified: a mint can be exactly when its names are UTF-8
  (`Token.MintVerifiesIff`), an origination exactly when its strings are (`Document.OriginationVerifiesIff`), a
  transition exactly when the name of the new state is (`Document.TransitionVerifiesIff`).
* The verification of a paper reference never looks at the length of the branch. With the height of the tree it proves
  that the transaction is in the block, and with l hashes less that the node is one of those l levels up
  (`Buri.ReferenceSound`); all of these do verify (`Buri.InnerReferenceProves`).
* The event decoder is not canonical in one octet (`TokenEvent.AcceptedEvent`); the document and message
  encoders take text that is not UTF-8, which the decoders refuse (`DocPayload.PayloadRoundTrip`,
  `Format.RecordReadsBack`).
* C writes what Go writes exactly when no string contains NUL and the link has a size Go accepts
  (`CCodec.EncodeBoth`); TypeScript loses a leading byte-order mark (`TsCodec.ViewIsFaithful`).
* The spend check of an envelope reads the last two opcodes only (`Envelope.SpendableIff`), so a script can pass that
  names no key (`Envelope.SpendCheckIgnoresKey` is a witness). `Envelope.SpendableNamesKeyIff` and
  `Envelope.KeyNamedIff` say exactly which scripts name one.
* A literal string of the paper copy reads back unchanged exactly when it has no carriage return
  (`Pdf.NormalIff`), since a PDF reader normalises line ends and the escape leaves them alone.

## Model

| member | source | states |
|---|---|---|
| ByteStrings.BigEndianAt | crypto-core/go/bytes.go:22-33 | octet i of a k-octet number is the number divided by the power of 256 of the octets below it, modulo 256 |
| Utf8.DecodeEncode | crypto-core/go/bytes.go:107-117 | decoding inverts encoding of every sequence of scalar values (section 4 of RFC 3629) |
| Utf8.EncodeDecode | crypto-core/go/bytes.go:107-117 | every octet string accepted as text is the encoding of what it decodes to |
| Utf8.ScalarOctets | crypto-core/go/bytes.go:107-117 | how many octets each scalar value takes, their leading bits, and the value they carry (section 3 of RFC 3629) |
| GoCodec.Reader.Need | crypto-core/go/bytes.go:51-60 | a failed reader stays failed; otherwise it fails exactly when fewer octets remain than asked for |
| GoCodec.Reader.Str | crypto-core/go/bytes.go:107-117 | reads one length-prefixed UTF-8 string of the grammar, or fails and yields the empty string |
| GoCodec.Writer.Octets | crypto-core/go/bytes.go:33 | appends the length, truncated to 32 bits, and the octets |
| GoCodec.EncodeMessage | crypto-core/go/message.go:37-51 | exactly the octets of the message format; refused only for a link that is neither empty nor 32 octets |
| GoCodec.EncodeRecord | crypto-core/go/message.go:93-110 | exactly the octets of the record format, or the error of the first check that fails |
| GoCodec.DecodeMessage | crypto-core/go/message.go:54-82 | although it keeps reading zero values after an error, accepts exactly what the grammar accepts, with the same message |
| GoCodec.DecodeRecord | crypto-core/go/message.go:112-143 | the same for records, through the nested message |
| Format.MessageOctets | crypto-core/go/message.go:37-51 | the octets of a message from its first to its last, with the magic, version and sizes as numbers |
| Format.RecordOctets | crypto-core/go/message.go:93-110 | the octets of a record, in the same way |
| Format.RecordReadsBack | crypto-core/go/message.go:93-143 | for any octets in the names: decoding the encoding returns the record exactly when its names are UTF-8, and nothing otherwise |
| Format.RecordInverse | crypto-core/go/message.go:112-143 | every accepted buffer is octet for octet the encoding of its result |
| Format.AcceptedIffEncoding | crypto-core/go/message.go:93-143 | a buffer is accepted with a given record exactly when the record is well formed and the buffer is its encoding |
| TsCodec.DecodeRecord | crypto-core/ts/src/message.ts:84-99 | the throwing decoder accepts exactly what the grammar accepts, showing the record with byte-order marks stripped |
| TsCodec.DecodeBoth | crypto-core/ts/src/message.ts:44-99 | Go and TypeScript accept the same buffers, and agree on all fields exactly when no string starts with a byte-order mark |
| TsCodec.ViewIsFaithful | crypto-core/ts/src/bytes.ts:122-131 | the TypeScript view of a record loses nothing exactly when neither string starts with a mark |
| TsCodec.EncodeRecord | crypto-core/ts/src/message.ts:71-82 | the chunked writer produces the octets of the record format |
| CCodec.Buffer.Ensure | crypto-core/c/te_crypto.c:13-19 | growth terminates, keeps the contents, and capacity is at most 64 or twice what is needed |
| CCodec.Buffer.Raw | crypto-core/c/te_crypto.c:20 | the contents are the old contents followed by the new octets |
| CCodec.Buffer.U64 | crypto-core/c/te_crypto.c:23-25 | the shifting loop appends the eight big-endian octets |
| CCodec.StrLen | crypto-core/c/te_crypto.c:27 | the length of the string up to its NUL |
| CCodec.EncodeRecord | crypto-core/c/te_crypto.c:76-87 | appends to any buffer the octets of the record C sees, strings cut at their NUL |
| CCodec.SameOctetsIffNulFree | crypto-core/c/te_crypto.c:66-87 | for every record, the octets C writes are the format octets of that record exactly when no string contains NUL |
| CCodec.EncodeBoth | crypto-core/c/te_crypto.c:66-87 | run side by side, C and Go yield the same octets exactly when no string contains NUL and the link is one Go accepts |
| Script.ParseWrite | services-go/bsvscript/envelope.go:65-90 | parsing a script written as opcodes and pushes recovers every piece, whatever octets the pushes carry |
| Script.PushIsShortest | services-go/bsvscript/envelope.go:20-62 | no octets that push the same data, in any of the four length forms, are shorter than the push written |
| Envelope.BuildEnvelopeIf | services-go/bsvscript/envelope.go:20-41 | the octets of the false-if envelope, or the error of the check that fails |
| Envelope.BuildEnvelopeDrop | services-go/bsvscript/envelope.go:44-62 | the octets of the drop envelope, or the error of the check that fails |
| Envelope.EnvelopeOctets | services-go/bsvscript/envelope.go:20-62 | both envelopes octet by octet: the payload behind 00 63 and before 68, or before 75, then the lock |
| Envelope.ExtractIff | services-go/bsvscript/envelope.go:65-90 | for every script: a payload is extracted exactly from 00 63, a push of it and 68, or from a push of it and 75, before anything that parses |
| Envelope.KeyNamedIff | services-go/bsvscript/envelope.go:92-110 | for every script: a key hash is named exactly by a push of its 20 octets between 76 a9 and 88 ac, after anything that parses |
| Envelope.AssertNativeSpendable | services-go/bsvscript/envelope.go:113-132 | passes exactly scripts that are no P2SH, parse, hold no OP_RETURN and end in OP_EQUALVERIFY OP_CHECKSIG |
| Envelope.SpendableIff | services-go/bsvscript/envelope.go:113-132 | for every script: the check passes exactly when it ends in 88 ac after three operations or more, none of them OP_RETURN |
| Envelope.IfEnvelopeRoundTrip | services-go/bsvscript/envelope.go:20-132 | for every payload that can be pushed and every key hash: payload (unless empty) and hash are extracted, and the spend check passes |
| Envelope.DropEnvelopeRoundTrip | services-go/bsvscript/envelope.go:44-132 | the same for the drop envelope |
| Envelope.SpendableNamesKeyIff | services-go/bsvscript/envelope.go:92-132 | a script that passes the spend check names a key exactly when the three operations before the last two are OP_DUP, OP_HASH160 and 20 octets |
| Envelope.LockNamesKey | services-go/bsvscript/envelope.go:92-110 | any front that parses, followed by the 25 octets of a lock, names the key of the lock |
| Envelope.KeyNamedByLock | services-go/bsvscript/envelope.go:92-110 | a script that names a key by a direct push is a front that parses followed by the 25 octets of that lock |
| Envelope.SpendCheckIgnoresKey | services-go/bsvscript/envelope.go:113-132 | a script that passes the spend check although no key hash can be read from it: a witness for the condition above |
| Envelope.P2pkhIsNoEnvelope | services-go/bsvscript/envelope.go:65-110 | a change output carries no envelope and names its key |
| Keystone.EcdhAgrees | crypto-core/go/keystone.go:60-130 | on any curve whose generator has prime order and whose keys parse back, both parties compute one secret, fail on exactly the same inputs (a derived scalar is zero), and the last infinity check never fires |
| Keystone.FixedSizeKeys | crypto-core/go/keystone.go:47-57 | those laws hold together with keys of 33 octets, for every prime order up to 2^256 |
| Keystone.AuditorTag | crypto-core/go/keystone.go:85-142 | the counterparty recomputes the tag of every message and image, and fails exactly when the writer does |
| Keystone.TagIs | crypto-core/go/keystone.go:85-142 | what the tag of a record is: the MAC of the image under the key derived, in this order, from table, row and column, the compressed point (v + gv)(u + gv) G and TE/hmac/v1 with the number; and exactly when there is none |
| Keystone.TagBinds | crypto-core/go/keystone.go:85-142 | a tag covers its image: two changes with one tag under one pair of keys have one image and one MAC key, or the MAC collides on the two pairs named |
| Keystone.TaggerIsSized | crypto-core/go/keystone.go:142 | every tag has the size of the MAC, which is all the chain needs of it |
| Keystone.CommitBinds | crypto-core/go/keystone.go:146-158 | two openings of one commitment are equal, or the two hash inputs collide |
| Ledger.TotalAfter | services-go/token/engine.go:183-195 | an accepted transaction takes its fee and nothing else from the sum of all unspent outputs |
| Ledger.SendValid | services-go/token/engine.go:183-195 | every unspent output stays an output of a known transaction |
| Ledger.AcceptedMeans | services-go/token/engine.go:183-195 | every input of an accepted transaction is an unspent output, named once, described as it is, and signed by the key its script names |
| Lineage.OnChainIff | services-go/cmd/tewriter/main.go:303-337 | a lineage without recursion: its first record links to nothing, each is read from the transaction the next one links to, the last from the head |
| Lineage.ReadFirstIff | services-go/cmd/tewriter/main.go:310-330 | a stream record is read from the first output that carries anything |
| Lineage.FirstStateIff | services-go/token/engine.go:372-394 | a state record is read from the first output with a record of that object, past all others |
| Lineage.OnChainUnique | services-go/cmd/tewriter/main.go:303-337 | a head has at most one lineage |
| Lineage.OnChainExtends | services-go/cmd/tewriter/main.go:303-337 | later transactions leave every lineage in place |
| Lineage.WalkBack | services-go/cmd/tewriter/main.go:303-337 | terminates on every map of transactions; succeeds exactly when the head has a lineage, and returns it backwards |
| Capture.CaptureTrigger | pg-fork/sql-surface/001_te_schema.sql:59-114 | writes one row for each column outside the key that was deleted, inserted or changed, under the new key, in column order |
| Capture.ReportsExactly | pg-fork/sql-surface/001_te_schema.sql:89-111 | the rows captured are exactly those of columns outside the key that were deleted, inserted or changed, with the right operation and value |
| Capture.ChangesInOrder | pg-fork/sql-surface/001_te_schema.sql:89-111 | the rows of two stretches of columns come one after the other, at most one for each column |
| Capture.CapturedIff | pg-fork/sql-surface/001_te_schema.sql:59-114 | what each kind of statement leaves in the outbox: row id, operation and value of every row, and no other rows |
| Capture.JoinPipesAppend | pg-fork/sql-surface/001_te_schema.sql:83-87 | the texts of a composite key are joined in order with one pipe between them |
| Capture.RowIdInjective | pg-fork/sql-surface/001_te_schema.sql:83-87 | row ids of one table distinguish keys of one column, and keys without pipes |
| Capture.CellKeyInjective | services-go/cmd/tewriter/main.go:64-66 | pipe-free table and column names make cell keys unambiguous |
| Capture.MirrorUnique | services-go/cmd/tewriter/main.go:253-262 | at most one state mirrors a database |
| Mirror.StatementMirrors | pg-fork/sql-surface/001_te_schema.sql:59-114 | replaying what one insert, delete or key-preserving update captured keeps the mirror, on the stream concerned and on every other |
| Mirror.RunMirrors | pg-fork/sql-surface/001_te_schema.sql:59-114 | after every run of such statements, replaying the outbox of a stream gives exactly its live cells |
| Mirror.UpdateMirrorsIff | pg-fork/sql-surface/001_te_schema.sql:83-111 | an update keeps the mirror exactly when it keeps the key or the table has no column outside the key |
| TeWriter.RecordWellFormed | services-go/cmd/tewriter/main.go:151-186 | every record the writer makes of an encodable row is well formed |
| Driver.PlainPosting | services-go/cmd/tewriter/main.go:151-184 | the record made of a row of a plaintext table verifies under the keys of its stream and applies exactly the change of the row, whatever was rebuilt before |
| TeWriter.MakeEnvelope | services-go/cmd/tewriter/main.go:184-191 | the spend check never fires, and the envelope carries the record |
| TeWriter.PostAccepted | services-go/cmd/tewriter/main.go:193-204 | the node takes the transaction exactly when the wallet covers 1000 satoshis and the id is new; a wrapped change is refused |
| TeWriter.PostRow | services-go/cmd/tewriter/main.go:151-230 | posts a row exactly when keys, tag, size, funds and id permit, and else changes nothing; a leak is reported after the row is on chain, indexed and marked, exactly when its transaction shows its confidential value |
| TeWriter.Drain | services-go/cmd/tewriter/main.go:134-230 | a prefix of the pending rows is posted, all of them unless the next one cannot be posted or the last one leaked, which no earlier one did; chain_index holds 0.. of each stream with each record naming its predecessor, te.blinding exactly the blindings of the confidential entries; the wallet is the last change and has paid 1000 a row, and no satoshi is lost |
| TeWriter.StepInOrder | services-go/cmd/tewriter/main.go:192-229 | the drain invariant survives each row |
| TeWriter.ChainHolds | services-go/cmd/tewriter/main.go:151-229 | what the chain holds at every place of every stream: the names, operation and place of its row, a link to the place before, the kind of its table, and a tag that verifies under the keys of the stream |
| TeWriter.BlindingOpens | services-go/cmd/tewriter/main.go:171-216 | for each row of te.blinding, the entry that chain_index points at is on chain and is the commitment to the value of its outbox row under that blinding |
| TeWriter.ChainBinds | services-go/cmd/tewriter/main.go:171-216 | so no other value and blinding open a confidential entry, unless SHA-256 collides on the two inputs |
| ColdVerify.ReadPlaintext | services-go/cmd/tewriter/main.go:448-455 | the image is one length-prefixed value and nothing else |
| ColdVerify.RebuiltIff | services-go/cmd/tewriter/main.go:338-367 | a rebuild succeeds exactly when every tag verifies and every image is the length of one value and the value |
| ColdVerify.LastRecordWins | services-go/cmd/tewriter/main.go:338-367 | in the rebuilt state each cell holds the value of the last record of its key, or is missing after a delete |
| ColdVerify.ReplayRecords | services-go/cmd/tewriter/main.go:338-367 | verifies and applies from genesis to head, stopping at the first failure |
| ColdVerify.ColdRebuild | services-go/cmd/tewriter/main.go:297-368 | on a head with a lineage the fold of the lineage, which succeeds exactly when every tag verifies under the keys given and every image is one value; on any other head an error |
| ColdVerify.ColdVerifyConfidential | services-go/cmd/tewriter/main.go:391-446 | on a head with a lineage succeeds exactly when every entry is a verified commitment, and counts them |
| Driver.PostingsOnChain | services-go/cmd/tewriter/main.go:192-229 | the first k postings of a stream are the lineage of the k-th transaction |
| Driver.RebuiltIsReplay | services-go/cmd/tewriter/main.go:338-367 | the records of a plaintext stream rebuild to the replay of its outbox rows |
| Driver.SealedPostings | services-go/cmd/tewriter/main.go:420-438 | the confidential check passes exactly when every entry is of a confidential table |
| Driver.OutboxTables | pg-fork/sql-surface/001_te_schema.sql:91-109 | every outbox row is of a journalled table and on its stream |
| Driver.LatestTxid | services-go/cmd/tewriter/main.go:235-240 | the indexed transaction of the highest position of the stream |
| Driver.LiveCells | services-go/cmd/tewriter/main.go:268-295 | the live cells of a stream, refused exactly when one of them is NULL |
| Driver.CompareCells | services-go/cmd/tewriter/main.go:254-261 | equal sizes, and every live cell equal to the looked-up rebuilt one |
| Driver.ComparisonIff | services-go/cmd/tewriter/main.go:254-261 | the comparison is equality exactly when every empty live cell was rebuilt |
| Driver.ComparisonMissesEmptyCell | services-go/cmd/tewriter/main.go:254-261 | unequal states that the comparison accepts |
| Driver.PlainStream | services-go/cmd/tewriter/main.go:233-265 | the lineage of the last transaction of a plaintext stream rebuilds, under its keys, to exactly the live cells |
| Driver.ChainMirrors | services-go/cmd/tewriter/main.go:233-265 | so does the lineage of the head found in chain_index, whether or not the comparison comes to run |
| Driver.VerifyStream | services-go/cmd/tewriter/main.go:233-265 | the state it rebuilds is the one the lineage of the indexed head folds to, and mirrors the database; the check passes unless a live cell is NULL, or a confidential stream holds a plaintext entry |
| Driver.RunWriter | services-go/cmd/tewriter/main.go:134-266 | the whole run: statements, drain and verification of all streams; once the drain completes, the chain holds the live cells of every plaintext stream with an entry, and the run passes if and only if each stream does, returning what it rebuilt of each |
| StreamRebuild.WalkAnswers | services-go/cmd/streame2e/main.go:211-241 | what the walk reads from a node that may answer anything |
| StreamRebuild.AnsweredIff | services-go/cmd/streame2e/main.go:211-241 | the walk without recursion: it succeeds exactly when each answer in turn is a transaction with a record, until one links to nothing |
| StreamRebuild.ReplayOrdered | services-go/cmd/streame2e/main.go:243-278 | succeeds exactly on records that are numbered 0.. from genesis, carry valid tags and, if plaintext, are readable; the state folds those marked plaintext |
| StreamRebuild.SoundIff | services-go/cmd/streame2e/main.go:243-278 | what is asked of the k-th record: the number k, its tag under the keys, and if marked plaintext the length of a value and the value |
| StreamRebuild.ColdRebuildOrdered | services-go/cmd/streame2e/main.go:211-279 | both loops together, in both directions |
| StreamRebuild.OrderedAgainstAnyNode | services-go/cmd/streame2e/main.go:211-279 | with ideal tags, whatever the node answers, success with n entries means exactly the pairs 0 to n-1 of the writer, in order; the state is their fold exactly when every entry shown as a commitment is overwritten later or changes nothing |
| StreamRebuild.HiddenIff | services-go/cmd/streame2e/main.go:243-278 | for any set of entries marked as commitments, the state is the fold of all pairs exactly when each of them is overwritten later or changes nothing |
| StreamRebuild.KindIsNotAuthenticated | services-go/cmd/streame2e/main.go:262-276 | for any answers that verify and any entry, there are answers with that entry relabelled as a commitment that verify as well and drop it |
| StreamRebuild.StreamIsNotAuthenticated | services-go/cmd/streame2e/main.go:243-276 | the same with another stream id, and then the state is unchanged |
| StreamRebuild.HexCellKeyInjective | services-go/cmd/streame2e/main.go:60-62 | with hexadecimal row ids cell keys are unambiguous, pipes in row ids or not |
| StreamRebuild.HonestRebuild | services-go/cmd/streame2e/main.go:211-279 | the answers of an honest node, its own transactions, make the rebuild of a posted stream sound and complete |
| StateCoins.MakeEnvelope | services-go/token/engine.go:146-181 | tag, record and envelope of a state: refused exactly for the tag, a link of the wrong size or sheer length; the spend check never fires |
| StateCoins.EnvelopeReads | services-go/token/engine.go:146-181 | the envelope names its controller, and gives the record back exactly when its names are UTF-8 |
| StateCoins.OpenAccepted | services-go/token/engine.go:208-221 | the node takes an opening transaction exactly when the wallet covers it and the id is new |
| StateCoins.StepAccepted | services-go/token/engine.go:237-256 | the node takes a step exactly when the state is unspent, described as it is and signed by its key |
| StateCoins.PairAccepted | services-go/token/engine.go:316-350 | the same for two states in one transaction |
| StateCoins.CoinsAfter | services-go/token/engine.go:183-195 | spent outputs stay spent, other outputs stay unspent, the new ones exist |
| StateCoins.HeldNext | services-go/token/engine.go:228-260 | the state output of an accepted transaction continues the lineage its record names |
| StateCoins.OneRead | services-go/token/engine.go:372-394 | the state of a transaction with one state is read back exactly when its names are UTF-8 |
| StateCoins.PairReads | services-go/token/engine.go:372-394 | of two states in one transaction the second is read back exactly when the ids differ, the first is not text, or the records are equal |
| StateCoins.TradeBalances | services-go/token/engine.go:183-195 | an accepted transaction keeps every other object unspent, controlled and on its lineage, what was spent stays spent, and what it creates is new |
| StateCoins.TradeConserves | services-go/token/engine.go:183-195 | a balanced transaction neither makes nor loses a satoshi, and changes nothing on chain |
| TokenEvent.SatoshiQuantity | services-go/token/token.go:60-69 | the largest of one satoshi, the minimum, and the value times the rate in millionths, rounded down, where that product has 64 bits |
| TokenEvent.EncodeEvent | services-go/token/token.go:81-99 | the octets of the event format |
| TokenEvent.EventImageIs | services-go/token/token.go:81-99 | the octets of the event a definition gives rise to, with the backing, the decimals modulo 256 and the flags as numbers |
| TokenEvent.DecodeEvent | services-go/token/token.go:114-130 | accepts exactly what the event grammar accepts |
| TokenEvent.EventRoundTrip | services-go/token/token.go:81-130 | an event reads back exactly when its names are UTF-8 |
| TokenEvent.AcceptedEvent | services-go/token/token.go:114-130 | an accepted image is the encoding of its event exactly when its flag octet is 0 or 1 |
| Token.StoryVerifies | services-go/token/engine.go:406-435 | the records of a token fold to its value, holder, number of entries and whether it is alive |
| Token.LineageIff | services-go/token/engine.go:406-435 | verification succeeds exactly when every tag verifies and every image is an event |
| Token.LineageTells | services-go/token/engine.go:406-435 | it finds the number of records, the value and holder of the last, and alive exactly when no record redeems |
| Token.SpendDecided | services-go/token/engine.go:228-260 | a live instance can be spent by its holder; one that names another key, or was spent before, is refused |
| Token.TradeInOrder | services-go/token/engine.go:183-195 | one accepted transaction keeps the books in order: one unspent output for each token, every lineage telling its story |
| Token.Engine.Mint | services-go/token/engine.go:198-225 | for any names and sizes: succeeds exactly when the record can be made, the wallet covers the token and the id is new; the whole new state; satoshis conserved; unchanged on error |
| Token.MintVerifiesIff | services-go/token/engine.go:198-225 | a minted token can be verified exactly when the names of its definition are UTF-8 |
| Token.Engine.Transfer | services-go/token/engine.go:228-260 | for any instance: succeeds exactly when its record can be made, its output is unspent, as described and its holder's, and the id is new; that holds of live instances and of no others on the books; the new instance and its lock are the new holder's, and its head verifies with one entry more, that holder and the same value |
| Token.Engine.Redeem | services-go/token/engine.go:263-295 | the same, ending the story with the issuer as holder: the head verifies as no longer alive |
| Token.Engine.Swap | services-go/token/engine.go:299-349 | for any two instances: exactly when it succeeds, and the whole new state; both lineages go on exactly when the second can be read back, and what verifies at the second head for the first id is the first token |
| Token.SwapReads | services-go/token/engine.go:372-394 | after a swap the second token is found by its id exactly when the ids differ, the first has no UTF-8 names, or both legs are one event |
| Token.SameRecordIff | services-go/token/engine.go:299-349 | the two records of a swap are equal exactly when the instances have one id, transaction and number and the events are equal |
| Token.Engine.VerifyLineage | services-go/token/engine.go:362-436 | on any head the fold of its lineage, which succeeds exactly when all tags verify and all images are events, or an error; on every token of the engine its entries, minted value, current holder and whether it is alive |
| DocPayload.NextIsFirst | services-go/edi/dfa.go:41-48 | the transition taken is the first row that fires; none exactly when no row fires |
| DocPayload.FindNext | services-go/edi/dfa.go:41-48 | the search loop computes that transition |
| DocPayload.EncodePayload | services-go/edi/dfa.go:141-147 | the octets of the state image, with a counted list of references |
| DocPayload.ReadStrings | services-go/edi/dfa.go:163-166 | the counted loop reads exactly the strings of the grammar, though it runs on after an error |
| DocPayload.DecodePayload | services-go/edi/dfa.go:157-170 | accepts exactly what the payload grammar accepts |
| DocPayload.PayloadRoundTrip | services-go/edi/dfa.go:141-170 | a payload reads back exactly when all its strings are UTF-8 |
| Document.JourneyVerifies | services-go/edi/dfa.go:447-472 | the records of a document fold to exactly the states it visited and its last payload |
| Document.SameBodyThroughout | services-go/edi/dfa.go:348-358 | every record from origination on names the same references and body hash, with the state and controller of its step |
| Document.HistoryIff | services-go/edi/dfa.go:447-472 | verification succeeds exactly when every tag verifies and every image is a payload |
| Document.HistoryTells | services-go/edi/dfa.go:447-472 | it finds the state of each record, in order, and the whole of the last |
| Document.SpendDecided | services-go/edi/dfa.go:358-377 | a live state can be spent by its controller; one that names another key, or was left before, is refused |
| Document.Engine.Originate | services-go/edi/dfa.go:306-335 | for any octets: opens a document in the initial state of its type, with the references, body hash and controller given, in its lock and in every verification of its head; exactly when it succeeds, the whole new state, satoshis conserved, unchanged on error |
| Document.OriginationVerifiesIff | services-go/edi/dfa.go:306-335 | an originated document can be verified exactly when all its strings are UTF-8 |
| Document.Engine.Transition | services-go/edi/dfa.go:338-381 | for any state: refuses unknown types and events without a transition; otherwise exactly when it succeeds; the new state, its lock, its record and every verification of its head are under the new controller if one is given and else the old, with the references and body hash of before; a state left before is refused with nothing changed |
| Document.TransitionVerifiesIff | services-go/edi/dfa.go:338-381 | a transition from a live state can be verified exactly when the name of the new state is UTF-8 |
| Document.Engine.Verify | services-go/edi/dfa.go:403-473 | on any head the fold of its lineage, which succeeds exactly when all tags verify and all images are payloads, or an error; on every document of the engine exactly the states visited, a path of its automaton from the initial state, with its references, body hash and the controller last given |
| Custody.Split | services-go/custody/custody.go:28-53 | share i is the point i + 1 of the polynomial with the secret and the draws, in order, as coefficients: secret + draws[0] x + draws[1] x^2 + ... modulo n; refused exactly for bad thresholds or failed draws |
| Custody.Horner | services-go/custody/custody.go:43-49 | the loop computes the value of the polynomial modulo n |
| Custody.Fraction | services-go/custody/custody.go:59-70 | the inner loop computes the numerator and denominator of a Lagrange weight |
| Custody.Recover | services-go/custody/custody.go:56-79 | succeeds exactly when the points are distinct modulo n, and gives the value at zero of every small enough polynomial through the shares |
| Custody.Reconstruction | services-go/custody/custody.go:28-79 | any threshold number of distinct dealt shares, in any order, gives the secret modulo n |
| Custody.OneShareShort | services-go/custody/custody.go:28-79 | one share short, recovery is right exactly when the last coefficient drawn is zero |
| Custody.Secrecy | services-go/custody/custody.go:28-53 | any fewer shares are dealt by some coefficients for every candidate secret, and by exactly one choice when one share is missing |
| Custody.PerfectSecrecy | services-go/custody/custody.go:28-53 | any fewer shares are dealt by equally many draws of coefficients for every two secrets, and by one for each when one share is missing |
| Custody.EquallyManyDraws | services-go/custody/custody.go:28-53 | of all ways the random source can answer, equally many make the split deal given shares for any two secrets, and exactly one when one share is missing |
| Polynomial.RootCount | services-go/custody/custody.go:56-79 | a polynomial with as many roots modulo a prime as coefficients vanishes |
| Polynomial.Unique | services-go/custody/custody.go:56-79 | small polynomials through the same points agree everywhere |
| Polynomial.Interpolates | services-go/custody/custody.go:56-79 | the Lagrange sum passes through its points |
| ModArith.ModInverseExists | services-go/custody/custody.go:71 | modulo a prime, exactly the numbers it does not divide have an inverse |
| Merkle.MerkleRoot | services-go/spv/spv.go:24-41 | the loop computes the root of the tree with odd levels padded |
| Merkle.RootOfEven | services-go/spv/spv.go:16-41 | an even number of leaves has the root of the double SHA-256 of its pairs |
| Merkle.RootOfOdd | services-go/spv/spv.go:24-41 | an odd number of leaves, more than one, has the root of itself with the last leaf repeated |
| Merkle.RootOfHalves | services-go/spv/spv.go:16-41 | the root of 2^(k+1) leaves is the double SHA-256 of the roots of its halves |
| Merkle.OneStep | services-go/spv/spv.go:69-81 | one step of the branch check, for both parities and signs of the index, in terms of SHA-256 |
| Merkle.BranchFor | services-go/spv/spv.go:44-66 | the siblings from leaf to root, or nothing exactly when the index is out of range |
| Merkle.Completeness | services-go/spv/spv.go:24-81 | the branch of every leaf folds to the root |
| Merkle.BranchLength | services-go/spv/spv.go:44-66 | every branch has the height of the tree |
| Merkle.HeightIsCeilLog2 | services-go/spv/spv.go:44-66 | the height is the binary logarithm of the number of leaves, rounded up |
| Merkle.Soundness | services-go/spv/spv.go:24-81 | a branch of the height of the tree that folds to the root proves that the leaf is in the block, at the index if in range, or one input hashed for the branch collides with one hashed for the tree |
| Merkle.LevelSoundness | services-go/spv/spv.go:69-81 | a branch that lacks l hashes of the height proves the same of the nodes l levels up |
| Merkle.InnerNodeFolds | services-go/spv/spv.go:69-81 | at every level, the node above a leaf folds to the root with the rest of the leaf's branch |
| Buri.PrintParse | services-go/spv/spv.go:94-116 | a reference parses back exactly when its fields hold no separator |
| Buri.ParseIff | services-go/spv/spv.go:103-116 | for every string: it parses exactly when it is the scheme and four fields between pipes, the third a number that 64 bits hold |
| Buri.AtoiIff | services-go/spv/spv.go:110 | which strings are numbers: digits with at most one sign and a value that 64 bits hold |
| Buri.DecodeHexIff | services-go/spv/spv.go:133-147 | which strings are hexadecimal, digit by digit |
| Buri.BuildBuri | services-go/spv/spv.go:119-130 | the reference of a leaf, nothing exactly when the index is out of range |
| Buri.Verify | services-go/spv/spv.go:133-147 | fails exactly on bad hexadecimal, and otherwise says whether the branch leads from the transaction to the root |
| Buri.ReferenceSound | services-go/spv/spv.go:133-147 | a reference that verifies names a transaction of the block if its branch has the height of the tree, a node l levels up if it lacks l hashes; or an input hashed for the branch collides with one hashed for the block |
| Buri.InnerReferenceProves | services-go/spv/spv.go:133-147 | at every level, the reference to the node above a leaf verifies with the rest of the leaf's branch |
| Buri.RoundTrip | services-go/spv/spv.go:94-147 | building, printing, parsing and verifying succeeds exactly when the block id has no pipe and the branch is not one empty hash |
| Pdf.ThreePassesAreOne | services-go/docrender/pdf.go:84-89 | the three replacement passes escape each octet once |
| Pdf.LiteralRoundTrip | services-go/docrender/pdf.go:84-89 | a PDF reader reads every escaped string back, up to line ends (section 7.3.4.2 of ISO 32000-1) |
| Pdf.NormalIff | services-go/docrender/pdf.go:84-89 | unchanged exactly when the string has no carriage return |
| Pdf.Content | services-go/docrender/pdf.go:95-106 | the loop writes the content stream |
| Pdf.ContentReadBack | services-go/docrender/pdf.go:95-106 | a reader of the stream shows every line and then finds the QR operators |
| Pdf.Assemble | services-go/docrender/pdf.go:116-131 | the loops write objects, table and trailer, with the offsets they noted |
| Pdf.RenderPdf | services-go/docrender/pdf.go:93-131 | for all lines and QR operators, the file made of the five objects around the content stream |
| Pdf.EntryWidth | services-go/docrender/pdf.go:126-128 | a table entry has 20 octets exactly when the offset is below 10^10 |
| Pdf.OffsetsAreRight | services-go/docrender/pdf.go:116-131 | each entry holds the offset at which its object begins, with its whole text there, and startxref the offset of the table (sections 7.5.4 and 7.5.5 of ISO 32000-1) |
| Pdf.StreamReadBack | services-go/docrender/pdf.go:108-114 | Length is the size of the stream, in which every line reads back (section 7.3.8.2 of ISO 32000-1) |

## Left out

- Pdf.OffsetsAreRight: assumes objects that end below 10^10 octets, the most that ten digits can say.
- TeWriter.Drain: names and values of a row are shorter than 2^30 octets, so that its record fits 32-bit lengths, and table and column names are UTF-8; PostgreSQL guarantees both.
- Mining after a broadcast always succeeds; the originals return an error if it fails, with the transaction already sent.
- Restarts: the writer starts with empty stream positions, as one run on a fresh schema does. Reorganisations and confirmation depth are not modelled.
- Failures of the database, the RPC connection, memory allocation and hexadecimal conversion of well-formed data.
- SHA-256, HMAC, HKDF, AES-GCM, secp256k1 arithmetic and transaction signatures.
- Funding, block polling, logging, command-line flags, JSON loading of definitions and document tables.
- `te.verify`, `te.render_pdf` and the registration of tables in SQL.
- Encryption of shares and bare multisignature scripts in the custody package.
- The DHT, overlay, bridge and compute services, and the other end-to-end drivers, which repeat the loops modelled here with fixed data.
- The text of the paper copy's lines and the drawing of the QR code: both are arbitrary strings here.
