# The CMS core of git-kmssign, in Dafny

This project models the Cryptographic Message Syntax code under `ietf-cms/`, what
`command_sign.go` does with it, and the user-id scanner of `parse_user_id.go`, and proves what they
guarantee. `dafny verify dfyconfig.toml` checks it all.

## What is modelled

* **The transcoder** (`Lengths`, `Ber`, `BerProofs`, `NormalForm`, `BerCode`). `BER2DER` reads one
  tag-length-value tree in any of the length forms of ITU-T X.690 section 8.1.3 and prints it with
  definite, minimal lengths. `Ber.Ber` is a tree with a length form chosen for every node;
  `Ber.Admissible` says which choices the reader takes. `BerCode` is the source's own code: offsets,
  loops, a shared output buffer and the `encodeIndent` counter, proved equal to the functions.
* **ASN.1 values** (`Asn1`, `Order`, `Numbers`). `encoding/asn1` on `RawValue`, structs read field by
  field from a schema, `bytes.Compare`, the order of SET OF encodings (X.690 section 11.6), and the
  numbers that INTEGER, tag and OBJECT IDENTIFIER octets stand for.
* **Attributes and structures** (`Attributes`, `Cms`, `WireProofs`, `Content`). AnySet, the two
  encodings of signed attributes, SignerInfo, SignedData and ContentInfo, and their way through
  `ToDER` and `ParseSignedData`.
* **Signing** (`Environment`, `Signing`, `SigningProofs`, `SigningCode`, `Runs`, `SigningFacts`).
  `SignedDataObject` is the SignedData object with the methods that update it; `Runs` has what holds
  after any sequence of calls, failed ones included.
* **Verification and timestamps** (`Timestamp`, `Nesting`, `Verification`, `VerifyCode`,
  `VerifySoundness`, `Acceptance`, `Tokens`, `Replies`). The loop over signers, the recursion into
  RFC 3161 tokens and the pool of intermediates that all levels share; what is accepted, in both
  directions.
* **The promise** (`SignVerify`, `EndToEnd`, `SignedMessages`, `SignSucceeds`, `ContentTypes`,
  `Timestamped`). Signing succeeds, and what was signed is accepted: in memory, detached, with
  timestamps, and after marshalling and parsing.
* **Every session** (`Sessions`, `SessionFacts`, `CommandSign`, `IncludeCerts`). Any sequence of AddSignerInfo,
  SetCertificates, Detached and AddTimestamps calls, failed ones included, also with `ToDER` and
  `ParseSignedData` between them, and exactly which results verify; the sequence of
  `command_sign.go` is one of them, with the certificates that `--include-certs` selects.
* **Witnesses** (`Witnesses`, `TokenWitness`, `CommandWitness`). Surroundings in which the hypotheses
  of the main results hold together, and inputs for their exceptions.
* **User ids** (`UserId`). The seven-state scanner against a declarative split.

## What the proofs brought out

* Signer and verifier build the same octets for every content type except those whose identifier
  takes exactly 32 octets. There the message-digest and content-type values are equally long,
  `sortAttributes` orders them by value, DER orders them by type, and the signature is made over
  another order than it is checked over (`SigningProofs.SignedIsVerified`,
  `ContentTypes.VerifiesExactly`). `Witnesses.LongTypeFails` shows such a content type: AddSignerInfo
  succeeds and Verify rejects the result.
* Given acceptable chains and tokens, what a session leaves behind verifies exactly when it has a
  signer, the certificates set last hold the certificate of every signer, and no signer was stamped
  twice (`Sessions.SessionDecides`). So what `command_sign.go` writes verifies exactly when the list
  it includes holds the signing certificate (`CommandSign.CommandDecides`).
* The result of a session is taken by VerifyDetached exactly when Detached was called in it, and then
  exactly for the messages with the digest of the one that was signed; Verify takes it exactly when
  Detached was not called (`SessionFacts.FormAndMessageDecide`, `SessionFacts.WrongFormRefused`).
* With a chain check that looks at the validity of the certificate, a verified timestamp makes the
  present irrelevant, and a time that the caller states makes the timestamp irrelevant
  (`Acceptance.OutlivesCertificate`); `TokenWitness.StampOutlives` is a signature that verifies with
  its timestamp and not without.
* `--include-certs` leaves the signing certificate out exactly with 0 and, when that certificate is
  self-issued, with -2, -3 and anything below if nothing above it is kept
  (`IncludeCerts.LeafIncluded`, `CommandSign.OptionDecides`). For a certificate that signed itself
  the default therefore writes a message that does not verify, and -1 or any positive number one
  that does (`CommandWitness.SelfSignedNeedsAll`), as docs/kmssign.md:91-94 advises.
* `BER2DER` is a fixed point on its own output exactly when the outermost content is below 2^31
  octets; from there on it prints lengths that it does not read (`NormalForm.Idempotent`, with an
  input in `NormalForm.LongOutputRejected`).
* A definite value does not confine its last child (`NormalForm.ChildMayOverrun`), so the language
  theorem is about well-nested input; idempotence and termination need no such hypothesis.
* A constructed content whose chunks hold no octets reads as missing content, an empty primitive one
  does not (`Content.SplitAsUnsplit`).
* A parsed message can be written and read again exactly when its content is not a [0] without a
  child. Such content is accepted when another element follows it, and is lost on the way back
  (`Nesting.Reparsed`, `Witnesses.ContentLost`).
* Octets after a message are dropped by `BER2DER`, so the trailing-data error of `ParseContentInfo`
  cannot occur (`Content.NeverTrailing`).
* The duplicate test of `AddCertificate` never stops a certificate that was just added
  (`SignSucceeds.DuplicateAccepted`).
* Nested verification ends on every message, also when attribute values or tokens sit in primitive
  values, because the pair of largest primitive content and number of nodes gets smaller
  (`Nesting.NestedTokenSmaller`).
* The window check on a timestamp puts the whole interval inside the certificate's validity exactly
  for accuracies below 2^63 nanoseconds (`Timestamp.WindowGuards`). `Accuracy.Duration` multiplies in
  64 bits, so an accuracy of 18446744074 seconds, 584 years, counts as 0.29 seconds and passes for a
  certificate that is valid for two seconds (`Timestamp.OverflowingAccuracy`). The check
  and the interval agree exactly when the accuracy is not negative either (`Timestamp.WindowExact`), and
  the stated time is guarded exactly when the computed duration is not negative
  (`Timestamp.StatedTimeInside`).
* `MessageImprint.Equal` is an equivalence on parsed imprints. On imprints built by hand it is not
  transitive through any one without parameter content (`Timestamp.TransitiveThrough`).
* Formatting and parsing a user id are inverse exactly on trimmed parts that do not contain the sign
  that ends them (`UserId.FormatParse`).

## How it is modelled

* Go's `int` has 64 bits; lengths are below 2^63. An index past the end of a slice is the outcome
  `IndexOutOfRange`, a `Cmp` on a nil nonce is `NilDereference`; in Go both are panics.
* OBJECT IDENTIFIER and INTEGER values are their DER content octets; class, tag number and compound
  flag of a RawValue are its identifier octets. A nil slice is `None`.
* Hashing, signing, signature checks, certificate parsing, chain building and the field layout of a
  TSTInfo are functions in the records `Crypto`, `Signer` and `World`. The clock, the nonce and the
  answer of the timestamp service are inputs. `Certificate` is a record.
* What the theorems ask of these is named: `Sha256Length`, `Correct`, `CallExact`, `CallSeen`,
  `ProperCertificate`, `Distinguishable`, `ChainAccepts`, `TokenAccepted`, `Complete`. `Correct` is
  that a signer's own signatures pass under every certificate that x509 reads with its key;
  `CallSeen`, that the digest tells the two orders of the attributes of one call apart; `CallExact`,
  that the signature over the one order does not pass for the other if the digests differ.
* `sort.Slice` is modelled as an in-place insertion sort. Another algorithm may place attributes with equal values
  differently, and nothing depends on their order beyond the sorted keys (`Order.SortedUnique`).
* The digest is SHA-256 for every key, as `AddSignerInfo` passes the marshalled key on
  (protocol.go:662). The duplicate test of `AddCertificate` sets content octets against a whole
  encoding (protocol.go:776), and the key-identifier lookup sets the identifier against the wrapped
  extension value (protocol.go:443); both are kept.
* Where comments and code differ the code is followed: signed attributes may be missing only for
  id-data content (the comments at verify.go:72 and verify.go:74 disagree), `sortAttributes` looks at
  values and not at whole attributes, `BER2DER` changes lengths only, not the order of sets or
  constructed strings, and `--include-certs=-3` drops everything above the first certificate it can
  do without, where main.go:39 speaks of that issuer alone. A root is a certificate with the same
  issuer and subject name.

## Model

| member | source | states |
|---|---|---|
| Lengths.LengthLength | ietf-cms/protocol/ber.go:92-99 | the shift loop returns the least octet count whose base-256 range holds the length |
| Lengths.OctetCountLeast | ietf-cms/protocol/ber.go:91-99 | a length fits into k octets if and only if the count is at most k |
| Lengths.DigitAt | ietf-cms/protocol/ber.go:78-89 | octet j of the digits is the length shifted right by the remaining octets, modulo 256 |
| Lengths.FirstDigit | ietf-cms/protocol/ber.go:78-89 | the digits written carry no leading zero |
| Lengths.MarshalLongLength | ietf-cms/protocol/ber.go:78-89 | the loop appends exactly the base-256 digits, most significant first |
| Lengths.WriteLength | ietf-cms/protocol/ber.go:115-133 | appends the short form below 128, the long form from there on, and nothing else |
| BerProofs.LengthScan | ietf-cms/protocol/ber.go:161-186 | the length reader inverts every length form that fits, takes exactly its octets, and ignores what follows |
| BerProofs.LengthRecovered | ietf-cms/protocol/ber.go:161-186 | whatever length was read, the octets taken are one of those forms and the length is below 2^31 |
| BerProofs.LengthRoundTrip | ietf-cms/protocol/ber.go:115-186 | reading back what encodeLength wrote gives the length if and only if it is below 2^31 |
| BerProofs.ParseEncoded | ietf-cms/protocol/ber.go:135-240 | every admissible encoding, followed by anything, is read as its tree and not one octet more |
| BerProofs.ParseSound | ietf-cms/protocol/ber.go:135-240 | a successful well-nested read took exactly an admissible encoding of the tree it returned |
| BerProofs.ParseLanguage | ietf-cms/protocol/ber.go:135-240 | readObject returns a tree after n octets if and only if these are an admissible encoding of it, on well-nested input |
| BerProofs.ParseValid | ietf-cms/protocol/ber.go:135-240 | also a badly nested read returns a tree with proper identifiers, kinds and recorded lengths |
| NormalForm.LengthPrefixFree | ietf-cms/protocol/ber.go:115-133 | no length encoding is a proper prefix of another |
| NormalForm.DerInjective | ietf-cms/protocol/ber.go:18-54 | printed trees that agree as octets, whatever follows, are the same tree |
| NormalForm.ReadsBack | ietf-cms/protocol/ber.go:18-240 | a printed tree reads back as itself and takes exactly the printed octets |
| NormalForm.NormalFormOfEncoding | ietf-cms/protocol/ber.go:57-75 | BER2DER gives the tree's definite, minimal encoding for every choice of length forms |
| NormalForm.SameOutputSameTree | ietf-cms/protocol/ber.go:57-75 | two admissible inputs have the same output if and only if they denote the same tree |
| NormalForm.Idempotent | ietf-cms/protocol/ber.go:57-75 | the output of any accepted input is a fixed point read to its end if and only if the outermost content is below 2^31 octets; otherwise it is rejected |
| NormalForm.LongOutputRejected | ietf-cms/protocol/ber.go:57-75 | a concrete accepted input of two 2^30-octet strings whose output is rejected |
| NormalForm.ParseExtends | ietf-cms/protocol/ber.go:135-248 | more octets at the end change no success and no header error, through the whole recursion |
| NormalForm.ExtensionIndependent | ietf-cms/protocol/ber.go:57-75 | BER2DER gives the same result with any octets appended |
| NormalForm.ChildMayOverrun | ietf-cms/protocol/ber.go:208-239 | a concrete accepted input whose child runs past its parent |
| BerCode.EncodeTo | ietf-cms/protocol/ber.go:18-54 | appends the tree's encoding to the shared buffer and leaves the indent counter as it was |
| BerCode.EncodeAll | ietf-cms/protocol/ber.go:21-28 | the loop over the children fills the inner buffer with their encodings in order |
| BerCode.ScanTag | ietf-cms/protocol/ber.go:137-150 | the offset loop over identifier octets ends where the identifier ends, or panics past the input |
| BerCode.ScanLength | ietf-cms/protocol/ber.go:160-186 | the offset loop over length octets computes the length read by the specification, with each error in its place |
| BerCode.IsIndefiniteTermination | ietf-cms/protocol/ber.go:242-248 | 00 00 at the offset, or an error when fewer than two octets are left |
| BerCode.ReadChildren | ietf-cms/protocol/ber.go:207-227 | the loop collects the same children and stops at the same offset as the specification, with octets left as its measure |
| BerCode.ReadObject | ietf-cms/protocol/ber.go:135-240 | ends on every input, returns the specified tree, and moves at least two octets on |
| BerCode.BER2DER | ietf-cms/protocol/ber.go:57-75 | the transcoder as written returns the specified octets or error |
| Asn1.UnmarshalLanguage | ietf-cms/protocol/any_set.go:32-39 | a RawValue is split off if and only if it is the written TLV at the front of the input, with the rest returned |
| Asn1.UnmarshalAllConcat | ietf-cms/protocol/any_set.go:30-39 | consuming the concatenation of written elements returns these elements in order |
| Asn1.UnmarshalAllInverse | ietf-cms/protocol/any_set.go:30-39 | elements consumed from an input concatenate to exactly that input |
| Asn1.FieldsRoundTrip | ietf-cms/protocol/protocol.go:409-417 | a struct written field by field reads back with every field, absent optional ones included |
| Numbers.IntegerExactly | ietf-cms/protocol/protocol.go:356-359 | INTEGER contents are taken if and only if they are the shortest two's complement of their number |
| Numbers.SameNumber | ietf-cms/protocol/protocol.go:430 | two serial numbers are equal if and only if their octets are |
| Numbers.Int64Exactly | ietf-cms/protocol/protocol.go:409-410 | the contents of an int field are taken if and only if their number fits 64 bits |
| Numbers.OidExactly | ietf-cms/protocol/protocol.go:101-103 | OBJECT IDENTIFIER contents are taken if and only if they are numbers below 2^31, each in its shortest base-128 form |
| Numbers.SameArcs | ietf-cms/protocol/protocol.go:796 | two identifiers are equal if and only if their octets are |
| Numbers.IdentifierExactly | ietf-cms/protocol/any_set.go:30-38 | identifier octets are taken if and only if tag numbers below 31 are in the first and larger ones in shortest form below 2^31 after it |
| Order.ShorterFirst | ietf-cms/protocol/protocol.go:740-751 | of two TLVs with one identifier the one with the shorter content sorts first, whatever the contents |
| Order.SortedUnique | ietf-cms/protocol/protocol.go:740-751 | a collection of encodings has one sorted arrangement, whichever algorithm finds it |
| Order.SortByKeys | ietf-cms/protocol/protocol.go:740-751 | sorting values by key is a permutation whose keys are the sorted keys |
| Attributes.AnySetRoundTrip | ietf-cms/protocol/any_set.go:20-63 | decoding after encoding returns the elements if and only if the destination held no content before |
| Attributes.AnySetFullBytes | ietf-cms/protocol/any_set.go:46-63 | FullBytes is the encoding of the set if and only if the destination had none, or that one, before |
| Attributes.AnySetExactly | ietf-cms/protocol/any_set.go:20-42 | a set is decoded if and only if it is one and its elements fill it to the end |
| Attributes.EncodeSet | ietf-cms/protocol/any_set.go:46-63 | the loop over elements leaves the destination as specified |
| Attributes.DecodeSet | ietf-cms/protocol/any_set.go:20-42 | the loop that consumes the content returns all elements or the first error |
| Attributes.NewAttributeSingle | ietf-cms/protocol/protocol.go:214-233 | NewAttribute wraps exactly the encoded value into a one-element SET |
| Attributes.NewAttributeFound | ietf-cms/protocol/protocol.go:214-315 | the value given to NewAttribute is found again if and only if its type occurs once |
| Attributes.GetOnlyExact | ietf-cms/protocol/protocol.go:298-315 | succeeds with a value if and only if the type occurs once and its set has that one element |
| Attributes.CollectValues | ietf-cms/protocol/protocol.go:317-338 | the loop collects the value sets of the type in order, or the first error |
| Attributes.SigningMatchesVerification | ietf-cms/protocol/protocol.go:248-296 | signer and verifier build the same octets from one list if and only if its encodings are ascending |
| Attributes.SortsAgree | ietf-cms/protocol/protocol.go:740-751 | with types of equal and values of different lengths, sorting by value gives the order of whole encodings |
| Attributes.SameLengthOrder | ietf-cms/protocol/protocol.go:740-751 | with values of equal length the types decide the order of the encodings and the contents that of the values |
| Attributes.DistinctLengthsAgree | ietf-cms/protocol/protocol.go:256-296 | for any number of such attributes, what is signed after sortAttributes is what is verified from the stored order |
| Attributes.SortInPlace | ietf-cms/protocol/protocol.go:740-751 | the slice is left in the order of the value encodings |
| Attributes.SiftDown | ietf-cms/protocol/protocol.go:740-751 | one element moves down past every larger one, the rest of the slice stays |
| Cms.GetEContentValue | ietf-cms/protocol/protocol.go:136-186 | the loop joins the chunks in order and reports the first bad one |
| WireProofs.SignerRoundTrip | ietf-cms/protocol/protocol.go:409-417 | a SignerInfo is read back with signed attributes in stored order and unsigned ones sorted |
| WireProofs.SignedRoundTrip | ietf-cms/protocol/protocol.go:601-608 | a SignedData is read back with its sets in DER order and all else unchanged |
| WireProofs.ParseAfterToDer | ietf-cms/signed_data.go:30-83 | ParseSignedData after ToDER, through BER2DER, gives the same SignedData with its sets in DER order |
| Content.ChunkedValue | ietf-cms/protocol/protocol.go:136-186 | content split into any chunks has their concatenation as its value, or none when that is empty |
| Content.ValueExactly | ietf-cms/protocol/protocol.go:139-186 | a content value is read if and only if the content is one whole OCTET STRING, primitive or constructed of primitive ones; what it is then |
| Content.SplitAsUnsplit | ietf-cms/protocol/protocol.go:113-186 | split and unsplit content have the same value if and only if it is not empty |
| Content.AnyFormParses | ietf-cms/signed_data.go:30-43 | all length forms of one tree parse to the same message |
| Content.ChunkedMessageVerifies | ietf-cms/verify.go:18-28 | a message cut into chunks and written in any length forms gets the answer of the unsplit one, or counts as detached when empty |
| Content.TrailingIgnored | ietf-cms/protocol/ber.go:64-74 | octets after a message do not change what is parsed |
| Content.NeverTrailing | ietf-cms/protocol/protocol.go:63-79 | ParseContentInfo never reports trailing data |
| Environment.SignatureTablesAgree | ietf-cms/oid/oid.go:93-142 | the OID chosen for a key and digest is read back as that key's algorithm with that digest |
| Environment.AlgorithmNamed | ietf-cms/protocol/protocol.go:492-505 | for every pair of OIDs the algorithm is the key and digest that the signature OID names, or the key it names with the digest of the other |
| Environment.KeyOidWithDigest | ietf-cms/oid/oid.go:91-110 | a key OID as signature algorithm takes the digest of the digest algorithm, for RSA with every digest and for ECDSA with all but MD5 |
| Numbers.TypeTable | ietf-cms/oid/oid.go:11-18 | content and attribute types are the octets of their dotted numbers |
| Numbers.AlgorithmTable | ietf-cms/oid/oid.go:20-142 | every digest and every pair of key and digest stands for its dotted numbers |
| SigningProofs.SignedIsVerified | ietf-cms/protocol/protocol.go:700-751 | for the three generated attributes the signed and the verified octets agree if and only if the content type does not take 32 octets |
| SigningProofs.BuiltAttributes | ietf-cms/protocol/protocol.go:700-718 | the stored attributes are the sorted time, digest and type |
| SigningProofs.GeneratedFound | ietf-cms/protocol/protocol.go:700-718 | each generated attribute is found once in the stored list with the value put in |
| SigningCode.SignedDataObject.constructor | ietf-cms/protocol/protocol.go:611-625 | a new object is the empty message of version 1 or 3 |
| SigningCode.SignedDataObject.AddCert | ietf-cms/protocol/protocol.go:774-789 | appends the parsed certificate, or changes nothing and says why |
| SigningCode.SignedDataObject.SetCertificates | ietf-cms/signed_data.go:59-67 | clears the set, then adds one by one up to the first failure |
| SigningCode.SignedDataObject.Detached | ietf-cms/signed_data.go:71-73 | removes the content and nothing else |
| SigningCode.SignedDataObject.AddDigestAlgorithm | ietf-cms/protocol/protocol.go:792-800 | appends the algorithm unless it is there |
| SigningCode.SignedDataObject.AddCertChain | ietf-cms/protocol/protocol.go:640-652 | adds the chain and picks the last certificate with the signer's key |
| SigningCode.SignedDataObject.AddSigner | ietf-cms/protocol/protocol.go:628-738 | the new state and error are those of the specification, in every branch |
| SigningCode.SignedDataObject.Timestamp | ietf-cms/timestamp.go:17-36 | fetches every token before attaching the first |
| SigningCode.SignedDataObject.AppendTokens | ietf-cms/timestamp.go:31-33 | appends token i to SignerInfo i and nothing else |
| SigningCode.FetchTokens | ietf-cms/timestamp.go:25-29 | one token per SignerInfo in order, or the first error |
| SigningCode.BuildSigner | ietf-cms/protocol/protocol.go:657-731 | the SignerInfo with its attributes sorted in place, or the first error |
| SigningFacts.CertificateExactly | ietf-cms/protocol/protocol.go:774-789 | a certificate is appended if and only if it parses and is not the content of one that is there; otherwise nothing changes |
| SigningFacts.ChainExactly | ietf-cms/protocol/protocol.go:640-655 | the chain is added if and only if every certificate fits, whole and in order, and the last one with the signer's key is picked |
| SigningFacts.SetExactly | ietf-cms/signed_data.go:59-67 | SetCertificates leaves the certificates up to the first that cannot be added, instead of those before, and nothing else changes |
| SigningFacts.SignerAdded | ietf-cms/protocol/protocol.go:628-738 | a successful AddSignerInfo on any SignedData: which certificate signed, every field of the new SignerInfo, and that nothing else changed |
| SessionFacts.NewSignerTime | ietf-cms/protocol/protocol.go:701-704 | the signing time attribute of the new signer is the clock's time, as UTCTime or GeneralizedTime |
| Runs.FailureKeepsState | ietf-cms/protocol/protocol.go:628-738 | a failed AddSignerInfo changes nothing but the certificates |
| Runs.DetachedRefuses | ietf-cms/signed_data.go:69-73 | after Detached every AddSignerInfo fails |
| Runs.ReachableConsistent | ietf-cms/protocol/protocol.go:611-738 | after any sequence of calls on the object DigestAlgorithms is exactly what the signers use, once, and every signer holds the digest of the original content |
| Timestamp.EqualIsEquivalence | ietf-cms/timestamp/timestamp.go:399-412 | MessageImprint.Equal is reflexive and symmetric on all imprints and transitive on those whose parameters were parsed or left out |
| Timestamp.TransitiveThrough | ietf-cms/timestamp/timestamp.go:399-412 | among all imprints equality passes through one if and only if its parameters have content |
| Timestamp.DurationValue | ietf-cms/timestamp/timestamp.go:425-430 | the duration is the accuracy in nanoseconds modulo 2^64, and exact within int64 |
| Timestamp.WindowGuards | ietf-cms/timestamp/timestamp.go:333-354 | acceptance puts the whole interval inside every validity period if and only if the accuracy is below 2^63 nanoseconds |
| Timestamp.WindowExact | ietf-cms/timestamp/timestamp.go:333-354 | acceptance and the interval agree on every period if and only if the accuracy is neither negative nor 2^63 nanoseconds and more |
| Timestamp.OverflowingAccuracy | ietf-cms/timestamp/timestamp.go:425-430 | an accuracy of 584 years is computed as 290448384 nanoseconds and passes for a validity of two seconds |
| Timestamp.StatedTimeInside | ietf-cms/timestamp/timestamp.go:333-354 | acceptance implies that the stated time is in the period if and only if the computed duration is not negative |
| Nesting.ParsedDeep | ietf-cms/signed_data.go:30-43 | everything held by a message that ParseSignedData returned is well formed and DER all the way down |
| Nesting.Reparsed | ietf-cms/signed_data.go:30-83 | a parsed message, marshalled and parsed again, is the same up to DER order of its sets if and only if its content is not an empty [0]; otherwise it is rejected |
| Nesting.ParseMaxPrimitive | ietf-cms/protocol/ber.go:200-205 | a primitive content is at least two octets shorter than the input it was read from |
| Nesting.NestedTokenSmaller | ietf-cms/timestamp.go:80-119 | the token a message carries is strictly smaller than the token the message was parsed from |
| VerifyCode.VerifyAttached | ietf-cms/verify.go:18-28 | result and shared pool are those of the specification |
| VerifyCode.VerifyDetachedMessage | ietf-cms/verify.go:37-42 | result and shared pool are those of the specification; attached content is refused |
| VerifyCode.AddAll | ietf-cms/verify.go:58-60 | all certificates of the message join the caller's pool |
| VerifyCode.VerifyMessage | ietf-cms/verify.go:44-174 | the loop returns one chain entry per signer in order or no chains at all, and ends on every message |
| VerifyCode.VerifyOne | ietf-cms/verify.go:69-169 | one round of the loop, with the options copied for this signer only |
| VerifyCode.FindTimestamp | ietf-cms/timestamp.go:80-119 | the recursion into a token returns the specified result and pool |
| VerifySoundness.SignedMessageExactly | ietf-cms/verify.go:72-121 | the signed octets are found if and only if type and digest attributes occur once and match, and are then the rebuilt ones; or attributes are missing and the content is id-data |
| VerifySoundness.FoundExactly | ietf-cms/protocol/protocol.go:419-477 | a certificate is found if and only if it is the first of the message that the signer identifier names, by issuer and serial number or by key identifier |
| VerifySoundness.CertificatesExactly | ietf-cms/protocol/protocol.go:803-829 | the certificates of a message are read if and only if each is a SEQUENCE that x509 reads; they come in order |
| VerifySoundness.CheckSignerExactly | ietf-cms/verify.go:72-135 | a certificate is accepted for a signer if and only if it is the one identified and the signature check passes with it on the right octets |
| VerifySoundness.HasTimestampExact | ietf-cms/timestamp.go:122-129 | true if and only if a token attribute is present |
| VerifySoundness.TimestampExactly | ietf-cms/timestamp.go:80-119 | getTimestamp returns a TSTInfo if and only if the only token is a verified SignedData of type id-ct-TSTInfo that holds it, with version 1 and the imprint of this signature |
| VerifySoundness.SignerExactly | ietf-cms/verify.go:69-169 | a chain entry is returned for a signer if and only if identity, signature, timestamp, window and chain at the right time are all accepted |
| VerifySoundness.StampInsideValidity | ietf-cms/verify.go:148-158 | for an accepted timestamp the certificate was valid throughout the interval, for every accuracy below 2^63 nanoseconds |
| VerifySoundness.MessagePoolGrows | ietf-cms/verify.go:54-60 | verification only adds to the shared pool, through nested tokens as well |
| VerifySoundness.VerifySound | ietf-cms/verify.go:44-174 | success means at least one signer, one entry per signer in order, and every signer accepted |
| Acceptance.ContentExactly | ietf-cms/verify.go:44-174 | verify returns these chains if and only if there is a signer, all certificates parse, and each signer is accepted with the pool the one before it left |
| Acceptance.AttachedExactly | ietf-cms/verify.go:18-28 | Verify succeeds if and only if there is content and every signer is accepted over it; without content it reports a detached signature |
| Acceptance.DetachedExactly | ietf-cms/verify.go:37-42 | VerifyDetached succeeds if and only if there is no content and every signer is accepted over the given message; with content it is refused and the pool unchanged |
| Acceptance.TimeDecides | ietf-cms/verify.go:137-166 | for a signer with an acceptable token the chain check decides, at the stated time, and at the token's time if none is stated |
| Acceptance.OutlivesCertificate | ietf-cms/verify.go:137-166 | with a chain check on the validity, a timestamped signer passes whatever the present, one without passes exactly while its certificate is valid |
| Acceptance.SidExactly | ietf-cms/protocol/protocol.go:456-468 | a signer identifier is read as issuer and serial number if and only if it is a SEQUENCE that begins with these two TLVs |
| Tokens.TokenReparsed | ietf-cms/timestamp.go:57 | a marshalled token parses to the same ContentInfo and is a fixed point of BER2DER |
| Replies.ReplyExactly | ietf-cms/timestamp/timestamp.go:111-160 | a reply is read as granted with a SignedData token if and only if its status INTEGER is 0 and its fields are well formed, in any BER form |
| Replies.MatchExactly | ietf-cms/timestamp.go:60-78 | a TSTInfo matches the request of a signer if and only if it has the nonce and the digest of the signature by the signer's algorithm |
| Replies.NoNilNonce | ietf-cms/timestamp/timestamp.go:68-78 | comparing nonces never dereferences nil for the requests that fetchTS makes |
| Replies.FetchExactly | ietf-cms/timestamp.go:38-58 | fetchTS returns a token if and only if the reply was granted with that token and its TSTInfo answers the request |
| Tokens.FetchedToken | ietf-cms/timestamp.go:38-58 | the attribute of a fetched token holds one value, which parses to the SignedData and the TSTInfo that were checked |
| Tokens.AttachedTokenChecks | ietf-cms/timestamp.go:17-119 | once attached, the token is accepted if and only if its version is 1 and its own signatures verify |
| Tokens.AllOrNothing | ietf-cms/timestamp.go:17-36 | every SignerInfo gets exactly one more token or nothing changes, and which of the two |
| Tokens.SecondRoundRejected | ietf-cms/timestamp.go:17-119 | after two successful rounds every signer's timestamp is rejected |
| SignVerify.SidNames | ietf-cms/protocol/protocol.go:361-469 | the identifier made from a certificate is read back as its issuer and serial number |
| SignVerify.MadeSigner | ietf-cms/protocol/protocol.go:657-731 | the signature of AddSignerInfo passes the check on the signed octets, and these are the rebuilt ones if and only if the content type does not take 32 octets |
| SignVerify.SignerChecks | ietf-cms/verify.go:69-135 | every check on such a signer passes and ends at the signing certificate |
| EndToEnd.RunBuilt | ietf-cms/protocol/protocol.go:628-738 | after any calls each signer was made by one of them with a certificate that is in the message |
| EndToEnd.ReadyVerifies | ietf-cms/verify.go:44-174 | a message of such signers verifies with one chain entry per signer |
| SignedMessages.SignedVerifies | ietf-cms/verify.go:18-174 | every message signed with another content type than one of 32 octets verifies attached and, after Detached, detached |
| SignedMessages.ParsedMessageVerifies | ietf-cms/sign.go:12-23 | what Sign returns parses and verifies, with one chain entry per successful call |
| SignedMessages.ParsedDetachedVerifies | ietf-cms/sign.go:29-42 | what SignDetached returns parses and verifies against the message |
| SignSucceeds.ChainSucceeds | ietf-cms/protocol/protocol.go:640-655 | a chain of readable certificates without clashes is added whole, and a signer certificate is found if and only if one has the key |
| SignSucceeds.DuplicateAccepted | ietf-cms/protocol/protocol.go:774-789 | a certificate that was just added can be added again: the duplicate test never stops it |
| SignSucceeds.FirstCallSucceeds | ietf-cms/protocol/protocol.go:628-738 | AddSignerInfo does not fail on a new message when key, chain, clock and signer are in order |
| SignSucceeds.SignThenVerify | ietf-cms/sign.go:12-49 | such a call succeeds and its result verifies, attached and detached |
| SignSucceeds.AssumptionsMet | ietf-cms/sign.go:12-49 | surroundings exist in which every assumption of the previous row holds, for every content |
| ContentTypes.SignerFails | ietf-cms/verify.go:118-135 | with a content type of 32 octets the signature check fails |
| ContentTypes.VerifiesExactly | ietf-cms/protocol/protocol.go:714-751 | what was signed verifies, attached and detached, if and only if the content type does not take 32 octets |
| Witnesses.LongTypeFails | ietf-cms/protocol/protocol.go:714-751 | a concrete content type of 32 octets for which all hypotheses hold, AddSignerInfo succeeds and Verify fails |
| Witnesses.ContentLost | ietf-cms/protocol/protocol.go:102-105 | a concrete message that parses, and whose marshalled form does not |
| Witnesses.AttributesWritten | ietf-cms/protocol/protocol.go:206-296 | what is signed and verified over a small attribute, octet by octet |
| Witnesses.MessageWritten | ietf-cms/protocol/protocol.go:409-608 | a small message octet by octet: every field of ContentInfo, SignedData and SignerInfo in its place with its tag |
| Timestamped.StampedSigner | ietf-cms/verify.go:137-169 | a signer with a fetched and acceptable token passes, and its certificates stay in the pool |
| Timestamped.TimestampedVerifies | ietf-cms/timestamp.go:17-36 | signed and timestamped messages verify attached and detached |
| Timestamped.ParsedTimestampedVerifies | ietf-cms/signed_data.go:30-83 | the attached one does so after ToDER and ParseSignedData |
| Timestamped.ParsedDetachedTimestampedVerifies | ietf-cms/signed_data.go:30-83 | and so does the detached one |
| TokenWitness.TimestampsMet | ietf-cms/timestamp.go:17-58 | surroundings exist in which a round of timestamps succeeds and its tokens are accepted, for every content |
| TokenWitness.StampOutlives | ietf-cms/verify.go:137-162 | a message that does not verify without a stated time, and does once a timestamp was added |
| Sessions.ReloadKeeps | ietf-cms/signed_data.go:30-83 | at any point of a session writing and reading back succeeds, gives the canonical message and keeps the invariants |
| Sessions.FinishedAssembled | ietf-cms/signed_data.go:30-83 | after any sequence of calls and reloads each signer was made by one of the calls and carries only tokens fetched for it |
| Sessions.AcceptedAcceptable | ietf-cms/verify.go:69-169 | a signer that was accepted has its certificate in the message and at most one token |
| Sessions.SessionDecides | ietf-cms/verify.go:18-174 | the result of any sequence of calls and reloads verifies if and only if it has a signer, every signer's certificate is present and none has two tokens; with a content type of 32 octets it does not |
| Sessions.ParsedSessionDecides | ietf-cms/signed_data.go:30-83 | the same after ToDER and ParseSignedData |
| SessionFacts.DetachedOnce | ietf-cms/signed_data.go:69-73 | after any session the content is gone if and only if Detached was called in it |
| SessionFacts.WrongFormRefused | ietf-cms/verify.go:18-42 | VerifyDetached refuses the result of a session without Detached, whatever message it is given, and Verify that of one with it; the same after ToDER and ParseSignedData |
| SessionFacts.FormAndMessageDecide | ietf-cms/verify.go:18-174 | for every session and message: which of Verify and VerifyDetached succeeds, and that the latter takes exactly the messages with the digest of the signed one |
| SessionFacts.ParsedFormAndMessageDecide | ietf-cms/signed_data.go:30-83 | the same after ToDER and ParseSignedData |
| SessionFacts.SessionRecords | ietf-cms/protocol/protocol.go:683-731 | every signer, before and after ToDER and ParseSignedData, tells certificate and time of the call that made it, and digest and type of the message |
| CommandSign.CommandState | command_sign.go:56-87 | the written message has one signer, a token and no content if asked for, and exactly the certificates that were set |
| CommandSign.CommandDecides | command_sign.go:56-87 | what the program writes is parsed and verified if and only if the included list holds the signing certificate |
| IncludeCerts.CertsForSignature | command_sign.go:135-162 | the branches and the loop that cuts the chain give the specified list |
| IncludeCerts.IncludedExactly | command_sign.go:135-181 | for every option the list is the front of the chain, and a position is kept if and only if the option says so of the chain around it |
| IncludeCerts.LeafIncluded | command_sign.go:135-181 | the first certificate is included if and only if the option is not 0 and does not take it for a root on its own |
| IncludeCerts.NoAddresses | command_sign.go:144-157 | without Authority Information Access addresses -3 includes what -2 does, whatever the names |
| IncludeCerts.LeafAddresses | command_sign.go:144-155 | with addresses in the first certificate and its issuer next, -3 includes no other certificate |
| CommandSign.OptionDecides | command_sign.go:56-181 | what the program writes is parsed and verified if and only if the option keeps the signing certificate, for every option and chain |
| CommandWitness.SelfSignedNeedsAll | docs/kmssign.md:91-94 | all hypotheses of the previous row hold in one world for every option; a self-signed certificate needs -1 or a positive number |
| UserId.SplitShape | parse_user_id.go:43-112 | the three spans are in bounds, ordered, disjoint and set off by their signs |
| UserId.SplitPresence | parse_user_id.go:43-112 | when each part is there: a comment after '(', an email at the first '<' from where the search begins |
| UserId.TrimExactly | parse_user_id.go:108-111 | a trimmed part is what is left between the spaces on both sides, and nothing else |
| UserId.ScanUserId | parse_user_id.go:43-112 | the state machine finds the first-delimiter split |
| UserId.ParsedPlain | parse_user_id.go:108-111 | every parsed part is trimmed and free of the sign that ends it |
| UserId.FormatParse | parse_user_id.go:41-112 | formatting and parsing give the parts back if and only if they are trimmed and free of the signs that end them |
| UserId.ParseNormalises | parse_user_id.go:41-112 | a parsed user id written in the standard form parses to the same parts |

## Left out

- SignedMessages.SignedVerifies: stays with version 1 signer identifiers, the only ones AddSignerInfo makes.
- SignedMessages.ParsedMessageVerifies: is about messages below 2^31 octets, since BER2DER reads no longer ones.
- BerProofs.ParseLanguage: is about well-nested input, since a child that overruns its parent has no encoding of its own.
- BerCode.ReadObject: does not compute the tag number, which the source computes and never uses.
- BerCode.EncodeTo: leaves out the error results of bytes.Buffer, which are always nil.
- Attributes.MarshaledForVerification: the overwritten tag octet is a value update; the slice it shares with Go's decoder is not modelled.
- Cms.ParseSignedData: Go's reflective decoder beyond what these structs use; BIT STRING contents, times and the layout of a TSTInfo are not taken apart.
- Attributes.NewAttribute: the encoding of its argument by asn1.Marshal is an input; a signing time is 13 or 15 octets of any content.
- UserId.ScanUserId: works on sequences of characters; octets that are not UTF-8 are not part of this model.
- Real cryptography, X.509 parsing and path building, revocation: parameters with named assumptions.
- The HTTP exchange of Request.Do, nonce randomness and the clock: inputs.
- PKIStatusInfo.Error and PKIFreeText: text only.
- GetSigningTimeAttribute, GetData, GetCertificates, DataEContent, IsDetached: short accessors.
- OID tables beyond digests and signature algorithms.
- Runs.ReachableConsistent: is about calls on one object; `Sessions.FinishedAssembled` has it with ToDER and ParseSignedData between the calls, for certificates in DER.
- Sessions.SessionDecides: asks that every message written and read again on the way is below 2^31 octets, since BER2DER reads no longer ones.
- CommandSign.OptionDecides: takes the chain from the certificate store as an input whose first element is the signing certificate.
- The certificate stores, the Azure signer, flags and files of the command line, status output, installers and the fake CA: no algorithm of their own beyond guards.
