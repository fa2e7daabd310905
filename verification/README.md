# A verified model of the TPM 2.0 command stack

The stack talks to a TPM 2.0: it marshals typed commands, authorizes them by
password or by an HMAC session with rolling nonces, frames them, exchanges the
frames over some transport, resubmits on transient warnings, unframes replies,
checks the session HMAC and unmarshals results.  This project models that stack
in Dafny and proves what it guarantees against

* any transport at all, including one that answers with arbitrary bytes,
* a reference TPM that decodes the frames, checks and makes HMACs as section
  19.6 of the TPM 2.0 Library Specification, Part 1, lays down, and rolls its
  nonces, and
* an abstract object store behind that TPM, for the typed object commands.

## How the model is laid out

| file | what it holds |
|---|---|
| `Basics`, `Bits`, `Constants` | machine integers, errors, bit operations on naturals, code points |
| `Marshal`, `Codecs`, `Structures` | the byte vector, the bounds-checked `Reader`, what an exact codec is, the TPM structures both ways |
| `CryptoCore`, `Sessions`, `ResponseCodes` | hash and HMAC as parameters, KDFa, the session class, transient response codes |
| `Dispatcher` | the transport, the `Tpm` class with the retry loop, and the functions that specify it |
| `Frames`, `ReferenceTpm` | the other side of the wire: request parser, reply encoder, the TPM as a state machine, the events of a transport |
| `Exchanges` | what holds of one exchange against any transport |
| `Delivery` | any command over transports that lose and warn but do not lie |
| `LockStep` | the session protocol over such transports |
| `TpmInvariants`, `AnyTransport`, `Agreement` | what stays true of the TPM whatever frames reach it, which frames reach it in a call, and the session protocol over transports that may do anything |
| `Transparency` | any command, however authorized, as the device sees it |
| `SessionCommands`, `ObjectCommands`, `PcrCommands` | the typed commands |
| `PcrBank` | the PCR banks as a device, and the PCR commands on it |
| `WireImages` | whole frames and code points in literal octets |
| `ObjectStore`, `EndToEnd` | the store with no bytes in sight, and the typed commands as calls of it |
| `Integrity` | the typed commands over transports that may do anything |
| `HostProgram` | a program at the host from opening a session to flushing it, each request made from the replies before it |

Code that works step by step is a class or a method with loops, proved against
a function of the old state; the theorems are about those functions.  A parser is
specified as a function from the unread bytes to a value or an error together
with the bytes still unread, so what a failing parser has consumed is part of
its specification.

The reference TPM has its own account of what is hashed, signed and keyed, and
its own request parser and reply encoder, so that host and TPM agree is a
theorem.  Shared with the stack are the readers and writers of single fields:
integers, TPM2Bs, handle lists, the ten-byte header and the authorization
entry, each proved inverse to its counterpart, and the concatenation of Names.

Hash and HMAC are arbitrary functions whose output has the digest's length.
Nothing is assumed about them globally: where a theorem needs unforgeability or
the absence of collisions, it is a hypothesis about the values of that one run.

## What is proved

* **Lock step.** Host and TPM hold the same nonceTPM over every run of commands
  made with any auth values and Names, right or wrong, of warnings, errors, losses
  and foreign traffic, unless the answer to a command that was carried out is lost
  (`LockStep.LockStepRun`); for one call, exactly then (`LockStep.StepKeptIff`).
  Once out of step, every later call fails and leaves the TPM as it was, until
  somebody flushes the session (`LockStep.OutOfStepRun`).  Over a transport that
  hands the TPM any frames and answers with any bytes, the nonces agree unless a
  command of the session is carried out and the host believes no tagged reply to
  it (`Agreement.AuthenticRun`); from then on it never believes a tagged reply
  again (`Agreement.AuthenticToTheEnd`).  Starting a session establishes it
  (`SessionCommands.SessionEstablished`).
* **Request and reply agreement.** A believed reply with the sessions tag is the
  TPM's own reply to this nonceCaller, command code and parameters, and in that
  call the TPM carried out exactly one command of a session that nobody flushes:
  the host's, with its code, each of its Names, its parameters, nonceCaller and
  attributes.  The device executed it once, in the state that it had when that
  frame was served, and the parameters are what this returned
  (`Agreement.AuthenticCall`); so a typed command gets what the object store
  returned for it (`Integrity.AuthenticCommand`).  The hash input joins Names and
  parameters with nothing in between; that Names end where they say is what keeps
  them apart (`Exchanges.CpInputDeterminesAll`), and byte strings that are no
  Names can be cut elsewhere (`Exchanges.OtherNamesAreAmbiguous`).  For a
  transport that only replays, the hypotheses are freedom from collisions and
  that no reply, read with a number of handles it was not made with, carries a
  valid HMAC (`Agreement.ReplayRun`).
* **At most once.** No frame is carried out twice under session authorization,
  however often and in whatever order frames arrive
  (`TpmInvariants.CarriedOutAtMostOnce`).
* **Transparency and refinement.** Over a transport that delivers, any sequence
  of typed object commands gives the results of calling the store directly, by
  password, by session or with no authorization, success or error code
  (`EndToEnd.RunIsStoreRun`), with no hypothesis about hash or HMAC for a session
  caller who knows the auth values (`EndToEnd.RightRunIsStoreRun`); over one that
  loses, the store has seen the requests carried out, each once, in order and
  with the auth value it was presented with (`EndToEnd.LossyRunExplained`);
  unsealing returns exactly what was sealed (`EndToEnd.UnsealReturnsSealed`); and
  the whole flow from opening a session to flushing it goes through
  (`HostProgram.SealAndUnsealSucceeds`), in particular with the two stock
  templates (`HostProgram.SealAndUnsealStock`).
* **Wire formats.** Requests, replies, templates, creation parameters and lists
  are read back exactly when they fit, and whatever is read was written that way.
* **KDFa.** The masked output is the truncated block stream modulo 2^bits, and
  every octet of it is named: which HMAC it comes from, of what and under what
  key (`CryptoCore.KdfaOctets`); so a derived session key is one HMAC keyed by
  the bind auth value and the salt (`Sessions.SessionKeyIsHmac`).
* **PCRs.** Over a transport that delivers, extending a PCR by password or by
  session hashes each digest into the cell of its bank and this PCR and leaves
  every other cell alone (`PcrBank.PcrExtendExtends`); reading one PCR returns
  the digest in its cell, or nothing (`PcrBank.PcrReadOneReturns`).
* **Code points.** Frames are given octet by octet (`WireImages`), and so are the
  stock templates (`Structures.ParentOctets`), their attributes bit by bit.

Four things the stack might be expected to guarantee do not hold of the code as
it is; the model keeps the code and states the exact condition:

* A reply without the sessions tag is believed under a session without any
  HMAC (`Exchanges.UnsignedReplyIsBelieved`); a believed reply is genuine if
  and only if it carries the tag (`Exchanges.BelievedIsGenuineIff`).
* The length of a PCR bitmap is cast to one byte, so a selection round-trips if
  and only if its bitmap has at most 255 bytes
  (`Structures.SelectionRoundTripsIff`).
* Of a scheme or KDF only the selector is written, although every selector but
  TPM_ALG_NULL is to be followed by details: a sealed-data template with the HMAC
  scheme fits, and the TPM takes the length of its unique field for the scheme's
  hash algorithm (`Structures.HmacSchemeIsMisread`).
* A TPM2B that is too long is dropped whole, length prefix included.  Together:
  a template is read as it was meant if and only if its type selector names the
  variants in use, its schemes and KDF are TPM_ALG_NULL and everything fits
  (`Structures.PublicFaithful`), and so for the secret and the template of a
  creation (`ObjectCommands.CreateParamsDecodeIff`).  What does not fit is refused,
  a secret always (`ObjectCommands.OversizedSecretRefused`), a template if its
  type selector is right and its policy has at most 65535 bytes
  (`ObjectCommands.TakenAsMeantOrRefused`); without its policy a template can be
  taken for another one (`ObjectCommands.OversizedPolicyIsMisread`), namely for
  those with the same bytes (`ObjectCommands.TakenForIff`).  A
  comment at `src/types/structures.rs:85-87` speaks of a truncated length
  instead; the model follows the code.

## Model

| member | source | states |
|---|---|---|
| Agreement.AuthenticRun | src/tpm.rs:101-158 | over every run on a transport that hands the TPM any frames and answers with anything, the nonces agree, unless a command of the session was carried out and the host believed no tagged reply to it; the TPM's invariants are required at the start only |
| Agreement.AuthenticToTheEnd | src/tpm.rs:101-158 | the same to the end of the run: the nonces agree before every action up to the first command carried out unanswered, and after that the host, drawing new nonces, believes no tagged reply |
| Agreement.SpentRun | src/session.rs:182-208 | once a command was carried out at the host's nonceTPM, no reply to a later call verifies, whatever the transport does and whatever becomes of the TPM's session |
| Integrity.AuthenticCommand | src/commands/object.rs:30-113 | over any transport, a session caller who believes a tagged reply has the value that the store returned when one frame of the call made it obey this command, on an object of the Name given; only the handle of a new object may differ |
| Agreement.AuthenticCall | src/tpm.rs:186-199 | on such a transport, a session call that succeeds with a tagged reply had the host's command carried out for the session, once and never before: its code, each Name, its parameters, nonceCaller and attributes, answered with these parameters; of the frames served in the call one made the device execute it, in the state before that frame, with these parameters as its answer; and if nobody flushed the session, no other command of it was carried out, and the nonces agree |
| Agreement.ReplyAgreement | src/session.rs:182-208 | a genuine reply is the TPM's answer to exactly this nonceCaller, command code and parameters, absent forgery and hash collisions among the values of the run |
| Agreement.HostSigned | src/session.rs:162-171 | a record checked under the host's key is of a command the host signed: same code, each Name the same, same parameters, nonces and attributes, one by one and not only joined |
| Agreement.AnsweredIsTrustworthy | src/session.rs:153-208 | a command carried out and answered meets all hypotheses of the agreement theorems if its cpHash and rpHash differ |
| Agreement.ReplayIsUnforged | src/session.rs:189-208 | for a reply the TPM made, absence of one HMAC collision is all that unforgeability asks; read with another handle count it must not happen to carry a valid HMAC |
| Agreement.ReplayIsVouched | src/session.rs:153-179 | a record made from a frame the host sent is of the message the host signed, absent one HMAC collision |
| Agreement.ReplayRun | src/tpm.rs:101-158 | on a transport that delays, repeats and exchanges frames and replies but makes nothing up, the same as for AuthenticRun, with freedom from collisions in place of unforgeability; a replayed reply read with another handle count must not happen to carry a valid HMAC |
| Agreement.ReplayToTheEnd | src/tpm.rs:101-158 | the same as for AuthenticToTheEnd under the hypotheses of ReplayRun |
| TpmInvariants.RecordIsOfStep | src/tpm.rs:144-157 | every record added is of one of the frames served: the device, in the state before that frame, returned what the record says, and went over into the state after it |
| TpmInvariants.CarriedOutAtMostOnce | src/tpm.rs:144-157 | whatever frames reach the TPM in whatever order, no two records of its log are of the same frame |
| TpmInvariants.FramesDiffer | src/session.rs:162-171 | two commands carried out at different nonces have different frames unless their HMACs collide |
| Agreement.BelievedMeansCarriedOut | src/tpm.rs:186-203 | whatever was served meanwhile, a believed tagged reply means one record of the host's command, with its code, each Name and its parameters; and if nobody flushed the session, no other record of it, and both ends hold the same nonce |
| AnyTransport.AnyExchange | src/tpm.rs:147-157 | whatever the transport does, the TPM has served what the events used up made it serve, its invariants hold on, a session nobody flushes changes by its own records only, and the result is the verdict on the last reply |
| AnyTransport.CallOverAnyTransport | src/tpm.rs:160-209 | unless a reply is believed the host's session is as it was signed, and if no command of the session was carried out and nobody flushed it, both ends are still in step |
| LockStep.LockStepRun | src/tpm.rs:101-158 | over every honest run of calls with any auth values and Names, mixed with warnings, errors, losses and other callers, the nonces agree unless an answer was lost |
| LockStep.StepKeptIff | src/session.rs:153-208 | with a fresh nonceTPM, a call with whatever auth value and Names keeps both ends in step if and only if no answer to a carried-out command is lost |
| LockStep.OutOfStepRefused | src/session.rs:162-171 | once out of step, the host's next frame is refused and not acted on, whatever auth value and Names it was signed with, unless two HMACs collide |
| LockStep.OutOfStepRun | src/tpm.rs:101-158 | once out of step, over any honest transport and among any other traffic, every later call of the host, with whatever auth value and Names, fails and leaves the whole TPM as it was, both nonces stay, and the ends stay out of step, until somebody flushes the session |
| LockStep.HonestCall | src/tpm.rs:85-158 | a session call with whatever auth value and Names ends in one of three ways: nothing happened, completed with exactly the command's result, or carried out with the reply lost; only a wrong auth value or Name whose HMAC passed by chance can have it rejected instead of lost |
| LockStep.FrameAccepted | src/session.rs:153-179 | while in step, the TPM accepts the frame the host signed: what the host signs is what the TPM, by its own rules, checks |
| LockStep.ReplyVerifies | src/session.rs:182-208 | the TPM's reply verifies at the host, yields the command's result and rolls the host's nonce to the TPM's |
| LockStep.WarningsThenDelivery | src/tpm.rs:144-157 | after at most 12 warnings both ends complete with the one frame signed at the start |
| Delivery.CallServedAtMostOnce | src/tpm.rs:144-157 | over an honest transport any call, resubmitted or not, is served at most once, and a success is the TPM's answer to it |
| Delivery.DeliveredExactly | src/tpm.rs:147-157 | after tolerable warnings a call is exactly one step of the TPM and the parse of its reply |
| Transparency.Transparent | src/tpm.rs:85-209 | the caller gets exactly what the device does with the call, by no credential, password or session, right or wrong auth value, and the session stays in step |
| Transparency.TransparentOrLost | src/tpm.rs:85-209 | over any honest transport the caller gets that or an error, and the device did that or nothing |
| Transparency.TransparentWithout | src/tpm.rs:85-209 | the same result and device state for a host with no session at hand |
| Transparency.DoneOrNot | src/tpm.rs:85-209 | in step or not: the device did what the call means for somebody who presents this auth value, which was no refusal, or nothing; and a result is the result of that; a wrong password never acts, a wrong auth value behind a session HMAC only if that is the HMAC the TPM expects |
| EndToEnd.RunIsStoreRun | src/commands/object.rs:30-113 | any sequence of create-primary, create, load, unseal and flush, in any mixture of passwords, one session and no authorization, gives the results and the final state of calling the store directly |
| EndToEnd.RightRunIsStoreRun | src/commands/object.rs:30-113 | the same under conditions on the store alone: session callers know the auth values and Names, passwords may be any, and nothing is assumed of hash and HMAC |
| EndToEnd.CommandIsStoreCall | src/commands/object.rs:30-113 | each typed command, authorized or not, returns the store's value or error code and leaves the store's state |
| EndToEnd.CommandOverHonest | src/commands/object.rs:30-113 | over a lossy transport the caller has the store's answer or an error, and the store was called once or not at all |
| EndToEnd.LossyRunExplained | src/commands/object.rs:30-113 | over any run with losses, in step or not, the final store and every value come from calling the store, with the auth value that was presented, for the requests carried out, each once and in order, none of which it refused |
| EndToEnd.UnsealReturnsSealed | tests/simulator.rs:146-199 | whatever happens in between, unsealing returns exactly the sealed bytes to whoever presents the auth value octet for octet, and refuses every other value and none; a TPM that strips trailing zero octets also takes a value padded with them |
| EndToEnd.SealedInStore | tests/simulator.rs:84-143 | the same in the store, for every history between creating, loading and unsealing |
| HostProgram.SealAndUnsealSucceeds | tests/simulator.rs:146-199 | over the wire: opening a session, then create-primary, create, load, unseal and two flushes, each by password or that session and each made from the replies before it, then flushing the session: all succeed, the sealed bytes come back, and loaded objects and sessions are those from before |
| HostProgram.SealAndUnsealStock | tests/simulator.rs:146-199 | the same for the two stock templates on a TPM that accepts only storage keys as parents and supplied data only without sensitiveDataOrigin |
| EndToEnd.NamedCall | src/commands/object.rs:38 | each call carries the Name that the TPM, by its own account, has for the object or the hierarchy |
| EndToEnd.OpDecoded | src/commands/object.rs:38-104 | the TPM decodes from each typed command's call the command that was meant |
| EndToEnd.ValueDecoded | src/commands/object.rs:41-112 | the host decodes from each response the value that the TPM encoded |
| EndToEnd.ReadPrimaryInverts | src/commands/object.rs:42-48 | the public area and the Name are found around creation data, hash and ticket |
| Dispatcher.Tpm.Run | src/tpm.rs:85-158 | the method leaves exactly the result, transport state, authorization and transmitted frames that the call's specification says |
| Dispatcher.Tpm.Submit | src/tpm.rs:144-157 | the retry loop is the bounded exchange of one fixed frame |
| Dispatcher.Tpm.BuildArea | src/tpm.rs:101-125 | the authorization area and the signed session, or the error and an unchanged session |
| Dispatcher.Tpm.BuildFrame | src/tpm.rs:96-142 | tag, wrapped 32-bit size, code, handles, sized authorization area and parameters in this order |
| Dispatcher.Tpm.CpHash | src/tpm.rs:213-220 | the hash of code, Names and parameters, for any number of Names |
| Dispatcher.Tpm.RpHash | src/tpm.rs:244-248 | the hash of response code, command code and parameters |
| Dispatcher.Tpm.ParseReply | src/tpm.rs:160-209 | result, session and whether to resubmit are the verdict on the reply |
| Dispatcher.Tpm.Unframe | src/tpm.rs:168-204 | response code before size check, as many handles as asked for, parameters sized only under the sessions tag |
| Dispatcher.Tpm.ParseAuthResponse | src/tpm.rs:250-259 | reads one response entry and leaves the reader behind it |
| Exchanges.BelievedExactly | src/tpm.rs:160-209 | a reply is believed if and only if it can be taken apart and, under the sessions tag, its HMAC is the expected one; only then does the session change, in nonceTPM alone |
| Exchanges.BelievedIsGenuineIff | src/tpm.rs:186-203 | a believed reply carries the right HMAC if and only if it carries the sessions tag |
| Exchanges.UnsignedReplyIsBelieved | src/tpm.rs:201-203 | any success reply without the tag is believed under any session, with whatever handles and parameters it carries, without being genuine |
| Exchanges.FailureChangesNothing | src/tpm.rs:168-209 | every error exit leaves every field of the authorization unchanged |
| Exchanges.RetriesExactly | src/tpm.rs:147-157 | with k leading replies that ask to resubmit, min(k,12)+1 copies of the one frame go out and the last reply alone decides |
| Exchanges.AgainExactly | src/tpm.rs:230-232 | a reply asks to resubmit if and only if its code is one of the three warnings, and then it leaves the authorization alone |
| Exchanges.LastReplyDecides | src/tpm.rs:147-157 | against any transport the result is the verdict on the last reply |
| Exchanges.HandlesAsAsked | src/tpm.rs:181-184 | a success carries exactly the handles asked for, so taking the first is always in range |
| Exchanges.CommandsAreNotReplies | src/tpm.rs:213-248 | no signed command is a signed reply, for every nonzero command code and absent one hash collision |
| Exchanges.CpInputDeterminesAll | src/tpm.rs:213-220 | for Names in the form TPMs give them, the command hash input determines the code, every Name and the parameters |
| Exchanges.OtherNamesAreAmbiguous | src/tpm.rs:213-220 | without that form it does not: a byte moved from the parameters to a Name leaves the hash input the same |
| Exchanges.RpInputDetermines | src/tpm.rs:244-248 | the response hash input determines command code and parameters |
| Frames.CommandRoundTrip | src/tpm.rs:96-142 | a parser that knows only handle counts recovers tag, code, handles, authorization and parameters, and both size fields cover exactly their bytes |
| Frames.CommandCanonical | src/tpm.rs:96-142 | whatever that parser accepts was framed this way, so frames are unambiguous |
| Frames.FrameShape | src/tpm.rs:132-142 | the size field of a frame that fits is the frame's length |
| Frames.ReplyRoundTrip | src/tpm.rs:168-208 | for all handles, parameters, nonce, attributes and HMAC that fit, exactly those come back; bytes after the first entry make no difference |
| Frames.ReplyCanonical | src/tpm.rs:168-208 | a reply is taken apart only if it is such a frame, with as many handles as asked for |
| Frames.ErrorRoundTrip | src/tpm.rs:171-174 | an error reply yields its response code |
| Frames.ResponseEntryExact | src/tpm.rs:250-259 | reading and writing response entries are mutually inverse |
| Frames.ParsesAreLocal | src/marshal.rs:69-109 | appending bytes changes neither value nor consumption of a TPM2B, a PCR selection list, a digest list or a response entry |
| Frames.PrefixesAreRejected | src/marshal.rs:69-109 | every strict prefix of a valid encoding of one of these is rejected |
| Sessions.Session.New | src/session.rs:106-137 | the session carries what was passed in and the derived key, or the error of an algorithm that is no hash |
| Sessions.Session.CommandAuth | src/session.rs:153-179 | nonceCaller is overwritten and nothing else, and the entry signs cpHash, both nonces and the attributes |
| Sessions.Session.VerifyResponse | src/session.rs:182-208 | accepted exactly when the HMAC is the expected one; only then nonceTPM changes, and nothing else ever does |
| Sessions.Session.HmacKey | src/session.rs:139-146 | the key leaves the auth value out exactly for the bind entity itself |
| Sessions.CtEq | src/session.rs:223-230 | the OR of the XORs is zero if and only if the strings are equal |
| Sessions.SessionKeyLength | src/session.rs:116-124 | a session key is empty or one digest long |
| Sessions.SessionKeyIsHmac | src/session.rs:116-124 | a derived session key is the HMAC, keyed by bindAuth and salt, of 00000001, ATH, a zero octet, nonceTPM, nonceCaller and the length in bits |
| Sessions.PermanentNameIsHandle | src/session.rs:43-45 | the Name of a handle has four octets and is the handle as a big-endian number |
| Sessions.PermanentNameOctets | src/session.rs:237-240 | and these are its octets, the most significant first, which is what the TPM takes for its Name |
| Sessions.MessageDetermines | src/session.rs:162-199 | the HMAC input determines pHash, both nonces and the attributes, whatever the length of one nonce |
| CryptoCore.Kdfa | src/crypto.rs:83-112 | the counter loop, truncation and mask give the specified value; the counter never overflows |
| CryptoCore.KdfaIsReduction | src/crypto.rs:91-110 | the output has ceil(bits/8) bytes and its big-endian value is the truncated stream's modulo 2^bits |
| CryptoCore.KdfaOctets | src/crypto.rs:91-110 | octet j of the output is octet j mod size of the HMAC under the key of the number j/size+1, label, zero octet, contexts and bits; of the first only the low bits are kept |
| CryptoCore.StreamBlock | src/crypto.rs:93-104 | the stream holds at i times size the HMAC for the counter i+1, for every i |
| CryptoCore.StreamPrefix | src/crypto.rs:93-104 | producing more blocks never changes the leading bytes |
| CryptoCore.MaskIsReduction | src/crypto.rs:107-110 | the mask of the leading octet is a reduction modulo a power of two |
| CryptoCore.HashParts | src/crypto.rs:22-38 | feeding the hasher part by part gives the hash of the concatenation |
| CryptoCore.HmacParts | src/crypto.rs:47-63 | the same for HMAC |
| ResponseCodes.TransientExactly | src/error.rs:61-67 | stripping the argument number maps no format-one code onto a retry code and hides none |
| Marshal.Reader.Take | src/marshal.rs:69-76 | takes exactly the next n bytes or fails without moving |
| Marshal.Reader.Tpm2b | src/marshal.rs:105-109 | reads a sized string; a failure after the length has consumed the length |
| Marshal.OutBuffer.MarshalTpm2b | src/marshal.rs:135-143 | appends length and bytes, or leaves the vector alone when they do not fit |
| Marshal.ReadTpm2bInverts | src/marshal.rs:105-143 | reading undoes writing for up to 65535 bytes |
| Codecs.PrefixFree | src/marshal.rs:54-109 | an exact codec rejects every strict prefix of an encoding |
| Codecs.Local | src/marshal.rs:54-109 | an exact codec never looks past what it consumes |
| Codecs.PushedBound | src/types/structures.rs:369-376 | for any declared count, the entries the reading loops store are bounded by the bytes consumed, on success and on failure |
| Codecs.CountedExact | src/types/structures.rs:359-377 | counted lists are exact when their entries are |
| Structures.PublicFaithful | src/types/structures.rs:205-254 | the TPM recovers the template up to ignored cipher fields if and only if the selector names the variants in use, schemes and KDF are TPM_ALG_NULL and everything fits |
| Structures.HmacSchemeIsMisread | src/types/structures.rs:167-172 | a fitting sealed-data template with the HMAC scheme is not what the TPM reads: the length of unique is taken for the scheme's hash algorithm |
| Structures.PublicUnambiguous | src/types/structures.rs:251-254 | templates with equal bytes are equal after normalisation, whatever their schemes |
| Structures.PublicExact | src/types/structures.rs:237-246 | the TPM's selector-driven decoder, which refuses schemes with details, and the writer are mutually inverse on normalised templates |
| Structures.SymDefExact | src/types/structures.rs:132-141 | the same for the symmetric definition, whose shape depends on its algorithm |
| Structures.TemplatesFaithful | src/types/structures.rs:259-290 | both stock templates are decoded as they stand |
| Structures.ParentAttributes | src/types/attributes.rs:50-59 | the parent's attribute word has exactly the bits 1, 4, 5, 6, 16 and 17 |
| Structures.SealedDataAttributes | src/types/attributes.rs:65-67 | that of sealed data has exactly the bits 1, 4 and 6 |
| Structures.ParentOctets | src/types/structures.rs:259-276 | the storage parent octet by octet |
| Structures.SealedDataOctets | src/types/structures.rs:281-290 | the sealed-data template octet by octet |
| Structures.WrapPublic | src/types/structures.rs:251-254 | appends the sized public area |
| Structures.WrapSensitive | src/types/structures.rs:307-312 | appends the sized secret |
| Structures.SensitiveExact | src/types/structures.rs:296-312 | reading and writing secrets are mutually inverse |
| Structures.SelectionListExact | src/types/structures.rs:338-377 | reading and writing PCR selection lists are mutually inverse |
| Structures.SelectionRoundTripsIff | src/types/structures.rs:338-354 | a selection round-trips if and only if its bitmap has at most 255 bytes |
| Structures.UnmarshalSelectionList | src/types/structures.rs:368-377 | parses a list, and the entries stored before the end or the first failure number at most a third of the bytes consumed |
| Structures.DigestListExact | src/types/structures.rs:390-400 | reading digest lists of at most 65535 entries inverts a reference writer both ways |
| Structures.ReadDigestList | src/types/structures.rs:390-400 | parses a list, refuses larger counts, and stores at most half as many entries as bytes consumed |
| Structures.SkipTicket | src/types/structures.rs:381-386 | reads past tag, hierarchy and digest |
| ObjectCommands.CreateParamsDecodeIff | src/commands/object.rs:118-125 | through two levels of nesting the TPM decodes secret, template, empty outsideInfo and empty creationPCR if and only if both parts fit and the template's schemes are TPM_ALG_NULL |
| ObjectCommands.OversizedSecretRefused | src/commands/object.rs:118-125 | a secret that does not fit is refused, whatever the template |
| ObjectCommands.TakenAsMeantOrRefused | src/commands/object.rs:118-125 | with a selector that names the variants in use and a policy of up to 65535 bytes, a request is taken if and only if both parts fit, and then as it was meant |
| ObjectCommands.TakenForIff | src/commands/object.rs:118-125 | a request is taken for one with a given template if and only if the secret fits and that template fits and has the same bytes |
| ObjectCommands.OversizedPolicyIsMisread | src/types/structures.rs:205-254 | a family of templates with an oversized policy that are taken for valid templates with another policy |
| ObjectCommands.CreatePrimary | src/commands/object.rs:30-55 | runs the call with the permanent Name and returns handle, Name and public area of the reply |
| ObjectCommands.Create | src/commands/object.rs:61-76 | runs the call and returns private and public blob |
| ObjectCommands.Load | src/commands/object.rs:83-100 | runs the call with both blobs and returns handle and Name |
| ObjectCommands.Unseal | src/commands/object.rs:104-113 | runs the call without parameters and returns the data |
| SessionCommands.StartAuthSession | src/commands/session.rs:24-57 | refuses an oversized nonce before anything is sent; otherwise runs the call and opens the session its reply describes |
| SessionCommands.StartHmacSession | src/commands/session.rs:62-68 | draws a nonce of the digest length first |
| SessionCommands.FlushContext | src/commands/session.rs:72-77 | runs the call with the handle as parameter |
| SessionCommands.SessionEstablished | src/commands/session.rs:24-57 | a nonce of allowed length and a transport that delivers start a session with both ends in step and nothing else changed |
| SessionCommands.SessionFlushed | src/commands/session.rs:72-77 | flushing a session ends it and no other and changes nothing else |
| SessionCommands.OpenedInStep | src/commands/session.rs:24-57 | over any honest transport, a session that opens is in step |
| PcrCommands.Single | src/types/structures.rs:326-335 | the bitmap has at least three bytes and selects exactly the one PCR |
| PcrCommands.PcrRead | src/commands/pcr.rs:17-30 | runs the call and returns counter, selection and values of the reply |
| PcrCommands.PcrReadOne | src/commands/pcr.rs:34-38 | reads exactly one PCR and returns its digest, or nothing |
| PcrCommands.PcrValuesInvert | src/commands/pcr.rs:22-24 | counter, selection and values come back from a well-formed response |
| PcrCommands.PcrExtend | src/commands/pcr.rs:44-61 | runs the call with all digests under the PCR's Name |
| PcrBank.PcrExtendExtends | src/commands/pcr.rs:44-61 | over a transport that delivers, by no authorization, password or session: without the PCR's auth value an error and nothing changed, otherwise exactly the cells of this PCR change, each extended by the digests for its bank in order |
| PcrBank.ChainOfOne | src/commands/pcr.rs:40-43 | a bank given one digest is extended once, by the hash of old value and digest, and a bank given none stays |
| PcrBank.CellsExtended | src/commands/pcr.rs:51-57 | cell by cell, what a list of digests does to the banks |
| PcrBank.PcrReadReturns | src/commands/pcr.rs:17-30 | over a transport that delivers, the caller gets the counter, the banks and the digests that the device reads for this selection, and reading changes nothing |
| PcrBank.PcrReadOneReturns | src/commands/pcr.rs:34-38 | for every bank and PCR the digest in that cell, or nothing if it is not allocated |
| PcrCommands.DigestValuesDecodeIff | src/commands/pcr.rs:51-57 | the TPM decodes the digests given if and only if each has its bank's size |
| WireImages.FlushImage | src/commands/session.rs:72-77 | the whole frame of a flush in octets |
| WireImages.StartImage | src/commands/session.rs:24-57 | the whole frame that starts a SHA-256 session |
| WireImages.PcrReadImage | src/commands/pcr.rs:34-38 | the whole frame that reads PCR 7 of the SHA-256 bank |
| WireImages.PcrExtendImage | src/commands/pcr.rs:44-61 | the whole frame that extends a PCR by password with a SHA-256 digest |
| WireImages.UnsealImage | src/commands/object.rs:104-113 | the whole frame that unseals by password |
| WireImages.ObjectCodes | src/types/constants.rs:60-65 | the command codes that stand in octets 6 to 9 of the frames of the other object commands |
| WireImages.DigestSizes | src/types/constants.rs:159-169 | the five hashes and their digest sizes, and no others |
| WireImages.RetryCodes | src/tpm.rs:230-232 | the three codes that ask to try again, and no others |

## Left out

- Agreement.AuthenticCall: does not cover response handles, because rpHash does not, nor command handles but by the Names of their objects, because cpHash does not; nor replies without the sessions tag, which the code believes unchecked. That both ends hold the same nonce is stated for sessions that nobody flushes meanwhile, because flushing needs no authorization.
- Agreement.ReplyAgreement: takes unforgeability under the host's HMAC key, in both directions, and freedom from hash collisions as hypotheses about the values of the run, because hash and HMAC are arbitrary functions here. An unsalted, unbound session is keyed by the auth value alone, so for objects with an empty auth value nothing is unforgeable.
- Agreement.AuthenticRun: assumes that nobody flushes the session, and says nothing about the nonces after a command was carried out unanswered; Agreement.AuthenticToTheEnd says what happens then.
- Agreement.AuthenticToTheEnd: replies without the sessions tag may still be believed after the first unanswered command, as everywhere.
- Agreement.ReplayIsUnforged: shares the assumption of Agreement.ReplayRun about replies read with another number of handles.
- Integrity.AuthenticCommand: takes the hypotheses of Agreement.AuthenticCall, and requests that fit the structures they are sent in.
- LockStep.LockStepRun: assumes that a frame fits its size field, that nonces have the digest's length, and that a response carries as many handles as the caller expects; misread with another number its HMAC would have to be supposed wrong.
- Agreement.HostSigned: requires Names in the form TPMs give them, a handle or a hash identifier with a digest of its size, for the hashes the stack knows; an object without a Name is not covered.
- Agreement.ReplayRun: assumes of replies read with another number of handles that they carry no valid HMAC, which is unforgeability for that one reading.
- LockStep.OutOfStepRun: takes as a hypothesis that the HMAC the host sends equals the one the TPM expects only if both are of the same message.
- TpmInvariants.CarriedOutAtMostOnce: takes non-repeating TPM nonces and no HMAC collision among the commands carried out as hypotheses.
- Transparency.Transparent: takes as a hypothesis that a wrong auth value gives another HMAC for this command.
- Transparency.DoneOrNot: takes as a hypothesis that a session HMAC made with a wrong auth value is not the one the TPM expects; in a session bound to the very object the HMAC does not depend on the auth value, and only the right one is covered.
- EndToEnd.LossyRunExplained: takes the same hypothesis for every session request made with a wrong auth value.
- EndToEnd.RunIsStoreRun: covers calls that are delivered after at most 12 warnings each; losses are covered in EndToEnd.LossyRunExplained.
- Structures.PublicFaithful: recovery is structural; the decoder checks selectors and sizes and no value ranges, so a curve, cipher or attribute that a TPM's unmarshalling refuses counts as recovered.
- ObjectCommands.CreateParamsDecodeIff: the same, and so for the lemmas about what is taken and refused.
- HostProgram.SealAndUnsealSucceeds: the transport delivers after at most 12 warnings a command; what is lost otherwise is for EndToEnd.LossyRunExplained.
- CryptoCore.HashParts: models the incremental hasher as one hash of what was absorbed, so the law of incremental update is the model's and not proved of a hash.
- CryptoCore.HmacParts: the same for the incremental HMAC.
- Dispatcher.Tpm.BuildFrame: the 32-bit size wraps as a release build does; a debug build panics there instead. Lengths are those of a 64-bit host.
- Device and simulator transports: a transport is any state with any step function, so file and socket I/O, locality and power control are not modelled.
- The insides of hashes, HMAC, AES and the random source: nonces are parameters of the digest's length; the AES-CFB helper is not wired in by the source.
- The pause between resubmissions and the constant running time of the comparison.
- Builds without a nonce source, where session commands are refused.
- Error texts and formatting: an error keeps its kind and its response code only.
- Startup, self-test, random-number and capability commands, and the bit tests on handles and attributes.
- Salted, policy and encrypted sessions, audit, NV and attestation, which the source does not implement; bound sessions appear in key derivation and signing only.
- Scheme details: the source can neither hold nor write them; the decoder reads them to refuse them.
- The reference TPM: no dictionary-attack counters, no policy, one authorization per command; auth values are compared as given, without stripping trailing zeros; its log is history and nothing it does depends on it.
- PcrBank.PcrExtendExtends: lists of up to 16 digests of the right sizes, as TPMs take them; a wrong auth value in a session is taken not to give the right HMAC.
- PcrBank.PcrReadReturns: lists of up to 16 banks that are hashes, with bitmaps of 3 to 255 octets, and 8 digests in a response.
- The PCR banks: no localities, no resettable PCRs, no policy; the counter moves with every extension.
- The object store: of the attributes only restricted, decrypt and sensitiveDataOrigin are looked at. Names, blobs, slots and public areas are arbitrary values of bounded length; that a blob is encrypted, or a Name a digest, is not modelled.
