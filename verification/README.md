# Verified models of KindleLaunch

A Dafny model of five pieces of the Sidiora launchpad repository, with proofs of what they promise.
`dafny verify dfyconfig.toml` checks everything.

| files | models |
|---|---|
| `Subscription.dfy`, `SwapIterator.dfy`, `WatchLoop.dfy` | the generated log iterator and watch loop of `protocol/bindings/eventemitter.go`, for the Swap event; every other event uses the same template |
| `Webhook.dfy`, `Hex.dfy`, `Decimal.dfy` | webhook signing and verification, `shared/auth/webhook.go` |
| `EventRegistry.dfy`, `StringOrder.dfy` | the topic0 registry and its sorted listing, `protocol/events.go` |
| `Regex.dfy`, `Naming.dfy`, `EnvVars.dfy`, `EnvText.dfy` | `camelToScreamingSnake` and the environment files, `contracts/scripts/generate.js`, with a reader for them |
| `Multipart.dfy`, `Rfc2046.dfy`, `Text.dfy` | the hand-written form body, `contracts/scripts/verify.js`, and a reader for it |
| `Wrappers.dfy` | the optional value |

## How it is modelled

**Iterator.** Producer and consumer are two parties; a step is one channel operation, so an interleaving
is any sequence of actions, and a `select` with two ready channels may go either way. The consumer's
place inside `Next` is part of the state, which lets the producer move between the two selects of one
call. The iterator class carries out whole calls; `CallsAreRun` shows that any sequence of calls, with the
environment moving in and between them, is one run of the two-party system, so the theorems about runs
are theorems about sequences of calls. `UnpackLog` is an arbitrary
function of the log that may fail after filling part of the event. The channels belong to go-ethereum,
which is not part of this model; what is taken from it is stated as assumptions: the log channel is a
FIFO; `sub.Err()` yields at most one error and is then closed; `Unsubscribe` on a running subscription
closes it without error. The producer's rule, that no log is sent after the end, is the predicate
`Orderly`. It is assumed only for exact delivery, and `LateLogMissed` shows that it is needed there.

**Webhook.** HMAC-SHA256 is an arbitrary function from secret and message to 32 bytes. The int64
subtraction and negation wrap. The comment on the source promises acceptance for
`|now - timestamp| <= window`; the code also accepts a timestamp exactly 2^63 seconds before now, whose
negated skew stays negative. The model follows the code, and the exact condition is proved over all
int64 values.

**Registry.** Definitions are objects reached through pointers, as in Go. Go leaves the order of a map
`range` open, so every such order is an argument, restricted only to visit each key once. The source's
registry does not depend on it exactly when, in the earliest source that declares a topic, only one event
has it. `sort.Slice` is represented by an insertion sort of which only "sorted permutation" is used.

**Names.** The two regular expressions are run by a small backtracking matcher (greedy `+`, leftmost
match, global replacement) and shown equal to one left-to-right rule.

**Environment files.** The lines are written out in full and joined, and read back by a reader for the
dotenv format: one variable a line, `#` starts a comment line, the first `=` ends the key.

**Form body.** The reader follows section 5.1.1 of RFC 2046 (a delimiter is a line break, two hyphens and
the boundary), RFC 7578 for form-data and section 3.2.4 of RFC 5322 for quoted strings. It accepts one
header per line, header names in the spelling the printer uses, and requires the empty line. The printer
escapes nothing. `MultipartRoundTripExactly` and `FormRoundTripExactly` say exactly which parts survive
that, for any boundary without a carriage return: body parts, whose header values need only stand on one
line without leading blanks; and form parts, whose names must hold no quote, backslash or carriage return.
The fixed names the printer is called with do.

## Model

| member | source | states |
|---|---|---|
| Subscription.RunFaithful | protocol/bindings/eventemitter.go:2420-2457 | in every run, whatever the interleaving, what was sent is what was received plus what is waiting, and the events yielded are those of the received logs, one per true result, except a last log that did not decode |
| Subscription.YieldsPrefix | protocol/bindings/eventemitter.go:2420-2457 | the yielded events decode a prefix of the logs sent, in order, each with its log as Raw, also with errors and early Close |
| Subscription.FailureIsFinal | protocol/bindings/eventemitter.go:2421-2424 | once fail is set every later Next returns false, consumes nothing and leaves event and error alone |
| Subscription.DeliversExactly | protocol/bindings/eventemitter.go:2426-2456 | clean end, all logs decode: results are trues then falses, and after a false every log sent has been yielded exactly once in order, with no error |
| Subscription.InterleavingDoesNotMatter | protocol/bindings/eventemitter.go:2442-2456 | two consumers of the same logs that saw the end saw the same events |
| Subscription.ErrorReported | protocol/bindings/eventemitter.go:2452-2462 | in every run in which something ends the subscription: if the producer finished first, with an error, and the end has been taken, fail is exactly that error; as long as all received logs decode, fail is exactly what ended the subscription once its end was taken, which it was if any call returned false, and nil before |
| Subscription.NoEndNoError | protocol/bindings/eventemitter.go:2452-2462 | without an end, and while all received logs decode, no call returns false and there is no error |
| Subscription.SentLogs | protocol/bindings/eventemitter.go:2420-2457 | the logs sent in the theorems are those the producer handed to the channel |
| Subscription.LateLogMissed | protocol/bindings/eventemitter.go:2426-2440 | without the producer's rule a log can be reported as "no more events" |
| Subscription.CallsAreShort | protocol/bindings/eventemitter.go:2442-2456 | from any state a call takes at most two channel operations, so it recurses at most once, and is never stuck when a log waits or the subscription has ended |
| SwapIterator.NextCallIsRun | protocol/bindings/eventemitter.go:2420-2457 | a whole call of Next is a run of the two-party system |
| SwapIterator.CallsAreRun | protocol/bindings/eventemitter.go:2420-2469 | any sequence of calls, with the environment moving in and between them, is one run |
| SwapIterator.CallsYieldPrefix | protocol/bindings/eventemitter.go:2420-2469 | repeated calls of Next yield the events of a prefix of the logs sent, one per true result |
| SwapIterator.CallsDeliverExactly | protocol/bindings/eventemitter.go:2420-2469 | with an orderly producer and logs that decode, repeated calls return trues and then falses, and from the first false on every log sent has been yielded exactly once, in order, without error |
| SwapIterator.CallsReportError | protocol/bindings/eventemitter.go:2420-2469 | the same about errors for any sequence of calls, with the environment moving in and between them |
| SwapIterator.NextCallFaithful | protocol/bindings/eventemitter.go:2420-2457 | every call of Next keeps the invariant of the runs |
| SwapIterator.EventEmitterSwapIterator.Next | protocol/bindings/eventemitter.go:2420-2457 | for any environment and either choice of the select: a failed iterator stays as it is; a failed subscription whose end is taken gives false and its own error; a clean end with nothing left gives false and no error; and whatever happened before, as long as all received logs decode, fail is what ended the subscription once the end is taken, which it is if the result is false |
| SwapIterator.EventEmitterSwapIterator.Advance | protocol/bindings/eventemitter.go:2420-2457 | the whole effect on the iterator, the channels and the history; it terminates because done is set before the recursive call |
| SwapIterator.NextThenError | protocol/bindings/eventemitter.go:2452-2462 | a caller of Next on a failed subscription is told false, and Error gives the error of the subscription |
| SwapIterator.EventEmitterSwapIterator.ReceiveReady | protocol/bindings/eventemitter.go:2427-2439 | the select with a default: the next waiting log, or false |
| SwapIterator.EventEmitterSwapIterator.ReceiveEnd | protocol/bindings/eventemitter.go:2452-2454 | done is set, fail is the error of a failed subscription and nil after a clean end, and logs, event and results are left alone |
| SwapIterator.EventEmitterSwapIterator.Receive | protocol/bindings/eventemitter.go:2444-2450 | a received log becomes the event, or its unpacking error becomes fail |
| SwapIterator.EventEmitterSwapIterator.Error | protocol/bindings/eventemitter.go:2460-2462 | returns the failure |
| SwapIterator.EventEmitterSwapIterator.CloseIterator | protocol/bindings/eventemitter.go:2466-2469 | closes a running subscription without error, leaves an ended one and everything else alone, and every later call of Next comes back |
| SwapIterator.CollectAll | protocol/bindings/eventemitter.go:2417-2440 | after a clean end with n buffered logs that decode, a loop over Next runs exactly n rounds, with their events in order, whichever case the select takes in each call |
| WatchLoop.WatchSwap | protocol/bindings/eventemitter.go:2524-2550 | for every run: which logs were forwarded, whether one more was taken, and with what error the loop was left: that of the subscription, that of a log that did not decode, or none on quit; at most one taken log is not forwarded, and it is undecodable or was not accepted |
| WatchLoop.SinksAgree | protocol/bindings/eventemitter.go:2524-2550 | over the same logs one sink is always a prefix of the other; as a run goes on its sink only grows, and not after the loop is left |
| WatchLoop.AllForwarded | protocol/bindings/eventemitter.go:2524-2550 | if all logs decode and the sink keeps accepting, all are forwarded |
| Webhook.SignWebhook | shared/auth/webhook.go:36-42 | the signature is "sha256=" and the hex text of the MAC of timestamp, full stop and body |
| Webhook.SignatureExactly | shared/auth/webhook.go:36-42 | its 71 characters one by one: the prefix, then two lower-case hex digits for each byte of the digest, the high one first |
| Webhook.WindowSeconds | shared/auth/webhook.go:55-69 | 300 without a window, otherwise the whole seconds of the nanoseconds given |
| Webhook.VerifyAcceptsExactly | shared/auth/webhook.go:48-83 | accepted are exactly the case variants of the sender's own signature, for a timestamp that parses and passes the replay check in unbounded arithmetic |
| Webhook.VerifyRejectsExactly | shared/auth/webhook.go:48-83 | the exact class of calls for each of the five errors |
| Webhook.SignedVerifies | shared/auth/webhook.go:36-83 | what is signed for an int64 timestamp verifies unless it is outside the replay window |
| Webhook.ReplayCheckExactly | shared/auth/webhook.go:63-69 | the wrapping check over the unbounded integers, for all int64 values |
| Webhook.ReplayCheckOnRealClocks | shared/auth/webhook.go:55-69 | for clocks from 1970 to 2^62 the check is the distance test except for the one timestamp 2^63 seconds ago |
| Webhook.AncientTimestampAccepted | shared/auth/webhook.go:63-69 | that timestamp is accepted at any window |
| Webhook.AcceptingTimesAreAnInterval | shared/auth/webhook.go:55-69 | when a signed message is accepted, for any int64 timestamp and clock; on clocks from 1970 to 2^62 exactly during [ts - W, ts + W] and in the one second 2^63 after ts |
| Webhook.AcceptingTimesInSeconds | shared/auth/webhook.go:48-83 | with a window of w whole seconds a message is accepted exactly from w seconds before to w after its timestamp, without a window 300 seconds to either side, on clocks from 1970 to 2^62 and but for the one second 2^63 after |
| Webhook.MessageInjective | shared/auth/webhook.go:36-41 | timestamps without a full stop are separated from the body unambiguously |
| Webhook.DottedTimestampsCollide | shared/auth/webhook.go:36-41 | the signer itself does not ensure that |
| Webhook.TransferTakesCollision | shared/auth/webhook.go:36-83 | a signature made for one message accepted for another gives a collision of the MAC |
| Webhook.DigestComparison | shared/auth/webhook.go:71-81 | comparing decoded bytes is comparing the texts up to letter case |
| Hex.DecodeExactly | shared/auth/webhook.go:71-78 | the texts that decode to given bytes are exactly the case variants of their encoding |
| Hex.DecodeEncode | shared/auth/webhook.go:41-75 | decoding inverts encoding |
| Hex.EncodeDigits | shared/auth/webhook.go:41 | two digits of the lower-case alphabet for each byte, the high one first |
| Hex.LowerMeans | shared/auth/webhook.go:71-78 | what "up to letter case" means, letter by letter |
| Decimal.ParseFormatInt | shared/auth/webhook.go:59-62 | every int64 is read back from its decimal text |
| Decimal.ParseIntExactly | shared/auth/webhook.go:59-62 | which texts parse, and to which number |
| Decimal.ParsedHasNoDot | shared/auth/webhook.go:59-62 | a parseable timestamp contains no full stop |
| EventRegistry.BuildEventRegistry | protocol/events.go:48-71 | for any visiting order every entry on the heap holds, field by field, its topic, the name, signature and event of an event of the earliest declaring source, and the declaring contracts; it panics exactly if an ABI does not parse |
| EventRegistry.RegisterSource | protocol/events.go:55-69 | the inner loop over one source, through the pointers of existing entries |
| EventRegistry.RegisterEvent | protocol/events.go:56-68 | one event: another contract for a known topic, a new entry for a new one, no other entry touched |
| EventRegistry.EventDef.constructor | protocol/events.go:60-67 | a new entry holds the id, name, signature and event, each in its own field, and one contract |
| EventRegistry.AppendUnique | protocol/events.go:73-80 | appends unless present |
| EventRegistry.BuiltIsRegistry | protocol/events.go:48-71 | a topic is a key iff some source declares it, its name, signature and event come from the earliest such source, and Contracts are the declaring sources |
| EventRegistry.DeclarersInOrder | protocol/events.go:57-59 | Contracts are exactly the declaring names, in source order, without repeats |
| EventRegistry.OrderIndependentExactly | protocol/events.go:48-71 | all visiting orders give the same registry iff the earliest declaring source of each topic has one event with it |
| EventRegistry.DistinctIdsUnambiguous | protocol/events.go:55-69 | distinct ids within each source suffice |
| EventRegistry.FirstVisitedWins | protocol/events.go:57-68 | the entry of a topic comes from the first event with it that the visit of the earliest declaring source meets |
| EventRegistry.PrecedesConnected | protocol/events.go:96-101 | the comparison is total on distinct topics, since hex text is injective |
| EventRegistry.PrecedesTransitive | protocol/events.go:96-101 | the comparison is transitive |
| EventRegistry.PrecedesMeans | protocol/events.go:96-101 | the comparison in terms of where two texts first differ |
| StringOrder.LessExactly | protocol/events.go:96-101 | one string is less than another iff they agree up to some place and there it ends or has the smaller character |
| EventRegistry.Events | protocol/events.go:91-103 | returns a listing of exactly the registered pointers, names ascending, and among equal names the hex texts of the topics ascending |
| EventRegistry.ListingUnique | protocol/events.go:89-103 | the listing is the same for every order the map is ranged over in |
| EventRegistry.ListingsDeterministic | protocol/events.go:48-103 | registries of the same unambiguous sources, built and listed in any orders, show the same definitions in the same order |
| EventRegistry.ListingAgrees | protocol/events.go:84-106 | listed iff looked up by its topic, no topic twice, as long as Topic0Count; a lookup finds nothing iff no listed definition has the topic |
| Naming.CaseChangePass | contracts/scripts/generate.js:207 | the first global pass inserts an underscore at each change from lower case or digit to upper case |
| Naming.AcronymAtoms | contracts/scripts/generate.js:208 | the greedy run takes all upper-case letters and gives back exactly one |
| Naming.AcronymPass | contracts/scripts/generate.js:208 | the second global pass inserts an underscore before the last letter of a run followed by a lower-case letter |
| Naming.TwoPassesAreOneRule | contracts/scripts/generate.js:205-210 | both passes together are one left-to-right rule |
| Naming.SnakeExactly | contracts/scripts/generate.js:204-210 | the result letter by letter: each letter as a capital, behind an underscore exactly where a word ends before it |
| Naming.SourceExample | contracts/scripts/generate.js:204-210 | PECORVault becomes PECOR_VAULT |
| Naming.UpperMeans | contracts/scripts/generate.js:209 | the n-th small letter becomes the n-th capital, everything else stays |
| Naming.UpperEqualExactly | contracts/scripts/generate.js:209 | two names have the same upper-case form iff at each place they have one letter, small or capital |
| Naming.NothingLost | contracts/scripts/generate.js:205-210 | deleting the underscores gives back the name upper-cased |
| Naming.SameKeyExactly | contracts/scripts/generate.js:205-210 | two underscore-free names share a key iff at each place they have one letter, small or capital, and their words end at the same places |
| Naming.FixedPointExactly | contracts/scripts/generate.js:205-210 | the output is a fixed point iff no digit stands right before a lower-case letter |
| Naming.NotAFixedPoint | contracts/scripts/generate.js:205-210 | a name for which it is not |
| EnvVars.BuildLines | contracts/scripts/generate.js:301-347 | the lines one after the other, and what they define: exactly the fixed variables, each addressable contract of a group under its key with its address, and the tokens, in the order network, contracts, tokens, project id |
| EnvVars.FilterExactly | contracts/scripts/generate.js:318 | the names kept of a group are those at certain places, in order: exactly the places where an addressable name stands |
| EnvVars.ListedExactly | contracts/scripts/generate.js:317-326 | the same across groups, group by group |
| EnvVars.AllEntriesExactly | contracts/scripts/generate.js:301-347 | exactly these variables are defined, with every fixed key and value written out |
| EnvVars.BuildEnvVars | contracts/scripts/generate.js:301-350 | the text is these lines; read back, it defines exactly these variables iff no key or value breaks its line, no key holds an equals sign and none begins with a hash |
| EnvText.EnvRoundTripExactly | contracts/scripts/generate.js:325-349 | any lines, written and read back, define what they are meant to iff every comment defines nothing and every assignment fits its line |
| EnvText.RenderedLines | contracts/scripts/generate.js:302-349 | how a comment, a blank line and an assignment stand in the file |
| EnvText.ReadEnvFit | contracts/scripts/generate.js:349 | whatever is read from a file, one line could hold |
| EnvVars.KeysDistinctExactly | contracts/scripts/generate.js:317-337 | no variable is defined twice iff transformed names and token symbols are all distinct |
| EnvVars.ContractKeysDistinct | contracts/scripts/generate.js:317-325 | underscore-free names no two of which agree at each place but for case never clash |
| Multipart.FormBody.constructor | contracts/scripts/verify.js:78-79 | nothing added yet |
| Multipart.FormBody.AddField | contracts/scripts/verify.js:81-85 | one more field, the printed parts in step |
| Multipart.FormBody.AddFile | contracts/scripts/verify.js:87-91 | one more file, the printed parts in step |
| Multipart.FieldTemplate | contracts/scripts/verify.js:81-85 | the text printed for a field, character by character |
| Multipart.FileTemplate | contracts/scripts/verify.js:87-91 | the text printed for a file |
| Multipart.FormBody.Body | contracts/scripts/verify.js:98 | the body is read back as exactly what was added iff names and types are plain and no content has a line starting with the boundary line |
| Multipart.MultipartRoundTripExactly | contracts/scripts/verify.js:78-98 | as body parts, in order and with nothing before or after them, the body is read back iff every header value stands on one line without leading blanks and no content has a line starting with the boundary line |
| Multipart.FormRoundTripExactly | contracts/scripts/verify.js:78-98 | as form parts it is read back iff, besides, no name holds a quote, a backslash or a carriage return |
| Multipart.HeadersFitExactly | contracts/scripts/verify.js:83-89 | what the header values being fit means for names and type |
| Multipart.QuotedNameExactly | contracts/scripts/verify.js:83-89 | wherever the reader stops, it reads the printed name only if that needed no escape |
| Multipart.ReadPartExactly | contracts/scripts/verify.js:83-89 | a part that is read back from its own headers has such names |
| Multipart.QuotedExactly | contracts/scripts/verify.js:83-89 | a name is read back, and its quotes closed where they were printed, iff it has no quote, backslash or carriage return |
| Multipart.WithoutBoundaryLine | contracts/scripts/verify.js:78-91 | content without two hyphens and the boundary is fit |
| Multipart.OneLine | contracts/scripts/verify.js:71-96 | a single line that does not begin with a hyphen is fit for any boundary |
| Multipart.BoundaryHasNoLineBreak | contracts/scripts/verify.js:78 | the generated boundary is one the round trip applies to |
| Multipart.VerificationForm | contracts/scripts/verify.js:93-96 | the literal names and values of the three fields and the file, in order |
| Multipart.VerificationBody | contracts/scripts/verify.js:65-98 | the submitted body is read back, under the generated boundary, as these four parts iff path and input are fit, which they are when single lines, at any time |
| Rfc2046.ReadMultipartFit | contracts/scripts/verify.js:98 | no body part that is read has a content line that starts with the boundary line or a header value that breaks its line |
| Rfc2046.ReadFormFit | contracts/scripts/verify.js:98 | nor has any form part, and its names hold no carriage return |
| Text.SplitPassing | contracts/scripts/verify.js:83-98 | a search for the delimiter passes over text without line breaks |
| Text.SplitAtEnd | contracts/scripts/verify.js:83-98 | a first delimiter cannot start inside a content and end inside the delimiter behind it |

## Left out

- Webhook.VerifyWebhook: `int64(window.Seconds())` is truncating division of nanoseconds; for windows beyond 2^24 seconds that are not whole seconds float64 rounding can add a second, which is not modelled.
- Webhook.SignWebhook: HMAC-SHA256 itself, and the constant time of its comparison.
- Naming.CamelToScreamingSnake: case mapping of non-ASCII characters in `toUpperCase`.
- EnvVars.BuildEnvVars: the address of a name is any function, so `lookupAddress` and its lookups in the deployment file are not modelled; nor are the banner that `generateEnvFiles` puts on top and a reader's trimming of blanks and quotes.
- Rfc2046.ReadForm: folded header lines, header names in other letter case, and values outside quotes are not read; the printer writes none of them.
- EventRegistry.BuildEventRegistry: ABI parsing; an ABI is a map from names to events, or fails to parse.
- The AMM contracts, routers, quoters and their bindings: other bindings repeat the template modelled here.
- go-ethereum's channels, subscriptions and log filtering, beyond the assumptions named above.
- `shared/auth/eip191.go`, `shared/chain`, `protocol/addresses.go`: library cryptography, dialing, constants.
- File, network and console handling of the scripts, and the submission loop of `verify.js`.
