# Verified model of the redaction gateway

This project models the deterministic core of an LLM redaction gateway in Dafny and proves what that core is for. The
gateway finds personal data in requests, replaces it by placeholders or tokens, forwards the request, and puts the
values back into the answer, which usually arrives as a stream.

| file | part of the gateway |
|---|---|
| `Common.dfy` | outcomes, facts about sequences, sorting, splitting of text |
| `AhoCorasick.dfy` | the multi-pattern matcher and its cost |
| `Overlaps.dfy` | the component-wise resolution of overlapping entities |
| `Placeholders.dfy` | the placeholder pattern as a language, and restoration of a whole text |
| `Vault.dfy` | placeholder names and the session vault |
| `Redactor.dfy` | redaction and its round trip |
| `Streaming.dfy`, `Chunks.dfy`, `StreamUnredactor.dfy` | the hold-back rule and incremental restoration, by bytes and by chunks of any size |
| `TokenContract.dfy`, `MemoryTokens.dfy`, `SqlTokens.dfy`, `CacheTokens.dfy`, `TokenRecords.dfy` | one contract for token stores, its three drivers, and the stored record |
| `Documents.dfy` | rewriting of JSON documents along listed paths |
| `Barrier.dfy` | the tool-call barrier of the stream restorer |
| `Limiter.dfy` | the sliding-window token limiter against an exact log |
| `Sse.dfy` | the server-sent-event scanner and writer |
| `Ring.dfy` | the hash ring with bounded loads |
| `Utf8.dfy`, `Masking.dfy` | UTF-8, width-preserving masking, offset bridges |
| `Evidence.dfy` | boundary widening, verdicts and resolution by evidence |
| `CheckDigits.dfy` | Luhn, IBAN and MOD 11,10 arithmetic |
| `Fallback.dfy` | fallback chains, the budget gate and the order of rules |

`dafny verify dfyconfig.toml` checks everything.

## How to read it

Code that changes state is a class or a method with loops, proved against a specification; what the gateway promises is
then proved about the specification. The two are tied by the methods' postconditions:

- Restoration is `Placeholders.Unredacted`; `Plain` is the same with no wrapper characters, defined character by
  character. Streaming is `Streaming.Stream`, one byte at a time, and `Chunks.Chunked`, in chunks of any size.
- The three token stores take their steps in `TokenContract.Step`; the guarantees are proved once, for every run.
- The limiter's ring is compared with `log`, every charge ever made.
- A document rewritten rule by rule is compared with `Documents.OnePass`, which visits each value once.

Where a promise does not hold on all inputs, the exact condition is proved:

- Restoring as a stream and restoring the whole text give the same text if and only if no placeholder that resolves
  stands inside wrapper characters (`Streaming.StreamTheorem`). README.md:279 of the repository promises it byte by byte
  without that condition: `[ANONYMIZED_NAME_0]` loses its brackets at once but keeps them as a stream. The code is
  followed (`Streaming.BracketsDiffer`).
- Fed in larger chunks, the stream agrees with one pass if and only if no chunk overtakes a placeholder: ends a placeholder
  that lies in the last 64 bytes and has no marker behind it, and stops within the marker of the next one
  (`Chunks.Overtakes`). It loses exactly one placeholder for each such chunk (`Chunks.ChunkTheorem`; `Chunks.ChunksLose` for
  `ANONYMIZED_Y_0 ANON` followed by `YMIZED_X_0`).
- A redacted text restores to the original if and only if no entity stood between wrapper characters
  (`Redactor.RoundTrip`, `Redactor.BracketsAreLost`); restored as a stream it always does, if the text between the entities
  holds no token marker and the placeholders are no longer than 65 bytes with one marker each (`Redactor.Flows`).
- Redaction never reports overlapping entities for entities that do not overlap if and only if no empty one begins where
  one that is not empty begins (`Evidence.NeverBlocked`, `Evidence.EmptyBlocks`). After the evidence chain it never does,
  whatever candidates come in, as long as none of them is empty (`Evidence.DetectAndRedact`).
- Flushing the barrier sends everything if and only if there are only calls left, or exactly one Anthropic block
  (`Barrier.StreamBarrier.FlushToolCalls`): one flush sends one frame, so of two open blocks one stays behind
  (`Barrier.BrokenOff`).
- Arguments of a released call that are no JSON keep their placeholders (`Documents.BrokenArgumentsStay`). The comment at
  pii/document/document.go:972-979 promises that they are then restored as a text; the code is followed.
- Data of an event comes back unchanged if and only if it does not begin with a newline and no line of it ends in a
  carriage return (`Sse.RecoveredIff`, `Sse.NotRecovered`). Data within the limit fits on its lines if and only if the limit
  leaves at least seven bytes of the read buffer in which it ends (`Sse.DataFits`).
- Issuing from the relational store fails exactly when the row of the value has expired, because the unique digest keeps
  it in place (`SqlTokens.ExpiredRowBlocks`); the cache store fails exactly when the record, in whole seconds, has expired
  (`CacheTokens.ExpiredRecordBlocks`).
- The start and the slot of a bucket belong to one grid exactly if the span divides the time from year 1 to 1970, as any
  span does that divides a day (`Ledger.GridsAgree`). Two charges of one cell always add up if and only if it does; otherwise every cell loses
  charges (`Limiter.ChargesAddUp`), as with a window of seven minutes (`Limiter.SevenMinutes`).
- Changing the window of a subject in use keeps the books exact in every state only if it changes nothing
  (`Limiter.ChangeIsSafe`), and in a given state when no charge that still counts falls into the new window
  (`Limiter.QuietChange`). Otherwise charges can be lost (`Limiter.ChangedTwice`).
- The search of the hash ring counts members that are not eligible against those that are, and can give up before the
  first one with room (`Ring.HashRing.Pick`, `Ring.PickBusy`); never when all are eligible (`Ring.BoundedLoad`).

## Conventions

A `char` in a `string` stands for one byte, and case folding and classes are those of ASCII. Times are integers,
confidences, scores and load factors are reals. Concurrency is modelled by atomic steps: each method that stands for what
a caller does under a lock, or in one call to a backend, holds for any order of such steps. Hashes and keyed digests tell
inputs apart, a seal opens to what was sealed, random tokens are new; these are hypotheses of the contracts that use them.

## Model

| member | source | states |
|---|---|---|
| AhoCorasick.Automaton.New | pii/detect/ahocorasick.go:127-158 | succeeds exactly for a non-empty list of distinct, non-empty patterns and reports the first offender otherwise; the automaton it returns satisfies the whole link invariant |
| AhoCorasick.Automaton.Insert | pii/detect/ahocorasick.go:162-177 | the words of the trie are those there were, in their places, and exactly the prefixes of the pattern; every other node keeps its output |
| AhoCorasick.Automaton.BuildLinks | pii/detect/ahocorasick.go:181-221 | every failure link is the longest proper suffix in the trie and every suffix link the longest one that ends a pattern, for any order of children |
| AhoCorasick.Automaton.FillRoot | pii/detect/ahocorasick.go:152-156 | the dense root table agrees with the root's children and sends every other byte to the root |
| AhoCorasick.Automaton.Advance | pii/detect/ahocorasick.go:238-262 | from the longest suffix of a text one byte leads to the longest suffix of the longer text, and each failure link followed is paid for by depth |
| AhoCorasick.Automaton.Collect | pii/detect/ahocorasick.go:264-271 | the suffix links report exactly the patterns ending here, one per link followed |
| AhoCorasick.Automaton.FindAll | pii/detect/ahocorasick.go:234-280 | exactly the occurrences of all patterns, nested and overlapping ones too, each once, strictly ordered by start and end; at most one failure link per byte and one suffix link per match |
| AhoCorasick.SuffixLinkStep | pii/detect/ahocorasick.go:209-215 | the suffix link computed from the failure link is the longest suffix that ends a pattern |
| AhoCorasick.CandidateFails | pii/detect/ahocorasick.go:250-260 | following a failure link loses no suffix that could be continued |
| AhoCorasick.NoneBetween | pii/detect/ahocorasick.go:264-271 | no pattern ends here whose length lies between a node and its suffix link |
| Overlaps.ResolveComponent | pii/detect/detector.go:542-573 | one component is resolved as the simple greedy resolves it |
| Overlaps.ResolveOverlaps | pii/detect/detector.go:482-528 | for all entities, empty and inverted ones included, the kept ones are those of one greedy over the whole input, with multiplicity, sorted by start; for non-empty entities the same list |
| Overlaps.ComponentOfGreedy | pii/detect/detector.go:500-523 | what the greedy over everything keeps within a component is the greedy of that component |
| Overlaps.KeptDisjoint | pii/detect/detector.go:530-573 | kept entities are disjoint and from the input; a discarded one overlaps a kept one that is longer, or as long and no less certain |
| Overlaps.LongestIsKept | pii/detect/detector.go:530-573 | an entity longer than every other is kept |
| Overlaps.InStartOrder | pii/detect/detector.go:525-527 | for non-empty entities the order by start is the only one and each ends before the next begins |
| Placeholders.ScanBare | pii/anonymize/redactor.go:46 | the scanner decides the bare pattern as a language: a type, an underscore, and every digit there is |
| Placeholders.BareFinds | pii/anonymize/redactor.go:46 | wherever a word of the pattern stands there is a match that covers it |
| Placeholders.BareIs | pii/anonymize/redactor.go:46 | at most one match starts at a position, with the digits absorbed |
| Placeholders.CaseBlind | pii/anonymize/redactor.go:43-46 | texts that are equal up to the case of their letters hold the same placeholders |
| Placeholders.ScanAt | pii/anonymize/redactor.go:43-46 | the wrapped alternative before the bare one |
| Placeholders.FindMatches | pii/anonymize/redactor.go:320 | all matches, leftmost first and not overlapping |
| Placeholders.FindAllGroups | pii/anonymize/redactor.go:43-46 | wrappers change the extent of matches, never which placeholders are captured |
| Placeholders.Unredact | pii/anonymize/redactor.go:308-342 | the copying loop yields the specified text, count and phantoms; an unresolved match stays with its wrappers |
| Placeholders.WrapperLaw | pii/anonymize/redactor.go:308-342 | restored placeholders and phantoms are those of the character-by-character restoration; the texts are equal if and only if no resolved match carries wrappers, and shorter otherwise |
| Placeholders.LostIff | pii/anonymize/redactor.go:45 | wrappers are lost only if a placeholder stands inside a pair, and with no phantom whenever one does |
| Placeholders.PlainSplits | pii/anonymize/redactor.go:320-340 | cut at a place no placeholder crosses, a text restores as its two parts |
| Vault.TypeOfName | pii/anonymize/vault.go:178-188 | the kind read back from a placeholder is the one it was made of, whatever that kind looks like |
| Vault.NameInjective | pii/anonymize/vault.go:87 | equal placeholders mean equal kind and number |
| Vault.KeyInjective | pii/anonymize/vault.go:70 | the joined key tells kind and value apart |
| Vault.NameBare | pii/anonymize/redactor.go:46 | a placeholder is recognised wherever it stands unless a digit follows it |
| Vault.PlaceholdersDiffer | pii/anonymize/vault.go:69-91 | two values share a placeholder exactly if they are one value of one kind |
| Vault.Extend | pii/anonymize/vault.go:85-90 | allocating the next number keeps the two maps inverse to each other and every number unique in its kind |
| Vault.SessionVault.PlaceholderFor | pii/anonymize/vault.go:69-91 | the placeholder of the value's number; a value seen before keeps it, a new one gets the next, nothing else changes |
| Vault.SessionVault.Purge | pii/anonymize/vault.go:119-132 | nothing resolves any more |
| Redactor.Rewrite | pii/anonymize/redactor.go:213-282 | succeeds exactly if no entity starts before the one before it ends, and then writes the gaps and the placeholders of the vault |
| Redactor.Redact | pii/anonymize/redactor.go:170-289 | every outcome: empty text, failed detector with either policy, kinds filtered out, overlap blocked, and the redacted text over a sorted arrangement of what was kept; a clean result lists exactly the detected entities of the allowed kinds, each as often as it was detected and in the old order |
| Redactor.KeepPicks | pii/anonymize/redactor.go:189-197 | what is kept are the entities at increasing places of the detection, and these are exactly the places of the allowed kinds |
| Redactor.SegmentPlain | pii/anonymize/redactor.go:278-280 | a gap without a marker and a placeholder restore to the gap and the value |
| Redactor.RedactedPlain | pii/anonymize/redactor.go:170-342 | without regard to wrappers a redacted text restores to the original, every entity found |
| Redactor.RestEncloses | pii/anonymize/redactor.go:45 | the redacted text holds a wrapped placeholder exactly if an entity of the original stood between wrapper characters |
| Redactor.RoundTrip | pii/anonymize/redactor.go:170-342 | restoring finds every entity and no phantom and returns the original if and only if no entity stood between wrapper characters; restoring as a stream returns it in any case, given the condition on gaps and names that makes the redacted text streamable, exactly |
| Redactor.RedactedStreams | pii/anonymize/redactor.go:445-546 | the redacted text can be streamed if and only if no gap holds a token marker and every placeholder is at most 65 bytes long with no second marker in it |
| Redactor.RoundTripInChunks | pii/anonymize/redactor.go:170-482 | restored in chunks of any size there is no phantom and one entity is missing for each chunk that overtakes a placeholder, so every entity is found if and only if no chunk does; the original then comes back when no entity stood between wrapper characters |
| Redactor.BracketsAreLost | pii/anonymize/redactor.go:43-46 | `[x]` with its `x` redacted comes back as `x` |
| Streaming.HoldPointCases | pii/anonymize/redactor.go:521-546 | the three outcomes of the hold point and what each says about the markers in the buffer |
| Streaming.StepHeld | pii/anonymize/redactor.go:496-512 | after one more byte no cut lies inside a placeholder, nothing closed is held, and what is let go begins with its only marker |
| Streaming.StreamTheorem | pii/anonymize/redactor.go:445-482 | byte by byte, with placeholders of at most 65 bytes, the stream restores the same placeholders with the same phantoms as one pass, and the same text if and only if no resolved placeholder is wrapped |
| Streaming.BracketsDiffer | pii/anonymize/redactor.go:43-46 | `[ANONYMIZED_NAME_0]` gives the value in one pass and the value in brackets as a stream |
| Streaming.WrappersAreLost | pii/anonymize/redactor.go:43-46 | whatever wrappers of the five kinds on either side, and spaces within them, have come around a placeholder, one pass takes them with it |
| Streaming.LowerCaseIsRestored | pii/anonymize/redactor.go:308-342 | a placeholder in lower case is restored |
| Streaming.OpenTokenIsHeld | pii/anonymize/redactor.go:521-546 | a token that has begun within the last 64 bytes and is not closed is not let go of |
| Streaming.BegunTokenIsHeld | pii/anonymize/redactor.go:521-546 | neither is the beginning of its marker at the end of the buffer |
| Chunks.HoldOutside | pii/anonymize/redactor.go:521-546 | no hold point lies inside a placeholder, except the end of the buffer behind a closed last marker, before the marker of that placeholder has been read in full |
| Chunks.FeedCuts | pii/anonymize/redactor.go:496-546 | while no placeholder has been cut, a feed cuts one if and only if its chunk overtakes it, a condition on the text and the two ends of the chunk; it then lets everything go |
| Chunks.ChunkedRestores | pii/anonymize/redactor.go:445-482 | from every state in which no placeholder is cut, the feeds restore what one pass over the rest does, less one placeholder for each chunk that overtakes |
| Chunks.ChunkTheorem | pii/anonymize/redactor.go:445-482 | for chunks of any size: so many placeholders fewer as chunks overtake one, and none made up; the same placeholders and phantoms, and for a text without wrapped ones the same text, if and only if no chunk does |
| Chunks.WholeChunks | pii/anonymize/redactor.go:445-482 | no chunk overtakes when no chunk ends inside a placeholder |
| Chunks.CutLoses | pii/anonymize/redactor.go:320-340 | restored in two parts, a text cut within a marker gives one placeholder less |
| Chunks.ChunksLose | pii/anonymize/redactor.go:445-482 | two chunks of which the second placeholder is lost: one instead of two |
| Chunks.BytesAreChunks | pii/anonymize/redactor.go:445-482 | the stream of bytes is the stream of chunks of one byte |
| StreamUnredactor.HasCompletePlaceholder | pii/anonymize/redactor.go:551 | decides whether some placeholder is closed by a character that is no identifier character |
| StreamUnredactor.HasCompleteToken | pii/anonymize/redactor.go:367 | decides whether a token with 8 to 64 hex digits stands anywhere |
| StreamUnredactor.IssuedIsComplete | pii/anonymize/strategy.go:321-328 | a token issued for any valid key and written into a text is one that the stream waits for |
| StreamUnredactor.LastMarker | pii/anonymize/redactor.go:521-546 | the search in the last 64 bytes and the longest partial marker give the hold point |
| StreamUnredactor.SplitSafePrefix | pii/anonymize/redactor.go:496-512 | an exact partition of the buffer at the earlier hold point |
| StreamUnredactor.ChunkLetsGo | pii/anonymize/redactor.go:540-545 | behind a complete placeholder the beginning of another is let go |
| StreamUnredactor.StreamUnredactor.Feed | pii/anonymize/redactor.go:445-466 | what went in is out or held, whatever the chunk; what came out and what any further chunks will give make up the restoration of the whole stream |
| StreamUnredactor.StreamUnredactor.Flush | pii/anonymize/redactor.go:470-482 | empties the buffer; what has come out, phantoms included, is the restoration of all chunks that were fed |
| TokenContract.JoinInjective | pii/anonymize/tokenstore.go:112-121 | joining by a byte that the first part cannot contain loses nothing |
| TokenContract.BindingStays | pii/anonymize/tokenstore.go:123-148 | in every run a binding stays until it expires or its tenant is cleared |
| TokenContract.OneToken | pii/anonymize/tokenstore.go:123-148 | in every run, answers for one value not separated by a clearing or an expiry give one token, which resolves to the value and in no other tenant or namespace to anything |
| TokenContract.ClearedForgets | pii/anonymize/tokenstore.go:136-147 | after a clearing none of the tenant's tokens resolves, and other tenants' do as before |
| MemoryTokens.JoinedInjective | pii/anonymize/tokenstore.go:119-121 | storage keys of valid scopes collide only if everything is equal |
| MemoryTokens.JoinedPrefix | pii/anonymize/tokenstore.go:273-285 | the tenant's prefix matches exactly the tenant's keys |
| MemoryTokens.MemoryTokenStore.Probe | pii/anonymize/tokenstore.go:222-227 | an answer from the first look is the binding of the value, good at the time the caller read |
| MemoryTokens.MemoryTokenStore.Settle | pii/anonymize/tokenstore.go:234-251 | the second look and both writes are one step of the contract, whatever happened since the first; a new binding expires the time to live after the caller looked at the clock, or never |
| MemoryTokens.MemoryTokenStore.Issue | pii/anonymize/tokenstore.go:215-252 | refuses an invalid key and otherwise takes a step of the contract |
| MemoryTokens.MemoryTokenStore.Resolve | pii/anonymize/tokenstore.go:255-266 | answers what the bindings mean at the time of the call |
| MemoryTokens.MemoryTokenStore.Clear | pii/anonymize/tokenstore.go:269-291 | removes the tenant's bindings and no other, and counts the tokens erased |
| MemoryTokens.BindKeeps | pii/anonymize/tokenstore.go:244-250 | both maps stay consistent when an absent or expired binding is replaced under a new token |
| SqlTokens.SqlTokenStore.Select | pii/anonymize/tokenstore.go:1015-1028 | finds a token exactly if the value has a binding that is still good |
| SqlTokens.SqlTokenStore.Insert | pii/anonymize/tokenstore.go:1048-1056 | the constraints reject it exactly if the value has a row, expired or not; otherwise it binds the new token |
| SqlTokens.SqlTokenStore.Issue | pii/anonymize/tokenstore.go:1005-1088 | alone it succeeds exactly if there is no row or a good one, and the token resolves exactly if the row just written lasts into the next second |
| SqlTokens.ExpiredRowBlocks | pii/anonymize/tokenstore.go:1005-1088 | issued with two seconds to live and again after five, a value gets no token |
| SqlTokens.SqlTokenStore.Resolve | pii/anonymize/tokenstore.go:1091-1120 | answers what the bindings mean, and every row it finds opens |
| SqlTokens.SqlTokenStore.Clear | pii/anonymize/tokenstore.go:1123-1138 | removes exactly the tenant's rows and counts them |
| SqlTokens.InsertKeeps | pii/anonymize/tokenstore.go:1037-1056 | a sealed row keeps the table and the bindings in step, with both constraints |
| SqlTokens.AadInjective | pii/anonymize/tokencrypto.go:58-67 | what a ciphertext is bound to tells tenant, namespace, token and key version apart |
| TokenRecords.RecordRoundTrip | pii/anonymize/tokenrecord.go:124-186 | a record is read back as written, its expiry in whole seconds |
| TokenRecords.DottedLabel | pii/anonymize/tokenrecord.go:68-100 | a label with a dot makes a record that cannot be read, which is why labels are checked |
| TokenRecords.StoredIsEarlier | pii/anonymize/tokenrecord.go:124-137 | a stored expiry is early by less than a second |
| CacheTokens.DeriveInjective | pii/anonymize/tokencrypto.go:139-147 | derived tokens of different values or scopes differ |
| CacheTokens.CacheKeyInjective | pii/anonymize/tokenstore.go:598-600 | cache keys of valid scopes collide only if everything is equal |
| CacheTokens.AadInjective | pii/anonymize/tokencrypto.go:58-67 | what a ciphertext is bound to tells tenant, namespace, token, key version and epoch apart |
| CacheTokens.CacheTokenStore.FindOrCreate | pii/anonymize/tokenstore.go:425-446 | what is under the key stays; an absent key is created; the authoritative value is returned |
| CacheTokens.CacheTokenStore.Issue | pii/anonymize/tokenstore.go:621-717 | the token depends on tenant, namespace and value only, not on the key version; an existing record stays; the call fails exactly if the record has expired, and otherwise the token resolves at once |
| CacheTokens.ExpiredRecordBlocks | pii/anonymize/tokenstore.go:621-717 | issued with two seconds to live and again after five, a value gets no token while the backend keeps its record |
| CacheTokens.CacheTokenStore.Resolve | pii/anonymize/tokenstore.go:742-774 | answers what the bindings mean under whatever key version the record names |
| CacheTokens.CacheTokenStore.Clear | pii/anonymize/tokenstore.go:777-786 | removes the tenant's keys and no other, and counts them |
| CacheTokens.CacheTokenStore.Evict | pii/anonymize/tokenstore.go:439-446 | a backend that forgets only expired keys keeps the contract |
| Documents.WalkIsPass | pii/document/document.go:294-387 | following one path, ** included, is one pass over the values that the path selects |
| Documents.PassesCompose | pii/document/document.go:274-281 | two passes over selections that are apart are one pass over either |
| Documents.PassKeeps | pii/document/document.go:274-483 | at every path a pass keeps keys, lengths and other scalars; a text is transformed if selected as text, is replaced as JSON text if selected as that, and is otherwise the same |
| Documents.JsonTextRewritten | pii/document/document.go:436-452 | JSON text that parses is replaced by text that parses to the value with every text in it transformed, keys and shape kept; text that does not parse stays as it is |
| Documents.PassSucceeds | pii/document/document.go:274-483 | a pass succeeds if and only if every text it selects, those inside JSON text included, can be transformed |
| Documents.DeepSelects | pii/document/document.go:362-387 | ** and a name select exactly the values under that name with the name nowhere further up |
| Documents.PartsApart | pii/document/document.go:126-231 | paths that part, or end where the other goes on, never select the same value |
| Documents.SanitizeRulesDisjoint | pii/document/document.go:126-231 | no value of a request is selected by two of the sixteen rules |
| Documents.SkeletonIsLeft | pii/document/document.go:126-231 | what the rules select ends in a field of free text: of messages never a role, a name or an identifier, of tools only descriptions |
| Documents.MessagesAreRewritten | pii/document/document.go:126-231 | the text of a message is selected in all its forms, the arguments of its calls as JSON text, and the input of a tool as a tree |
| Documents.PromptsAreRewritten | pii/document/document.go:126-231 | prompts and inputs are selected in all their forms |
| Documents.DescriptionsAreRewritten | pii/document/document.go:126-231 | descriptions of tools are selected, and those at any depth in the schema of their parameters that are not below another |
| Documents.Follow | pii/document/document.go:274-281 | disjoint rules in turn rewrite each selected value once and leave everything else, and fail exactly if some selected text cannot be transformed |
| Documents.SanitizeDocument | pii/document/document.go:274-281 | the frame condition for the rules for requests, on every document and transform |
| Documents.ArgumentsAreRestored | pii/document/document.go:981-998 | arguments of a released call that are JSON are restored text by text, keys and shape kept, and are JSON again; otherwise they stay as they are |
| Documents.BrokenArgumentsStay | pii/document/document.go:981-998 | arguments that are no JSON are restored as a text if and only if there is nothing in them to restore |
| Barrier.StreamBarrier.AbsorbToolCalls | pii/document/document.go:764-819 | every fragment of the frame goes into its call's buffer, and whatever is held of a finishing choice is listed for release |
| Barrier.PartsOfFrame | pii/document/document.go:779-808 | every call of every choice that has arguments gives its part of the frame, at a place counted in the frame |
| Barrier.PartsInOrder | pii/document/document.go:779-808 | these places are in the order of the choices and of the calls in them |
| Barrier.PartsOnly | pii/document/document.go:779-808 | the parts are as many as the calls with arguments, and hold as much text as these together |
| Barrier.BlankedIff | pii/document/document.go:804-805 | a frame is forwarded as it came if and only if none of its parts holds text |
| Barrier.StreamBarrier.AbsorbBlock | pii/document/document.go:844-885 | the Anthropic form of the same |
| Barrier.StreamBarrier.Collect | pii/document/document.go:897-949 | each listed call is taken once, its whole buffer, and grouped by choice in order |
| Barrier.StreamBarrier.RenderReleased | pii/document/document.go:897-967 | what it sends, what it queues, and that both together are what was taken |
| Barrier.CallsAreRestored | pii/document/document.go:897-949 | the calls sent for a choice are exactly the parts of that choice that were taken, in their order, each with its whole text restored |
| Barrier.BlockIsRestored | pii/document/document.go:911-928 | a block is sent under its index with its whole text restored |
| Barrier.StreamBarrier.Process | pii/document/document.go:677-739 | for every call received text is sent, queued or held; the release frame precedes the frame, which carries only empty arguments; nothing of a finished choice is held afterwards |
| Barrier.StreamBarrier.FlushToolCalls | pii/document/document.go:1010-1021 | empties all buffers, and leaves nothing queued if and only if only calls or exactly one block was left |
| Barrier.TooMuchForOneFlush | pii/document/document.go:1010-1021 | a block and anything else buffered are more than one flush can send |
| Barrier.BrokenOff | pii/document/document.go:1010-1021 | a stream that breaks off with two blocks open: one of them is never sent |
| Barrier.BlankedIsEmpty | pii/document/document.go:804-805 | a forwarded frame carries no argument text |
| Barrier.NothingLost | pii/document/document.go:677-819 | in a stream of OpenAI frames nothing is ever queued; with empty buffers and queue the client has every call's whole text in order |
| Ledger.GridsAgree | internal/ratelimit/window.go:167-168 | slot and start belong to one grid at every time if and only if the span divides the epoch |
| Ledger.StartMoves | internal/ratelimit/window.go:167-168 | where the start of a bucket moves on inside a cell of the Unix grid, when the span does not divide the epoch |
| Ledger.DayDivides | internal/ratelimit/window.go:167-168 | a span that divides a day divides the epoch |
| Ledger.RefundKeeps | internal/ratelimit/window.go:183-195 | giving back a charge never takes out more than its bucket holds, so the clamp never acts |
| Ledger.RecentIsHeld | internal/ratelimit/window.go:165-177 | a charge of the last 60 cells has not been overwritten |
| Ledger.UsageIs | internal/ratelimit/window.go:150-162 | the counted usage covers every charge of the last 60 cells not given back, and is exactly that when 60 divides the window |
| Ledger.UsageBounds | internal/ratelimit/window.go:150-162 | it lies between the charges of the window less one span and those of the window |
| Limiter.QuietChange | internal/ratelimit/window.go:117-121 | the books stay exact when the window changes and no charge that still counts falls into the new one |
| Limiter.ChangeIsSafe | internal/ratelimit/window.go:117-148 | a change between two windows of whole spans keeps the books exact in every state if and only if it changes nothing |
| Limiter.ChangedTwice | internal/ratelimit/window.go:117-195 | a window changed from one minute to ten and back within a second: a charge of that second is no longer counted, and giving it back takes out a later one |
| Limiter.SecondWipesFirst | internal/ratelimit/window.go:165-177 | when the span does not divide the epoch the start of the bucket moves on inside a cell, and a charge after that wipes out one before it |
| Limiter.ChargesAddUp | internal/ratelimit/window.go:165-177 | two charges of one cell always add up if and only if the span divides the epoch; otherwise every cell has times at which they never do |
| Limiter.SevenMinutes | internal/ratelimit/window.go:165-177 | its instance for a window of seven minutes in 2026: a charge wipes out one made four seconds before |
| Limiter.QuotaHolds | internal/ratelimit/window.go:219-257 | at every admission the charges of the window less one span, the new one included, fit the quota; a refusal means that those of the whole window and the new one do not |
| Limiter.AdmissionIsTimely | internal/ratelimit/window.go:201-257 | an admission, refused or not, leaves every reservation younger than the ttl live and its charge in place, and none as old as the ttl |
| Limiter.StaysAlive | internal/ratelimit/window.go:197-311 | in every run an admitted reservation that is neither committed nor released is live with its charge until an admission comes at least the ttl after it |
| Limiter.AdmissionsFit | internal/ratelimit/window.go:150-311 | in every run the admissions within one ttl and the last window less one span that are neither committed nor released sum to at most the quota |
| Limiter.PlacesFit | internal/ratelimit/window.go:197-311 | in every run the admissions within one ttl that are neither committed nor released are at every admission no more than the free places |
| Limiter.FullIffRefused | internal/ratelimit/window.go:230-232 | a request is refused for want of a place if and only if as many reservations as allowed are younger than the ttl |
| Limiter.Subject.CurrentUsage | internal/ratelimit/window.go:150-162 | the loop that drops old buckets returns what the log says is taken |
| Limiter.Subject.ChangeWindow | internal/ratelimit/window.go:117-121 | the books are exact for the new window |
| Limiter.Subject.Charge | internal/ratelimit/window.go:165-177 | adds one charge to the log, reusing a bucket only when its own charges have left the window |
| Limiter.Subject.Refund | internal/ratelimit/window.go:183-195 | lowers the bucket of the charge if it is still that bucket |
| Limiter.Subject.Settle | internal/ratelimit/window.go:206-211 | ends a live reservation: one less in flight and its charge given back in full |
| Limiter.Subject.Sweep | internal/ratelimit/window.go:201-213 | settles exactly the reservations that outlived their time, in any order: in times alone, a younger one stays live and charged, and one as old as the ttl or older is gone |
| Limiter.Subject.Reserve | internal/ratelimit/window.go:219-257 | refuses exactly when places or quota are taken, and otherwise adds one charge and one live reservation; what was live before and is younger than the ttl stays live and charged, and nothing older stays |
| Limiter.Subject.Commit | internal/ratelimit/window.go:260-287 | settles a live reservation and charges the real usage; refuses one settled before without changing anything |
| Limiter.Subject.Release | internal/ratelimit/window.go:290-311 | settles a live reservation; refuses one settled before |
| Limiter.Limiter.StateFor | internal/ratelimit/window.go:132-142 | creates a subject's window on first use and disturbs no other |
| Limiter.Limiter.Reserve | internal/ratelimit/window.go:219-257 | refuses negative amounts untouched; otherwise admits for its subject under a new number and changes no other subject |
| Limiter.Limiter.Commit | internal/ratelimit/window.go:260-287 | the same for settling with usage |
| Limiter.Limiter.Release | internal/ratelimit/window.go:290-311 | the same for settling without |
| Limiter.Limiter.SetLimits | internal/ratelimit/window.go:117-121 | new limits apply at once and to that subject alone, disturb no subject's log, and keep every book exact; the window of a subject in use changes only when no charge that still counts falls into the new one |
| Sse.Scanner.Next | internal/proxy/sse.go:98-158 | the line loop reads the specified next event, or the specified reason for none |
| Sse.SpaceOptional | internal/proxy/sse.go:210-216 | one space before the value of a field makes no difference |
| Sse.ReadLineInPieces | internal/proxy/sse.go:177-201 | the line put together from pieces of the read buffer is the first line; it is given up exactly if the limit is passed before its end, or before the end of the input, is seen |
| Sse.WriteEvent | internal/proxy/sse.go:225-257 | appends the wire form of the event |
| Sse.WrittenIs | internal/proxy/sse.go:98-272 | what comes back of a written event, whatever its data: all fields, the data as the lines rejoin it, or the size error |
| Sse.RecoveredIff | internal/proxy/sse.go:135-145 | data comes back unchanged if and only if it begins with no newline and no line ends in a carriage return |
| Sse.NotRecovered | internal/proxy/sse.go:135-145 | a leading newline, and a carriage return at the end of a line, are lost |
| Sse.EventRoundTrip | internal/proxy/sse.go:98-272 | an event comes back with the input behind it untouched exactly if its data is clean and within the limit |
| Sse.StreamRoundTrip | internal/proxy/sse.go:98-272 | a written list of such events, comments among them, scans to that list and the end of the input |
| Sse.DataFits | internal/proxy/sse.go:177-201 | all data within the limit fits on its lines if and only if the field name and the newline fit into what the buffer holds beyond the limit, seven bytes |
| Sse.DataMayNotFit | internal/proxy/sse.go:177-201 | a limit and a buffer with which a line of data within the limit is given up |
| Ring.HashRing.Rebuild | internal/affinity/prefix.go:70-96 | nodes of exactly the members in hash order, for any list; members that stay keep their load; the total still counts every load |
| Ring.HashRing.Pick | internal/affinity/prefix.go:102-155 | the first eligible member clockwise with room if and only if the search does not give up before it, otherwise the first eligible one |
| Ring.HashRing.Acquire | internal/affinity/prefix.go:158-166 | counts a request at a member and in the total |
| Ring.HashRing.Release | internal/affinity/prefix.go:169-182 | uncounts it, never below zero; the total counts every load as long as releases are paired |
| Ring.SomeoneIsFree | internal/affinity/prefix.go:122-123 | with a factor of at least one some member is below capacity |
| Ring.RoomIsAverage | internal/affinity/prefix.go:122-138 | a member has room exactly if its load is at most the factor times the average, so with one more it is above that by at most one |
| Ring.BoundedLoad | internal/affinity/prefix.go:102-155 | with all members eligible the choice is the first one clockwise below capacity and the fallback is unreachable |
| Ring.ListedTwice | internal/affinity/prefix.go:107-123 | a member listed twice counts twice in the average, so with its one request it has no room |
| Ring.GivesUpTooSoon | internal/affinity/prefix.go:131-143 | for a hash that places one member's 128 nodes before another's: with the first not eligible the search gives the request to a full member and passes over an idle eligible one |
| Ring.PickBusy | internal/affinity/prefix.go:102-155 | the same on a new ring with one request under way |
| Ring.NoLoadOwner | internal/affinity/prefix.go:122-138 | without load the first node clockwise owns the key |
| Ring.RemapsOnlyOwn | internal/affinity/prefix.go:102-138 | without one member's nodes, every key that was not its own keeps its owner |
| Ring.RebuiltWithout | internal/affinity/prefix.go:70-96 | with distinct hashes a ring built without a member has the nodes of the ring with it except that member's, in the same order |
| Ring.KeysStay | internal/affinity/prefix.go:70-155 | when a member leaves an idle ring with distinct hashes, the ring picks for every key that was not its own what it picked before |
| Utf8.DecodeEncoded | pii/detect/cascade.go:535-542 | decoding undoes encoding, whatever follows |
| Utf8.DecodedStands | pii/detect/cascade.go:535-542 | every well-formed sequence decoded is the encoding of its code point |
| Utf8.BoundaryIsStart | pii/verify/evidence.go:535 | in a well-formed text the boundaries are the positions with no tail byte |
| Utf8.DecodeLastIs | pii/verify/backward.go:249 | reading backwards from a boundary is reading the code point before it |
| Masking.FilledLength | pii/detect/cascade.go:101-106 | masking never shortens, and keeps the length exactly if the piece is well formed |
| Masking.MaskSpans | pii/detect/cascade.go:458-484 | on well-formed text and aligned spans: same length, same boundaries, and every byte outside the resolved spans; texts that differ only under the spans give the same result |
| Masking.MaskTheorem | pii/detect/cascade.go:458-484 | the same for any chain of spans, with the filler of equal width at every covered code point |
| Masking.MaskingHides | pii/detect/cascade.go:458-484 | two texts with equal boundaries that differ only under the spans are masked to the same text: nothing of what is covered gets through |
| Masking.FillersAreSigns | pii/detect/cascade.go:92-106 | what is filled in is a sign, neither a letter nor a digit |
| Masking.Bridge | pii/detect/cascade.go:494-532 | on texts with equal offsets it moves nothing, sets values to slices of the original, and fails exactly for an offset between the bytes of a code point |
| Masking.BridgeOnMasked | pii/detect/cascade.go:486-532 | a masked text has the offsets of the original |
| Masking.DiscardSettled | pii/detect/cascade.go:405-413 | what remains of the model's findings are exactly those that lie on the one or the other side of every settled span, in their order |
| Masking.SettledWins | pii/detect/cascade.go:392-416 | resolving both together keeps of the settled entities exactly what resolving them alone keeps |
| Masking.RuneOffsets | pii/detect/cascade.go:536-542 | the offset of every code point and the length |
| Masking.OffsetsOfEncoded | nerclient/offsets.go:63-73 | entry k is the encoded length of the first k code points |
| Masking.ToBytesIs | nerclient/offsets.go:89-113 | a span of code points is converted exactly if it says what stands there, to the bytes where it stands |
| Masking.ToBytesRefuses | nerclient/offsets.go:89-113 | every other span is refused with its reason |
| Evidence.ExtendBoundary | pii/verify/evidence.go:496-531 | the furthest end reachable over continuing code points at which a feature word ends, within the limit; aligned |
| Evidence.SlideLeft | pii/verify/backward.go:240-253 | as far left as the code points allow or as many as are allowed; aligned |
| Evidence.WordIsWhole | pii/verify/backward.go:386-397 | the word before a position holds letters, digits and the three signs only, and reaches as far back as they do |
| Evidence.ExtendLatin | pii/verify/backward.go:369-427 | walks back over capitalised words that are no stop words, each whole and with its space, and stops exactly when it has six, or is long enough, or there is no further one; aligned |
| Evidence.ExtendBackward | pii/verify/backward.go:218-318 | moves the start only for a value that ends in an anchor: in Latin text to where the walk over words ends, elsewhere to where the slide ends exactly if the head is short and scores enough |
| Evidence.Widen | pii/verify/evidence.go:310-324 | the end is where the extension rule puts it and then the start where the backward rule does, with the value of the widened entity; boundaries only move outwards and stay aligned |
| Evidence.Validate | pii/verify/evidence.go:300-431 | the entity widened by the chain's rules, and the exact condition of each verdict on it, for cues in any order |
| Evidence.OnlyKnownLowIsRejected | pii/verify/evidence.go:300-431 | below the threshold a candidate is dropped for a low confidence and stays undecided for an unknown one |
| Evidence.ResolveByEvidence | pii/verify/evidence.go:561-628 | the winners of one ranked greedy among the candidates not dropped, ordered by start |
| Evidence.WinnersWin | pii/verify/evidence.go:561-628 | no dropped candidate wins, winners are disjoint, and a loser overlaps a winner whose verdict is no weaker |
| Evidence.Detect | pii/verify/wrap.go:71-86 | one decision on each candidate, widened and judged as its chain says; the result is the winners among them by start, no two overlap, and a candidate that is missing was dropped or overlaps a winner ranked no lower |
| Evidence.DetectedPasses | pii/verify/wrap.go:71-86 | when no candidate is empty the result passes the overlap check in every order by start, whatever kinds are filtered out |
| Evidence.DetectAndRedact | pii/anonymize/redactor.go:170-289 | redaction of that result is never blocked when no candidate is empty |
| Evidence.NeverBlocked | pii/anonymize/redactor.go:213-262 | for entities that do not overlap, every order by start passes the overlap check of redaction if and only if no empty one begins where one that is not empty begins |
| Evidence.EmptyBlocks | pii/anonymize/redactor.go:213-262 | an empty entity and one that begins with it: one order by start passes the check and the other does not |
| CheckDigits.LuhnValid | pii/detect/validators.go:35-56 | decides the Luhn condition on any string |
| CheckDigits.LuhnDetectsChange | pii/detect/validators.go:35-56 | every change of one digit is detected |
| CheckDigits.LuhnSwaps | pii/detect/validators.go:35-56 | a swap of neighbours goes unnoticed if and only if they are equal or 0 and 9 |
| CheckDigits.Remainder | pii/detect/validators.go:222-239 | the fold equals the remainder of the expanded integer, for any length |
| CheckDigits.WorthRises | pii/detect/validators.go:224-237 | letters stand for 10 to 35 in alphabetical order |
| CheckDigits.IbanValid | pii/detect/validators.go:206-240 | decides the IBAN conditions on a normalised value |
| CheckDigits.IbanDetectsChange | pii/detect/validators.go:206-240 | every change of one digit of an IBAN is detected |
| CheckDigits.GermanTaxIdCheckDigit | pii/detect/validators_eu.go:175-189 | the check digit of the MOD 11,10 recurrence |
| CheckDigits.CheckIsStandard | pii/detect/validators_eu.go:175-189 | the check digit makes the last sum of the recurrence one more than a multiple of ten |
| CheckDigits.KnownNumber | pii/detect/validators_eu.go:175-189 | ten digits and their check digit, which fixes where the recurrence starts |
| CheckDigits.CheckDigitMoves | pii/detect/validators_eu.go:175-189 | after any change of one digit the check digit is another one |
| CheckDigits.GermanTaxIdStructureValid | pii/detect/validators_eu.go:144-171 | decides that one digit occurs twice, or three times but not in a row, and every other at most once |
| CheckDigits.OccursIs | pii/detect/validators_eu.go:144-148 | the count of a digit is its multiplicity |
| CheckDigits.RunIs | pii/detect/validators_eu.go:154-165 | three in a row means that the digit stands there three times side by side |
| Fallback.ValidateFallbackChain | internal/routing/policy.go:420-442 | ends on every map and accepts exactly those without a cycle |
| Fallback.NeverEnds | internal/routing/policy.go:420-442 | from a tier on a cycle the walk never comes to an end |
| Fallback.ApplyBudget | internal/routing/policy.go:298-322 | on an accepted chain it ends at the first tier with budget or without successor, a tier with a successor only below its limit, and the visited guard ends it only on a cyclic one |
| Fallback.OnlySpentPassed | internal/routing/policy.go:298-322 | every tier that is gone past has a limit, has spent it, and has a successor |
| Fallback.StableSortRules | internal/routing/policy.go:386-392 | in place: ordered by priority, and rules of equal priority in their old order |
| Fallback.StableOrderUnique | internal/routing/policy.go:386-392 | order and stability leave only one result |

## Left out

- Characters beyond ASCII in placeholders: the full-width wrappers of the placeholder pattern and non-ASCII case folding are not modelled; a char is a byte.
- The token phase of restoration: `Unredact` is modelled for a redactor without a token store, and its counters per type are left out.
- Streaming.StreamTheorem: for texts without the marker of a token; tokens are part of the hold-back rule, but not of what is restored.
- Chunks.ChunkTheorem: for texts without the marker of a token, for the same reason.
- Redaction strategies other than masking, and flows: every entity is replaced by its placeholder.
- Vault.KeyInjective: for kinds without a NUL byte, as every kind the detectors produce; a kind is an arbitrary string in the source.
- Registry, sharding, expiry and audit of session vaults: each is settled by reading a branch or two.
- Redactor.RoundTrip: the condition about digits after an entity is sufficient only; a longer number could by chance resolve to the right text.
- Identity epochs: a store keeps one; changing it is changing the root key.
- Legacy rows of the relational store, which carry no key version and are only read.
- SqlTokens.SqlTokenStore.Issue: one caller alone; other callers are covered by the contracts of the single statements.
- Limiter.Limiter.SetLimits: does not model changing the window of a subject whose charges fall into the new one, because the books are no longer exact then, as ChangedTwice shows.
- Limiter arithmetic on 64 bits: token counts are unbounded integers, and reported usage is not negative.
- The background sweep and snapshots of the limiter: loops around the operations that are modelled.
- In-place update of JSON values: documents are rewritten as values, so aliasing between parts of a document is not modelled, and neither is how far a failed rewriting got.
- The structural key passed to a document transform: redaction ignores it. The rules for responses follow the same walk.
- The names and types that the barrier copies into a released call, and the JSON text of frames: a frame is what the barrier reads of it.
- Buffers of the event scanner: slices are values, so reuse of the read buffer is not modelled.
- Ring.BoundedLoad: for lists that name no member twice, because otherwise nobody may have room, as ListedTwice shows.
- Ring.RemapsOnlyOwn: for nodes with distinct hashes; with equal ones the order is the sort's.
- Concurrency of the hash ring's counters: each operation is one step.
- Word lists, Unicode classes and contextual windows of the evidence chain: parameters; a cue is the decision whether it is found.
- CheckDigits.IbanValid: works on a value already stripped and in upper case, with the table of lengths as a parameter.
- Other validators and the recognisers' patterns: each is a pattern and a table.
- Node indices of the automaton are unbounded naturals, not 32 bits.
- Tier matching, budgets' soft limits and default tiers: settled by reading the code.
- HTTP, gRPC, configuration, metrics, logging, key derivation and encryption: outside the model.
