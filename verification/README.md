# A verified model of the mail server's core

The mail server receives, seals, stores and exports mail. This project models the parts of it where a mistake is
easiest to make and hardest to see, and proves what they promise for every input, every run or every interleaving:

- **ARC** (RFC 8617): extracting the chain of instances from a message's headers, sealing a message with the next
  instance, and validating a chain. The main results are about whole runs of hops.
- **Dates**: day numbers as Gregorian dates, and the RFC 3339 and RFC 5322 texts made from them.
- **Backup, export, import**: the tar writer and reader, the mbox writer and reader, line-end normalization, and the
  base32 text of a secret.
- **Protocols and limits**: the API's failure limiter under concurrent requests, the ACME issuance flow (RFC 8555)
  against any server, tenant account caps, alert rules, greylisting, CIDR blocks.

`dafny verify dfyconfig.toml` checks everything.

## How the model is laid out

`Text`, `Utf8`, `Bits` and `Bags` hold strings, UTF-8, bit arithmetic and multiset facts. `Headers`, `Chain`, `Signature`,
`Canon`, `Ams`, `Seals`, `Sealer` and `Validation` follow the ARC sources; `ChainProofs`, `FieldOrder`, `Built`, `Readback`,
`TagNumber` and `Sealing` prove what they need from each other. `ArcHops` is about one hop, `ArcRuns` about runs that pass,
`ArcFailure` about runs that fail, `ArcStarts` about messages that do not begin with a header field, `Forwarding` about
sealing without validating, `Picking` and `SignedNames` about which fields a signature covers, `Tamper` about which changes
to a sealed message are noticed, and `Witness` gives instances of the assumptions and messages that fail. `Resolver` says
which records validation asks for, `Wire` which texts are written and signed, `ChainErrors` when extraction gives which
error, and `ArcReading` what the readers make of headers and signatures written by other senders. Every other module is one
component, with `Clock` on top of `Calendar`, `TarRuns` on `Tar`, `MboxRuns` and `MboxStreams` on `Mbox`, `Tenants` on
`Addresses`, `TenantRuns` on `Tenants`, and `TenantReach` with the runs that reach or pass a cap.

A definition that the lemmas and a method share has a lemma that says in plain words, numbers or literal text what it means
(`LowerMeaning`, `NamesMeaning`, `CompareMeaning` and the like), so that no result rests on a name alone.

Code that updates state in the source is a class or a method with loops here, and its contract ties it to a function
about which the lemmas speak. What lies outside the program is a parameter: the signature scheme, hash, base64 and body
canonicalization are functions of a `Suite`; DNS is a function; the ACME server is a function of the number of the post
and of what is posted; the conversion of a domain to ASCII is a function; clocks are event arguments. The only laws assumed
of a suite are that a signature verifies under its own key and that base64 decodes what it encodes, in its alphabet
(`Scheme.Lawful`). The statements that a check must fail also assume that a signature verifies for no other message
(`Scheme.Binding`), those about bodies that no two have the same digest (`Tamper.NoCollisions`). `Witness.RunsExist` shows a
suite that satisfies all of them. A sealer's key is found at the text selector, `._domainkey.`, domain (`Sealing.Publishes`).

## Where code and documentation differ

The model follows the code.

- `i=0` is documented as a bad instance, but `extract` only tests the highest number. Extraction panics exactly when the
  highest number is usable and an `i=0` comes before any duplicate (`ChainProofs.PanicsIff`); `Witness.ZeroMessagePanics`
  shows a message. `Chain.Extract` has an answer of its own for this.
- The sealer is meant for any message, but a message that starts with an empty line, or with continuation lines that hold
  a word, is sealed into a chain that fails. `ArcStarts.HopExact` and `ArcStarts.RunExact` say that these are all;
  `Witness.StartsFail` shows one of each.
- A forwarded copy is sealed with the status its chain records, in place of a validation. Behind an intact chain of one
  instance that breaks it, since the first seal records none (`Forwarding.SingleBreaks`, `Witness.CopyBreaks` for a message);
  `Forwarding.ForwardedCopy` says exactly when the copy stays intact.
- `tenants_for_addresses` is documented to answer in configuration order; it answers in the order of the addresses
  (`Tenants.OrderReversed`). The two agree exactly when the index leads to at most one tenant (`Tenants.ConfigOrderIff`).
- The cap check asks the domain index, which holds one tenant for each domain. It keeps the caps exactly when no address the
  store takes is in the domains of two tenants (`TenantReach.CapsExact`, `TenantReach.SharedPassed` for a run), which the
  configuration check ensures (`Tenants.ValidateClaims`).
- The tenant cap is checked before the account is stored, not together with it, so k creations at once can pass it by
  k - 1 (`TenantReach.CapReached`, `TenantReach.CapPassed`) and never by more (`TenantRuns.CapsKept`).
- The store takes an address by the ASCII form of its domain, while the cap check and the count read the domain as written.
  An account that spells a tenant's domain in its own script is neither checked nor counted (`TenantReach.SpellingMissed`,
  `TenantReach.SpellingPassed`). `TenantReach.SpellingsExact` says when the caps hold by the ASCII form.
- `prune` is documented to drop entries older than `max_age`; it also drops those exactly that old. The two agree exactly when
  no entry is just that old (`Greylist.PruneDocumented`); `Greylist.PruneAtLimit` shows one.
- Greylisting is documented to accept once the delay has passed since the first attempt. Look-up and record are two steps, and
  a later attempt that records in between moves the time (`Greylist.RetryRaced`). `Greylist.AcceptIff` says exactly when an
  attempt is accepted, and `Greylist.RetryUndisturbed` that the documented rule holds otherwise.
- A tar size of 8^11 or more is written into a field that cannot hold it (`Tar.SizeReads`).
- An mbox import drops a message's own first line when that begins with `X-Mailbox:` (`MboxRuns.KeptWhole`), and stops
  at the first message that is not UTF-8 (`MboxRuns.MboxRoundTrip`).
- A greylist key is ambiguous when sender or recipient holds a vertical bar (`Greylist.KeyIdentifies`).

## Model

| member | source | states |
|---|---|---|
| `ArcRuns.RunPasses` | src/arc/validate.rs:17-50 | any run of hops, however long, each validating, sealing with the verdict and prepending, from a message with From, no ARC headers and a clean start: every hop sends on, the result holds one instance for each of the first 50 hops in order, each sealed by its hop, and validates to pass |
| `Resolver.VerdictFromKeys` | src/arc/validate.rs:17-50 | two resolvers that give the same answer at selector `._domainkey.` domain of the newest message signature and of every seal give the same verdict on every message |
| `Resolver.RecordPublishes` | src/arc/ams.rs:86-95 | a record `v=DKIM1; k=ed25519; p=` with the base64 key at that name, white space in it or not, behind any texts that are no key records, publishes a sealer's key for all these results |
| `Resolver.MissingKeyFails` | src/arc/seal.rs:92-107 | a chain fails where the key of its newest message signature or of any seal is not found, for the time being or at all |
| `ArcStarts.RunExact` | src/arc/sealer.rs:48-83 | where signatures bind, such a run from any message with From and no ARC headers ends in one that validates to pass if and only if the first message had a clean start: no empty first line, and no word in continuation lines in front of the first field |
| `ArcStarts.HopExact` | src/arc/sealer.rs:48-83 | the same for one hop and any intact message, with or without a chain: pass with a clean start, fail otherwise |
| `ArcStarts.FoldFails` | src/arc/seal.rs:74-107 | continuation lines with a word in front of the first field join the results header, so the new seal no longer matches |
| `ArcStarts.BlankFails` | src/arc/ams.rs:67-100 | an empty first line ends the header block behind the sealed lines, so the signed fields are gone |
| `ArcHops.HopPasses` | src/arc/sealer.rs:48-83 | sealing an intact chain with its own verdict appends one instance and validates to pass for every verifier that sees the keys |
| `ArcHops.HopExtracts` | src/arc/sealer.rs:48-97 | whatever verdict a hop records, its sealed message extracts to the prior chain plus exactly the new instance |
| `ArcHops.HopKeeps` | src/smtp/server/run.rs:353-383 | what a hop sends on keeps all fields, From among them, and the body, and starts with a field |
| `ArcHops.SealedShape` | src/arc/sealer.rs:48-83 | the sealer's text is three header lines whose trimmed values are those of the new instance |
| `ArcHops.SealedBlock` | src/arc/sealer.rs:48-83 | put in front of a message, the sealed lines read back as three ARC headers before the message's own, the results with the continuation lines the message started with |
| `Wire.SealedWritten` | src/arc/sealer.rs:48-97 | the sealer writes exactly three lines, spelled out tag by tag, if and only if there is a From and room in the chain; the signatures in them are over the texts of the next two rows |
| `Wire.SignatureWritten` | src/arc/ams.rs:22-61 | a message signature signs the lower-case name, colon and words of the last field of each of from, to, cc, subject, date and message-id that is there, a line each in that order, and its own line with an empty `b` |
| `Wire.SealWritten` | src/arc/seal.rs:44-71 | a seal signs the results, signature and seal lines of every instance in turn, and its own two and itself with an empty `b` |
| `ArcHops.OldSealVerifies` | src/arc/seal.rs:74-107 | earlier seals keep verifying when an instance is added behind them |
| `ArcRuns.FullChainRefused` | src/arc/sealer.rs:86-90 | a chain of 50 is never sealed again, with any verdict; it is passed on with its chain unchanged |
| `ArcFailure.CrashesIff` | src/arc/validate.rs:17-24 | validation panics exactly on the headers that make extraction panic |
| `ArcFailure.BadSealStays` | src/arc/validate.rs:55-67 | any header lines in front of a message that holds a seal whose `cv` does not fit its number leave one that validates to fail, except that it panics exactly where an `i=0` calls for it |
| `ArcFailure.FailureIsPermanent` | src/arc/validate.rs:26-28 | so does every message made by prepending header lines after a hop has sealed the verdict fail, however the message started |
| `ArcFailure.RunKeepsFailure` | src/arc/validate.rs:17-67 | and every message at the end of any run of further hops |
| `ArcFailure.ForwardPrepends` | src/smtp/server/run.rs:353-383 | a hop changes a message only by whole header lines in front |
| `ArcFailure.RunPrepends` | src/smtp/server/run.rs:353-383 | so does a run of hops |
| `Forwarding.ForwardedCopy` | src/storage/routing.rs:119-147 | sealing a forwarded copy of an intact message with its recorded status keeps it intact if and only if the message has a clean start, and has no chain or a newest seal that records pass; otherwise the copy fails, provided signatures bind if the start is not clean |
| `Forwarding.ResultsOneLine` | src/storage/routing.rs:365-376 | the results a copy records, read from the message, never hold a CRLF, though they may hold a lone CR or LF |
| `Forwarding.SingleBreaks` | src/storage/routing.rs:119-147 | so a copy of an intact message with one instance always fails, however the message starts |
| `Forwarding.CopyOfSealed` | src/storage/routing.rs:119-147 | an intact message that one hop sealed, copied by another domain, is intact exactly when it had a chain before that hop |
| `Forwarding.LeftUnsealed` | src/storage/routing.rs:119-147 | a copy is left unsealed exactly behind an own seal, at 50 instances, or without From |
| `Forwarding.OwnSealExact` | src/storage/routing.rs:125-132 | the newest seal counts as the copier's own exactly when the hop that made it has the same domain, in any case |
| `Forwarding.RecordedBack` | src/storage/routing.rs:133-141 | the status read from a hop's seal is the one it sealed with |
| `Forwarding.ResultsMeaning` | src/storage/routing.rs:365-376 | the results of a copy are the trimmed value of the first `Authentication-Results` line, in any case, before the first empty line, or `none` |
| `Tamper.SignatureExact` | src/arc/ams.rs:67-127 | where signatures bind and digests do not collide, a message signature verifies on another message if and only if its body has the same canonical form and, for each of from, to, cc, subject, date and message-id that the signed message has, its last field of that name has the same words |
| `Tamper.SealExact` | src/arc/seal.rs:74-107 | where signatures bind, a seal verifies in a chain if and only if every header of the instances before it and the two it closes have the words they had when it was made; later instances do not matter |
| `Tamper.HistoryFixed` | src/arc/validate.rs:17-50 | a message that validates to pass and carries a hop's seal anywhere in its chain has, up to there, the words the hop saw and wrote in every ARC header |
| `Tamper.ContentExact` | src/arc/validate.rs:17-50 | a message with the ARC headers of a message that a hop sealed passes if and only if it has the sealed message's canonical body and those words in those fields, and fails otherwise |
| `Tamper.ChangeFails` | src/arc/ams.rs:18-61 | so it fails where the last field of one of the six names has other words, or is gone, though the message it was made from had one |
| `SignedNames.NamesMeaning` | src/arc/ams.rs:18-47 | a message signature covers a name if and only if it is one of from, to, cc, subject, date and message-id and some field has it, in any case |
| `SignedNames.SameSignedLines` | src/arc/ams.rs:104-139 | the covered names pick the same canonical lines from two messages if and only if the last fields of those six names have the same words |
| `Witness.RunsExist` | src/arc/validate.rs:17-50 | the assumptions of the run theorems can be met for every number of hops, and those runs pass |
| `Witness.StartsFail` | src/arc/sealer.rs:48-83 | a message that begins with a continuation line and one that begins with an empty line are sealed into chains that fail |
| `Witness.CopyBreaks` | src/storage/routing.rs:119-147 | a copy of a message sealed once, sealed again by another domain, fails |
| `Witness.ZeroMessagePanics` | src/arc/chain.rs:112-124 | a message with the seals `i=1` and `i=0` makes extraction panic |
| `ChainProofs.ExtractIff` | src/arc/chain.rs:106-146 | extraction yields a chain if and only if the ARC headers are, in some order, the three headers of each instance 1..N once each with N at most 50; element k has number k+1 |
| `ChainErrors.ErrorsExact` | src/arc/chain.rs:106-146 | for every list of ARC headers and every error: a bad instance if and only if all numbers are zero or one is over 50, a duplicate if and only if one is met before any `i=0`, a gap or an incomplete instance if and only if the first number without all three headers lacks all or only some |
| `ChainProofs.HeadersAnyOrder` | src/arc/chain.rs:106-146 | the answer, error kind included, is the same for every order of the ARC headers, outside one family |
| `ChainProofs.OrderDecides` | src/arc/chain.rs:117-124 | in that family, an `i=0` together with a duplicate, the order always decides: one arrangement panics and another reports a duplicate |
| `ChainProofs.PanicsIff` | src/arc/chain.rs:112-124 | extraction panics if and only if the highest number is usable and an `i=0` comes before any other `i=0` and before any duplicate |
| `ChainProofs.FillMeaning` | src/arc/chain.rs:117-124 | filling the slots succeeds exactly when no kind and number repeats, and then holds every header in its slot |
| `ChainProofs.CollectMeaning` | src/arc/chain.rs:126-145 | collecting succeeds exactly when every slot has all three kinds, and then numbers them on |
| `FieldOrder.ExtractAnyOrder` | src/arc/chain.rs:106-217 | messages whose unfolded fields are rearrangements of each other extract to the same answer outside that family |
| `FieldOrder.ArcHeadersPrepend` | src/arc/chain.rs:166-217 | prepended header lines contribute their ARC headers first, or make the message malformed, and change nothing behind |
| `Chain.ExtractChain` | src/arc/chain.rs:106-146 | the slot table filled in place and read off in a loop computes the specified answer, panic included |
| `Chain.FillSlots` | src/arc/chain.rs:117-124 | the in-place table equals the table the lemmas speak of, up to the first duplicate or underflow |
| `Chain.CollectSlots` | src/arc/chain.rs:126-145 | the collecting loop equals its specification |
| `Chain.ReadFields` | src/arc/chain.rs:166-196 | the loop that carries the field being unfolded reads exactly the unfolded ARC fields |
| `Chain.ReadArcHeaders` | src/arc/chain.rs:166-196 | the same from raw bytes, malformed when the header block is not UTF-8 |
| `Chain.PushField` | src/arc/chain.rs:199-217 | one field is appended, skipped or refused exactly as the specification of the remaining fields demands |
| `ArcReading.KindMeaning` | src/arc/chain.rs:24-32 | a header is of a kind if and only if its name is `ARC-Authentication-Results`, `ARC-Message-Signature` or `ARC-Seal` in any case |
| `ArcReading.OtherSkipped` | src/arc/chain.rs:199-207 | a field is skipped if and only if its name, without the white space before the colon, is none of these |
| `ArcReading.PushMeaning` | src/arc/chain.rs:207-217 | an ARC field is filed under the number of its `i` tag, or malformed without one of 32 bits |
| `ArcReading.MalformedIff` | src/arc/chain.rs:166-217 | the fields of a message are malformed if and only if one of them is |
| `ArcReading.CvMeaning` | src/arc/chain.rs:47-55 | a status is read if and only if it is none, pass or fail, in any case and with white space around it |
| `Headers.HeaderEndPrepend` | src/arc/ams.rs:162-170 | whole header lines in front move the end of the header block and leave the body as it was |
| `Headers.FieldsPrepend` | src/arc/chain.rs:166-196 | their fields come first, and both parts are unfolded on their own |
| `Headers.FieldInFront` | src/arc/chain.rs:166-196 | a field put in front takes up the continuation lines a block starts with, and the other fields stay |
| `Headers.BlockMeaning` | src/arc/ams.rs:162-170 | the header block ends at the first empty line and the body is what follows; without one all is header |
| `Headers.LinesMeaning` | src/arc/chain.rs:166-175 | a block is its lines with CRLF behind each, but perhaps the last, and no line holds a CRLF |
| `Utf8.DecodeExact` | src/arc/chain.rs:171-173 | bytes are read as a text if and only if they are its UTF-8 encoding |
| `Signature.ReadTags` | src/arc/signature.rs:79-93 | the loop over `;` pieces reads the tag list the lemmas speak of |
| `Signature.ParseTrimmed` | src/arc/signature.rs:79-93 | reading a rendered tag list gives the tags back, values without white space |
| `Signature.StripUndoesSigning` | src/arc/ams.rs:142-156 | stripping `b=` from a signed header gives back the header that was signed |
| `ArcReading.SignatureSound` | src/arc/signature.rs:153-190 | a message signature that is read has a number from 1 to 50, covers From and no ARC header |
| `ArcReading.ArcCoverRefused` | src/arc/signature.rs:157-169 | one that names an ARC header, in any case, is refused |
| `ArcReading.FromCoverNeeded` | src/arc/signature.rs:157-165 | so is one that does not name From, in any case |
| `ArcReading.ModesMeaning` | src/arc/signature.rs:126-176 | the six canonicalization tags mean what they spell; the body is simple when not given, and both are without the tag |
| `ArcReading.OtherModes` | src/arc/signature.rs:126-132 | any other canonicalization tag is refused |
| `ArcReading.TimestampMeaning` | src/arc/signature.rs:141-151 | a timestamp that is given is kept as its number, and refused unless it is one of 64 bits |
| `ArcReading.SealSound` | src/arc/signature.rs:192-209 | a seal with a list of headers or a body hash is refused, and one that is read has a number from 1 to 50 |
| `ArcReading.InstanceMeaning` | src/arc/signature.rs:108-116 | an instance number is read if and only if it is a decimal from 1 to 50 |
| `Text.ParseUnsignedMeaning` | src/arc/chain.rs:209-211 | a number is read if and only if it is digits behind an optional plus and not too large, leading zeros or not |
| `Readback.SealReads` | src/arc/signature.rs:192-209 | a built seal header parses to exactly its parameters and signature |
| `Readback.AmsReads` | src/arc/signature.rs:153-190 | a built message-signature header parses to exactly its parameters, names, hash and signature |
| `TagNumber.SealNumber` | src/arc/signature.rs:192-209 | a seal that parses has the number it was filed under, although two different readers looked for it |
| `TagNumber.SealCv` | src/arc/chain.rs:150-163 | where the chain's reader finds a status, a seal that parses records the same |
| `TagNumber.TagRendered` | src/arc/chain.rs:157-163 | on a rendered tag list the chain's reader finds the first tag of a name, trimmed |
| `Canon.CollapseValue` | src/dkim/canon.rs:13-26 | the loop with its pending-space flag leaves the words of the value with one space between them |
| `Canon.CollapseMeaning` | src/dkim/canon.rs:7-29 | two values have the same relaxed form if and only if they have the same words, and the relaxed form is its own relaxed form |
| `Canon.CollapseLeading` | src/dkim/canon.rs:7-29 | white space in front of a value does not change its relaxed form |
| `ArcReading.WordMeaning` | src/dkim/canon.rs:13-26 | a text is one word if and only if it is not empty and holds no space, tab, CR or LF |
| `Canon.SimpleMeaning` | src/dkim/canon.rs:7-12 | two fields have the same simple form if and only if they have the same name, case and all, and the same value |
| `Ams.ReadMessageFields` | src/arc/ams.rs:162-192 | splitting a message reads its fields, or nothing when the header block is not UTF-8 |
| `Ams.SplitFields` | src/arc/ams.rs:172-200 | the unfolding loop reads the fields as name and value, in order |
| `Ams.PickFields` | src/arc/ams.rs:37-61 | the loop with its `used` array picks the lowest unused field for each name |
| `Ams.LowestUnused` | src/arc/ams.rs:132-139 | the last unused field of that name, or none exactly when there is none |
| `Ams.PickedPrepend` | src/arc/ams.rs:104-139 | fields prepended after signing, whatever their names, do not change what the signed names pick |
| `Picking.HashInputWritten` | src/arc/ams.rs:104-139 | for any names, repeated ones included, and both modes: the n-th time a name stands for the n-th field of that name from below, in any case, or for nothing, and the signature's own line comes last without its end |
| `Picking.CheckExact` | src/arc/ams.rs:67-100 | a message signature of any sender passes if and only if the header block is readable, the body has the digest in its mode, and the key at selector `._domainkey.` domain verifies that text; and exactly when the error is temporary or permanent |
| `Ams.MessageFieldsPrepend` | src/arc/ams.rs:162-200 | prepended header lines put their fields in front of the message's |
| `Sealing.AmsInputSurvives` | src/arc/ams.rs:104-156 | the bytes checked later are the bytes signed: prepending fields and stripping `b=` reconstructs them |
| `Sealing.AmsVerifies` | src/arc/ams.rs:67-100 | a new message signature parses and verifies on every later message with the same body and fields in front |
| `Sealing.SealVerifiesNew` | src/arc/seal.rs:44-107 | a new seal parses back and verifies in the chain it closes |
| `Seals.SortedMeaning` | src/arc/seal.rs:133-137 | sorting is a rearrangement into ascending order |
| `Seals.BuildInput` | src/arc/seal.rs:44-71 | the buffer grown over the sorted instances is the specified seal input |
| `Seals.CheckInput` | src/arc/seal.rs:74-107 | the verifier's buffer is the specified input up to the seal's own instance |
| `Seals.CheckedUpTo` | src/arc/seal.rs:74-107 | what a seal is checked against is what its sealer signed: the instances before it, its own two headers, its stripped self |
| `Seals.CheckedExtends` | src/arc/seal.rs:74-107 | instances added later do not change it |
| `Wire.SealCheckExact` | src/arc/seal.rs:74-107 | a seal of any sender passes if and only if the key at selector `._domainkey.` domain verifies the lines of the instances up to its own, itself with an empty `b` last; and exactly when the error is temporary or permanent |
| `Calendar.CivilValid` | src/clock/mod.rs:43-54 | every day number gives a valid Gregorian date |
| `Calendar.CivilSuccessor` | src/clock/mod.rs:43-54 | day n+1 gives the calendar's next date after day n, month ends and leap years included |
| `Calendar.CountBack` | src/clock/mod.rs:43-54 | counting whole years, months and days from 1970-01-01 to the date gives the day number back, for all integers |
| `Calendar.CivilOfNumber` | src/clock/mod.rs:43-54 | every valid date is the date of its number |
| `Calendar.CivilMonotone` | src/clock/mod.rs:43-54 | day order is calendar order |
| `Clock.Rfc3339Inverts` | src/clock/mod.rs:59-73 | the text has the marks and the length of the standard, and an independent reader recovers the timestamp from it over the whole unsigned 64-bit range, from 2^63 on as the negative time the source casts it to |
| `Clock.Rfc3339Order` | src/clock/mod.rs:59-73 | up to the end of the year 9999 the texts sort as the timestamps do |
| `Clock.Rfc5322Inverts` | src/clock/mod.rs:17-40 | the text has the marks of the standard and says UTC, an independent reader that knows the twelve month names recovers the timestamp, and the weekday is the one counted from Thursday, 1 January 1970 |
| `TarRuns.TarRoundTrip` | src/cli/backup.rs:206-256 | reading a written archive gives back names, contents and order with modes masked to 12 bits, if and only if every name is NUL-free and every size is below 8^11 |
| `TarRuns.ReadUnstorable` | src/cli/backup.rs:225-256 | an entry that cannot be stored is never read back as itself, whatever follows it |
| `TarRuns.ArchiveAligned` | src/cli/backup.rs:206-218 | every archive is a whole number of 512-byte blocks |
| `TarRuns.EntryLayout` | src/cli/backup.rs:206-218 | an entry is its header, its data and NULs up to the next block boundary |
| `TarRuns.ArchiveEnd` | src/cli/backup.rs:206-218 | the last 1024 bytes of an archive are NUL |
| `TarRuns.ChecksumStored` | src/cli/backup.rs:240-246 | the stored checksum reads as the sum of the header with blanks in its place, and ends in NUL and space |
| `Tar.FixedParts` | src/cli/backup.rs:225-248 | every header has no owner, group or time, is of a regular file, and holds `ustar`, NUL and version 00 at 257 |
| `Tar.ChecksumFits` | src/cli/backup.rs:240-246 | the sum of any block fits six octal digits |
| `Tar.SizeReads` | src/cli/backup.rs:225-256 | a size reads back exactly when it is below 8^11 |
| `Tar.NameReads` | src/cli/backup.rs:284-305 | a padded name reads back exactly when it holds no NUL |
| `Tar.ModeReads` | src/cli/backup.rs:284-305 | a mode reads back as its low 12 bits |
| `TarRuns.WriteAt` | src/cli/backup.rs:251-256 | a field is written in place and nothing else changes |
| `TarRuns.SumBytes` | src/cli/backup.rs:243-244 | the loop adds up every byte |
| `TarRuns.BuildHeader` | src/cli/backup.rs:225-248 | the array filled field by field is the header the lemmas speak of; a name over 100 bytes is an error |
| `TarRuns.WriteArchive` | src/cli/backup.rs:206-218 | the encoder loop writes the specified archive, or an error for a long name |
| `TarRuns.ReadArchive` | src/cli/backup.rs:284-305 | the loop that advances an offset reads the specified entries, or runs off the end |
| `MboxRuns.MboxRoundTrip` | src/cli/import.rs:15-63 | importing an exported mbox counts and delivers, in order, what is kept of each message before the first that is not UTF-8, and nothing of that one or later ones; it reads to the end if and only if there is none |
| `MboxRuns.KeptWhole` | src/cli/import.rs:21-63 | what is kept is the message itself normalized plus one CRLF if and only if its first line does not start with `X-Mailbox:` |
| `MboxStreams.ImportExact` | src/cli/import.rs:15-63 | of any lines that are UTF-8, those before the first separator are ignored, and every entry is counted and, unless empty, stored, in order |
| `MboxStreams.ImportBroken` | src/cli/import.rs:31-40 | a line that is not UTF-8 ends the import after the entries before the one it stands in |
| `MboxStreams.EntriesOf` | src/cli/import.rs:41-59 | every list of lines is ignored lines and entries, so these two cover every stream |
| `MboxStreams.StreamCut` | src/cli/import.rs:28-40 | every stream is its lines with LF or CRLF behind each, or nothing behind the last, which is then kept byte for byte, a final CR included |
| `MboxStreams.CutOnly` | src/cli/import.rs:28-40 | and its lines are the only way to cut it so |
| `MboxStreams.FinalLf` | src/cli/import.rs:28-40 | a line feed missing at the end of a stream makes no difference, unless a CR stands there |
| `MboxStreams.QuoteMeaning` | src/cli/import.rs:66-75 | exactly the lines with `From ` behind any number of `>` are quoted, and exactly those with at least one are unquoted, by one |
| `MboxStreams.EntrySpelled` | src/cli/export.rs:104-116 | an exported entry begins with its separator line and `X-Mailbox:` with the mailbox |
| `Mbox.QuoteRoundTrip` | src/cli/export.rs:118-127 | unquoting undoes quoting, and a quoted line is never a separator |
| `Mbox.StreamUnlines` | src/cli/import.rs:21-40 | the stream reader gives back the lines that were written |
| `MboxRuns.WriteEntry` | src/cli/export.rs:104-116 | the writing loop produces the specified entry |
| `MboxRuns.ReadMbox` | src/cli/import.rs:15-63 | the splitter with its current message computes the specified deliveries |
| `MboxRuns.NormalizeCrlf` | src/cli/import.rs:198-209 | the loop with one byte of memory equals its specification |
| `MboxRuns.NormalizedMeaning` | src/cli/import.rs:198-209 | it equals splitting at LF, dropping one CR per line and joining with CRLF, and exactly a lone CR at the end is kept besides |
| `MboxRuns.NormalizedTwice` | src/cli/import.rs:198-209 | no LF is left without a CR, and a second pass changes nothing |
| `Base32.EncodeSecret` | src/cli/util.rs:18-34 | the 32-bit register emits exactly the five-bit groups of the whole bit stream, zero-filled at the end, although high bits fall off |
| `Base32.Base32RoundTrip` | src/cli/util.rs:18-34 | decoding that text recovers every byte string |
| `Base32.AlphabetMeaning` | src/cli/util.rs:19-20 | the characters of the groups are a to z and then 2 to 7 |
| `Base32.Base32Length` | src/cli/util.rs:18-34 | the text has ceil(8n/5) characters |
| `Limiter.AuthLimiter.constructor` | src/api/state.rs:104-110 | no failures, window starting now |
| `Limiter.AuthLimiter.IsLimited` | src/api/state.rs:114-120 | rolls an ended window, then reports the budget |
| `Limiter.AuthLimiter.RecordFailure` | src/api/state.rs:124-130 | counts in the window that holds now, saturating |
| `Limiter.AuthLimiter.Reset` | src/api/state.rs:133-136 | a fresh window |
| `Limiter.WindowLasts` | src/api/state.rs:114-120 | a window lasts for its length from its start, also on a clock that goes back, and then a new one starts empty |
| `Limiter.FailureCounts` | src/api/state.rs:124-130 | a failure counts one more in the window it falls in, up to what 32 bits hold |
| `Limiter.SuccessRestores` | src/api/state.rs:133-136 | after a success, from any state, twenty failures in turn are let through in its window, and the next request is refused |
| `Limiter.FailuresBounded` | src/api/state.rs:661-709 | with at most k requests between check and record, in every interleaving and with any clock readings, the count never exceeds 19 + k |
| `Limiter.BoundReached` | src/api/state.rs:661-709 | for every k from 1 there is a run that reaches 19 + k |
| `Limiter.FortyPerWindow` | src/api/state.rs:114-130 | one request at a time on a clock that never goes back and without success, any half-open interval of one window length holds at most 40 recorded failures |
| `Limiter.FortyReached` | src/api/state.rs:114-130 | for every window of at least two units there is a run that reaches forty |
| `Acme.ChallengeOf` | src/acme/protocol.rs:116-118 | the first challenge of that kind, or none exactly when there is none |
| `Acme.AcmeClient.constructor` | src/acme/client.rs:71-86 | first nonce, no account |
| `Acme.AcmeClient.SignedPost` | src/acme/client.rs:88-103 | in every run each post signs the nonce of the previous completed post; a post that cannot be signed or is lost leaves the nonce |
| `Acme.AcmeClient.Register` | src/acme/client.rs:106-118 | a returned location becomes the key id |
| `Acme.AcmeClient.NewOrder` | src/acme/client.rs:127-141 | an order and its URL as the server gave them; an error names the lost post, the unreadable order or the missing location, and the log shows it |
| `Acme.AcmeClient.FetchAuthorization` | src/acme/client.rs:149-152 | one POST-as-GET to that URL and its parsed reply; an error names the lost post or the reply that is no authorization |
| `Acme.AcmeClient.FetchOrder` | src/acme/client.rs:173-176 | one POST-as-GET to that URL and its parsed reply; an error names the lost post or the reply that is no order |
| `Acme.AcmeClient.PollAuthorization` | src/acme/client.rs:306-318 | at most max(1, poll) posts on every path, all to that authorization; success ends in a `valid` reply after undecided ones; an error names the lost post, a reply to that URL that is unreadable or `invalid`, or that many undecided replies from it |
| `Acme.AcmeClient.PollOrder` | src/acme/client.rs:321-341 | fewer than max(1, poll) posts on every path, all to that order; success names the certificate of an order last reported valid; an error names the lost post, an unreadable or invalid reply, or that many open replies, the finalize reply among them |
| `Acme.AcmeClient.Authorize` | src/acme/client.rs:196-208 | token published before the challenge is answered, then polled to valid; an error is one of those for that URL, a missing HTTP-01 challenge, or the lost answer |
| `Acme.AcmeClient.AuthorizeAll` | src/acme/client.rs:193-209 | all authorizations of an order in turn, with the list of published tokens |
| `Acme.AcmeClient.Withdraw` | src/acme/client.rs:216-218 | exactly the published tokens leave the store |
| `Acme.AcmeClient.Finish` | src/acme/client.rs:212-214 | finalize, order polls and download, in that order |
| `Acme.AcmeClient.ObtainCertificate` | src/acme/client.rs:187-221 | against any server: success means the posts form an issuance and the store is as before without the published tokens; failure leaves the tokens published so far, unless only the chain's text was unreadable, and the log ends in what the error names |
| `Acme.PublishedMeaning` | src/acme/http01.rs:29-39 | publishing adds the tokens and nothing else, and withdrawing them leaves the old entries without them |
| `Acme.FinalizeAfterValid` | src/acme/client.rs:196-213 | in every issuance the finalize post comes after a `valid` reply to each authorization of the order (section 7.4 of RFC 8555) |
| `Acme.AnsweredWhileVisible` | src/acme/client.rs:196-214 | each challenge is answered with `{}` at the URL the authorization gave for it, and its key authorization can be fetched at that post and at every later one to the download (section 8.3 of RFC 8555) |
| `Acme.CertificateFromValidOrder` | src/acme/client.rs:212-214 | the certificate is fetched from the URL of an order reported valid by the finalize reply or an order poll, and an issuance takes a bounded number of posts |
| `Addresses.LastAt` | src/smtp/address.rs:53-54 | the last `@` of an address, or none exactly when there is none |
| `Addresses.NameMeaning` | src/directory_store/names.rs:45-59 | account names are 1 to 64 lower-case letters, digits and hyphens, not led by a hyphen |
| `Addresses.LocalPartMeaning` | src/smtp/address.rs:83-104 | local parts are at most 64 bytes of atoms with single dots between, atoms without white space, controls and the special characters |
| `Addresses.ShapeMeaning` | src/domain/mod.rs:97-112 | domains in ASCII form are at most 253 bytes of two or more labels, each of 1 to 63 lower-case letters, digits and inner hyphens |
| `Addresses.NormalizeMeaning` | src/domain/mod.rs:52-65 | a domain has an ASCII form if and only if it is not empty, holds no space or control, and what the conversion gives is shaped so in lower case |
| `Addresses.ParsedMeaning` | src/smtp/address.rs:49-64 | an address is read if and only if it is at most 254 bytes, a local part and a domain around its last `@` |
| `Addresses.AcceptedMeaning` | src/directory_store/mod.rs:333-345 | it is taken if and only if its domain is a configured one, in any case |
| `Addresses.NormalizedPlain` | src/domain/mod.rs:52-112 | a domain in ASCII form is in lower case and holds no `@`, whatever the conversion gives |
| `Addresses.ParsedJoin` | src/smtp/address.rs:49-64 | a valid local part, an `@` and a domain within the length limit parse to the domain's ASCII form |
| `Addresses.NumberNames` | src/directory_store/names.rs:45-59 | every number of at most 64 digits is an account name and a local part |
| `Tenants.FromConfig` | src/api/tenant_limits.rs:95-115 | the index holds every claimed domain, pointing to the last tenant that claims it |
| `Tenants.OwnsMeaning` | src/api/tenant_limits.rs:138-143 | an address is a tenant's if and only if what follows its last `@` is one of the tenant's domains, in any case |
| `Tenants.InsertAll` | src/api/tenant_limits.rs:106-110 | one tenant's domains enter the index in any order |
| `Tenants.ValidateClaims` | src/config/validate_tenants.rs:20-63 | the configuration check passes exactly when no domain is claimed twice, in any case |
| `Tenants.DisjointMeaning` | src/config/validate_tenants.rs:20-63 | no domain is claimed twice if and only if no two tenants have a domain in common, in any case |
| `Tenants.TenantsForAddresses` | src/api/tenant_limits.rs:131-148 | the loop with its seen set answers each found tenant once, in address order |
| `Tenants.IndexIsLinearScan` | src/api/tenant_limits.rs:131-148 | with disjoint domains it finds exactly the tenants that own one of the addresses, each once |
| `Tenants.IndexExact` | src/api/tenant_limits.rs:95-148 | it agrees with the linear scan on all accounts if and only if no domain is claimed twice |
| `Tenants.SharedDomainMissed` | src/api/tenant_limits.rs:106-110 | of two tenants that claim a domain the first is never found there |
| `Tenants.ConfigOrderIff` | src/api/tenant_limits.rs:127-148 | the answer is in configuration order for all accounts if and only if the index leads to at most one tenant |
| `Tenants.OrderReversed` | src/api/tenant_limits.rs:127-148 | two tenants with a domain each and an account with an address in either, the second's first: the second tenant comes first |
| `Tenants.CheckCreation` | src/api/tenant_limits.rs:172-192 | refuses exactly when some tenant the index finds is at its cap, with the first of them in lookup order |
| `Tenants.CheckMeaning` | src/api/tenant_limits.rs:172-192 | with disjoint domains it passes exactly when every tenant that owns one of the addresses is below its cap |
| `Tenants.AccountStore.constructor` | src/directory_store/mod.rs:211-250 | static accounts and those of the store's file |
| `Tenants.AccountStore.Add` | src/directory_store/mod.rs:328-383 | the account is in exactly when its name and addresses are valid and in configured domains, and free, in any case; the call succeeds if the file could be written as well |
| `Tenants.AccountStore.Remove` | src/directory_store/mod.rs:386-397 | the dynamic accounts of that name are gone; the call succeeds exactly when there was one and the file could be written |
| `Tenants.AccountStore.Create` | src/api/v1/accounts.rs:83-122 | for any tenants, overlapping ones included: the account is in exactly when scope, the indexed cap check, password and store allow it |
| `Tenants.FreeMeaning` | src/directory_store/mod.rs:347-376 | an account is free if and only if no other has its name or, in any case, one of its addresses |
| `Tenants.WellFormedMeaning` | src/directory_store/mod.rs:328-345 | an account is well formed if and only if its name is valid and it has at least one address, all of them accepted |
| `TenantRuns.NeverClash` | src/directory_store/mod.rs:328-383 | in every interleaving no two stored accounts ever share a name or, in any case, an address |
| `TenantRuns.NeverImproper` | src/directory_store/mod.rs:328-383 | in every interleaving an account is one of those at the start or well formed |
| `Tenants.WithoutMeaning` | src/directory_store/mod.rs:386-397 | exactly the accounts of other names remain |
| `TenantRuns.CapsKept` | src/api/tenant_limits.rs:153-192 | with disjoint domains, over every interleaving of indexed checks, stores and deletions with at most k creations in between, no tenant's count passes its cap (or what it started with) by more than k - 1, and a cap of zero lets nobody in; one at a time, caps hold, straddling accounts included |
| `TenantRuns.HeldKept` | src/api/tenant_limits.rs:131-192 | the same for any notion of whose an address is, where the index leads from every address the store takes to its tenants |
| `TenantRuns.AsciiCapsKept` | src/smtp/address.rs:45-64 | the same for the accounts that are a tenant's by the ASCII form of their domains, in every run at whose end all addresses are written in that form |
| `TenantReach.CapReached` | src/api/v1/accounts.rs:99-117 | for every cap of at least one and every k there is a run, of accounts the store takes, that reaches cap + k - 1, as far as 64-character names and 254-byte addresses go |
| `TenantReach.CapPassed` | src/api/v1/accounts.rs:99-117 | two creations at once take a tenant with a cap of one to two accounts |
| `TenantReach.HeldExact` | src/api/tenant_limits.rs:95-192 | for any notion of whose an address is, one creation at a time keeps every cap, whatever caps are configured, if and only if the index leads from every address the store takes to its tenants |
| `TenantReach.CapsExact` | src/api/tenant_limits.rs:95-192 | one creation at a time keeps every cap, whatever caps are configured, if and only if no address the store takes is in the domains of two tenants |
| `TenantReach.DisjointExact` | src/api/tenant_limits.rs:95-192 | where every domain of a tenant has room for an address, that is if and only if no domain is claimed twice |
| `TenantReach.SharedDomainUnbounded` | src/api/tenant_limits.rs:106-192 | where a later tenant without a cap claims a domain too, one creation at a time takes the earlier tenant to any number of accounts that names and addresses allow |
| `TenantReach.SharedPassed` | src/api/tenant_limits.rs:106-192 | two creations in turn take a tenant with a cap of one to two accounts where another claims the domain |
| `TenantReach.SpellingsExact` | src/api/tenant_limits.rs:138-143 | with disjoint domains, the caps hold by the ASCII form of the domains, whatever caps are configured, if and only if every address the store takes for a tenant's domain is written with a domain of that tenant |
| `TenantReach.SpellingUnbounded` | src/api/tenant_limits.rs:138-143 | with a spelling the index does not know, one creation at a time takes a tenant to any number of accounts by the ASCII form that names and addresses allow |
| `TenantReach.SpellingMissed` | src/api/tenant_limits.rs:138-143 | an internationalized domain in its own script: the account is taken, and neither checked nor counted |
| `TenantReach.SpellingPassed` | src/api/tenant_limits.rs:138-143 | two such accounts in turn, where one is allowed |
| `Alerts.State.constructor` | src/alerts/mod.rs:114-136 | nothing remembered |
| `Alerts.State.Evaluate` | src/alerts/mod.rs:172-200 | one observation fires or holds and updates the gates in place |
| `Alerts.RunRule` | src/alerts/runner.rs:94-128 | over every run a tick fires exactly when the condition holds and either nothing fired before, or the cooldown has passed since the last fire and a false observation lies between; the first fire is at the first tick where the counter's change meets the rule in plain numbers |
| `Alerts.FirstFire` | src/alerts/mod.rs:172-210 | until the first fire a tick fires exactly when the change of the counter is over, under, at least, at most or equal to the threshold, as the operator says; a counter that fell counts as unchanged |
| `Alerts.CompareMeaning` | src/alerts/mod.rs:202-210 | strict operators are the opposites of the others, equality is both of those, and growth never turns an upper condition false |
| `Alerts.VerdictsUnique` | src/alerts/mod.rs:172-200 | that description leaves one sequence of verdicts for every run |
| `Alerts.FiresApart` | src/alerts/mod.rs:172-200 | between any two fires the condition was false at some tick, and on a clock that never goes back they are a cooldown apart |
| `Alerts.SustainedFiresOnce` | src/alerts/mod.rs:180-187 | while the condition holds without a break a rule fires at most once |
| `Alerts.DeltasConserve` | src/alerts/runner.rs:106-121 | the sampled deltas add up to the last value less the baseline if and only if the counter never falls, and to more otherwise |
| `Cidr.MaskMeaning` | src/cidr.rs:83-93 | masking clears the host bits and nothing else, for every width to 128 and every prefix |
| `Cidr.ContainsInterval` | src/cidr.rs:55-81 | membership is lying between the base and base + 2^(width-prefix) - 1 in the same family |
| `Cidr.SharedPrefix` | src/cidr.rs:55-93 | membership is sharing the leading bits, of 32 or of 128, in the same family |
| `Cidr.MaskTwice` | src/cidr.rs:66-93 | masking twice is masking once, and an address is in its own block |
| `Cidr.NestedOrDisjoint` | src/cidr.rs:55-93 | two blocks of one family are nested or disjoint |
| `Greylist.MemoryGreylist.constructor` | src/antispam/greylist.rs:85-87 | nothing seen |
| `Greylist.MemoryGreylist.Record` | src/antispam/greylist.rs:107-113 | stores the first sighting only |
| `Greylist.MemoryGreylist.Decide` | src/antispam/greylist.rs:61-75 | accepts or defers, and records a new key, when nothing comes in between |
| `Greylist.KeyIdentifies` | src/antispam/greylist.rs:29-41 | a key stands for exactly the triplets that differ only in the ASCII case of sender and recipient, if and only if neither holds a vertical bar |
| `Greylist.SameKey` | src/antispam/greylist.rs:29-41 | triplets that differ only so have the same key, whatever they hold |
| `Greylist.PruneDocumented` | src/antispam/greylist.rs:89-96 | a prune keeps the entries not older than the limit, as documented, if and only if none is just that old |
| `Greylist.PruneAtLimit` | src/antispam/greylist.rs:89-96 | an entry of age five is dropped with a limit of five |
| `Greylist.EntriesMeaning` | src/antispam/greylist.rs:61-113 | after every interleaving of look-ups, records and prunes the store holds a time for a key exactly when a first record stands that no prune reached, and then that time |
| `Greylist.AcceptIff` | src/antispam/greylist.rs:61-75 | an attempt is accepted exactly when such a record is at least the delay old |
| `Greylist.AcceptAfterDefer` | src/antispam/greylist.rs:61-75 | behind every accept lies an earlier deferred attempt with the same key at least the delay before, however attempts interleave |
| `Greylist.RetryAccepted` | src/antispam/greylist.rs:61-96 | every retry at least the delay after a first record that no prune finds too old is accepted |
| `Greylist.RetryUndisturbed` | src/antispam/greylist.rs:61-96 | an attempt that recorded with no record of the same key in between is deferred, and every retry at least the delay after it is accepted while no prune finds it too old |
| `Greylist.RetryOtherCase` | src/antispam/greylist.rs:29-75 | the same over triplets: a retry that spells sender or recipient in another case is accepted |
| `Greylist.ClockBack` | src/antispam/greylist.rs:61-75 | on a clock that is not past the record an attempt is accepted exactly without a delay |
| `Greylist.RetryRaced` | src/antispam/greylist.rs:61-75 | with a record in between a retry after the delay can be deferred |
| `Greylist.RetryInTime` | src/antispam/greylist.rs:61-96 | on a clock that never goes back and with one age limit: every retry at an age of at least the delay and below the limit |
| `Greylist.FirstSightingStays` | src/antispam/greylist.rs:107-113 | a stored time is never replaced |

## Left out

- RunPasses: stated for sealers whose domain and selector hold no `;`, CR or LF, as configured domains and selectors are, and for results without a CRLF, as the server's own and a copy's are.
- RunExact: the direction that says a run fails assumes that signatures bind, and that the lines a hop adds besides the sealed ones hold none of the signed fields; the server adds Received and Authentication-Results.
- ValidateClaims: models the claims on domains; names, `max_domains`, DNS syntax, configured domains and quotas of the same check are not modelled.
- CapsKept: covers creations through the management API and deletions. Replacing an account's addresses (`replace_account`), and the accounts that SCIM (src/api/scim/users.rs:253) and the command line (src/cli/accounts.rs:76) create without the cap check, are not steps of the runs.
- Error texts: where the source formats a message the model has a constructor.
- CapReached: the family of accounts is numbered, so it ends where a number no longer fits a name or an address of the domain; every 64-bit cap fits in a domain of up to 233 bytes.
- Addresses: the conversion of a domain to ASCII, with its confusable check, is a parameter; every other rule on names, local parts, domains and lengths is modelled.
- TarRoundTrip: names are UTF-8 bytes; the reader's lossy decoding of other bytes and the gzip layer are not modelled.
- MboxRoundTrip: mailbox names are without line feed, as the store's names are; a delivery that fails on disk is not modelled.
- Ed25519, SHA-256 and base64 internals, body canonicalization: functions of the suite.
- JSON reading and writing of ACME bodies, signing of posts, CSR generation: functions of the ACME world.
- DNS-01 and TLS-ALPN-01 issuance: the same shape as HTTP-01.
- Locks, async scheduling, sleeping and transport errors other than a lost post: only the order of steps is modelled.
- Parsing of CIDR texts and prefixes out of range.
- Tenant storage quotas and submission rates; API keys and scopes.
- Dispatch of alerts, metrics, tracing.
- Maildir import and export, file walking, database dumps, command line.
- Bayesian scoring, reputation, language-model filtering, webhooks.
- SMTP, IMAP and JMAP sessions, DKIM on its own, queues, storage.
